/** The predicate matcher both backends share: a matchable that no longer
    exists never matches; otherwise every option whose key is in the catalog
    must accept, through `===`, the live value its accessor returns. Option
    keys outside the catalog are ignored. */
module Matching {
  import opened Wrappers
  import opened Values

  /** `opts.keys & valid`: the option keys found in the catalog, in option order. */
  function RelevantKeys(opts: Options, valid: seq<Key>): (r: seq<Key>)
    ensures |r| <= |opts|
    ensures forall k :: k in r <==> k in valid && exists i :: 0 <= i < |opts| && opts[i].0 == k
  {
    if opts == [] then []
    else if opts[0].0 in valid then [opts[0].0] + RelevantKeys(opts[1..], valid)
    else RelevantKeys(opts[1..], valid)
  }

  /** `opts[key]`: a key the Hash lacks reads as nil. */
  function Expected(opts: Options, k: Key): Matcher {
    match Lookup(opts, k)
    case Some(m) => m
    case None => Exact(Nil)
  }

  /** The live value behind a key: the accessor gives the method name (or nil,
      which `send` refuses with a TypeError), and `send` calls it. */
  function Live(k: Key, accessor: Key -> Option<string>,
                send: string -> Result<Value, RubyError>): Result<Value, RubyError>
  {
    match accessor(k)
    case None => Failure(TypeError)
    case Some(name) => send(name)
  }

  /** `keys.all? { |key| opts[key] === matchable.send(...) }`: stops at the
      first key that does not accept, and lets an exception from `send` through. */
  function AllAccept(keys: seq<Key>, opts: Options, accessor: Key -> Option<string>,
                     send: string -> Result<Value, RubyError>): (r: Result<bool, RubyError>)
    ensures r == Success(true) ==>
      forall i :: 0 <= i < |keys| ==>
        Live(keys[i], accessor, send).Success? &&
        Accepts(Expected(opts, keys[i]), Live(keys[i], accessor, send).value)
    ensures r.Failure? ==> exists i :: 0 <= i < |keys| && Live(keys[i], accessor, send) == Failure(r.error)
  {
    if keys == [] then Success(true)
    else
      var live :- Live(keys[0], accessor, send);
      if Accepts(Expected(opts, keys[0]), live) then AllAccept(keys[1..], opts, accessor, send)
      else Success(false)
  }

  /** `matcher(valid_attributes, matchable, opts)`, with `present` the one
      answer of `matchable.exists?`. */
  function Match(valid: seq<Key>, present: bool, opts: Options, accessor: Key -> Option<string>,
                 send: string -> Result<Value, RubyError>): (r: Result<bool, RubyError>)
    ensures !present ==> r == Success(false)
    ensures r == Success(true) ==>
      forall k :: k in valid && Lookup(opts, k).Some? ==>
        Live(k, accessor, send).Success? && Accepts(Lookup(opts, k).value, Live(k, accessor, send).value)
    ensures r.Failure? ==> present && exists k :: k in valid && Live(k, accessor, send) == Failure(r.error)
  {
    if !present then Success(false)
    else
      var r := AllAccept(RelevantKeys(opts, valid), opts, accessor, send);
      assert r == Success(true) ==> forall k :: k in valid && Lookup(opts, k).Some? ==>
        Live(k, accessor, send).Success? && Accepts(Lookup(opts, k).value, Live(k, accessor, send).value) by {
        if r == Success(true) {
          forall k | k in valid && Lookup(opts, k).Some?
            ensures Live(k, accessor, send).Success? && Accepts(Lookup(opts, k).value, Live(k, accessor, send).value)
          {
            var keys := RelevantKeys(opts, valid);
            assert k in keys;
            var i :| 0 <= i < |keys| && keys[i] == k;
          }
        }
      }
      assert r.Failure? ==> exists k :: k in valid && Live(k, accessor, send) == Failure(r.error) by {
        if r.Failure? {
          var keys := RelevantKeys(opts, valid);
          var i :| 0 <= i < |keys| && Live(keys[i], accessor, send) == Failure(r.error);
          assert keys[i] in keys;
        }
      }
      r
  }

  /** Every option key in the catalog has an accessor that answers. */
  predicate AllLive(valid: seq<Key>, opts: Options, accessor: Key -> Option<string>,
                    send: string -> Result<Value, RubyError>)
  {
    forall k :: k in valid && Lookup(opts, k).Some? ==> Live(k, accessor, send).Success?
  }

  /** When every relevant accessor answers, the matcher is true exactly when
      the matchable exists and every catalog key present in the options
      accepts its live value. */
  lemma MatchMeaning(valid: seq<Key>, present: bool, opts: Options, accessor: Key -> Option<string>,
                     send: string -> Result<Value, RubyError>)
    ensures AllLive(valid, opts, accessor, send) ==>
      Match(valid, present, opts, accessor, send).Success? &&
      (Match(valid, present, opts, accessor, send).value <==>
        present &&
        forall k :: k in valid && Lookup(opts, k).Some? ==> Accepts(Lookup(opts, k).value, Live(k, accessor, send).value))
  {
    if present && AllLive(valid, opts, accessor, send) {
      var keys := RelevantKeys(opts, valid);
      forall i | 0 <= i < |keys| ensures Live(keys[i], accessor, send).Success? {
        assert keys[i] in keys;
      }
      AllAcceptLive(keys, opts, accessor, send);
      if !AllAccept(keys, opts, accessor, send).value {
        var i := AllAcceptWitness(keys, opts, accessor, send);
        assert keys[i] in keys;
      }
    }
  }

  /** With every accessor answering, `all?` does not raise. */
  lemma {:induction false} AllAcceptLive(keys: seq<Key>, opts: Options, accessor: Key -> Option<string>,
                                         send: string -> Result<Value, RubyError>)
    requires forall i :: 0 <= i < |keys| ==> Live(keys[i], accessor, send).Success?
    ensures AllAccept(keys, opts, accessor, send).Success?
  {
    if keys != [] {
      AllAcceptLive(keys[1..], opts, accessor, send);
    }
  }

  /** A false answer from `all?` names a key whose expected value refuses. */
  lemma {:induction false} AllAcceptWitness(keys: seq<Key>, opts: Options, accessor: Key -> Option<string>,
                                            send: string -> Result<Value, RubyError>) returns (i: nat)
    requires AllAccept(keys, opts, accessor, send) == Success(false)
    ensures i < |keys| && Live(keys[i], accessor, send).Success?
    ensures !Accepts(Expected(opts, keys[i]), Live(keys[i], accessor, send).value)
  {
    if Accepts(Expected(opts, keys[0]), Live(keys[0], accessor, send).value) {
      var j := AllAcceptWitness(keys[1..], opts, accessor, send);
      i := j + 1;
    } else {
      i := 0;
    }
  }

  /** Removing an option whose key is not in the catalog changes nothing:
      such keys are ignored. */
  lemma {:induction false} IgnoresUnknownKey(valid: seq<Key>, present: bool, opts: Options, k: Key,
                                             accessor: Key -> Option<string>,
                                             send: string -> Result<Value, RubyError>)
    requires k !in valid
    ensures Match(valid, present, opts, accessor, send) == Match(valid, present, Without(opts, k), accessor, send)
  {
    RelevantWithout(opts, valid, k);
    var keys := RelevantKeys(opts, valid);
    forall i | 0 <= i < |keys| ensures Lookup(opts, keys[i]) == Lookup(Without(opts, k), keys[i]) {
      assert keys[i] in keys;
      LookupWithout(opts, k, keys[i]);
    }
    ExpectedAgree(RelevantKeys(opts, valid), opts, Without(opts, k), accessor, send);
  }

  lemma {:induction false} RelevantWithout(opts: Options, valid: seq<Key>, k: Key)
    requires k !in valid
    ensures RelevantKeys(Without(opts, k), valid) == RelevantKeys(opts, valid)
  {
    if opts != [] {
      RelevantWithout(opts[1..], valid, k);
      if opts[0].0 != k {
        assert ([opts[0]] + Without(opts[1..], k))[1..] == Without(opts[1..], k);
      }
    }
  }

  /** `all?` only reads the expected values of the keys it walks. */
  lemma {:induction false} ExpectedAgree(keys: seq<Key>, a: Options, b: Options, accessor: Key -> Option<string>,
                                         send: string -> Result<Value, RubyError>)
    requires forall i :: 0 <= i < |keys| ==> Lookup(a, keys[i]) == Lookup(b, keys[i])
    ensures AllAccept(keys, a, accessor, send) == AllAccept(keys, b, accessor, send)
  {
    if keys != [] {
      ExpectedAgree(keys[1..], a, b, accessor, send);
    }
  }

  /** Looking a key up after removing a different one finds what was there. */
  lemma {:induction false} LookupWithout(opts: Options, k: Key, other: Key)
    requires other != k
    ensures Lookup(Without(opts, k), other) == Lookup(opts, other)
  {
    if opts != [] {
      LookupWithout(opts[1..], k, other);
      if opts[0].0 != k {
        assert ([opts[0]] + Without(opts[1..], k))[1..] == Without(opts[1..], k);
      }
    }
  }

  /** Two matchables whose accessors answer alike on the catalog keys match
      alike: nothing outside the catalog is read. */
  lemma {:induction false} ReadsOnlyCatalog(valid: seq<Key>, present: bool, opts: Options,
                                            accessor: Key -> Option<string>,
                                            send1: string -> Result<Value, RubyError>,
                                            send2: string -> Result<Value, RubyError>)
    requires forall k :: k in valid ==> Live(k, accessor, send1) == Live(k, accessor, send2)
    ensures Match(valid, present, opts, accessor, send1) == Match(valid, present, opts, accessor, send2)
  {
    var keys := RelevantKeys(opts, valid);
    forall i | 0 <= i < |keys| ensures Live(keys[i], accessor, send1) == Live(keys[i], accessor, send2) {
      assert keys[i] in keys;
    }
    LiveAgree(keys, opts, accessor, send1, send2);
  }

  lemma {:induction false} LiveAgree(keys: seq<Key>, opts: Options, accessor: Key -> Option<string>,
                                     send1: string -> Result<Value, RubyError>,
                                     send2: string -> Result<Value, RubyError>)
    requires forall i :: 0 <= i < |keys| ==> Live(keys[i], accessor, send1) == Live(keys[i], accessor, send2)
    ensures AllAccept(keys, opts, accessor, send1) == AllAccept(keys, opts, accessor, send2)
  {
    if keys != [] {
      LiveAgree(keys[1..], opts, accessor, send1, send2);
    }
  }
}
