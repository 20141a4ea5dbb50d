/** `BeanCounter::Strategy::StalkClimberStrategy`: the backend that crawls a
    beanstalkd pool through StalkClimber. The climber's snapshots of the
    highest job id per connection, its job fetches and the jobs' and tubes'
    own accessors are inputs here. */
module StalkClimber {
  import opened Wrappers
  import opened Values
  import Text
  import opened Catalog
  import opened Matching
  import Lists

  /** Every name of either catalog, the keys of `STATS_METHOD_NAMES`. */
  const AllAttributeNames: seq<string> := JobAttributeNames + TubeAttributeNames

  /** The method that reads a stat: hyphens become underscores, except that
      `pause` is read by `pause_time`. */
  function AccessorName(name: string): string {
    if name == "pause" then "pause_time" else Text.Underscore(name)
  }

  /** `STATS_METHOD_NAMES`. */
  const StatsMethodNames: map<string, string> := map n | n in AllAttributeNames :: AccessorName(n)

  /** No catalog name holds an underscore. */
  lemma NoUnderscoreInNames()
    ensures forall i :: 0 <= i < |AllAttributeNames| ==> '_' !in AllAttributeNames[i]
  {
    forall i | 0 <= i < |AllAttributeNames| ensures '_' !in AllAttributeNames[i] {
      if i < |JobAttributeNames| {
        assert AllAttributeNames[i] == JobAttributeNames[i];
      } else {
        assert AllAttributeNames[i] == TubeAttributeNames[i - |JobAttributeNames|];
      }
    }
  }

  /** `pause-time`, whose underscored form is `pause_time`, is no catalog name. */
  lemma PauseTimeNotAName()
    ensures "pause-time" !in AllAttributeNames
  {
    // the names starting with `p` are `pri`, `pause` and `pause-time-left`
    assert forall i :: 0 <= i < |AllAttributeNames| ==>
      |AllAttributeNames[i]| != 10 || AllAttributeNames[i][0] != 'p';
  }

  /** The method that reads a name holds no hyphen. */
  lemma AccessorNameNoHyphen(n: string)
    ensures '-' !in AccessorName(n)
  {
    if n == "pause" {
      assert forall i :: 0 <= i < |"pause_time"| ==> "pause_time"[i] != '-';
    }
  }

  /** Only `pause-time` would clash with `pause`'s method `pause_time`. */
  lemma UnderscoreIsPauseTime(m: string)
    requires '_' !in m && Text.Underscore(m) == "pause_time"
    ensures m == "pause-time"
  {
    var u := Text.Underscore(m);
    assert |m| == |u| == 10;
    assert u[0] == 'p' && u[1] == 'a' && u[2] == 'u' && u[3] == 's' && u[4] == 'e';
    assert u[5] == '_' && u[6] == 't' && u[7] == 'i' && u[8] == 'm' && u[9] == 'e';
    assert m[5] != '_';
  }

  /** Names without underscores, none of them `pause-time`, are read by
      different methods. */
  lemma AccessorNameInjective(n: string, m: string)
    requires '_' !in n && '_' !in m && n != m && n != "pause-time" && m != "pause-time"
    ensures AccessorName(n) != AccessorName(m)
  {
    if AccessorName(n) == AccessorName(m) {
      if n == "pause" {
        UnderscoreIsPauseTime(m);
      } else if m == "pause" {
        UnderscoreIsPauseTime(n);
      } else {
        Lists.UnderscoreInjective(n, m);
      }
    }
  }

  /** Every catalog name has a method; `pause` is read by `pause_time`, the
      others by their names with hyphens replaced, and no method name holds
      a hyphen. */
  lemma StatsMethodNamesShape()
    ensures forall n :: n in StatsMethodNames <==> n in JobAttributeNames || n in TubeAttributeNames
    ensures "pause" in StatsMethodNames && StatsMethodNames["pause"] == "pause_time"
    ensures forall n :: n in StatsMethodNames && n != "pause" ==> StatsMethodNames[n] == Text.Underscore(n)
    ensures forall n :: n in StatsMethodNames ==> '-' !in StatsMethodNames[n]
  {
    assert "pause" == TubeAttributeNames[11];
    assert "pause" in AllAttributeNames;
    forall n | n in StatsMethodNames ensures '-' !in StatsMethodNames[n] {
      AccessorNameNoHyphen(n);
    }
  }

  /** What `StatsMethodNames` holds for the name of one key. */
  lemma StatsMethodKey(k: Key)
    ensures k.name in StatsMethodNames <==> k in MatchableJobAttributes() || k in MatchableTubeAttributes()
    ensures k.name in StatsMethodNames ==> '-' !in StatsMethodNames[k.name]
    ensures k.name == "pause" ==> k.name in StatsMethodNames && StatsMethodNames[k.name] == "pause_time"
    ensures k.name in StatsMethodNames && k.name != "pause" ==> StatsMethodNames[k.name] == Text.Underscore(k.name)
  {
    JobKeyMatchable(k);
    TubeKeyMatchable(k);
    StatsMethodNamesShape();
  }

  /** No two stats are read by the same method; in particular `pause` and
      `pause-time-left` are told apart. */
  lemma StatsMethodNamesInjective()
    ensures forall n, m :: n in StatsMethodNames && m in StatsMethodNames && n != m ==>
      StatsMethodNames[n] != StatsMethodNames[m]
  {
    NoUnderscoreInNames();
    PauseTimeNotAName();
    forall n, m | n in StatsMethodNames && m in StatsMethodNames && n != m
      ensures StatsMethodNames[n] != StatsMethodNames[m]
    {
      AccessorNameInjective(n, m);
    }
  }

  /** `stats_method_name(key)`: the accessor for either form of a catalog
      key, nil for anything else. */
  function StatsMethodName(k: Key): (r: Option<string>)
    ensures r.Some? <==> k in MatchableJobAttributes() || k in MatchableTubeAttributes()
    ensures r.Some? ==> '-' !in r.value
    ensures k.name == "pause" ==> r == Some("pause_time")
    ensures r.Some? && k.name != "pause" ==> r.value == Text.Underscore(k.name)
  {
    StatsMethodKey(k);
    // `key.to_sym` keeps the name, so both forms look up the same entry
    if k.name in StatsMethodNames then Some(StatsMethodNames[k.name]) else None
  }

  /** The Symbol and the String form of a name read the same stat. */
  lemma StatsMethodNameForms(n: string)
    ensures StatsMethodName(Key(n, Symbol)) == StatsMethodName(Key(n, Text))
  {
  }

  /** `job_matches?(job, options)`, `present` being the answer of `job.exists?`
      and `send` the job's accessors. */
  function JobMatches(present: bool, opts: Options, send: string -> Result<Value, RubyError>): (r: Result<bool, RubyError>)
    ensures !present ==> r == Success(false)
    ensures AllLive(MatchableJobAttributes(), opts, StatsMethodName, send) ==>
      r.Success? &&
      (r.value <==>
        (present &&
         forall k :: k in MatchableJobAttributes() && Lookup(opts, k).Some? ==>
           Accepts(Lookup(opts, k).value, Live(k, StatsMethodName, send).value)))
  {
    MatchMeaning(MatchableJobAttributes(), present, opts, StatsMethodName, send);
    Match(MatchableJobAttributes(), present, opts, StatsMethodName, send)
  }

  /** `tube_matches?(tube, options)`. */
  function TubeMatches(present: bool, opts: Options, send: string -> Result<Value, RubyError>): (r: Result<bool, RubyError>)
    ensures !present ==> r == Success(false)
    ensures AllLive(MatchableTubeAttributes(), opts, StatsMethodName, send) ==>
      r.Success? &&
      (r.value <==>
        (present &&
         forall k :: k in MatchableTubeAttributes() && Lookup(opts, k).Some? ==>
           Accepts(Lookup(opts, k).value, Live(k, StatsMethodName, send).value)))
  {
    MatchMeaning(MatchableTubeAttributes(), present, opts, StatsMethodName, send);
    Match(MatchableTubeAttributes(), present, opts, StatsMethodName, send)
  }

  /** A tube option such as `cmd-pause`, which is no attribute, is ignored. */
  lemma CmdPauseIgnored(present: bool, opts: Options, form: KeyForm, send: string -> Result<Value, RubyError>)
    ensures TubeMatches(present, opts, send) == TubeMatches(present, Without(opts, Key("cmd-pause", form)), send)
  {
    CmdPauseNotMatchable(form);
    IgnoresUnknownKey(MatchableTubeAttributes(), present, opts, Key("cmd-pause", form), StatsMethodName, send);
  }

  /** The jobs `fetch_jobs((lo..hi).to_a).compact` returns on one
      connection: ids `lo` to `hi` inclusive, absent ones dropped. */
  function Window<J>(c: Conn, lo: int, hi: int, fetch: (Conn, int) -> Option<J>): (r: seq<J>)
    ensures |r| <= if lo <= hi then hi - lo + 1 else 0
    decreases if lo <= hi then hi - lo + 1 else 0
  {
    if lo > hi then []
    else (match fetch(c, lo) case Some(j) => [j] case None => []) + Window(c, lo + 1, hi, fetch)
  }

  /** A job is in a window exactly when one id of the window fetches it. */
  lemma {:induction false} WindowMembership<J>(c: Conn, lo: int, hi: int, fetch: (Conn, int) -> Option<J>, j: J)
    ensures j in Window(c, lo, hi, fetch) <==> exists id :: lo <= id <= hi && fetch(c, id) == Some(j)
    decreases if lo <= hi then hi - lo + 1 else 0
  {
    if lo <= hi {
      WindowMembership(c, lo + 1, hi, fetch, j);
      WindowStep(c, lo, hi, fetch);
      if fetch(c, lo) == Some(j) {
        assert j in Window(c, lo, hi, fetch);
      }
    }
  }

  /** The jobs of a window carry ids within the window. */
  lemma WindowIdsWithin<J>(c: Conn, lo: int, hi: int, fetch: (Conn, int) -> Option<J>, id: J -> int)
    requires forall n :: fetch(c, n).Some? ==> id(fetch(c, n).value) == n
    ensures forall a :: 0 <= a < |Window(c, lo, hi, fetch)| ==> lo <= id(Window(c, lo, hi, fetch)[a]) <= hi
  {
    var w := Window(c, lo, hi, fetch);
    forall a | 0 <= a < |w| ensures lo <= id(w[a]) <= hi {
      WindowMembership(c, lo, hi, fetch, w[a]);
      var n :| lo <= n <= hi && fetch(c, n) == Some(w[a]);
    }
  }

  /** The jobs of a window come in the order of their ids. */
  lemma {:induction false} WindowAscending<J>(c: Conn, lo: int, hi: int, fetch: (Conn, int) -> Option<J>, id: J -> int)
    requires forall n :: fetch(c, n).Some? ==> id(fetch(c, n).value) == n
    ensures forall a, b :: 0 <= a < b < |Window(c, lo, hi, fetch)| ==>
      id(Window(c, lo, hi, fetch)[a]) < id(Window(c, lo, hi, fetch)[b])
    decreases if lo <= hi then hi - lo + 1 else 0
  {
    if lo <= hi {
      WindowAscending(c, lo + 1, hi, fetch, id);
      WindowStep(c, lo, hi, fetch);
      if fetch(c, lo).Some? {
        WindowIdsWithin(c, lo + 1, hi, fetch, id);
        ConsAscending(fetch(c, lo).value, Window(c, lo + 1, hi, fetch), id, lo);
      }
    }
  }

  /** The first id of a non-empty window contributes its job, if any. */
  lemma WindowStep<J>(c: Conn, lo: int, hi: int, fetch: (Conn, int) -> Option<J>)
    requires lo <= hi
    ensures fetch(c, lo).Some? ==> Window(c, lo, hi, fetch) == [fetch(c, lo).value] + Window(c, lo + 1, hi, fetch)
    ensures fetch(c, lo).None? ==> Window(c, lo, hi, fetch) == Window(c, lo + 1, hi, fetch)
  {
  }

  /** A job with id `lo` put in front of jobs with ascending ids above `lo`
      keeps the ids ascending. */
  lemma ConsAscending<J>(j: J, rest: seq<J>, id: J -> int, lo: int)
    requires id(j) == lo
    requires forall a, b :: 0 <= a < b < |rest| ==> id(rest[a]) < id(rest[b])
    requires forall a :: 0 <= a < |rest| ==> lo < id(rest[a])
    ensures forall a, b :: 0 <= a < b < |[j] + rest| ==> id(([j] + rest)[a]) < id(([j] + rest)[b])
  {
    var w := [j] + rest;
    forall a | 0 < a < |w| ensures w[a] == rest[a - 1] {
    }
  }

  /** A window in which no id fetches a job is empty. */
  lemma {:induction false} WindowEmpty<J>(c: Conn, lo: int, hi: int, fetch: (Conn, int) -> Option<J>)
    requires forall n :: lo <= n <= hi ==> fetch(c, n).None?
    ensures Window(c, lo, hi, fetch) == []
    decreases if lo <= hi then hi - lo + 1 else 0
  {
    if lo <= hi {
      WindowEmpty(c, lo + 1, hi, fetch);
    }
  }

  /** What the loop of `collect_new_jobs` gathers: the windows of the
      connections in `min_ids` order, concatenated. A connection missing
      from the second snapshot gives the endless range `min..nil`, whose
      `to_a` raises RangeError (Ruby 2.6 and later). */
  function Collected<J>(minIds: seq<(Conn, int)>, maxIds: map<Conn, int>, fetch: (Conn, int) -> Option<J>): (r: Result<seq<J>, RubyError>)
    ensures r.Failure? <==> exists i :: 0 <= i < |minIds| && minIds[i].0 !in maxIds
    ensures r.Failure? ==> r.error == RangeError
  {
    if minIds == [] then Success([])
    else if minIds[0].0 !in maxIds then Failure(RangeError)
    else
      var rest :- Collected(minIds[1..], maxIds, fetch);
      Success(Window(minIds[0].0, minIds[0].1, maxIds[minIds[0].0], fetch) + rest)
  }

  /** Jobs gathered so far, followed by what is still to come. */
  function Prepend<J>(done: seq<J>, rest: Result<seq<J>, RubyError>): Result<seq<J>, RubyError> {
    match rest
    case Success(more) => Success(done + more)
    case Failure(e) => Failure(e)
  }

  lemma PrependNothing<J>(rest: Result<seq<J>, RubyError>)
    ensures Prepend([], rest) == rest
  {
    if rest.Success? {
      assert [] + rest.value == rest.value;
    }
  }

  lemma PrependTwice<J>(done: seq<J>, more: seq<J>, rest: Result<seq<J>, RubyError>)
    ensures Prepend(done, Prepend(more, rest)) == Prepend(done + more, rest)
  {
    if rest.Success? {
      assert done + (more + rest.value) == (done + more) + rest.value;
    }
  }

  /** A job is collected exactly when some connection's window fetches it,
      given that both snapshots cover the same connections. */
  lemma {:induction false} CollectedMembership<J>(minIds: seq<(Conn, int)>, maxIds: map<Conn, int>,
                                                      fetch: (Conn, int) -> Option<J>, j: J)
    requires forall i :: 0 <= i < |minIds| ==> minIds[i].0 in maxIds
    ensures Collected(minIds, maxIds, fetch).Success?
    ensures j in Collected(minIds, maxIds, fetch).value <==>
      exists i, n :: 0 <= i < |minIds| && minIds[i].1 <= n <= maxIds[minIds[i].0] && fetch(minIds[i].0, n) == Some(j)
  {
    if minIds != [] {
      var c, lo := minIds[0].0, minIds[0].1;
      var tail := minIds[1..];
      CollectedMembership(tail, maxIds, fetch, j);
      WindowMembership(c, lo, maxIds[c], fetch, j);
      var window := Window(c, lo, maxIds[c], fetch);
      assert Collected(minIds, maxIds, fetch).value == window + Collected(tail, maxIds, fetch).value;
      if j in window {
        var n :| lo <= n <= maxIds[c] && fetch(c, n) == Some(j);
        assert minIds[0].1 <= n <= maxIds[minIds[0].0] && fetch(minIds[0].0, n) == Some(j);
      } else if j in Collected(tail, maxIds, fetch).value {
        var i, n :| 0 <= i < |tail| && tail[i].1 <= n <= maxIds[tail[i].0] && fetch(tail[i].0, n) == Some(j);
        assert minIds[i + 1] == tail[i];
      }
      if exists i, n :: 0 <= i < |minIds| && minIds[i].1 <= n <= maxIds[minIds[i].0] && fetch(minIds[i].0, n) == Some(j) {
        var i, n :| 0 <= i < |minIds| && minIds[i].1 <= n <= maxIds[minIds[i].0] && fetch(minIds[i].0, n) == Some(j);
        if i > 0 {
          assert tail[i - 1] == minIds[i];
        }
      }
    }
  }

  /** When no id between the snapshots fetches a job (the block enqueued
      nothing), nothing is collected. */
  lemma {:induction false} NothingEnqueuedNothingCollected<J>(minIds: seq<(Conn, int)>, maxIds: map<Conn, int>,
                                                              fetch: (Conn, int) -> Option<J>)
    requires forall i :: 0 <= i < |minIds| ==> minIds[i].0 in maxIds
    requires forall i, n :: 0 <= i < |minIds| && minIds[i].1 <= n <= maxIds[minIds[i].0] ==> fetch(minIds[i].0, n).None?
    ensures Collected(minIds, maxIds, fetch) == Success([])
  {
    if minIds != [] {
      var tail := minIds[1..];
      forall i, n | 0 <= i < |tail| && tail[i].1 <= n <= maxIds[tail[i].0] ensures fetch(tail[i].0, n).None? {
        assert tail[i] == minIds[i + 1];
      }
      NothingEnqueuedNothingCollected(tail, maxIds, fetch);
      var c, lo := minIds[0].0, minIds[0].1;
      assert c in maxIds;
      WindowEmpty(c, lo, maxIds[c], fetch);
      var none: seq<J> := [];
      assert Window(c, lo, maxIds[c], fetch) + Collected(tail, maxIds, fetch).value == none;
      assert Collected(minIds, maxIds, fetch) == Success(none);
    }
  }

  datatype DeleteOutcome = Deleted | NotFound | Raised(error: RubyError)

  /** `delete_job(job)`: `outcome` is how `job.delete` ended and `stillExists`
      what `job.exists?` answers afterwards, asked only on NotFound. */
  function DeleteJob(outcome: DeleteOutcome, stillExists: bool): (r: Result<bool, RubyError>)
    ensures r.Failure? <==> outcome.Raised?
    ensures r.Failure? ==> r.error == outcome.error
    ensures r.Success? ==> (r.value <==> outcome.Deleted? || !stillExists)
  {
    match outcome
    case Deleted => Success(true)
    case NotFound => Success(if stillExists then false else true)
    case Raised(e) => Failure(e)
  }

  /** `TEST_TUBE`. */
  const DefaultTestTube: string := "bean_counter_stalk_climber_test"

  /** The strategy's own state: the tube StalkClimber probes with. */
  class StalkClimberStrategy {
    var testTube: Option<string>

    constructor()
      ensures testTube == None
    {
      testTube := None;
    }

    /** `test_tube = value`. */
    method SetTestTube(value: Option<string>)
      modifies this
      ensures testTube == value
    {
      testTube := value;
    }

    /** `test_tube`: the tube set, or `TEST_TUBE`, remembered from then on. */
    method TestTube() returns (t: string)
      modifies this
      ensures old(testTube).Some? ==> t == old(testTube).value
      ensures old(testTube).None? ==> t == DefaultTestTube
      ensures testTube == Some(t)
    {
      if testTube.None? {
        testTube := Some(DefaultTestTube);
      }
      t := testTube.value;
    }
  }

  /** `collect_new_jobs { ... }`, the block's run lying between the two
      snapshots `minIds` and `maxIds`: without a block it raises before
      any snapshot is taken. */
  method CollectNewJobs<J>(blockGiven: bool, minIds: seq<(Conn, int)>, maxIds: map<Conn, int>,
                           fetch: (Conn, int) -> Option<J>) returns (r: Result<seq<J>, RubyError>)
    ensures !blockGiven ==> r == Failure(ArgumentError("Block required"))
    ensures blockGiven ==> r == Collected(minIds, maxIds, fetch)
  {
    if !blockGiven {
      return Failure(ArgumentError("Block required"));
    }
    var newJobs: seq<J> := [];
    var i := 0;
    PrependNothing(Collected(minIds, maxIds, fetch));
    while i < |minIds|
      invariant 0 <= i <= |minIds|
      invariant Collected(minIds, maxIds, fetch) == Prepend(newJobs, Collected(minIds[i..], maxIds, fetch))
    {
      var c, lo := minIds[i].0, minIds[i].1;
      assert minIds[i..][1..] == minIds[i + 1..];
      if c !in maxIds {
        return Failure(RangeError);
      }
      PrependTwice(newJobs, Window(c, lo, maxIds[c], fetch), Collected(minIds[i + 1..], maxIds, fetch));
      newJobs := newJobs + Window(c, lo, maxIds[c], fetch);
      i := i + 1;
    }
    assert minIds[i..] == [] && newJobs + [] == newJobs;
    return Success(newJobs);
  }
}
