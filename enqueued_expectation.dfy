/** `BeanCounter::EnqueuedExpectation`: the expectation that jobs matching
    a Hash of options are enqueued, optionally a given number of them.
    The strategy's `job_matches?` and `pretty_print_job`, and Ruby's
    `Hash#to_s`, are parameters. */
module EnqueuedExpectation {
  import opened Wrappers
  import opened Values
  import Text
  import Lists

  const CountSymbolKey: Key := Key("count", Symbol)
  const CountStringKey: Key := Key("count", Text)

  /** An option that is there and is not nil. */
  predicate NonNil(o: Option<Matcher>) {
    o.Some? && !(o.value.Exact? && o.value.v == Nil)
  }

  /** `[expected.delete(:count), expected.delete('count')].compact.first`:
      the `:count` value unless it is missing or nil, then the `'count'`
      value unless it is missing or nil. */
  function CountOf(opts: Options): (r: Option<Matcher>)
    ensures r.None? <==> !NonNil(Lookup(opts, CountSymbolKey)) && !NonNil(Lookup(opts, CountStringKey))
    ensures r.Some? ==> NonNil(r)
    ensures NonNil(Lookup(opts, CountSymbolKey)) ==> r == Lookup(opts, CountSymbolKey)
    ensures !NonNil(Lookup(opts, CountSymbolKey)) ==> r == (if NonNil(Lookup(opts, CountStringKey)) then Lookup(opts, CountStringKey) else None)
  {
    var sym := Lookup(opts, CountSymbolKey);
    var str := Lookup(opts, CountStringKey);
    if NonNil(sym) then sym else if NonNil(str) then str else None
  }

  /** What the two `delete` calls leave of the options Hash. */
  function WithoutCount(opts: Options): (r: Options)
    ensures forall e :: e in r <==> e in opts && e.0.name != "count"
  {
    var r := Without(Without(opts, CountSymbolKey), CountStringKey);
    forall e ensures e in r <==> e in opts && e.0.name != "count" {
      if e.0.name == "count" {
        if e.0.form.Symbol? {
          assert e.0 == CountSymbolKey;
        } else {
          assert e.0 == CountStringKey;
        }
      }
    }
    r
  }

  lemma {:induction false} LookupWithout(opts: Options, gone: Key, k: Key)
    requires k != gone
    ensures Lookup(Without(opts, gone), k) == Lookup(opts, k)
  {
    if opts != [] {
      LookupWithout(opts[1..], gone, k);
    }
  }

  /** Taking out the count touches no other option. */
  lemma OtherOptionsKept(opts: Options, k: Key)
    requires k.name != "count"
    ensures Lookup(WithoutCount(opts), k) == Lookup(opts, k)
  {
    LookupWithout(opts, CountSymbolKey, k);
    LookupWithout(Without(opts, CountSymbolKey), CountStringKey, k);
  }

  /** The pretty-printed jobs, one line each. */
  function PrettyLines<J>(jobs: seq<J>, pretty: J -> string): (r: string)
  {
    Text.Join(seq(|jobs|, i requires 0 <= i < |jobs| => pretty(jobs[i])), "\n")
  }

  class EnqueuedExpectation<J(==,!new)> {
    /** The options, without the count. */
    var expected: Options
    /** The count taken out of the options, if any. */
    var expectedCount: Option<Matcher>
    /** The jobs found by the last evaluation: nil, or an Array. */
    var found: Option<seq<J>>

    /** `initialize(expected)`: the count is taken out of the options. */
    constructor(given: Options)
      ensures expected == WithoutCount(given)
      ensures expectedCount == CountOf(given)
      ensures found == None
    {
      expected := WithoutCount(given);
      expectedCount := CountOf(given);
      found := None;
    }

    /** `expected_count?`: the count is there and is neither nil nor false. */
    predicate ExpectedCountGiven(): (r: bool)
      reads this
      ensures r <==> expectedCount.Some? && !(expectedCount.value.Exact? && expectedCount.value.v in {Nil, Bool(false)})
    {
      expectedCount.Some? && MatcherTruthy(expectedCount.value)
    }

    /** What an evaluation over `collection` leaves behind and answers:
        with a count, every matching job is kept and the answer is whether
        the count accepts their number; without one, the first match is
        kept (in an Array of one) and the answer is whether there is one. */
    ghost predicate Evaluated(collection: seq<J>, jobMatches: (J, Options) -> bool, r: bool)
      reads this
    {
      if ExpectedCountGiven() then
        found == Some(Lists.Select(collection, jobMatches, expected)) &&
        r == Accepts(expectedCount.value, Int(|found.value|))
      else
        var first := Lists.Detect(collection, jobMatches, expected);
        (found.Some? <==> first.Some?) &&
        (first.Some? ==> found == Some([collection[first.value]])) &&
        r == found.Some?
    }

    /** `collection_matcher(collection)`. */
    method CollectionMatcher(collection: seq<J>, jobMatches: (J, Options) -> bool) returns (r: bool)
      modifies this
      ensures expected == old(expected) && expectedCount == old(expectedCount)
      ensures Evaluated(collection, jobMatches, r)
    {
      if ExpectedCountGiven() {
        found := Some(Lists.Select(collection, jobMatches, expected));
        r := Accepts(expectedCount.value, Int(|found.value|));
      } else {
        var first := Lists.Detect(collection, jobMatches, expected);
        if first.Some? {
          found := Some([collection[first.value]]);
        } else {
          found := None;
        }
        r := found.Some?;
      }
    }

    /** `proc_matcher(block)`: only the jobs the block enqueued, as the
        strategy's `collect_new_jobs` returns them, are evaluated. */
    method ProcMatcher(newJobs: seq<J>, jobMatches: (J, Options) -> bool) returns (r: bool)
      modifies this
      ensures expected == old(expected) && expectedCount == old(expectedCount)
      ensures Evaluated(newJobs, jobMatches, r)
    {
      r := CollectionMatcher(newJobs, jobMatches);
    }

    /** `matches?(given)`: a Proc evaluates what it enqueues, anything else
        every job of the pool. */
    method Matches(procGiven: bool, allJobs: seq<J>, newJobs: seq<J>, jobMatches: (J, Options) -> bool) returns (r: bool)
      modifies this
      ensures expected == old(expected) && expectedCount == old(expectedCount)
      ensures procGiven ==> Evaluated(newJobs, jobMatches, r)
      ensures !procGiven ==> Evaluated(allJobs, jobMatches, r)
    {
      if procGiven {
        r := ProcMatcher(newJobs, jobMatches);
      } else {
        r := CollectionMatcher(allJobs, jobMatches);
      }
    }

    /** `expected_count || 'any number of'`, as interpolated. */
    function CountWords(): (r: string)
      reads this
      ensures !ExpectedCountGiven() ==> r == "any number of"
      ensures ExpectedCountGiven() ==> r == MatcherToS(expectedCount.value)
    {
      if ExpectedCountGiven() then MatcherToS(expectedCount.value) else "any number of"
    }

    /** `failure_message`: what was expected, then `found none`, or the
        number found and each found job pretty-printed on its own line. */
    function FailureMessage(render: Options -> string, pretty: J -> string): (r: string)
      reads this
      ensures Text.StartsWith(r, FailurePrefix(render))
      ensures found.None? ==> r == FailurePrefix(render) + "none"
      ensures found.Some? ==> r == FailurePrefix(render) + Text.IntToS(|found.value|) + ": " + PrettyLines(found.value, pretty)
    {
      // the three parts joined by spaces; the found jobs are left out (compact) when there are none
      var tail := if found.None? then "none" else Text.IntToS(|found.value|) + ": " + PrettyLines(found.value, pretty);
      assert (FailurePrefix(render) + tail)[..|FailurePrefix(render)|] == FailurePrefix(render);
      FailurePrefix(render) + tail
    }

    /** What every `failure_message` starts with. */
    function FailurePrefix(render: Options -> string): string
      reads this
    {
      "expected " + CountWords() + " jobs matching " + render(expected) + ", found "
    }

    /** `job_count` and `job_word` of `negative_failure_message`. */
    function CountAndWord(): (r: (string, string))
      reads this
      ensures r.1 == "job" <==> ExpectedCountGiven() && expectedCount.value.Exact? && expectedCount.value.v == Int(1)
      ensures r.1 != "job" ==> r.1 == "jobs"
      ensures !ExpectedCountGiven() ==> r.0 == "any"
      ensures ExpectedCountGiven() ==> r.0 == MatcherToS(expectedCount.value)
    {
      if ExpectedCountGiven() then
        (MatcherToS(expectedCount.value),
         if expectedCount.value.Exact? && expectedCount.value.v == Int(1) then "job" else "jobs")
      else ("any", "jobs")
    }

    /** `negative_failure_message`: empty exactly when nothing was found;
        otherwise what was not expected, the number found and each found
        job pretty-printed. */
    function NegativeFailureMessage(render: Options -> string, pretty: J -> string): (r: string)
      reads this
      ensures r == "" <==> found.None? || found.value == []
      ensures r != "" ==>
        r == "did not expect " + CountAndWord().0 + " " + CountAndWord().1 + " matching " + render(expected) +
             ", found " + Text.IntToS(|found.value|) + ": " + PrettyLines(found.value, pretty)
    {
      if found.None? || found.value == [] then ""
      else
        var msg := "did not expect " + CountAndWord().0 + " " + CountAndWord().1 + " matching " + render(expected) +
          ", found " + Text.IntToS(|found.value|) + ": " + PrettyLines(found.value, pretty);
        assert |msg| >= |"did not expect "|;
        msg
    }
  }

  /** Without a count, finding the first match and keeping every match
      agree: the evaluation succeeds exactly when some job matches. */
  lemma DetectAgreesWithSelect<J(!new)>(collection: seq<J>, jobMatches: (J, Options) -> bool, expected: Options)
    ensures Lists.Detect(collection, jobMatches, expected).Some? <==>
      exists j :: j in collection && jobMatches(j, expected)
  {
    var first := Lists.Detect(collection, jobMatches, expected);
    if first.Some? {
      assert collection[first.value] in collection;
    }
  }
}
