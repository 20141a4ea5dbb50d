/** `BeanCounter::TubeExpectation`: the expectation that some tube matches
    a Hash of options. The strategy's tube list, `tube_matches?` and
    `pretty_print_tube`, and Ruby's `Hash#to_s`, are parameters. */
module TubeExpectation {
  import opened Wrappers
  import opened Values
  import Lists

  class TubeExpectation<T> {
    /** The options, as given. */
    var expected: Options
    /** The tube found by the last evaluation, if any. */
    var found: Option<T>

    /** `initialize(expected)`: the options are kept as they are. */
    constructor(given: Options)
      ensures expected == given && found == None
    {
      expected := given;
      found := None;
    }

    /** `matches?`: the first tube of the pool that matches is kept, and
        the answer is whether there is one. */
    method Matches(tubes: seq<T>, tubeMatches: (T, Options) -> bool) returns (r: bool)
      modifies this
      ensures expected == old(expected)
      ensures found.Some? <==> exists i :: 0 <= i < |tubes| && tubeMatches(tubes[i], expected)
      ensures found.Some? ==>
        Lists.Detect(tubes, tubeMatches, expected).Some? &&
        found.value == tubes[Lists.Detect(tubes, tubeMatches, expected).value]
      ensures r <==> found.Some?
    {
      var first := Lists.Detect(tubes, tubeMatches, expected);
      if first.Some? {
        found := Some(tubes[first.value]);
      } else {
        found := None;
      }
      r := found.Some?;
    }

    /** `failure_message`: empty once a tube was found. */
    function FailureMessage(render: Options -> string): (r: string)
      reads this
      ensures r == "" <==> found.Some?
      ensures found.None? ==> r == "expected tube matching " + render(expected) + ", found none."
    {
      if found.Some? then ""
      else
        var msg := "expected tube matching " + render(expected) + ", found none.";
        assert msg[0] == 'e';
        msg
    }

    /** `negative_failure_message`: empty when nothing was found, otherwise
        the options and the found tube pretty-printed. */
    function NegativeFailureMessage(render: Options -> string, prettyTube: T -> string): (r: string)
      reads this
      ensures r == "" <==> found.None?
      ensures found.Some? ==> r == "expected no tubes matching " + render(expected) + ", found " + prettyTube(found.value)
    {
      if found.None? then ""
      else
        var msg := "expected no tubes matching " + render(expected) + "," + " " + "found " + prettyTube(found.value);
        assert msg[0] == 'e';
        msg
    }
  }
}
