/** The closed lists of job and tube attributes a caller may match on
    (`MATCHABLE_JOB_ATTRIBUTES`, `MATCHABLE_TUBE_ATTRIBUTES`). Each list holds
    every name twice: once as a Symbol and once as a String. */
module Catalog {
  import opened Values
  import Order

  const JobAttributeNames: seq<string> := [
    "age", "body", "buries", "connection", "delay", "id", "kicks", "pri", "releases",
    "reserves", "state", "time-left", "timeouts", "ttr", "tube"
  ]

  const TubeAttributeNames: seq<string> := [
    "cmd-delete", "cmd-pause-tube", "current-jobs-buried",
    "current-jobs-delayed", "current-jobs-ready", "current-jobs-reserved",
    "current-jobs-urgent", "current-using", "current-waiting",
    "current-watching", "name", "pause", "pause-time-left", "total-jobs"
  ]

  /** `attrs.concat(attrs.map(&:to_s))`: the symbols, then the same names as strings. */
  function BothForms(names: seq<string>): (r: seq<Key>)
    ensures |r| == 2 * |names|
    ensures forall i :: 0 <= i < |names| ==> r[i] == Key(names[i], Symbol)
    ensures forall i :: 0 <= i < |names| ==> r[|names| + i] == Key(names[i], Text)
  {
    Symbols(names) + Strings(names)
  }

  function Symbols(names: seq<string>): (r: seq<Key>)
    ensures |r| == |names| && forall i :: 0 <= i < |names| ==> r[i] == Key(names[i], Symbol)
  {
    if names == [] then [] else [Key(names[0], Symbol)] + Symbols(names[1..])
  }

  function Strings(names: seq<string>): (r: seq<Key>)
    ensures |r| == |names| && forall i :: 0 <= i < |names| ==> r[i] == Key(names[i], Text)
  {
    if names == [] then [] else [Key(names[0], Text)] + Strings(names[1..])
  }

  function MatchableJobAttributes(): seq<Key> { BothForms(JobAttributeNames) }

  function MatchableTubeAttributes(): seq<Key> { BothForms(TubeAttributeNames) }

  predicate Distinct<T(==)>(s: seq<T>) {
    forall i, j :: 0 <= i < j < |s| ==> s[i] != s[j]
  }

  /** A key belongs to a catalog built by BothForms exactly when its name is
      one of the names, whichever form the key is written in. */
  lemma {:induction false} BothFormsMembership(names: seq<string>, k: Key)
    ensures k in BothForms(names) <==> k.name in names
  {
    var r := BothForms(names);
    if k.name in names {
      var i :| 0 <= i < |names| && names[i] == k.name;
      if k.form == Symbol { assert r[i] == k; } else { assert r[|names| + i] == k; }
    }
    if k in r {
      var j :| 0 <= j < |r| && r[j] == k;
      if j < |names| { assert names[j] == k.name; } else { assert names[j - |names|] == k.name; }
    }
  }

  /** The job catalog holds 15 distinct names, 30 keys in all. */
  lemma JobCatalogShape()
    ensures |JobAttributeNames| == 15 && Distinct(JobAttributeNames)
    ensures |MatchableJobAttributes()| == 30
  {
    JobNamesAscending();
    Order.StrictlyAscendingDistinct(JobAttributeNames);
  }

  /** The job names are listed in ascending order. */
  lemma JobNamesAscending()
    ensures Order.StrictlyAscending(JobAttributeNames)
  {
    var t := JobAttributeNames;
    forall i | 0 <= i < |t| - 1 ensures Order.Less(t[i], t[i + 1]) {
      // `time-left` and `timeouts` share a 4-character prefix
      if i == 11 {
        Order.LessFromSkip(t[i], t[i + 1], 0, 4);
      }
    }
  }

  /** A key is a matchable job attribute exactly when its name is a catalog
      name, so `:age` and `'age'` are both members. */
  lemma JobKeyMatchable(k: Key)
    ensures k in MatchableJobAttributes() <==> k.name in JobAttributeNames
  {
    BothFormsMembership(JobAttributeNames, k);
  }

  /** The tube names are listed in ascending order. */
  lemma TubeNamesAscending()
    ensures Order.StrictlyAscending(TubeAttributeNames)
  {
    var t := TubeAttributeNames;
    forall i | 0 <= i < |t| - 1 ensures Order.Less(t[i], t[i + 1]) {
      // the four `current-jobs-*` names share a 13-character prefix
      if 2 <= i < 6 {
        Order.LessFromSkip(t[i], t[i + 1], 0, 13);
      }
    }
  }

  /** The tube catalog holds 14 distinct names, 28 keys in all, among them
      both `pause` and `pause-time-left`. */
  lemma TubeCatalogShape()
    ensures |TubeAttributeNames| == 14 && Distinct(TubeAttributeNames)
    ensures |MatchableTubeAttributes()| == 28
    ensures "pause" in TubeAttributeNames && "pause-time-left" in TubeAttributeNames
  {
    TubeNamesAscending();
    Order.StrictlyAscendingDistinct(TubeAttributeNames);
    assert TubeAttributeNames[11] == "pause" && TubeAttributeNames[12] == "pause-time-left";
  }

  /** A key is a matchable tube attribute exactly when its name is a catalog name. */
  lemma TubeKeyMatchable(k: Key)
    ensures k in MatchableTubeAttributes() <==> k.name in TubeAttributeNames
  {
    BothFormsMembership(TubeAttributeNames, k);
  }

  /** A near miss such as `cmd-pause` is not a tube attribute in either form. */
  lemma CmdPauseNotMatchable(form: KeyForm)
    ensures Key("cmd-pause", form) !in MatchableTubeAttributes()
  {
    // no catalog name has the nine characters of `cmd-pause`
    assert forall i :: 0 <= i < |TubeAttributeNames| ==> |TubeAttributeNames[i]| != 9;
    BothFormsMembership(TubeAttributeNames, Key("cmd-pause", form));
  }
}
