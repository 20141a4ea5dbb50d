/** `GemeraldBeanstalkStrategy::Tube`: a tube name looked up across every
    server of the pool, with its stats merged from the servers that have it. */
module GemeraldTube {
  import opened Wrappers
  import opened Values
  import Text
  import Lists
  import opened Catalog
  import opened GemeraldJob

  /** The server's own tube record. */
  datatype NativeTube = NativeTube(stats: Stats)

  /** One in-process server: its jobs in the order they were put, and its
      tubes Hash, name to tube, in insertion order. */
  datatype Beanstalk = Beanstalk(jobs: seq<NativeJob>, tubes: seq<(string, NativeTube)>)

  /** `beanstalk.tubes[name]`. */
  function TubeNamed(b: Beanstalk, name: string): (r: Option<NativeTube>)
    ensures r.None? <==> forall i :: 0 <= i < |b.tubes| ==> b.tubes[i].0 != name
  {
    TubeIn(b.tubes, name)
  }

  function TubeIn(tubes: seq<(string, NativeTube)>, name: string): (r: Option<NativeTube>)
    ensures r.None? <==> forall i :: 0 <= i < |tubes| ==> tubes[i].0 != name
  {
    if tubes == [] then None
    else if tubes[0].0 == name then Some(tubes[0].1)
    else TubeIn(tubes[1..], name)
  }

  /** `beanstalk.tubes.keys`. */
  function TubeNames(tubes: seq<(string, NativeTube)>): (r: seq<string>)
    ensures |r| == |tubes| && forall i :: 0 <= i < |tubes| ==> r[i] == tubes[i].0
  {
    if tubes == [] then [] else [tubes[0].0] + TubeNames(tubes[1..])
  }

  /** `beanstalks.inject([]) { |memo, b| memo.concat(b.tubes.keys) }`. */
  function PoolTubeNames(bs: seq<Beanstalk>): (r: seq<string>)
    ensures forall n :: n in r <==> exists k :: 0 <= k < |bs| && TubeNamed(bs[k], n).Some?
  {
    if bs == [] then []
    else
      var rest := PoolTubeNames(bs[1..]);
      forall n, k | 1 <= k < |bs| && TubeNamed(bs[k], n).Some?
        ensures n in rest
      {
        assert bs[1..][k - 1] == bs[k];
      }
      TubeNames(bs[0].tubes) + rest
  }

  /** The tubes of the pool, each name once in first-occurrence order
      (`tubes_in_pool.uniq!`). */
  function TubesInPool(bs: seq<Beanstalk>): (r: seq<string>)
    ensures forall n :: n in r <==> n in PoolTubeNames(bs)
    ensures forall i, j :: 0 <= i < j < |r| ==> r[i] != r[j]
  {
    Lists.Uniq(PoolTubeNames(bs))
  }

  /** `Tube.new(tube_name, beanstalks)`: the constructor stores both as given. */
  datatype Tube = Tube(name: string, beanstalks: seq<Beanstalk>)

  /** `exists?`: the tube is present on at least one server. */
  function Exists(tube: Tube): (r: bool)
    ensures r <==> exists k :: 0 <= k < |tube.beanstalks| && TubeNamed(tube.beanstalks[k], tube.name).Some?
  {
    tube.name in TubesInPool(tube.beanstalks)
  }

  /** `hash[name] = v`: a name already there keeps its place, a new one
      goes at the end. */
  function SetStat(hash: Stats, name: string, v: Value): (r: Stats)
    ensures |r| == |hash| || |r| == |hash| + 1
  {
    if hash == [] then [(name, v)]
    else if hash[0].0 == name then [(name, v)] + hash[1..]
    else [hash[0]] + SetStat(hash[1..], name, v)
  }

  /** After `hash[name] = v`, `name` reads `v` and every other name reads
      what it read before. */
  lemma {:induction false} SetStatAt(hash: Stats, name: string, v: Value, n: string)
    ensures StatAt(SetStat(hash, name, v), n) == if n == name then v else StatAt(hash, n)
  {
    if hash != [] && hash[0].0 != name {
      SetStatAt(hash[1..], name, v, n);
    }
  }

  /** Assigning to a name already there changes no name and no place. */
  lemma {:induction false} SetStatNames(hash: Stats, name: string, v: Value)
    requires !StatAt(hash, name).Nil?
    ensures Names(SetStat(hash, name, v)) == Names(hash)
  {
    if hash[0].0 != name {
      SetStatNames(hash[1..], name, v);
      assert Names(SetStat(hash, name, v)) == [hash[0].0] + Names(SetStat(hash[1..], name, v));
    } else {
      assert Names(SetStat(hash, name, v)) == [name] + Names(hash[1..]);
    }
  }

  /** Adding an Integer to the total kept under `stat`: only an Integer
      total can take it; a String refuses an Integer, and nil, true, false
      and connection objects have no `+`. */
  function AddOne(hash: Stats, stat: string, v: int): (r: Result<Stats, RubyError>)
    ensures r.Success? <==> StatAt(hash, stat).Int?
    ensures StatAt(hash, stat).Str? ==> r == Failure(TypeError)
  {
    var total := StatAt(hash, stat);
    if total.Int? then Success(SetStat(hash, stat, Int(total.i + v)))
    else if total.Str? then Failure(TypeError)
    else Failure(NoMethodError("+"))
  }

  /** Walking one server's stats in order, adding each Integer stat to the
      total kept under the same name and skipping every other stat. */
  function AddNumeric(hash: Stats, stats: Stats): (r: Result<Stats, RubyError>)
    ensures r.Failure? ==> r.error == TypeError || r.error == NoMethodError("+")
    decreases |stats|
  {
    if stats == [] then Success(hash)
    else match stats[0].1
      case Int(v) =>
        (match AddOne(hash, stats[0].0, v)
         case Success(sum) => AddNumeric(sum, stats[1..])
         case Failure(e) => Failure(e))
      case _ => AddNumeric(hash, stats[1..])
  }

  /** The fold of `to_hash` over the servers from the accumulated `hash`
      on: a server without the tube is skipped, the first holder's stats
      become the total while it is still empty, and every later holder's
      numeric stats are added to it. */
  function MergeFrom(hash: Stats, bs: seq<Beanstalk>, name: string): (r: Result<Stats, RubyError>)
    ensures r.Failure? ==> r.error == TypeError || r.error == NoMethodError("+")
    decreases |bs|
  {
    if bs == [] then Success(hash)
    else match TubeNamed(bs[0], name)
      case None => MergeFrom(hash, bs[1..], name)
      case Some(t) =>
        if hash == [] then MergeFrom(t.stats, bs[1..], name)
        else match AddNumeric(hash, t.stats)
          case Success(sum) => MergeFrom(sum, bs[1..], name)
          case Failure(e) => Failure(e)
  }

  /** `to_hash`: the fold from an empty Hash. */
  function ToHash(tube: Tube): (r: Result<Stats, RubyError>)
    ensures r.Failure? ==> r.error == TypeError || r.error == NoMethodError("+")
  {
    MergeFrom([], tube.beanstalks, tube.name)
  }

  /** The stats of the tube on each server that has it, in server order. */
  function Holders(bs: seq<Beanstalk>, name: string): (r: seq<Stats>)
    ensures |r| == 0 <==> forall k :: 0 <= k < |bs| ==> TubeNamed(bs[k], name).None?
  {
    if bs == [] then []
    else
      var rest := Holders(bs[1..], name);
      forall k | 1 <= k < |bs| && |rest| == 0 ensures TubeNamed(bs[k], name).None? {
        assert bs[1..][k - 1] == bs[k];
      }
      match TubeNamed(bs[0], name)
      case None => rest
      case Some(t) => [t.stats] + rest
  }

  /** Adding the numeric stats of each holder in turn. */
  function AddAll(hash: Stats, holders: seq<Stats>): Result<Stats, RubyError>
    decreases |holders|
  {
    if holders == [] then Success(hash)
    else match AddNumeric(hash, holders[0])
      case Success(sum) => AddAll(sum, holders[1..])
      case Failure(e) => Failure(e)
  }

  /** The Integer value of a stat, 0 when it is not an Integer. */
  function NumericPart(v: Value): int {
    if v.Int? then v.i else 0
  }

  /** The sum of a stat's Integer values over several stats Hashes. */
  function NumericSum(holders: seq<Stats>, n: string): int {
    if holders == [] then 0 else NumericPart(StatAt(holders[0], n)) + NumericSum(holders[1..], n)
  }

  /** Every Integer stat of `stats` finds an Integer in `hash` to add to. */
  ghost predicate Addable(hash: Stats, stats: Stats) {
    forall n :: StatAt(stats, n).Int? ==> StatAt(hash, n).Int?
  }

  /** What adding one server's stats does to the total, name by name. */
  ghost function AddedStat(hash: Stats, stats: Stats, n: string): Value {
    if StatAt(hash, n).Int? then Int(StatAt(hash, n).i + NumericPart(StatAt(stats, n))) else StatAt(hash, n)
  }

  /** What adding several servers' stats does to the total, name by name. */
  ghost function SummedStat(hash: Stats, holders: seq<Stats>, n: string): Value {
    if StatAt(hash, n).Int? then Int(StatAt(hash, n).i + NumericSum(holders, n)) else StatAt(hash, n)
  }

  /** A stats Hash with each name once reads, under its first name, its first value. */
  lemma UniqueHead(stats: Stats)
    requires stats != [] && UniqueNames(stats)
    ensures UniqueNames(stats[1..]) && StatAt(stats[1..], stats[0].0) == Nil
  {
  }

  /** Adding one server's stats: each Integer total grows by that
      server's Integer stat of the same name, every other stat is kept,
      and no name is added, removed or moved. */
  lemma {:induction false} AddNumericMeaning(hash: Stats, stats: Stats)
    requires UniqueNames(stats) && Addable(hash, stats)
    ensures AddNumeric(hash, stats).Success?
    ensures Names(AddNumeric(hash, stats).value) == Names(hash)
    ensures forall n :: StatAt(AddNumeric(hash, stats).value, n) == AddedStat(hash, stats, n)
    decreases |stats|
  {
    if stats != [] {
      var s0, v0, rest := stats[0].0, stats[0].1, stats[1..];
      if v0.Int? {
        assert StatAt(stats, s0) == v0;
        assert StatAt(hash, s0).Int?;
        var total := Int(StatAt(hash, s0).i + v0.i);
        var sum := SetStat(hash, s0, total);
        assert AddOne(hash, s0, v0.i) == Success(sum);
        assert AddNumeric(hash, stats) == AddNumeric(sum, rest);
        AddableAfterSet(hash, stats, total);
        AddNumericMeaning(sum, rest);
        SetStatNames(hash, s0, total);
        AddedAfterSet(hash, stats);
      } else {
        assert AddNumeric(hash, stats) == AddNumeric(hash, rest);
        AddableRest(hash, stats);
        AddNumericMeaning(hash, rest);
        AddedSkip(hash, stats);
      }
    }
  }

  /** The stats after the first still find Integers to add to, once the
      first has been added in. */
  lemma AddableAfterSet(hash: Stats, stats: Stats, total: Value)
    requires stats != [] && UniqueNames(stats) && Addable(hash, stats) && total.Int?
    ensures Addable(SetStat(hash, stats[0].0, total), stats[1..])
  {
    UniqueHead(stats);
    forall n | StatAt(stats[1..], n).Int? ensures StatAt(SetStat(hash, stats[0].0, total), n).Int? {
      SetStatAt(hash, stats[0].0, total, n);
      assert StatAt(stats, n) == StatAt(stats[1..], n);
    }
  }

  /** Skipping a first stat leaves the rest addable. */
  lemma AddableRest(hash: Stats, stats: Stats)
    requires stats != [] && UniqueNames(stats) && Addable(hash, stats)
    ensures Addable(hash, stats[1..])
  {
    UniqueHead(stats);
    forall n | StatAt(stats[1..], n).Int? ensures StatAt(hash, n).Int? {
      assert StatAt(stats, n) == StatAt(stats[1..], n);
    }
  }

  /** Adding the first Integer stat, then the rest, adds them all. */
  lemma AddedAfterSet(hash: Stats, stats: Stats)
    requires stats != [] && UniqueNames(stats) && stats[0].1.Int? && StatAt(hash, stats[0].0).Int?
    ensures forall n ::
      AddedStat(SetStat(hash, stats[0].0, Int(StatAt(hash, stats[0].0).i + stats[0].1.i)), stats[1..], n) == AddedStat(hash, stats, n)
  {
    var s0, total := stats[0].0, Int(StatAt(hash, stats[0].0).i + stats[0].1.i);
    UniqueHead(stats);
    forall n ensures AddedStat(SetStat(hash, s0, total), stats[1..], n) == AddedStat(hash, stats, n) {
      SetStatAt(hash, s0, total, n);
      if n != s0 {
        assert StatAt(stats, n) == StatAt(stats[1..], n);
      }
    }
  }

  /** A first stat that is not an Integer adds nothing. */
  lemma AddedSkip(hash: Stats, stats: Stats)
    requires stats != [] && UniqueNames(stats) && !stats[0].1.Int?
    ensures forall n :: AddedStat(hash, stats[1..], n) == AddedStat(hash, stats, n)
  {
    UniqueHead(stats);
    forall n ensures AddedStat(hash, stats[1..], n) == AddedStat(hash, stats, n) {
      if n != stats[0].0 {
        assert StatAt(stats, n) == StatAt(stats[1..], n);
      }
    }
  }

  /** Adding every holder's numeric stats: each Integer total of the base
      grows by the holders' sum, every other stat of the base is kept, and
      the names stay as they are. */
  lemma {:induction false} AddAllMeaning(hash: Stats, holders: seq<Stats>)
    requires forall k :: 0 <= k < |holders| ==> UniqueNames(holders[k]) && Addable(hash, holders[k])
    ensures AddAll(hash, holders).Success?
    ensures Names(AddAll(hash, holders).value) == Names(hash)
    ensures forall n :: StatAt(AddAll(hash, holders).value, n) == SummedStat(hash, holders, n)
    decreases |holders|
  {
    if holders != [] {
      AddNumericMeaning(hash, holders[0]);
      var sum := AddNumeric(hash, holders[0]).value;
      forall k | 0 <= k < |holders[1..]| ensures UniqueNames(holders[1..][k]) && Addable(sum, holders[1..][k]) {
        assert holders[1..][k] == holders[k + 1];
        forall n | StatAt(holders[k + 1], n).Int? ensures StatAt(sum, n).Int? {
          assert StatAt(sum, n) == AddedStat(hash, holders[0], n);
        }
      }
      AddAllMeaning(sum, holders[1..]);
      forall n ensures StatAt(AddAll(sum, holders[1..]).value, n) == SummedStat(hash, holders, n) {
        assert StatAt(sum, n) == AddedStat(hash, holders[0], n);
      }
    }
  }

  /** Once the total is non-empty, the fold adds the holders in turn. */
  lemma {:induction false} MergeFromHolders(hash: Stats, bs: seq<Beanstalk>, name: string)
    requires hash != []
    ensures MergeFrom(hash, bs, name) == AddAll(hash, Holders(bs, name))
    decreases |bs|
  {
    if bs != [] {
      match TubeNamed(bs[0], name) {
        case None =>
          MergeFromHolders(hash, bs[1..], name);
        case Some(t) =>
          var step := AddNumeric(hash, t.stats);
          if step.Success? {
            AddNumericKeepsNames(hash, t.stats);
            assert |step.value| == |Names(hash)|;
            MergeFromHolders(step.value, bs[1..], name);
          }
      }
    }
  }

  /** Adding one stat, when it succeeds, keeps every name in its place. */
  lemma AddOneNames(hash: Stats, stat: string, v: int)
    requires AddOne(hash, stat, v).Success?
    ensures Names(AddOne(hash, stat, v).value) == Names(hash)
  {
    SetStatNames(hash, stat, Int(StatAt(hash, stat).i + v));
  }

  /** Adding stats, when it succeeds, keeps every name in its place. */
  lemma {:induction false} AddNumericKeepsNames(hash: Stats, stats: Stats)
    requires AddNumeric(hash, stats).Success?
    ensures Names(AddNumeric(hash, stats).value) == Names(hash)
    decreases |stats|
  {
    if stats != [] {
      match stats[0].1
      case Int(v) =>
        var step := AddOne(hash, stats[0].0, v);
        assert step.Success?;
        AddOneNames(hash, stats[0].0, v);
        AddNumericKeepsNames(step.value, stats[1..]);
      case _ =>
        AddNumericKeepsNames(hash, stats[1..]);
    }
  }

  /** No server has the tube: `to_hash` is empty. */
  lemma ToHashAbsent(tube: Tube)
    requires !Exists(tube)
    ensures ToHash(tube) == Success([])
  {
    AbsentMerge(tube.beanstalks, tube.name);
  }

  lemma {:induction false} AbsentMerge(bs: seq<Beanstalk>, name: string)
    requires forall k :: 0 <= k < |bs| ==> TubeNamed(bs[k], name).None?
    ensures MergeFrom([], bs, name) == Success([])
    decreases |bs|
  {
    if bs != [] {
      forall k | 0 <= k < |bs[1..]| ensures TubeNamed(bs[1..][k], name).None? {
        assert bs[1..][k] == bs[k + 1];
      }
      AbsentMerge(bs[1..], name);
    }
  }

  /** The merge across servers: the first holder's names in its order;
      for each Integer stat the sum over every holder; for any other stat
      (`name`, say) the first holder's value. */
  lemma {:induction false} ToHashMerges(bs: seq<Beanstalk>, name: string)
    requires |Holders(bs, name)| >= 1 && Holders(bs, name)[0] != []
    requires forall k :: 1 <= k < |Holders(bs, name)| ==>
      UniqueNames(Holders(bs, name)[k]) && Addable(Holders(bs, name)[0], Holders(bs, name)[k])
    ensures MergeFrom([], bs, name).Success?
    ensures Names(MergeFrom([], bs, name).value) == Names(Holders(bs, name)[0])
    ensures forall n :: StatAt(MergeFrom([], bs, name).value, n) == SummedStat(Holders(bs, name)[0], Holders(bs, name)[1..], n)
    decreases |bs|
  {
    match TubeNamed(bs[0], name) {
      case None =>
        ToHashMerges(bs[1..], name);
      case Some(t) =>
        var hs := Holders(bs, name);
        assert hs[0] == t.stats && hs[1..] == Holders(bs[1..], name);
        assert MergeFrom([], bs, name) == MergeFrom(t.stats, bs[1..], name);
        MergeFromHolders(t.stats, bs[1..], name);
        forall k | 0 <= k < |hs[1..]| ensures UniqueNames(hs[1..][k]) && Addable(t.stats, hs[1..][k]) {
          assert hs[1..][k] == hs[k + 1];
        }
        AddAllMeaning(t.stats, hs[1..]);
    }
  }

  /** With exactly one holder, `to_hash` is that holder's stats. */
  lemma {:induction false} ToHashSingle(bs: seq<Beanstalk>, name: string)
    requires |Holders(bs, name)| == 1
    ensures MergeFrom([], bs, name) == Success(Holders(bs, name)[0])
    decreases |bs|
  {
    match TubeNamed(bs[0], name) {
      case None =>
        ToHashSingle(bs[1..], name);
      case Some(t) =>
        assert Holders(bs[1..], name) == [];
        if t.stats == [] {
          AbsentMerge(bs[1..], name);
        } else {
          MergeFromHolders(t.stats, bs[1..], name);
        }
    }
  }

  /** `STATS_METHODS`: the tube catalog without `name`. */
  const TubeStatsMethods: seq<string> := [
    "cmd-delete", "cmd-pause-tube", "current-jobs-buried", "current-jobs-delayed",
    "current-jobs-ready", "current-jobs-reserved", "current-jobs-urgent", "current-using",
    "current-waiting", "current-watching", "pause", "pause-time-left", "total-jobs"
  ]

  lemma TubeStatsMethodsShape()
    ensures TubeStatsMethods == TubeAttributeNames[..10] + TubeAttributeNames[11..]
    ensures forall i :: 0 <= i < |TubeStatsMethods| ==> '_' !in TubeStatsMethods[i]
  {
  }

  /** `tube.send(name)` for the accessors the matcher can call: `name`,
      the constructor's name, and each stat accessor, which reads
      `to_hash[stat]` (and so raises whatever `to_hash` raises). */
  function TubeSend(tube: Tube, accessor: string): (r: Result<Value, RubyError>)
    ensures accessor == "name" ==> r == Success(Str(tube.name))
    ensures r.Failure? ==> r.error == NoMethodError(accessor) || ToHash(tube) == Failure(r.error)
  {
    if accessor == "name" then Success(Str(tube.name))
    else match Lists.StatForMethod(TubeStatsMethods, accessor)
      case Some(stat) =>
        var hash :- ToHash(tube);
        Success(StatAt(hash, stat))
      case None => Failure(NoMethodError(accessor))
  }

  /** No stat accessor is called `name`. */
  lemma StatAccessorNotName(stat: string)
    requires stat in TubeStatsMethods
    ensures Text.Underscore(stat) != "name"
  {
    assert "name" !in TubeStatsMethods;
    if Text.Underscore(stat) == "name" {
      Lists.UnderscoreOntoPlain(stat, "name");
    }
  }

  /** A tube catalog name is `name` or a stat with an accessor. */
  lemma TubeCatalogSplit(n: string)
    requires n in TubeAttributeNames
    ensures n == "name" || n in TubeStatsMethods
  {
    TubeStatsMethodsShape();
    var i :| 0 <= i < |TubeAttributeNames| && TubeAttributeNames[i] == n;
    if i < 10 {
      assert TubeStatsMethods[i] == n;
    } else if i > 10 {
      assert TubeStatsMethods[i - 1] == n;
    }
  }

  /** Each stat accessor reads `to_hash[stat]`. */
  lemma TubeStatAccessor(stat: string)
    requires stat in TubeStatsMethods
    ensures Lists.StatForMethod(TubeStatsMethods, Text.Underscore(stat)) == Some(stat)
    ensures Text.Underscore(stat) != "name"
  {
    TubeStatsMethodsShape();
    Lists.StatForMethodFinds(TubeStatsMethods, stat);
    StatAccessorNotName(stat);
  }

  /** Every tube catalog attribute is answered under its name with hyphens
      replaced: `name` by the handle, each stat by `to_hash[stat]`. */
  lemma TubeAccessorsAnswer(tube: Tube, n: string)
    requires n in TubeAttributeNames
    ensures n == "name" ==> TubeSend(tube, Text.Underscore(n)) == Success(Str(tube.name))
    ensures n != "name" && ToHash(tube).Success? ==> TubeSend(tube, Text.Underscore(n)) == Success(StatAt(ToHash(tube).value, n))
    ensures n != "name" && ToHash(tube).Failure? ==> TubeSend(tube, Text.Underscore(n)) == Failure(ToHash(tube).error)
  {
    TubeCatalogSplit(n);
    if n == "name" {
      Lists.UnderscoreNoHyphen(n);
    } else {
      TubeStatAccessor(n);
    }
  }
}
