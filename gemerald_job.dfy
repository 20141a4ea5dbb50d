/** `GemeraldBeanstalkStrategy::Job`: a handle on a job of an in-process
    beanstalkd server, paired with the connection that talks to that server.
    The server's replies are inputs. */
module GemeraldJob {
  import opened Wrappers
  import opened Values
  import Text
  import Order
  import Lists
  import opened Catalog

  /** The server's own job record: the id it was given, its body and the
      stats Hash that `stats-job` reports. */
  datatype NativeJob = NativeJob(id: int, body: string, stats: Stats)

  /** `Job.new(gemerald_job, connection)`: the constructor stores both as given. */
  datatype Job = Job(native: NativeJob, connection: Conn)

  /** `STATS_METHODS`: the stats with an accessor of their own. */
  const JobStatsMethods: seq<string> := [
    "age", "buries", "delay", "id", "kicks", "pri", "releases", "reserves",
    "state", "time-left", "timeouts", "ttr", "tube"
  ]

  /** The stat accessors are the job catalog without `body` and `connection`,
      which the handle answers itself. */
  lemma JobStatsMethodsShape()
    ensures JobStatsMethods == [JobAttributeNames[0]] + [JobAttributeNames[2]] + JobAttributeNames[4..]
    ensures forall i :: 0 <= i < |JobStatsMethods| ==> '_' !in JobStatsMethods[i]
  {
  }

  /** `job.send(name)` for the accessors the matcher can call: `body` and
      `connection`, and each stat accessor, which reads `stats[stat]`. */
  function JobSend(job: Job, accessor: string): (r: Result<Value, RubyError>)
    ensures accessor == "body" ==> r == Success(Str(job.native.body))
    ensures accessor == "connection" ==> r == Success(ConnRef(job.connection))
    ensures r.Failure? ==> r == Failure(NoMethodError(accessor))
  {
    if accessor == "body" then Success(Str(job.native.body))
    else if accessor == "connection" then Success(ConnRef(job.connection))
    else match Lists.StatForMethod(JobStatsMethods, accessor)
      case Some(stat) => Success(StatAt(job.native.stats, stat))
      case None => Failure(NoMethodError(accessor))
  }

  /** What a job catalog attribute means for a job. */
  function Attribute(job: Job, name: string): Value {
    if name == "body" then Str(job.native.body)
    else if name == "connection" then ConnRef(job.connection)
    else StatAt(job.native.stats, name)
  }

  /** No stat accessor is called `body` or `connection`. */
  lemma StatAccessorNotHandle(name: string)
    requires name in JobStatsMethods
    ensures Text.Underscore(name) != "body" && Text.Underscore(name) != "connection"
  {
    assert "body" !in JobStatsMethods && "connection" !in JobStatsMethods;
    if Text.Underscore(name) == "body" {
      Lists.UnderscoreOntoPlain(name, "body");
    }
    if Text.Underscore(name) == "connection" {
      Lists.UnderscoreOntoPlain(name, "connection");
    }
  }

  /** Each stat accessor reads `stats[stat]`. */
  lemma JobStatAccessor(job: Job, name: string)
    requires name in JobStatsMethods
    ensures JobSend(job, Text.Underscore(name)) == Success(StatAt(job.native.stats, name))
  {
    JobStatsMethodsShape();
    Lists.StatForMethodFinds(JobStatsMethods, name);
    StatAccessorNotHandle(name);
  }

  /** A job catalog name is `body`, `connection` or a stat with an accessor. */
  lemma JobCatalogSplit(name: string)
    requires name in JobAttributeNames
    ensures name == "body" || name == "connection" || name in JobStatsMethods
  {
    JobStatsMethodsShape();
    var i :| 0 <= i < |JobAttributeNames| && JobAttributeNames[i] == name;
    if i == 0 {
      assert JobStatsMethods[0] == name;
    } else if i == 2 {
      assert JobStatsMethods[1] == name;
    } else if i >= 4 {
      assert JobStatsMethods[i - 2] == name;
    }
  }

  /** Every job catalog attribute is answered under its name with hyphens
      replaced: `body` and `connection` by the handle, the rest by the stats. */
  lemma JobAccessorsAnswer(job: Job, name: string)
    requires name in JobAttributeNames
    ensures JobSend(job, Text.Underscore(name)) == Success(Attribute(job, name))
  {
    JobCatalogSplit(name);
    if name == "body" || name == "connection" {
      Lists.UnderscoreNoHyphen(name);
    } else {
      JobStatAccessor(job, name);
    }
  }

  /** `id`: the `id` stat. */
  function Id(job: Job): Value {
    StatAt(job.native.stats, "id")
  }

  const DeletedReply: string := "DELETED\r\n"
  const NotFoundReply: string := "NOT_FOUND\r\n"

  /** An answer together with the commands sent to the server to reach it. */
  datatype Exchange = Exchange(answer: bool, sent: seq<string>)

  predicate MarkedDeleted(job: Job) {
    StatAt(job.native.stats, "state") == Str("deleted")
  }

  /** `exists?`: a job whose cached state is `deleted` is gone without
      asking; otherwise it exists unless `stats-job` answers NOT_FOUND.
      `statsReply` is the server's reply to `stats-job`. */
  function Exists(job: Job, statsReply: string): (r: Exchange)
    ensures MarkedDeleted(job) ==> r.sent == []
    ensures !MarkedDeleted(job) ==> r.sent == ["stats-job " + ToS(Id(job))]
    ensures r.answer <==> !MarkedDeleted(job) && statsReply != NotFoundReply
  {
    if MarkedDeleted(job) then Exchange(false, [])
    else
      var command := "stats-job " + ToS(Id(job));
      Exchange(statsReply != NotFoundReply, [command])
  }

  /** `delete`: true when the server answers DELETED, without asking again;
      otherwise true exactly when the job no longer exists. `deleteReply`
      answers `delete`, `statsReply` the `stats-job` that may follow. */
  function Delete(job: Job, deleteReply: string, statsReply: string): (r: Exchange)
    ensures |r.sent| >= 1 && r.sent[0] == "delete " + ToS(Id(job))
    ensures deleteReply == DeletedReply ==> r == Exchange(true, ["delete " + ToS(Id(job))])
    ensures deleteReply != DeletedReply ==> r.sent[1..] == Exists(job, statsReply).sent
    ensures r.answer <==> deleteReply == DeletedReply || MarkedDeleted(job) || statsReply == NotFoundReply
  {
    var command := "delete " + ToS(Id(job));
    if deleteReply == DeletedReply then Exchange(true, [command])
    else
      var check := Exists(job, statsReply);
      Exchange(!check.answer, [command] + check.sent)
  }

  /** Every name sorts strictly before every later one. */
  predicate SortedNames(s: Stats) {
    forall i, j :: 0 <= i < j < |s| ==> Order.Less(s[i].0, s[j].0)
  }

  /** One step of `sort_by!(&:first)`: `p` put in its place. */
  function Insert(p: (string, Value), s: Stats): (r: Stats)
    ensures multiset(r) == multiset(s) + multiset{p}
    ensures forall x :: x in r <==> x == p || x in s
  {
    if s == [] then [p]
    else if Order.Less(s[0].0, p.0) then
      assert s == [s[0]] + s[1..];
      [s[0]] + Insert(p, s[1..])
    else [p] + s
  }

  /** A name below every name of a sorted list can go in front of it. */
  lemma ConsSorted(a: (string, Value), rest: Stats)
    requires SortedNames(rest) && forall x :: x in rest ==> Order.Less(a.0, x.0)
    ensures SortedNames([a] + rest)
  {
    var r := [a] + rest;
    forall i, j | 0 <= i < j < |r| ensures Order.Less(r[i].0, r[j].0) {
      assert r[j] == rest[j - 1];
      if i > 0 {
        assert r[i] == rest[i - 1];
      }
    }
  }

  /** Putting a new name into a sorted list keeps it sorted. */
  lemma {:induction false} InsertSorted(p: (string, Value), s: Stats)
    requires SortedNames(s) && forall i :: 0 <= i < |s| ==> s[i].0 != p.0
    ensures SortedNames(Insert(p, s))
  {
    if s == [] {
    } else if Order.Less(s[0].0, p.0) {
      var tail := s[1..];
      InsertSorted(p, tail);
      var rest := Insert(p, tail);
      forall x | x in rest ensures Order.Less(s[0].0, x.0) {
        if x != p {
          var k :| 0 <= k < |tail| && tail[k] == x;
          assert s[k + 1] == x;
        }
      }
      ConsSorted(s[0], rest);
      assert [s[0]] + rest == Insert(p, s);
    } else {
      Order.LessTotal(s[0].0, p.0);
      forall x | x in s ensures Order.Less(p.0, x.0) {
        var k :| 0 <= k < |s| && s[k] == x;
        if k > 0 {
          Order.LessTransitive(p.0, s[0].0, s[k].0);
        }
      }
      ConsSorted(p, s);
    }
  }

  /** `sort_by!(&:first)` on pairs whose names are all different. */
  function SortByName(pairs: Stats): (r: Stats)
    requires UniqueNames(pairs)
    ensures SortedNames(r)
    ensures multiset(r) == multiset(pairs)
  {
    if pairs == [] then []
    else
      UniqueNamesTail(pairs);
      var rest := SortByName(pairs[1..]);
      forall i | 0 <= i < |rest| ensures rest[i].0 != pairs[0].0 {
        assert rest[i] in multiset(pairs[1..]);
      }
      assert pairs == [pairs[0]] + pairs[1..];
      InsertSorted(pairs[0], rest);
      Insert(pairs[0], rest)
  }

  /** In a list of different names, the tail has different names too, and
      none of them is the head's. */
  lemma UniqueNamesTail(pairs: Stats)
    requires UniqueNames(pairs) && pairs != []
    ensures UniqueNames(pairs[1..])
    ensures forall x :: x in multiset(pairs[1..]) ==> x.0 != pairs[0].0
  {
    var tail := pairs[1..];
    forall i, j | 0 <= i < j < |tail| ensures tail[i].0 != tail[j].0 {
      assert tail[i] == pairs[i + 1] && tail[j] == pairs[j + 1];
    }
    forall x | x in multiset(tail) ensures x.0 != pairs[0].0 {
      var k :| 0 <= k < |tail| && tail[k] == x;
      assert pairs[k + 1] == x;
    }
  }

  /** Deleting a name keeps the order of the rest. */
  lemma {:induction false} WithoutStatSorted(s: Stats, name: string)
    requires SortedNames(s)
    ensures SortedNames(WithoutStat(s, name))
  {
    if s != [] {
      WithoutStatSorted(s[1..], name);
      if s[0].0 != name {
        var rest := WithoutStat(s[1..], name);
        forall x | x in rest ensures Order.Less(s[0].0, x.0) {
          var j :| 0 <= j < |s[1..]| && s[1..][j] == x;
          assert s[j + 1] == x;
        }
      }
    }
  }

  /** The pairs `to_hash` sorts: the stats, then `body` and `connection`. */
  function Pairs(job: Job): Stats {
    job.native.stats + [("body", Str(job.native.body)), ("connection", ConnRef(job.connection))]
  }

  /** A stats Hash as the server keeps it: each name once, none of them
      `body` or `connection`. */
  predicate WellFormedStats(stats: Stats) {
    UniqueNames(stats) && forall i :: 0 <= i < |stats| ==> stats[i].0 != "body" && stats[i].0 != "connection"
  }

  /** `to_hash`: the stats with `body` and `connection` added, in ascending
      order of name, without `file`. */
  function ToHash(job: Job): (r: Stats)
    requires WellFormedStats(job.native.stats)
    ensures SortedNames(r) && UniqueNames(r)
    ensures forall e :: e in r <==> e in Pairs(job) && e.0 != "file"
    ensures ("body", Str(job.native.body)) in r && ("connection", ConnRef(job.connection)) in r
  {
    var pairs := Pairs(job);
    PairsShape(job);
    var sorted := SortByName(pairs);
    forall e ensures e in sorted <==> e in pairs {
      assert e in sorted <==> e in multiset(sorted);
    }
    WithoutStatSorted(sorted, "file");
    var r := WithoutStat(sorted, "file");
    forall i, j | 0 <= i < j < |r| ensures r[i].0 != r[j].0 {
      if r[i].0 == r[j].0 { Order.LessIrreflexive(r[i].0); }
    }
    r
  }

  /** The pairs of a well-formed job name each stat once, and end with
      `body` and `connection`. */
  lemma PairsShape(job: Job)
    requires WellFormedStats(job.native.stats)
    ensures UniqueNames(Pairs(job))
    ensures ("body", Str(job.native.body)) in Pairs(job) && ("connection", ConnRef(job.connection)) in Pairs(job)
  {
    var pairs := Pairs(job);
    assert pairs[|pairs| - 2] == ("body", Str(job.native.body));
    assert pairs[|pairs| - 1] == ("connection", ConnRef(job.connection));
  }
}
