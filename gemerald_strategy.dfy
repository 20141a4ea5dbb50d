/** `BeanCounter::Strategy::GemeraldBeanstalkStrategy`: the backend that
    reads in-process servers directly. The servers' job and tube lists are
    inputs; the caller's block is the change it makes to them. */
module GemeraldStrategy {
  import opened Wrappers
  import opened Values
  import Text
  import Lists
  import opened Catalog
  import opened Matching
  import opened GemeraldJob
  import opened GemeraldTube

  // ---------------------------------------------------------------------
  // Collecting the jobs a block enqueues

  /** The id of a server's newest job, 0 for a server without jobs. */
  function LastId(jobs: seq<NativeJob>): int {
    if jobs == [] then 0 else jobs[|jobs| - 1].id
  }

  /** The ids taken before the block runs, one per server. */
  function Snapshot(bs: seq<Beanstalk>): (r: seq<int>)
    ensures |r| == |bs|
    ensures forall k :: 0 <= k < |bs| ==> r[k] == LastId(bs[k].jobs)
  {
    if bs == [] then [] else [LastId(bs[0].jobs)] + Snapshot(bs[1..])
  }

  /** The jobs the tail walk reaches: the longest run at the end of
      `jobs` whose ids are all above `snap`. */
  function NewerTail(jobs: seq<NativeJob>, snap: int): (r: seq<NativeJob>)
    ensures |r| <= |jobs| && r == jobs[|jobs| - |r|..]
    ensures forall i :: 0 <= i < |r| ==> r[i].id > snap
    ensures |r| < |jobs| ==> jobs[|jobs| - |r| - 1].id <= snap
  {
    if jobs == [] || jobs[|jobs| - 1].id <= snap then []
    else
      var rest := NewerTail(jobs[..|jobs| - 1], snap);
      assert jobs[..|jobs| - 1][|jobs| - 1 - |rest|..] + [jobs[|jobs| - 1]] == jobs[|jobs| - |rest| - 1..];
      rest + [jobs[|jobs| - 1]]
  }

  /** `strategy_job` over a server's jobs: each paired with the server's client. */
  function Wrap(jobs: seq<NativeJob>, client: Conn): (r: seq<Job>)
    ensures |r| == |jobs|
    ensures forall i :: 0 <= i < |jobs| ==> r[i] == Job(jobs[i], client)
  {
    if jobs == [] then [] else [Job(jobs[0], client)] + Wrap(jobs[1..], client)
  }

  /** What the collector returns: for each server in declared order, the
      jobs whose ids are above its snapshot, oldest first. */
  function NewJobs(snap: seq<int>, after: seq<Beanstalk>, clients: seq<Conn>): seq<Job>
    requires |snap| == |after| == |clients|
    decreases |after|
  {
    if after == [] then []
    else Wrap(NewerTail(after[0].jobs, snap[0]), clients[0]) + NewJobs(snap[1..], after[1..], clients[1..])
  }

  /** The walk stops where the ids fall to the snapshot: what it passed is
      exactly the newer tail. */
  lemma TailWalkStop(jobs: seq<NativeJob>, snap: int, index: int)
    requires -1 <= index < |jobs|
    requires forall i :: index < i < |jobs| ==> jobs[i].id > snap
    requires index < 0 || jobs[index].id <= snap
    ensures NewerTail(jobs, snap) == jobs[index + 1..]
  {
    var r := NewerTail(jobs, snap);
  }

  /** Pushing one more job from the walk. */
  lemma PushReversed(acc: seq<Job>, jobs: seq<NativeJob>, index: int, client: Conn)
    requires 0 <= index < |jobs|
    ensures acc + Lists.Reverse(Wrap(jobs[index + 1..], client)) + [Job(jobs[index], client)]
         == acc + Lists.Reverse(Wrap(jobs[index..], client))
  {
    assert Wrap(jobs[index..], client) == [Job(jobs[index], client)] + Wrap(jobs[index + 1..], client);
    Lists.ReverseAppend([Job(jobs[index], client)], Wrap(jobs[index + 1..], client));
  }

  /** One server done: its newer tail goes in front of the later servers'. */
  lemma ServerDone(snap: seq<int>, after: seq<Beanstalk>, clients: seq<Conn>, k: nat)
    requires |snap| == |after| == |clients| && k < |after|
    ensures Lists.Reverse(NewJobs(snap[k + 1..], after[k + 1..], clients[k + 1..]))
              + Lists.Reverse(Wrap(NewerTail(after[k].jobs, snap[k]), clients[k]))
         == Lists.Reverse(NewJobs(snap[k..], after[k..], clients[k..]))
  {
    assert snap[k..][1..] == snap[k + 1..] && after[k..][1..] == after[k + 1..] && clients[k..][1..] == clients[k + 1..];
    Lists.ReverseAppend(Wrap(NewerTail(after[k].jobs, snap[k]), clients[k]), NewJobs(snap[k + 1..], after[k + 1..], clients[k + 1..]));
  }

  /** The walk over one server's job list, from its tail back while the
      ids are above `snap`, pushing each job onto `acc`. */
  method WalkBack(jobs: seq<NativeJob>, snap: int, client: Conn, acc: seq<Job>) returns (r: seq<Job>)
    ensures r == acc + Lists.Reverse(Wrap(NewerTail(jobs, snap), client))
  {
    r := acc;
    var index := |jobs| - 1;
    while index >= 0 && jobs[index].id > snap
      invariant -1 <= index < |jobs|
      invariant forall i :: index < i < |jobs| ==> jobs[i].id > snap
      invariant r == acc + Lists.Reverse(Wrap(jobs[index + 1..], client))
    {
      PushReversed(acc, jobs, index, client);
      r := r + [Job(jobs[index], client)];
      index := index - 1;
    }
    TailWalkStop(jobs, snap, index);
  }

  /** `collect_new_jobs { ... }`: `before` is the pool when the call
      starts, `after` the pool once the block has run. Ids are snapshotted
      first, then each server's job list is walked from its tail while the
      ids are above the snapshot, servers taken last to first, and the
      collected list is reversed at the end. */
  method CollectNewJobs(blockGiven: bool, before: seq<Beanstalk>, after: seq<Beanstalk>, clients: seq<Conn>)
    returns (r: Result<seq<Job>, RubyError>)
    requires |before| == |after| == |clients|
    ensures !blockGiven ==> r == Failure(ArgumentError("Block required"))
    ensures blockGiven ==> r == Success(NewJobs(Snapshot(before), after, clients))
  {
    if !blockGiven {
      return Failure(ArgumentError("Block required"));
    }
    var maxIds := Snapshot(before);
    var newJobs: seq<Job> := [];
    var k := |after|;
    while k > 0
      invariant 0 <= k <= |after|
      invariant newJobs == Lists.Reverse(NewJobs(maxIds[k..], after[k..], clients[k..]))
    {
      k := k - 1;
      newJobs := WalkBack(after[k].jobs, maxIds[k], clients[k], newJobs);
      ServerDone(maxIds, after, clients, k);
    }
    assert maxIds[0..] == maxIds && after[0..] == after && clients[0..] == clients;
    Lists.ReverseReverse(NewJobs(maxIds, after, clients));
    return Success(Lists.Reverse(newJobs));
  }

  /** Ids a server hands out grow with every put and start at 1. */
  predicate AscendingIds(jobs: seq<NativeJob>) {
    (forall i, j :: 0 <= i < j < |jobs| ==> jobs[i].id < jobs[j].id) &&
    forall i :: 0 <= i < |jobs| ==> jobs[i].id >= 1
  }

  /** The jobs a block put on one server are exactly its newer tail. */
  lemma NewerTailIsAdded(prior: seq<NativeJob>, added: seq<NativeJob>)
    requires AscendingIds(prior + added)
    ensures NewerTail(prior + added, LastId(prior)) == added
  {
    var jobs := prior + added;
    forall i | |prior| - 1 < i < |jobs| ensures jobs[i].id > LastId(prior) {
      if prior != [] {
        assert jobs[|prior| - 1] == prior[|prior| - 1];
      }
    }
    if prior != [] {
      assert jobs[|prior| - 1] == prior[|prior| - 1];
    }
    TailWalkStop(jobs, LastId(prior), |prior| - 1);
    assert jobs[|prior|..] == added;
  }

  /** The handles for what a block put on each server, servers in order. */
  function AddedJobs(added: seq<seq<NativeJob>>, clients: seq<Conn>): seq<Job>
    requires |added| == |clients|
  {
    if added == [] then [] else Wrap(added[0], clients[0]) + AddedJobs(added[1..], clients[1..])
  }

  /** When the block only appends jobs, the collector returns exactly what
      it appended: server by server in declared order, each server's jobs
      in the order they were put, whatever the per-server counts. */
  lemma {:induction false} CollectsWhatBlockAdded(before: seq<Beanstalk>, after: seq<Beanstalk>,
                                                  clients: seq<Conn>, added: seq<seq<NativeJob>>)
    requires |before| == |after| == |clients| == |added|
    requires forall k :: 0 <= k < |after| ==>
      after[k].jobs == before[k].jobs + added[k] && AscendingIds(after[k].jobs)
    ensures NewJobs(Snapshot(before), after, clients) == AddedJobs(added, clients)
  {
    if after != [] {
      NewerTailIsAdded(before[0].jobs, added[0]);
      CollectsWhatBlockAdded(before[1..], after[1..], clients[1..], added[1..]);
    }
  }

  /** A block that enqueues nothing collects nothing. */
  lemma {:induction false} NothingEnqueuedNothingCollected(bs: seq<Beanstalk>, clients: seq<Conn>)
    requires |bs| == |clients|
    ensures NewJobs(Snapshot(bs), bs, clients) == []
  {
    if bs != [] {
      NothingEnqueuedNothingCollected(bs[1..], clients[1..]);
    }
  }

  // ---------------------------------------------------------------------
  // Enumerating jobs and tubes

  /** `jobs`: every job of every server, servers in declared order and each
      server's jobs in list order. */
  function AllJobs(bs: seq<Beanstalk>, clients: seq<Conn>): (r: seq<Job>)
    requires |bs| == |clients|
    ensures forall x :: x in r ==> x.connection in clients
  {
    if bs == [] then [] else Wrap(bs[0].jobs, clients[0]) + AllJobs(bs[1..], clients[1..])
  }

  /** A handle is enumerated exactly when it wraps one of some server's
      jobs with that server's client. */
  lemma {:induction false} AllJobsMembership(bs: seq<Beanstalk>, clients: seq<Conn>, x: Job)
    requires |bs| == |clients|
    ensures x in AllJobs(bs, clients) <==>
      exists k, i :: 0 <= k < |bs| && 0 <= i < |bs[k].jobs| && x == Job(bs[k].jobs[i], clients[k])
  {
    if bs != [] {
      AllJobsMembership(bs[1..], clients[1..], x);
      var head := Wrap(bs[0].jobs, clients[0]);
      if x in head {
        var i :| 0 <= i < |head| && head[i] == x;
        assert x == Job(bs[0].jobs[i], clients[0]);
      }
      if exists k, i :: 0 <= k < |bs| && 0 <= i < |bs[k].jobs| && x == Job(bs[k].jobs[i], clients[k]) {
        var k, i :| 0 <= k < |bs| && 0 <= i < |bs[k].jobs| && x == Job(bs[k].jobs[i], clients[k]);
        if k == 0 {
          assert head[i] == x;
        } else {
          assert bs[1..][k - 1] == bs[k] && clients[1..][k - 1] == clients[k];
        }
      }
      if x in AllJobs(bs[1..], clients[1..]) {
        var k, i :| 0 <= k < |bs[1..]| && 0 <= i < |bs[1..][k].jobs| && x == Job(bs[1..][k].jobs[i], clients[1..][k]);
        assert bs[k + 1] == bs[1..][k] && clients[k + 1] == clients[1..][k];
      }
    }
  }

  /** `tubes`: a handle for each tube name of the pool, each name once in
      the order the names first show up. */
  function AllTubes(bs: seq<Beanstalk>): (r: seq<Tube>)
    ensures |r| == |TubesInPool(bs)|
    ensures forall i :: 0 <= i < |r| ==> r[i] == Tube(TubesInPool(bs)[i], bs)
  {
    var names := TubesInPool(bs);
    seq(|names|, i requires 0 <= i < |names| => Tube(names[i], bs))
  }

  /** Each tube on any server is enumerated, exactly once, and every
      enumerated tube exists. */
  lemma AllTubesMeaning(bs: seq<Beanstalk>)
    ensures forall i, j :: 0 <= i < j < |AllTubes(bs)| ==> AllTubes(bs)[i].name != AllTubes(bs)[j].name
    ensures forall n :: Tube(n, bs) in AllTubes(bs) <==> exists k :: 0 <= k < |bs| && TubeNamed(bs[k], n).Some?
    ensures forall i :: 0 <= i < |AllTubes(bs)| ==> AllTubes(bs)[i].beanstalks == bs && GemeraldTube.Exists(AllTubes(bs)[i])
  {
    var r := AllTubes(bs);
    var names := TubesInPool(bs);
    forall n ensures Tube(n, bs) in r <==> n in names {
      if n in names {
        var i :| 0 <= i < |names| && names[i] == n;
        assert r[i] == Tube(n, bs);
      }
    }
    forall i | 0 <= i < |r| ensures GemeraldTube.Exists(r[i]) {
      assert names[i] in names;
    }
  }

  /** Of two enumerated tubes, the one whose name shows up first among the
      servers' tube lists comes first. */
  lemma AllTubesOrder(bs: seq<Beanstalk>, a: nat, b: nat)
    requires a < b < |AllTubes(bs)|
    ensures AllTubes(bs)[a].name in PoolTubeNames(bs) && AllTubes(bs)[b].name in PoolTubeNames(bs)
    ensures Lists.FirstIndex(PoolTubeNames(bs), AllTubes(bs)[a].name) < Lists.FirstIndex(PoolTubeNames(bs), AllTubes(bs)[b].name)
  {
    Lists.UniqOrder(PoolTubeNames(bs), {}, a, b);
  }

  // ---------------------------------------------------------------------
  // Matching

  /** The method a key names on this backend: hyphens become underscores. */
  function MethodFor(k: Key): (r: Option<string>)
    ensures r.Some? && '-' !in r.value
  {
    Some(Text.Underscore(k.name))
  }

  /** Every job catalog key reads the job attribute it names. */
  lemma JobLive(job: Job, send: string -> Result<Value, RubyError>)
    requires forall s :: send(s) == JobSend(job, s)
    ensures forall k :: k in MatchableJobAttributes() ==> Live(k, MethodFor, send) == Success(Attribute(job, k.name))
  {
    forall k | k in MatchableJobAttributes() ensures Live(k, MethodFor, send) == Success(Attribute(job, k.name)) {
      JobKeyMatchable(k);
      JobAccessorsAnswer(job, k.name);
    }
  }

  /** With the job's accessors, the matcher answers and reads each catalog
      key's job attribute. */
  lemma JobMatchMeaning(job: Job, present: bool, opts: Options, send: string -> Result<Value, RubyError>)
    requires forall s :: send(s) == JobSend(job, s)
    ensures Match(MatchableJobAttributes(), present, opts, MethodFor, send).Success?
    ensures Match(MatchableJobAttributes(), present, opts, MethodFor, send).value ==
      (present &&
      forall k :: k in MatchableJobAttributes() && Lookup(opts, k).Some? ==>
        Accepts(Lookup(opts, k).value, Attribute(job, k.name)))
  {
    JobLive(job, send);
    MatchMeaning(MatchableJobAttributes(), present, opts, MethodFor, send);
  }

  /** `job_matches?(job, options)`: false when the job is gone (`exists?`
      decides, from the server's `stats-job` reply), otherwise true exactly
      when every catalog key among the options accepts the attribute it
      names. A job's accessors never raise, so neither does this. */
  function JobMatches(job: Job, statsReply: string, opts: Options): (r: bool)
    ensures r <==>
      GemeraldJob.Exists(job, statsReply).answer &&
      forall k :: k in MatchableJobAttributes() && Lookup(opts, k).Some? ==>
        Accepts(Lookup(opts, k).value, Attribute(job, k.name))
  {
    var send := s => JobSend(job, s);
    var present := GemeraldJob.Exists(job, statsReply).answer;
    var m := Match(MatchableJobAttributes(), present, opts, MethodFor, send);
    JobMatchMeaning(job, present, opts, send);
    m.value
  }

  /** What a tube catalog attribute means for a tube whose merged stats are `hash`. */
  function TubeAttribute(tube: Tube, hash: Stats, name: string): Value {
    if name == "name" then Str(tube.name) else StatAt(hash, name)
  }

  /** Every tube catalog key reads the tube attribute it names. */
  lemma TubeLive(tube: Tube, send: string -> Result<Value, RubyError>)
    requires forall s :: send(s) == TubeSend(tube, s)
    requires GemeraldTube.ToHash(tube).Success?
    ensures forall k :: k in MatchableTubeAttributes() ==>
      Live(k, MethodFor, send) == Success(TubeAttribute(tube, GemeraldTube.ToHash(tube).value, k.name))
  {
    forall k | k in MatchableTubeAttributes()
      ensures Live(k, MethodFor, send) == Success(TubeAttribute(tube, GemeraldTube.ToHash(tube).value, k.name))
    {
      TubeKeyMatchable(k);
      TubeAccessorsAnswer(tube, k.name);
    }
  }

  /** With the stats unmerged, every tube catalog key but `name` raises what
      the merge raised. */
  lemma TubeDead(tube: Tube, opts: Options, send: string -> Result<Value, RubyError>)
    requires forall s :: send(s) == TubeSend(tube, s)
    requires GemeraldTube.ToHash(tube).Failure?
    ensures Match(MatchableTubeAttributes(), GemeraldTube.Exists(tube), opts, MethodFor, send).Failure? ==>
      Match(MatchableTubeAttributes(), GemeraldTube.Exists(tube), opts, MethodFor, send).error == GemeraldTube.ToHash(tube).error
  {
    var r := Match(MatchableTubeAttributes(), GemeraldTube.Exists(tube), opts, MethodFor, send);
    if r.Failure? {
      var k :| k in MatchableTubeAttributes() && Live(k, MethodFor, send) == Failure(r.error);
      TubeKeyMatchable(k);
      TubeAccessorsAnswer(tube, k.name);
    }
  }

  /** With the stats merged, the matcher answers and reads each catalog
      key's tube attribute. */
  lemma TubeMatchMeaning(tube: Tube, opts: Options, send: string -> Result<Value, RubyError>)
    requires forall s :: send(s) == TubeSend(tube, s)
    requires GemeraldTube.ToHash(tube).Success?
    ensures Match(MatchableTubeAttributes(), GemeraldTube.Exists(tube), opts, MethodFor, send).Success?
    ensures Match(MatchableTubeAttributes(), GemeraldTube.Exists(tube), opts, MethodFor, send).value <==>
      GemeraldTube.Exists(tube) &&
      forall k :: k in MatchableTubeAttributes() && Lookup(opts, k).Some? ==>
        Accepts(Lookup(opts, k).value, TubeAttribute(tube, GemeraldTube.ToHash(tube).value, k.name))
  {
    TubeLive(tube, send);
    MatchMeaning(MatchableTubeAttributes(), GemeraldTube.Exists(tube), opts, MethodFor, send);
  }

  /** `tube_matches?(tube, options)`: false for no tube or a tube no server
      has; otherwise, when the stats merge, true exactly when every catalog
      key among the options accepts the attribute it names. */
  function TubeMatches(tube: Option<Tube>, opts: Options): (r: Result<bool, RubyError>)
    ensures tube.None? ==> r == Success(false)
    ensures tube.Some? && !GemeraldTube.Exists(tube.value) ==> r == Success(false)
    ensures tube.Some? && GemeraldTube.ToHash(tube.value).Success? ==>
      r.Success? &&
      (r.value <==>
        (GemeraldTube.Exists(tube.value) &&
         forall k :: k in MatchableTubeAttributes() && Lookup(opts, k).Some? ==>
           Accepts(Lookup(opts, k).value, TubeAttribute(tube.value, GemeraldTube.ToHash(tube.value).value, k.name))))
    ensures r.Failure? ==> tube.Some? && GemeraldTube.ToHash(tube.value) == Failure(r.error)
  {
    match tube
    case None => Success(false)
    case Some(t) =>
      var send := s => TubeSend(t, s);
      if GemeraldTube.ToHash(t).Success? then
        TubeMatchMeaning(t, opts, send);
        Match(MatchableTubeAttributes(), GemeraldTube.Exists(t), opts, MethodFor, send)
      else
        TubeDead(t, opts, send);
        Match(MatchableTubeAttributes(), GemeraldTube.Exists(t), opts, MethodFor, send)
  }

  // ---------------------------------------------------------------------
  // Deleting and printing

  /** `delete_job(job)`: what the job's own `delete` answers. */
  function DeleteJob(job: Job, deleteReply: string, statsReply: string): (r: bool)
    ensures r <==> deleteReply == DeletedReply || MarkedDeleted(job) || statsReply == NotFoundReply
  {
    Delete(job, deleteReply, statsReply).answer
  }

  /** The Hash `pretty_print_job` renders: `to_hash` without `connection`. */
  function PrettyJobHash(job: Job): (r: Stats)
    requires WellFormedStats(job.native.stats)
    ensures SortedNames(r) && UniqueNames(r)
    ensures forall e :: e in r <==> e in Pairs(job) && e.0 != "file" && e.0 != "connection"
    ensures ("body", Str(job.native.body)) in r
  {
    var hash := GemeraldJob.ToHash(job);
    WithoutStatSorted(hash, "connection");
    var r := WithoutStat(hash, "connection");
    forall i, j | 0 <= i < j < |r| ensures r[i].0 != r[j].0 {
      assert r[i] in hash && r[j] in hash;
      var a :| 0 <= a < |hash| && hash[a] == r[i];
      var b :| 0 <= b < |hash| && hash[b] == r[j];
      Order.LessIrreflexive(r[i].0);
    }
    r
  }

  /** `pretty_print_job(job)`, with `render` standing for `Hash#to_s`. */
  function PrettyPrintJob(job: Job, render: Stats -> string): (r: string)
    requires WellFormedStats(job.native.stats)
    ensures exists printed: Stats ::
              r == render(printed) && SortedNames(printed) &&
              forall e :: e in printed <==> e in Pairs(job) && e.0 != "file" && e.0 != "connection"
  {
    var printed := PrettyJobHash(job);
    render(printed)
  }

  /** `pretty_print_tube(tube)`: the merged stats rendered, or what the
      merge raised. */
  function PrettyPrintTube(tube: Tube, render: Stats -> string): (r: Result<string, RubyError>)
    ensures r.Success? <==> GemeraldTube.ToHash(tube).Success?
    ensures r.Success? ==> r.value == render(GemeraldTube.ToHash(tube).value)
    ensures !GemeraldTube.Exists(tube) ==> r == Success(render([]))
  {
    assert !GemeraldTube.Exists(tube) ==> GemeraldTube.ToHash(tube) == Success([]) by {
      if !GemeraldTube.Exists(tube) {
        ToHashAbsent(tube);
      }
    }
    var hash :- GemeraldTube.ToHash(tube);
    Success(render(hash))
  }

  // ---------------------------------------------------------------------
  // Server addresses

  /** One octet of the IPv4 pattern: one to three digits worth at most 255. */
  predicate Octet(s: string) {
    1 <= |s| <= 3 && Text.AllDigits(s) && Text.DecimalValue(s) <= 255
  }

  /** Four octets separated by dots. */
  predicate DottedQuad(s: string) {
    var parts := Text.Fields(s, '.');
    |parts| == 4 && Octet(parts[0]) && Octet(parts[1]) && Octet(parts[2]) && Octet(parts[3])
  }

  /** A line `V4_IP_REGEX` accepts: a dotted quad, then optionally `:` and digits. */
  predicate V4Line(line: string) {
    var parts := Text.Fields(line, ':');
    DottedQuad(parts[0]) &&
    (|parts| == 1 || (|parts| == 2 && parts[1] != "" && Text.AllDigits(parts[1])))
  }

  /** `V4_IP_REGEX === url`. Ruby's `^` and `$` anchor at line breaks, so
      one matching line is enough. */
  predicate V4Match(url: string) {
    exists line :: line in Text.Fields(url, '\n') && V4Line(line)
  }

  /** A number up to 255 is written with at most three digits. */
  lemma SmallDecimal(n: nat)
    requires n <= 255
    ensures |Text.NatToDecimal(n)| <= 3
  {
    if n >= 10 {
      assert Text.NatToDecimal(n) == Text.NatToDecimal(n / 10) + [Text.Digit(n % 10)];
      if n / 10 >= 10 {
        assert Text.NatToDecimal(n / 10) == Text.NatToDecimal(n / 100) + [Text.Digit(n / 10 % 10)];
      }
    }
  }

  /** The decimal text of a number up to 255 is an octet. */
  lemma OctetText(n: nat)
    requires n <= 255
    ensures Octet(Text.NatToDecimal(n))
  {
    SmallDecimal(n);
    Text.DecimalValueOfNatToDecimal(n);
  }

  /** Decimal text holds no separator. */
  lemma DecimalHasNo(n: nat, c: char)
    requires !Text.IsDigit(c)
    ensures c !in Text.NatToDecimal(n)
  {
    var d := Text.NatToDecimal(n);
    forall i | 0 <= i < |d| ensures d[i] != c { }
  }

  /** `a.b.c.d` for four numbers. */
  function Quad(a: nat, b: nat, c: nat, d: nat): string {
    Text.NatToDecimal(a) + "." + (Text.NatToDecimal(b) + "." + (Text.NatToDecimal(c) + "." + Text.NatToDecimal(d)))
  }

  /** A dot-free piece, a dot and the rest: the piece is the first field. */
  lemma DotField(x: string, y: string)
    requires '.' !in x
    ensures Text.Fields(x + "." + y, '.') == [x] + Text.Fields(y, '.')
  {
    assert x + "." + y == x + ['.'] + y;
    Text.FieldsAround(x, '.', y);
  }

  /** Four dot-free pieces joined by dots split back into those pieces. */
  lemma DotFields(ta: string, tb: string, tc: string, td: string)
    requires '.' !in ta && '.' !in tb && '.' !in tc && '.' !in td
    ensures Text.Fields(ta + "." + (tb + "." + (tc + "." + td)), '.') == [ta, tb, tc, td]
  {
    Text.FieldsWithoutSeparator(td, '.');
    DotField(tc, td);
    DotField(tb, tc + "." + td);
    DotField(ta, tb + "." + (tc + "." + td));
  }

  /** Four octets in decimal, dotted, split back into those four octets. */
  lemma QuadFields(a: nat, b: nat, c: nat, d: nat)
    requires a <= 255 && b <= 255 && c <= 255 && d <= 255
    ensures DottedQuad(Quad(a, b, c, d)) && ':' !in Quad(a, b, c, d) && '\n' !in Quad(a, b, c, d)
  {
    DecimalHasNo(a, '.'); DecimalHasNo(b, '.'); DecimalHasNo(c, '.'); DecimalHasNo(d, '.');
    DotFields(Text.NatToDecimal(a), Text.NatToDecimal(b), Text.NatToDecimal(c), Text.NatToDecimal(d));
    OctetText(a); OctetText(b); OctetText(c); OctetText(d);
    DecimalHasNo(a, ':'); DecimalHasNo(b, ':'); DecimalHasNo(c, ':'); DecimalHasNo(d, ':');
    DecimalHasNo(a, '\n'); DecimalHasNo(b, '\n'); DecimalHasNo(c, '\n'); DecimalHasNo(d, '\n');
  }

  /** `V4_IP_REGEX` accepts every dotted quad of octets, with or without a
      `:port`. */
  lemma V4Address(a: nat, b: nat, c: nat, d: nat, port: Option<int>)
    requires a <= 255 && b <= 255 && c <= 255 && d <= 255 && (port.Some? ==> port.value >= 0)
    ensures V4Match(Quad(a, b, c, d) + PortSuffix(port))
  {
    var q := Quad(a, b, c, d);
    var url := q + PortSuffix(port);
    QuadFields(a, b, c, d);
    if port.Some? {
      var digits := Text.NatToDecimal(port.value);
      assert url == q + [':'] + digits;
      Text.FieldsAround(q, ':', digits);
      DecimalHasNo(port.value, ':');
      Text.FieldsWithoutSeparator(digits, ':');
      assert Text.Fields(url, ':') == [q, digits];
    } else {
      assert url == q;
      Text.FieldsWithoutSeparator(q, ':');
    }
    assert '\n' !in url;
    Text.FieldsWithoutSeparator(url, '\n');
    assert url in Text.Fields(url, '\n') && V4Line(url);
  }

  /** A fourth octet above 255 is no dotted quad. */
  lemma NoOctetAbove255(a: nat, b: nat, c: nat, d: nat)
    requires d > 255
    ensures !DottedQuad(Quad(a, b, c, d))
  {
    DecimalHasNo(a, '.'); DecimalHasNo(b, '.'); DecimalHasNo(c, '.'); DecimalHasNo(d, '.');
    DotFields(Text.NatToDecimal(a), Text.NatToDecimal(b), Text.NatToDecimal(c), Text.NatToDecimal(d));
    Text.DecimalValueOfNatToDecimal(d);
  }

  /** A URI scheme: a letter, then letters, digits, `+`, `-` or `.`. */
  predicate SchemeName(s: string) {
    s != [] && ('a' <= s[0] <= 'z' || 'A' <= s[0] <= 'Z') &&
    forall i :: 0 <= i < |s| ==>
      'a' <= s[i] <= 'z' || 'A' <= s[i] <= 'Z' || Text.IsDigit(s[i]) || s[i] == '+' || s[i] == '-' || s[i] == '.'
  }

  /** The parts of a parsed URI the parser reads. */
  datatype Uri = Uri(scheme: string, host: string, port: Option<int>)

  /** `URI.parse(url)` for the shape `scheme://host[:port][/...]`, the one
      shape that gives both a scheme and a host; None stands for any URI
      without both. The scheme is stored in lower case, as `URI` keeps it. */
  function UriOf(url: string): (r: Option<Uri>)
    ensures r.Some? ==> SchemeName(r.value.scheme) && r.value.host != "" && ':' !in r.value.host
  {
    var scheme := Text.Fields(url, ':')[0];
    if |scheme| + 3 <= |url| && url[|scheme|..|scheme| + 3] == "://" && SchemeName(scheme) then
      LowerScheme(scheme);
      UriAfterScheme(Text.Lower(scheme), url[|scheme| + 3..])
    else None
  }

  /** Lowering a scheme keeps it a scheme. */
  lemma LowerScheme(scheme: string)
    requires SchemeName(scheme)
    ensures SchemeName(Text.Lower(scheme))
  {
    var low := Text.Lower(scheme);
    forall i | 0 <= i < |low|
      ensures ('a' <= low[i] <= 'z' || Text.IsDigit(low[i]) || low[i] == '+' || low[i] == '-' || low[i] == '.')
    {
      assert low[i] == Text.LowerChar(scheme[i]);
    }
  }

  /** Any spelling of `beanstalk`, whatever its letter case, is a scheme. */
  lemma BeanstalkSpelling(scheme: string)
    requires Text.Lower(scheme) == "beanstalk"
    ensures SchemeName(scheme)
  {
    var b := "beanstalk";
    forall i | 0 <= i < |scheme|
      ensures 'a' <= scheme[i] <= 'z' || 'A' <= scheme[i] <= 'Z'
    {
      assert Text.LowerChar(scheme[i]) == b[i];
    }
  }

  /** Where an authority ends: at a path, a query or a fragment. */
  predicate EndsAuthority(c: char) {
    c == '/' || c == '?' || c == '#'
  }

  /** The authority of what follows `scheme://`: everything up to the
      first `/`, `?` or `#`. */
  function AuthorityOf(rest: string): (r: string)
    ensures |r| <= |rest| && r == rest[..|r|]
    ensures |r| < |rest| ==> EndsAuthority(rest[|r|])
    ensures forall i :: 0 <= i < |r| ==> !EndsAuthority(r[i])
  {
    if rest == [] || EndsAuthority(rest[0]) then [] else [rest[0]] + AuthorityOf(rest[1..])
  }

  /** The authority is the longest such prefix: text without a path,
      query or fragment character, followed by nothing or by one of them. */
  lemma {:induction false} AuthorityOfPrefix(a: string, tail: string)
    requires forall i :: 0 <= i < |a| ==> !EndsAuthority(a[i])
    requires tail == [] || EndsAuthority(tail[0])
    ensures AuthorityOf(a + tail) == a
  {
    if a == [] {
      assert a + tail == tail;
    } else {
      assert (a + tail)[0] == a[0];
      assert (a + tail)[1..] == a[1..] + tail;
      AuthorityOfPrefix(a[1..], tail);
      assert [a[0]] + a[1..] == a;
    }
  }

  /** The authority after `scheme://`: a `user@` prefix is userinfo and
      not part of the host. */
  function UriAfterScheme(scheme: string, rest: string): (r: Option<Uri>)
    ensures r.Some? ==> r.value.scheme == scheme && r.value.host != "" && ':' !in r.value.host
  {
    var atParts := Text.Fields(AuthorityOf(rest), '@');
    if |atParts| > 2 then None else HostPortUri(scheme, atParts[|atParts| - 1])
  }

  /** `host[:port]`: the host runs to the first `:`, and a port, when there
      is one, is all digits. */
  function HostPortUri(scheme: string, hostPort: string): (r: Option<Uri>)
    ensures r.Some? ==> r.value.scheme == scheme && r.value.host != "" && ':' !in r.value.host
  {
    var host := Text.Fields(hostPort, ':')[0];
    var portText := if |host| < |hostPort| then hostPort[|host| + 1..] else "";
    if host == "" then None
    else if portText == "" then Some(Uri(scheme, host, None))
    else if Text.AllDigits(portText) then Some(Uri(scheme, host, Some(Text.DecimalValue(portText))))
    else None
  }

  /** The `:port` part of a URL, empty without a port. */
  function PortSuffix(port: Option<int>): (r: string)
    requires port.Some? ==> port.value >= 0
    ensures forall i :: 0 <= i < |r| ==> !EndsAuthority(r[i]) && r[i] != '\n' && r[i] != '@'
  {
    if port.Some? then
      var d := Text.NatToDecimal(port.value);
      assert forall i :: 0 <= i < |d| ==> Text.IsDigit(d[i]);
      ":" + d
    else ""
  }

  /** A URL that starts with a scheme and `://` is read from what follows. */
  lemma SchemeSplit(scheme: string, rest: string)
    requires SchemeName(scheme)
    ensures UriOf(scheme + "://" + rest) == UriAfterScheme(Text.Lower(scheme), rest)
  {
    var url := scheme + "://" + rest;
    assert ':' !in scheme by {
      forall i | 0 <= i < |scheme| ensures scheme[i] != ':' { }
    }
    assert url == scheme + [':'] + ("//" + rest);
    Text.FieldsAround(scheme, ':', "//" + rest);
    assert url[|scheme|..|scheme| + 3] == "://";
    assert url[|scheme| + 3..] == rest;
  }

  /** The first field is the text before the first separator. */
  lemma {:induction false} PrefixBeforeSeparator(s: string, sep: char)
    ensures |Text.Fields(s, sep)[0]| <= |s| && s[..|Text.Fields(s, sep)[0]|] == Text.Fields(s, sep)[0]
    ensures |Text.Fields(s, sep)[0]| < |s| ==> s[|Text.Fields(s, sep)[0]|] == sep
  {
    if s != [] {
      PrefixBeforeSeparator(s[1..], sep);
    }
  }

  /** What `parse_url` returns: `[host]` or `[host, port]`; the host is nil
      only for a URL that splits into nothing. */
  datatype ParsedUrl = ParsedUrl(host: Option<string>, port: Option<int>)

  /** `parse_url(url)`: a URL the IPv4 pattern accepts, or one that is not
      a `scheme://host` URI, is split at colons into host and port; a
      `beanstalk://` URI gives its host and port; any other scheme raises. */
  function ParseUrl(url: string): (r: Result<ParsedUrl, RubyError>)
    ensures r.Failure? ==> r.error.ArgumentError?
    ensures r.Success? && r.value.port.Some? ==> r.value.port.value >= 0
  {
    var uri := if V4Match(url) then None else UriOf(url);
    if uri.Some? && uri.value.scheme != "beanstalk" then
      Failure(ArgumentError("Invalid beanstalk URI: " + url))
    else if uri.Some? then
      Success(ParsedUrl(Some(uri.value.host), uri.value.port))
    else
      var fields := Text.Split(url, ':');
      var host := if |fields| >= 1 then Some(fields[0]) else None;
      if |fields| < 2 then Success(ParsedUrl(host, None))
      else match Text.ParseDecimal(fields[1])
        case Some(port) => Success(ParsedUrl(host, Some(port)))
        case None => Failure(ArgumentError("invalid value for Integer(): \"" + fields[1] + "\""))
  }

  /** No scheme without `://` after it. */
  lemma NoUriWithoutSlashes(url: string)
    requires var scheme := Text.Fields(url, ':')[0]; |scheme| + 1 < |url| ==> url[|scheme| + 1] != '/'
    ensures UriOf(url).None?
  {
    var scheme := Text.Fields(url, ':')[0];
    assert |scheme| + 3 <= |url| ==> url[|scheme|..|scheme| + 3][1] == url[|scheme| + 1];
  }

  /** `host` or `host:port`, an IPv4 address or a name: the host, and the
      port read back as a number. */
  lemma ParseHostPort(host: string, port: nat)
    requires ':' !in host
    ensures ParseUrl(host + ":" + Text.NatToDecimal(port)) == Success(ParsedUrl(Some(host), Some(port)))
  {
    var digits := Text.NatToDecimal(port);
    var url := host + ":" + digits;
    assert url == host + [':'] + digits;
    Text.FieldsAround(host, ':', digits);
    assert url[|host| + 1] == digits[0];
    NoUriWithoutSlashes(url);
    assert ':' !in digits by {
      forall i | 0 <= i < |digits| ensures digits[i] != ':' { }
    }
    Text.FieldsWithoutSeparator(digits, ':');
    assert Text.Fields(url, ':') == [host, digits];
    assert Text.Split(url, ':') == [host, digits];
    Text.ParseDecimalRoundTrip(port);
  }

  /** A bare host: the host alone, no port. */
  lemma ParseBareHost(host: string)
    requires ':' !in host && host != ""
    ensures ParseUrl(host) == Success(ParsedUrl(Some(host), None))
  {
    Text.FieldsWithoutSeparator(host, ':');
    NoUriWithoutSlashes(host);
    assert Text.Split(host, ':') == [host];
  }

  /** A host fit for a URI authority: no `:`, `/`, `@`, `?`, `#` or line
      break. */
  predicate PlainHost(host: string) {
    host != "" && ':' !in host && '/' !in host && '\n' !in host &&
    '@' !in host && '?' !in host && '#' !in host
  }

  /** The line of a `scheme://` URL never passes as an IPv4 address: a
      scheme starts with a letter, so it is no octet. */
  lemma SchemeUrlNotV4(scheme: string, rest: string)
    requires SchemeName(scheme) && '\n' !in rest
    ensures !V4Match(scheme + "://" + rest)
  {
    var url := scheme + "://" + rest;
    assert ':' !in scheme && '\n' !in scheme by {
      forall i | 0 <= i < |scheme| ensures scheme[i] != ':' && scheme[i] != '\n' { }
    }
    assert '\n' !in url;
    Text.FieldsWithoutSeparator(url, '\n');
    assert url == scheme + [':'] + ("//" + rest);
    Text.FieldsAround(scheme, ':', "//" + rest);
    PrefixBeforeSeparator(scheme, '.');
    var first := Text.Fields(scheme, '.')[0];
    if first != [] {
      assert first[0] == scheme[0];
    }
    assert !Octet(first);
    assert !V4Line(url);
  }

  /** The `user@` part of an authority, empty without userinfo. */
  function UserPrefix(user: Option<string>): (r: string)
    ensures user.Some? ==> r == user.value + "@"
    ensures user.None? ==> r == ""
  {
    if user.Some? then user.value + "@" else ""
  }

  /** Userinfo the authority can carry: no `@`, and nothing that ends the
      authority. */
  predicate PlainUser(user: Option<string>) {
    user.Some? ==> '@' !in user.value && forall i :: 0 <= i < |user.value| ==> !EndsAuthority(user.value[i])
  }

  /** `host[:port]` gives that host and port. */
  lemma HostPortParts(scheme: string, host: string, port: Option<int>)
    requires PlainHost(host) && (port.Some? ==> port.value >= 0)
    ensures HostPortUri(scheme, host + PortSuffix(port)) == Some(Uri(scheme, host, port))
  {
    var hostPort := host + PortSuffix(port);
    if port.Some? {
      var d := Text.NatToDecimal(port.value);
      assert hostPort == host + [':'] + d;
      Text.FieldsAround(host, ':', d);
      assert hostPort[|host| + 1..] == d;
      Text.DecimalValueOfNatToDecimal(port.value);
    } else {
      assert hostPort == host;
      Text.FieldsWithoutSeparator(host, ':');
    }
  }

  /** An authority `[user@]host[:port]` holds no path, query or fragment
      character, and its last `@`-field is `host[:port]`. */
  lemma AuthorityShape(user: Option<string>, host: string, port: Option<int>)
    requires PlainUser(user) && PlainHost(host) && (port.Some? ==> port.value >= 0)
    ensures var authority := UserPrefix(user) + host + PortSuffix(port);
      (forall i :: 0 <= i < |authority| ==> !EndsAuthority(authority[i])) &&
      var atParts := Text.Fields(authority, '@');
      |atParts| <= 2 && atParts[|atParts| - 1] == host + PortSuffix(port)
  {
    var u := UserPrefix(user);
    var p := PortSuffix(port);
    var hostPort := host + p;
    var authority := u + hostPort;
    assert u + host + p == authority;
    forall i | 0 <= i < |hostPort| ensures !EndsAuthority(hostPort[i]) && hostPort[i] != '@' {
      if i < |host| {
        assert hostPort[i] in host;
      } else {
        assert hostPort[i] == p[i - |host|];
      }
    }
    forall i | 0 <= i < |authority| ensures !EndsAuthority(authority[i]) {
      if i >= |u| {
        assert authority[i] == hostPort[i - |u|];
      } else if user.Some? && i < |user.value| {
        assert authority[i] == user.value[i];
      }
    }
    assert '@' !in hostPort;
    Text.FieldsWithoutSeparator(hostPort, '@');
    if user.Some? {
      assert authority == user.value + ['@'] + hostPort;
      Text.FieldsAround(user.value, '@', hostPort);
    } else {
      assert authority == hostPort;
    }
  }

  /** The authority `[user@]host[:port]`, followed by nothing or by a path,
      query or fragment, gives that host and port; the userinfo and the
      rest are not part of them. */
  lemma AuthorityParts(scheme: string, user: Option<string>, host: string, port: Option<int>, tail: string)
    requires PlainUser(user) && PlainHost(host) && (port.Some? ==> port.value >= 0)
    requires tail == [] || EndsAuthority(tail[0])
    ensures UriAfterScheme(scheme, UserPrefix(user) + host + PortSuffix(port) + tail) == Some(Uri(scheme, host, port))
  {
    var authority := UserPrefix(user) + host + PortSuffix(port);
    AuthorityShape(user, host, port);
    AuthorityOfPrefix(authority, tail);
    assert AuthorityOf(authority + tail) == authority;
    var atParts := Text.Fields(authority, '@');
    assert |atParts| <= 2 && atParts[|atParts| - 1] == host + PortSuffix(port);
    HostPortParts(scheme, host, port);
  }

  /** The pieces of a `scheme://` URL keep its rest on one line. */
  lemma OneLine(u: string, host: string, p: string, tail: string)
    requires '\n' !in u && '\n' !in host && '\n' !in p && '\n' !in tail
    ensures '\n' !in u + host + p + tail
  {
    var rest := u + host + p + tail;
    forall i | 0 <= i < |rest| ensures rest[i] != '\n' {
      if i < |u| {
        assert rest[i] == u[i];
      } else if i < |u| + |host| {
        assert rest[i] == host[i - |u|];
      } else if i < |u| + |host| + |p| {
        assert rest[i] == p[i - |u| - |host|];
      } else {
        assert rest[i] == tail[i - |u| - |host| - |p|];
      }
    }
  }

  /** A URL outside the IPv4 pattern that parses as a URI is read from the
      URI alone. */
  lemma UriDecides(url: string, uri: Uri)
    requires !V4Match(url) && UriOf(url) == Some(uri)
    ensures ParseUrl(url) ==
      if uri.scheme == "beanstalk" then Success(ParsedUrl(Some(uri.host), uri.port))
      else Failure(ArgumentError("Invalid beanstalk URI: " + url))
  {
  }

  /** `scheme://rest` on one line is read from the URI its authority
      gives. */
  lemma SchemeUrlDecides(url: string, scheme: string, rest: string, uri: Uri)
    requires url == scheme + "://" + rest
    requires SchemeName(scheme) && '\n' !in rest && UriAfterScheme(Text.Lower(scheme), rest) == Some(uri)
    ensures ParseUrl(url) ==
      if uri.scheme == "beanstalk" then Success(ParsedUrl(Some(uri.host), uri.port))
      else Failure(ArgumentError("Invalid beanstalk URI: " + url))
  {
    SchemeUrlNotV4(scheme, rest);
    SchemeSplit(scheme, rest);
    UriDecides(url, uri);
  }

  /** What follows `scheme://` stays on one line when its pieces do. */
  lemma RestOneLine(user: Option<string>, host: string, port: Option<int>, tail: string)
    requires PlainHost(host) && (port.Some? ==> port.value >= 0)
    requires '\n' !in UserPrefix(user) && '\n' !in tail
    ensures '\n' !in UserPrefix(user) + host + PortSuffix(port) + tail
  {
    var p := PortSuffix(port);
    assert '\n' !in p by {
      forall i | 0 <= i < |p| ensures p[i] != '\n' { }
    }
    OneLine(UserPrefix(user), host, p, tail);
  }

  /** What follows `beanstalk://` in such a URL is one line, and its
      authority gives the host and port. */
  lemma BeanstalkRest(user: Option<string>, host: string, port: Option<int>, tail: string)
    requires PlainUser(user) && PlainHost(host) && (port.Some? ==> port.value >= 0)
    requires tail == [] || EndsAuthority(tail[0])
    requires '\n' !in UserPrefix(user) && '\n' !in tail
    ensures var rest := UserPrefix(user) + host + PortSuffix(port) + tail;
      '\n' !in rest && UriAfterScheme("beanstalk", rest) == Some(Uri("beanstalk", host, port))
  {
    RestOneLine(user, host, port, tail);
    AuthorityParts("beanstalk", user, host, port, tail);
  }

  /** `beanstalk://[user@]host[:port][/path|?query|#fragment]`, the scheme
      in any letter case (`BEANSTALK://`, `Beanstalk://`): the URI's host
      and port. */
  lemma ParseBeanstalkUri(scheme: string, user: Option<string>, host: string, port: Option<int>, tail: string)
    requires Text.Lower(scheme) == "beanstalk"
    requires PlainUser(user) && PlainHost(host) && (port.Some? ==> port.value >= 0)
    requires tail == [] || EndsAuthority(tail[0])
    requires '\n' !in UserPrefix(user) && '\n' !in tail
    ensures var rest := UserPrefix(user) + host + PortSuffix(port) + tail;
      ParseUrl(scheme + "://" + rest) == Success(ParsedUrl(Some(host), port))
  {
    var rest := UserPrefix(user) + host + PortSuffix(port) + tail;
    var url := scheme + "://" + rest;
    BeanstalkRest(user, host, port, tail);
    BeanstalkSpelling(scheme);
    SchemeUrlDecides(url, scheme, rest, Uri("beanstalk", host, port));
  }

  /** The upper-case spelling lowers to `beanstalk`. */
  lemma LowerUpperBeanstalk()
    ensures Text.Lower("BEANSTALK") == "beanstalk"
  {
    var low := Text.Lower("BEANSTALK");
    assert |low| == 9;
    assert low[0] == 'b' && low[1] == 'e' && low[2] == 'a' && low[3] == 'n' && low[4] == 's';
    assert low[5] == 't' && low[6] == 'a' && low[7] == 'l' && low[8] == 'k';
  }

  /** `BEANSTALK://host` is a beanstalk URL: its host, no port. */
  lemma ParseUpperCaseScheme(scheme: string, host: string)
    requires scheme == "BEANSTALK" && PlainHost(host)
    ensures ParseUrl(scheme + "://" + host) == Success(ParsedUrl(Some(host), None))
  {
    LowerUpperBeanstalk();
    ParseBeanstalkUri(scheme, None, host, None, "");
    assert UserPrefix(None) + host + PortSuffix(None) + "" == host;
  }

  /** Any `scheme://host` whose scheme is not `beanstalk` in some letter
      case raises ArgumentError. */
  lemma ParseOtherScheme(scheme: string, host: string)
    requires SchemeName(scheme) && Text.Lower(scheme) != "beanstalk" && PlainHost(host)
    ensures var url := scheme + "://" + host;
      ParseUrl(url) == Failure(ArgumentError("Invalid beanstalk URI: " + url))
  {
    assert UserPrefix(None) + host + PortSuffix(None) + "" == host;
    AuthorityParts(Text.Lower(scheme), None, host, None, "");
    SchemeUrlDecides(scheme + "://" + host, scheme, host, Uri(Text.Lower(scheme), host, None));
  }

  /** `initialize`: every configured URL parsed, in order, stopping at the
      first that raises. */
  function ServerAddresses(urls: seq<string>): (r: Result<seq<ParsedUrl>, RubyError>)
    ensures r.Success? ==> |r.value| == |urls| && forall i :: 0 <= i < |urls| ==> ParseUrl(urls[i]) == Success(r.value[i])
    ensures r.Failure? <==> exists i :: 0 <= i < |urls| && ParseUrl(urls[i]).Failure?
    ensures r.Failure? ==>
              exists i :: 0 <= i < |urls| && ParseUrl(urls[i]) == Failure(r.error) &&
                          forall j :: 0 <= j < i ==> ParseUrl(urls[j]).Success?
  {
    ParseEach(urls, ParseUrl)
  }

  /** Every URL parsed in order by `parse`, stopping at the first that
      raises; what the parser does with one URL does not matter here. */
  function ParseEach(urls: seq<string>, parse: string -> Result<ParsedUrl, RubyError>): (r: Result<seq<ParsedUrl>, RubyError>)
    ensures r.Success? ==> |r.value| == |urls| && forall i :: 0 <= i < |urls| ==> parse(urls[i]) == Success(r.value[i])
    ensures r.Failure? <==> exists i :: 0 <= i < |urls| && parse(urls[i]).Failure?
    ensures r.Failure? ==>
              exists i :: 0 <= i < |urls| && parse(urls[i]) == Failure(r.error) &&
                          forall j :: 0 <= j < i ==> parse(urls[j]).Success?
  {
    if urls == [] then Success([])
    else
      var head :- parse(urls[0]);
      var rest :- ParseEach(urls[1..], parse);
      assert forall i :: 1 <= i < |urls| ==> urls[i] == urls[1..][i - 1];
      Success([head] + rest)
  }
}
