/** The `BeanCounter` module itself: where the beanstalkd URLs come from,
    the strategy slots it fills lazily, and `reset!`. The environment and
    Beaneater's configuration are parameters; a strategy's job list,
    `job_matches?` and `delete_job` are parameters of `reset!`. */
module Core {
  import opened Wrappers
  import opened Values
  import Text
  import opened Strategy
  import GemeraldStrategy

  /** `DEFAULT_STRATEGY`. */
  const DefaultStrategyName: string := "BeanCounter::Strategy::StalkClimberStrategy"

  const NoUrlMessage: string := "Could not determine beanstalkd url"

  /** A configured URL: a String or an Array of them. */
  datatype UrlSetting = One(url: string) | Many(urls: seq<string>)

  /** The hosts in `ENV['BEANSTALKD_URL']`: split at commas, each stripped. */
  function EnvHosts(env: string): (r: seq<string>)
    ensures |r| == |Text.Split(env, ',')|
    ensures forall i :: 0 <= i < |r| ==> r[i] == Text.Strip(Text.Split(env, ',')[i])
    ensures forall i :: 0 <= i < |r| ==> ',' !in r[i]
    ensures forall i :: 0 <= i < |r| ==> r[i] == [] || (!Text.IsSpace(r[i][0]) && !Text.IsSpace(r[i][|r[i]| - 1]))
  {
    StripEach(Text.Split(env, ','))
  }

  /** `parts.map(&:strip)`, for parts that hold no comma. */
  function StripEach(parts: seq<string>): (r: seq<string>)
    requires forall i :: 0 <= i < |parts| ==> ',' !in parts[i]
    ensures |r| == |parts|
    ensures forall i :: 0 <= i < |r| ==> r[i] == Text.Strip(parts[i]) && ',' !in r[i]
  {
    if parts == [] then []
    else
      Text.StripKeepsOut(parts[0], ',');
      [Text.Strip(parts[0])] + StripEach(parts[1..])
  }

  /** `url.is_a?(Array) ? url : [url]`. */
  function AsArray(s: UrlSetting): (r: seq<string>)
    ensures s.One? ==> r == [s.url]
    ensures s.Many? ==> r == s.urls
  {
    match s
    case One(u) => [u]
    case Many(us) => us
  }

  /** `beanstalkd_url`: the hosts from the environment when it is set, else
      the explicit setting, else Beaneater's; an empty String or nothing at
      all raises RuntimeError, and the answer is always an Array. (An Array,
      even an empty one, never prints as the empty String.) */
  function BeanstalkdUrl(env: Option<string>, explicit: Option<UrlSetting>, beaneater: Option<UrlSetting>)
    : (r: Result<seq<string>, RubyError>)
    ensures env.Some? ==> r == Success(EnvHosts(env.value))
    ensures env.None? && explicit.Some? && explicit.value != One("") ==> r == Success(AsArray(explicit.value))
    ensures env.None? && explicit.None? && beaneater.Some? && beaneater.value != One("") ==>
      r == Success(AsArray(beaneater.value))
    ensures r.Failure? <==>
      env.None? &&
      (if explicit.Some? then explicit.value == One("") else beaneater.None? || beaneater.value == One(""))
    ensures r.Failure? ==> r.error == RuntimeError(NoUrlMessage)
  {
    var chosen := if env.Some? then Some(Many(EnvHosts(env.value)))
                  else if explicit.Some? then explicit
                  else beaneater;
    if chosen.None? || chosen.value == One("") then Failure(RuntimeError(NoUrlMessage))
    else Success(AsArray(chosen.value))
  }

  /** What `GemeraldBeanstalkStrategy#initialize` raises, given what
      `beanstalkd_url` answers: that method's own error, or the error of
      the first URL `parse_url` refuses; None when every URL parses. */
  function GemeraldInitialize(urls: Result<seq<string>, RubyError>): (r: Option<RubyError>)
    ensures urls.Failure? ==> r == Some(urls.error)
    ensures urls.Success? ==> (r.None? <==> forall i :: 0 <= i < |urls.value| ==> GemeraldStrategy.ParseUrl(urls.value[i]).Success?)
    ensures urls.Success? && r.Some? ==>
      exists i :: 0 <= i < |urls.value| && GemeraldStrategy.ParseUrl(urls.value[i]) == Failure(r.value) &&
        forall j :: 0 <= j < i ==> GemeraldStrategy.ParseUrl(urls.value[j]).Success?
  {
    if urls.Failure? then Some(urls.error)
    else match GemeraldStrategy.ServerAddresses(urls.value)
      case Success(_) => None
      case Failure(e) => Some(e)
  }

  /** With no URL configured anywhere, making a GemeraldBeanstalkStrategy
      raises the RuntimeError of `beanstalkd_url`. */
  lemma GemeraldWithoutUrl()
    ensures GemeraldInitialize(BeanstalkdUrl(None, None, None)) == Some(RuntimeError(NoUrlMessage))
  {
  }

  /** An object made by `klass.new`; `serial` tells instances apart. */
  datatype Instance = Instance(klass: RubyClass, serial: nat)

  /** The module-level slots of `BeanCounter`. */
  class BeanCounter {
    /** `@strategy`. */
    var strategySlot: Option<Instance>
    /** `@default_strategy`. */
    var defaultStrategy: Option<RubyClass>
    /** `@beanstalkd_url`. */
    var beanstalkdUrl: Option<UrlSetting>
    /** How many instances `new` has made so far. */
    var created: nat

    constructor()
      ensures strategySlot == None && defaultStrategy == None && beanstalkdUrl == None && created == 0
    {
      strategySlot := None;
      defaultStrategy := None;
      beanstalkdUrl := None;
      created := 0;
    }

    /** `beanstalkd_url=(value)`. */
    method SetBeanstalkdUrl(value: Option<UrlSetting>)
      modifies this
      ensures beanstalkdUrl == value
      ensures strategySlot == old(strategySlot) && defaultStrategy == old(defaultStrategy) && created == old(created)
    {
      beanstalkdUrl := value;
    }

    /** `beanstalkd_url`, read with this module's own setting. */
    function Urls(env: Option<string>, beaneater: Option<UrlSetting>): Result<seq<string>, RubyError>
      reads this
    {
      BeanstalkdUrl(env, beanstalkdUrl, beaneater)
    }

    /** `klass.new`: `construct(klass)` is what the class's `initialize`
        raises, None when it returns. An instance is made only when it
        returns. */
    method New(klass: RubyClass, construct: RubyClass -> Option<RubyError>) returns (r: Result<Instance, RubyError>)
      modifies this
      ensures construct(klass).Some? ==> r == Failure(construct(klass).value) && created == old(created)
      ensures construct(klass).None? ==> r == Success(Instance(klass, old(created))) && created == old(created) + 1
      ensures strategySlot == old(strategySlot) && defaultStrategy == old(defaultStrategy) && beanstalkdUrl == old(beanstalkdUrl)
    {
      if construct(klass).Some? {
        return Failure(construct(klass).value);
      }
      r := Success(Instance(klass, created));
      created := created + 1;
    }

    /** `default_strategy`: the class named by `DEFAULT_STRATEGY`, looked
        up once and remembered. */
    method DefaultStrategy(registry: Registry) returns (r: Result<RubyClass, RubyError>)
      modifies this
      ensures old(defaultStrategy).Some? ==> r == Success(old(defaultStrategy).value) && defaultStrategy == old(defaultStrategy)
      ensures old(defaultStrategy).None? ==> r == registry.MaterializeStrategy(NameIdent(DefaultStrategyName, Symbol))
      ensures old(defaultStrategy).None? && r.Success? ==> defaultStrategy == Some(r.value)
      ensures r.Failure? ==> defaultStrategy == old(defaultStrategy)
      ensures strategySlot == old(strategySlot) && beanstalkdUrl == old(beanstalkdUrl) && created == old(created)
    {
      if defaultStrategy.Some? {
        return Success(defaultStrategy.value);
      }
      r := registry.MaterializeStrategy(NameIdent(DefaultStrategyName, Symbol));
      if r.Success? {
        defaultStrategy := Some(r.value);
      }
    }

    /** `strategy=(identifier)`: nil empties the slot; anything else is
        materialized and a new instance of it fills the slot; an identifier
        that is not a strategy raises ArgumentError, and a class whose
        `initialize` raises passes that error on; either way the slot is
        left as it was. */
    method SetStrategy(registry: Registry, construct: RubyClass -> Option<RubyError>, id: Option<Identifier>)
      returns (r: Result<(), RubyError>)
      modifies this
      ensures id.None? ==> r.Success? && strategySlot == None && created == old(created)
      ensures id.Some? ==>
        (r.Success? <==> registry.KnownStrategy(id.value) && construct(registry.MaterializeStrategy(id.value).value).None?)
      ensures id.Some? && r.Success? ==>
        strategySlot == Some(Instance(registry.MaterializeStrategy(id.value).value, old(created))) &&
        created == old(created) + 1
      ensures id.Some? && !registry.KnownStrategy(id.value) ==> r.Failure? && r.error.ArgumentError?
      ensures id.Some? && registry.KnownStrategy(id.value) && r.Failure? ==>
        r == Failure(construct(registry.MaterializeStrategy(id.value).value).value)
      ensures r.Failure? ==> strategySlot == old(strategySlot) && created == old(created)
      ensures defaultStrategy == old(defaultStrategy) && beanstalkdUrl == old(beanstalkdUrl)
    {
      if id.None? {
        strategySlot := None;
        return Success(());
      }
      var klass := registry.MaterializeStrategy(id.value);
      if klass.Failure? {
        return Failure(klass.error);
      }
      var instance := New(klass.value, construct);
      if instance.Failure? {
        return Failure(instance.error);
      }
      strategySlot := Some(instance.value);
      r := Success(());
    }

    /** `strategy`: the instance in the slot, or a new instance of the
        default strategy, which then stays in the slot. Looking the default
        class up, or its `initialize`, may raise; then the slot stays
        empty. */
    method GetStrategy(registry: Registry, construct: RubyClass -> Option<RubyError>) returns (r: Result<Instance, RubyError>)
      modifies this
      ensures old(strategySlot).Some? ==> r == Success(old(strategySlot).value) && created == old(created)
      ensures r.Success? ==> strategySlot == Some(r.value)
      ensures r.Failure? ==> strategySlot == old(strategySlot) && created == old(created)
      ensures old(strategySlot).None? && r.Success? ==>
        r.value.serial == old(created) && created == old(created) + 1 && defaultStrategy == Some(r.value.klass)
      ensures (old(strategySlot).None? && old(defaultStrategy).None? &&
               registry.MaterializeStrategy(NameIdent(DefaultStrategyName, Symbol)).Failure?) ==>
                r == Failure(registry.MaterializeStrategy(NameIdent(DefaultStrategyName, Symbol)).error) &&
                defaultStrategy == old(defaultStrategy)
      ensures old(strategySlot).None? && old(defaultStrategy).Some? ==>
        r == (if construct(old(defaultStrategy).value).Some? then Failure(construct(old(defaultStrategy).value).value)
              else Success(Instance(old(defaultStrategy).value, old(created))))
      ensures (old(strategySlot).None? && old(defaultStrategy).None? &&
               registry.MaterializeStrategy(NameIdent(DefaultStrategyName, Symbol)).Success?) ==>
                var klass := registry.MaterializeStrategy(NameIdent(DefaultStrategyName, Symbol)).value;
                defaultStrategy == Some(klass) &&
                r == (if construct(klass).Some? then Failure(construct(klass).value) else Success(Instance(klass, old(created))))
      ensures old(strategySlot).Some? || old(defaultStrategy).Some? ==> defaultStrategy == old(defaultStrategy)
      ensures beanstalkdUrl == old(beanstalkdUrl)
    {
      if strategySlot.Some? {
        return Success(strategySlot.value);
      }
      var klass := DefaultStrategy(registry);
      if klass.Failure? {
        return Failure(klass.error);
      }
      var instance := New(klass.value, construct);
      if instance.Failure? {
        return Failure(instance.error);
      }
      strategySlot := Some(instance.value);
      r := instance;
    }

    /** Asking twice gives the same instance: the second call creates none. */
    method GetStrategyTwice(registry: Registry, construct: RubyClass -> Option<RubyError>)
      returns (first: Result<Instance, RubyError>, second: Result<Instance, RubyError>)
      modifies this
      ensures first.Success? ==> second == first
    {
      first := GetStrategy(registry, construct);
      second := GetStrategy(registry, construct);
    }
  }

  // ---------------------------------------------------------------------
  // reset!

  /** `{:tube => tube_name}`. */
  function TubeOption(tubeName: string): (r: Options)
    ensures Lookup(r, Key("tube", Symbol)) == Some(Exact(Str(tubeName)))
  {
    [(Key("tube", Symbol), Exact(Str(tubeName)))]
  }

  /** Whether `reset!` tries to delete `job`: every job without a tube
      name, otherwise the jobs `job_matches?` places in that tube. */
  predicate Selected<J>(tubeName: Option<string>, jobMatches: (J, Options) -> bool, job: J) {
    tubeName.None? || jobMatches(job, TubeOption(tubeName.value))
  }

  /** The jobs `reset!` hands to `delete_job`, in pool order. */
  function Attempted<J(==,!new)>(tubeName: Option<string>, jobs: seq<J>, jobMatches: (J, Options) -> bool): (r: seq<J>)
    ensures |r| <= |jobs|
    ensures forall j :: j in r <==> j in jobs && Selected(tubeName, jobMatches, j)
    ensures tubeName.None? ==> r == jobs
  {
    if jobs == [] then []
    else
      var last := jobs[|jobs| - 1];
      assert jobs == jobs[..|jobs| - 1] + [last];
      Attempted(tubeName, jobs[..|jobs| - 1], jobMatches) + (if Selected(tubeName, jobMatches, last) then [last] else [])
  }

  /** Some delete among the attempted ones succeeded. */
  predicate AnyDeleted<J>(tubeName: Option<string>, jobs: seq<J>, jobMatches: (J, Options) -> bool, deleteJob: J -> bool) {
    exists k :: 0 <= k < |jobs| && Selected(tubeName, jobMatches, jobs[k]) && deleteJob(jobs[k])
  }

  /** Every attempted delete succeeded. */
  predicate AllDeleted<J>(tubeName: Option<string>, jobs: seq<J>, jobMatches: (J, Options) -> bool, deleteJob: J -> bool) {
    forall k :: 0 <= k < |jobs| && Selected(tubeName, jobMatches, jobs[k]) ==> deleteJob(jobs[k])
  }

  /** One more job walked by `reset!` is attempted when it is selected. */
  lemma AttemptedStep<J(!new)>(tubeName: Option<string>, jobs: seq<J>, jobMatches: (J, Options) -> bool, i: nat)
    requires i < |jobs|
    ensures Attempted(tubeName, jobs[..i + 1], jobMatches) ==
      Attempted(tubeName, jobs[..i], jobMatches) + (if Selected(tubeName, jobMatches, jobs[i]) then [jobs[i]] else [])
  {
    assert jobs[..i + 1][..i] == jobs[..i];
    assert jobs[..i + 1][i] == jobs[i];
  }

  /** One more job walked by `reset!` counts towards "some delete succeeded". */
  lemma AnyDeletedStep<J>(tubeName: Option<string>, jobs: seq<J>, jobMatches: (J, Options) -> bool,
                          deleteJob: J -> bool, i: nat)
    requires i < |jobs|
    ensures AnyDeleted(tubeName, jobs[..i + 1], jobMatches, deleteJob) <==>
      AnyDeleted(tubeName, jobs[..i], jobMatches, deleteJob) || (Selected(tubeName, jobMatches, jobs[i]) && deleteJob(jobs[i]))
  {
    var longer, shorter := jobs[..i + 1], jobs[..i];
    if AnyDeleted(tubeName, longer, jobMatches, deleteJob) {
      var k :| 0 <= k < |longer| && Selected(tubeName, jobMatches, longer[k]) && deleteJob(longer[k]);
      if k < i { assert shorter[k] == longer[k]; }
    }
    if AnyDeleted(tubeName, shorter, jobMatches, deleteJob) {
      var k :| 0 <= k < |shorter| && Selected(tubeName, jobMatches, shorter[k]) && deleteJob(shorter[k]);
      assert longer[k] == shorter[k];
    }
    if Selected(tubeName, jobMatches, jobs[i]) && deleteJob(jobs[i]) {
      assert longer[i] == jobs[i];
    }
  }

  /** Some attempted delete failed. */
  predicate SomeFailed<J>(tubeName: Option<string>, jobs: seq<J>, jobMatches: (J, Options) -> bool, deleteJob: J -> bool) {
    exists k :: 0 <= k < |jobs| && Selected(tubeName, jobMatches, jobs[k]) && !deleteJob(jobs[k])
  }

  /** Every attempted delete succeeded exactly when none failed. */
  lemma AllDeletedNoneFailed<J>(tubeName: Option<string>, jobs: seq<J>, jobMatches: (J, Options) -> bool, deleteJob: J -> bool)
    ensures AllDeleted(tubeName, jobs, jobMatches, deleteJob) <==> !SomeFailed(tubeName, jobs, jobMatches, deleteJob)
  {
  }

  /** One more job walked by `reset!` counts towards "some delete failed". */
  lemma SomeFailedStep<J>(tubeName: Option<string>, jobs: seq<J>, jobMatches: (J, Options) -> bool,
                          deleteJob: J -> bool, i: nat)
    requires i < |jobs|
    ensures SomeFailed(tubeName, jobs[..i + 1], jobMatches, deleteJob) <==>
      SomeFailed(tubeName, jobs[..i], jobMatches, deleteJob) || (Selected(tubeName, jobMatches, jobs[i]) && !deleteJob(jobs[i]))
  {
    var longer, shorter := jobs[..i + 1], jobs[..i];
    if SomeFailed(tubeName, longer, jobMatches, deleteJob) {
      var k :| 0 <= k < |longer| && Selected(tubeName, jobMatches, longer[k]) && !deleteJob(longer[k]);
      if k < i { assert shorter[k] == longer[k]; }
    }
    if SomeFailed(tubeName, shorter, jobMatches, deleteJob) {
      var k :| 0 <= k < |shorter| && Selected(tubeName, jobMatches, shorter[k]) && !deleteJob(shorter[k]);
      assert longer[k] == shorter[k];
    }
    if Selected(tubeName, jobMatches, jobs[i]) && !deleteJob(jobs[i]) {
      assert longer[i] == jobs[i];
    }
  }

  /** `reset!(tube_name)` as written: `partial_failure ||= success` turns
      true as soon as one delete succeeds, so the answer is true exactly
      when no delete succeeded. */
  method ResetAsWritten<J(==,!new)>(tubeName: Option<string>, jobs: seq<J>, jobMatches: (J, Options) -> bool, deleteJob: J -> bool)
    returns (r: bool, attempted: seq<J>)
    ensures attempted == Attempted(tubeName, jobs, jobMatches)
    ensures r <==> !AnyDeleted(tubeName, jobs, jobMatches, deleteJob)
  {
    var partialFailure := false;
    attempted := [];
    var i := 0;
    while i < |jobs|
      invariant 0 <= i <= |jobs|
      invariant attempted == Attempted(tubeName, jobs[..i], jobMatches)
      invariant partialFailure <==> AnyDeleted(tubeName, jobs[..i], jobMatches, deleteJob)
    {
      // a job that is skipped leaves `success` nil
      AttemptedStep(tubeName, jobs, jobMatches, i);
      AnyDeletedStep(tubeName, jobs, jobMatches, deleteJob, i);
      var success := false;
      if Selected(tubeName, jobMatches, jobs[i]) {
        success := deleteJob(jobs[i]);
        attempted := attempted + [jobs[i]];
      }
      partialFailure := partialFailure || success;
      i := i + 1;
    }
    assert jobs[..i] == jobs;
    r := !partialFailure;
  }

  /** `reset!(tube_name)` as documented: true when every attempted delete
      succeeded, false as soon as one of them fails. */
  method Reset<J(==,!new)>(tubeName: Option<string>, jobs: seq<J>, jobMatches: (J, Options) -> bool, deleteJob: J -> bool)
    returns (r: bool, attempted: seq<J>)
    ensures attempted == Attempted(tubeName, jobs, jobMatches)
    ensures r <==> AllDeleted(tubeName, jobs, jobMatches, deleteJob)
  {
    var allDeleted := true;
    attempted := [];
    var i := 0;
    while i < |jobs|
      invariant 0 <= i <= |jobs|
      invariant attempted == Attempted(tubeName, jobs[..i], jobMatches)
      invariant !allDeleted <==> SomeFailed(tubeName, jobs[..i], jobMatches, deleteJob)
    {
      AttemptedStep(tubeName, jobs, jobMatches, i);
      SomeFailedStep(tubeName, jobs, jobMatches, deleteJob, i);
      // a job that is skipped cannot fail
      var success := true;
      if Selected(tubeName, jobMatches, jobs[i]) {
        success := deleteJob(jobs[i]);
        attempted := attempted + [jobs[i]];
      }
      allDeleted := allDeleted && success;
      i := i + 1;
    }
    assert jobs[..i] == jobs;
    AllDeletedNoneFailed(tubeName, jobs, jobMatches, deleteJob);
    r := allDeleted;
  }

  /** One job in the pool, deleted successfully: every delete succeeded,
      yet `reset!` as written answers false. */
  lemma ResetAsWrittenMisreports()
    ensures AllDeleted(None, [0], (j: int, o: Options) => false, (j: int) => true)
    ensures AnyDeleted(None, [0], (j: int, o: Options) => false, (j: int) => true)
  {
    assert Selected(None, (j: int, o: Options) => false, [0][0]);
  }
}
