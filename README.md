# bean_counter, modelled in Dafny

bean_counter lets a test suite make assertions about a beanstalkd work
queue: that jobs matching some attributes were enqueued (optionally a given
number of them, or only those a block enqueues), and that a tube matching
some attributes exists. This project models its core:

- the `BeanCounter` module (`core.rb`): where the server URLs come from,
  the lazily filled strategy slots, and `reset!`;
- the strategy registry and abstract interface (`strategy.rb`), with the
  two catalogs of matchable job and tube attributes;
- the two backends. `StalkClimberStrategy` crawls a pool through
  StalkClimber. `GemeraldBeanstalkStrategy` reads in-process servers
  directly, through its `Job` and `Tube` handles;
- the two expectation objects, `EnqueuedExpectation` and
  `TubeExpectation`.

Ruby's `===` is modelled by `Values.Matcher`, which covers an exact value,
a Range, a pattern and a predicate. An options Hash is an ordered sequence
of `(Key, Matcher)` pairs, where a key is a Symbol or a String. A stats Hash
is an ordered sequence of `(name, Value)` pairs.

Some things reach outside the core: server replies, the StalkClimber
crawl, the block a caller passes, the environment, Beaneater's
configuration and `Hash#to_s`. The model takes these as parameters or
inputs. `BeanCounter.strategies` (`core.rb:107-109`) simply returns
`Strategy.Registry.Strategies`.

`Core.Reset` is the corrected `reset!`, described under Findings. The
code as written is kept as `Core.ResetAsWritten`.

## Model

| member | source | states |
|---|---|---|
| Catalog.BothFormsMembership | lib/bean_counter/strategy.rb:10 | A key belongs to a catalog that lists every name as a Symbol and then as a String exactly when its name is one of the names, in either form. |
| Catalog.JobCatalogShape | lib/bean_counter/strategy.rb:5-11 | The job catalog has 15 distinct names, so 30 matchable keys. |
| Catalog.JobKeyMatchable | lib/bean_counter/strategy.rb:5-11 | A key is a matchable job attribute if and only if its name is a job attribute name, whether the key is a Symbol or a String. |
| Catalog.TubeCatalogShape | lib/bean_counter/strategy.rb:15-23 | The tube catalog has 14 distinct names, so 28 keys. `pause` and `pause-time-left` are among them. |
| Catalog.TubeNamesAscending | lib/bean_counter/strategy.rb:15-23 | The tube names are listed in strictly ascending order. |
| Catalog.TubeKeyMatchable | lib/bean_counter/strategy.rb:15-23 | A key is a matchable tube attribute if and only if its name is a tube attribute name. |
| Catalog.CmdPauseNotMatchable | lib/bean_counter/strategy.rb:15-23 | `cmd-pause` is not a tube attribute in either form. |
| Matching.RelevantKeys | lib/bean_counter/strategies/stalk_climber_strategy.rb:153 | `opts.keys & valid` holds exactly the option keys that are in the catalog, and is no longer than the options. |
| Values.Accepts | lib/bean_counter/strategies/stalk_climber_strategy.rb:154 | Ruby's `===` for the four kinds of expected value: an exact value equals the live value, a range holds an Integer live value between its bounds inclusive, a Regexp matches a String live value, and a Proc returns true for the live value. |
| Matching.AllAccept | lib/bean_counter/strategies/stalk_climber_strategy.rb:153-155 | The answer is true only when every key walked accepts its live value. When it raises, it raises the error of one of the keys walked whose accessor raised. |
| Matching.Match | lib/bean_counter/strategies/stalk_climber_strategy.rb:150-156 | A matchable that does not exist gives false. True means every catalog key among the options accepts the live value it reads. When it raises, the matchable exists and the error is the one some catalog key's accessor raised. |
| Matching.MatchMeaning | lib/bean_counter/strategies/gemerald_beanstalk_strategy/strategy.rb:187-192 | When every relevant accessor answers, the matcher does not raise. It is true if and only if the matchable exists and every catalog key among the options accepts its live value. |
| Matching.AllAcceptWitness | lib/bean_counter/strategies/stalk_climber_strategy.rb:153-155 | A false answer names a key whose expected value refuses the live value. |
| Matching.IgnoresUnknownKey | lib/bean_counter/strategies/stalk_climber_strategy.rb:153 | Removing an option whose key is not in the catalog does not change the answer. |
| Matching.ReadsOnlyCatalog | lib/bean_counter/strategies/stalk_climber_strategy.rb:154 | Two matchables whose accessors agree on the catalog keys get the same answer. |
| Strategy.IdentifierOf | lib/bean_counter/strategy.rb:30 | A subclass is registered under its name. An anonymous subclass is registered under the address inside `#<Class:...>`. |
| Strategy.InheritedAddsOne | lib/bean_counter/strategy.rb:29-32 | Defining a new subclass adds exactly one identifier, mapped to that subclass, and leaves the other entries alone. |
| Strategy.AnonymousIdentifier | lib/bean_counter/strategy.rb:30 | An anonymous subclass is identified by its address. |
| Strategy.Registry.Inherited | lib/bean_counter/strategy.rb:29-32 | The registry gains the new subclass and stays well formed: each entry is a strategy class registered under its own identifier. |
| Strategy.Registry.Strategies | lib/bean_counter/strategy.rb:91-93 | In a well-formed registry every entry returned is a strategy class stored under its own identifier. The copy `dup` makes needs nothing in the model: a map is a value. `Strategy.Registry.MaterializeStrategy` reads it. |
| Strategy.Registry.KnownStrategy | lib/bean_counter/strategy.rb:53-59 | An identifier that is neither a class nor responds to `to_sym` is never known. In a well-formed registry, a known name is a key of the registry and maps to a strategy class. `Strategy.Registry.MaterializeStrategy` succeeds exactly on known identifiers. |
| Strategy.Registry.MaterializeStrategy | lib/bean_counter/strategy.rb:74-82 | Succeeds if and only if the identifier is known. A class is returned as itself; a name returns the class registered under it, which is a strategy carrying that identifier. An unknown identifier raises ArgumentError. |
| Strategy.Registry.NameFormsAgree | lib/bean_counter/strategy.rb:53-59 | A Symbol and a String with the same text materialize alike. |
| Strategy.BaseCall | lib/bean_counter/strategy.rb:110-248 | Every interface method of the abstract base raises. A call without arguments raises NotImplementedError. A call with arguments raises ArgumentError, because every one of them is declared without parameters. |
| Strategy.BaseCallAsCalled | lib/bean_counter/core.rb:94-95 | Called with the arguments the library passes, `collect_new_jobs`, `jobs` and `tubes` raise NotImplementedError. `delete_job`, `job_matches?`, `pretty_print_job`, `pretty_print_tube` and `tube_matches?` raise ArgumentError instead. |
| StalkClimber.StatsMethodNamesShape | lib/bean_counter/strategies/stalk_climber_strategy.rb:8-17 | Every attribute of either catalog has a method. `pause` is read by `pause_time`, every other name by itself with hyphens replaced, and no method name has a hyphen. |
| StalkClimber.StatsMethodNamesInjective | lib/bean_counter/strategies/stalk_climber_strategy.rb:8-17 | No two attributes are read by the same method. |
| StalkClimber.StatsMethodName | lib/bean_counter/strategies/stalk_climber_strategy.rb:161-163 | A key has a method if and only if it is a catalog key. That method has no hyphen. `pause` is read by `pause_time`, and any other key by its name with hyphens turned into underscores. |
| StalkClimber.StatsMethodNameForms | lib/bean_counter/strategies/stalk_climber_strategy.rb:161-163 | The Symbol and String forms of a name read the same stat. |
| StalkClimber.JobMatches | lib/bean_counter/strategies/stalk_climber_strategy.rb:88-90 | A job that does not exist gives false. When its accessors answer, the result is true if and only if every job catalog key among the options accepts the stat it reads. |
| StalkClimber.TubeMatches | lib/bean_counter/strategies/stalk_climber_strategy.rb:133-135 | The same as for jobs, over the tube catalog. |
| StalkClimber.CmdPauseIgnored | lib/bean_counter/strategies/stalk_climber_strategy.rb:133-135 | A `cmd-pause` option, which is not an attribute, does not change a tube match. |
| StalkClimber.WindowMembership | lib/bean_counter/strategies/stalk_climber_strategy.rb:47-48 | A job is in one connection's window if and only if some id from min to max inclusive fetches it. |
| StalkClimber.Window | lib/bean_counter/strategies/stalk_climber_strategy.rb:47-48 | One connection's window holds at most one job per id from min to max inclusive, and none when min exceeds max. `StalkClimber.WindowMembership`, `StalkClimber.WindowAscending` and `StalkClimber.WindowIdsWithin` state what it holds and in which order. |
| StalkClimber.Collected | lib/bean_counter/strategies/stalk_climber_strategy.rb:45-50 | Collecting raises if and only if some connection of the first snapshot is missing from the second, and then the error is RangeError. `StalkClimber.CollectedMembership` states which jobs are collected. |
| StalkClimber.WindowAscending | lib/bean_counter/strategies/stalk_climber_strategy.rb:47-48 | A window's jobs come in ascending id order. |
| StalkClimber.WindowIdsWithin | lib/bean_counter/strategies/stalk_climber_strategy.rb:47-48 | Every job of a window has an id within the window's range. |
| StalkClimber.WindowEmpty | lib/bean_counter/strategies/stalk_climber_strategy.rb:47-48 | A window where no id fetches a job is empty. |
| StalkClimber.CollectedMembership | lib/bean_counter/strategies/stalk_climber_strategy.rb:46-49 | When both snapshots cover the same connections, collecting does not raise, and a job is collected if and only if some connection's window fetches it. |
| StalkClimber.NothingEnqueuedNothingCollected | lib/bean_counter/strategies/stalk_climber_strategy.rb:39-51 | If no id between the snapshots fetches a job, nothing is collected. |
| StalkClimber.CollectNewJobs | lib/bean_counter/strategies/stalk_climber_strategy.rb:39-51 | Without a block: ArgumentError "Block required". Otherwise the loop returns the windows concatenated in snapshot order. A connection missing from the second snapshot raises. |
| StalkClimber.DeleteJob | lib/bean_counter/strategies/stalk_climber_strategy.rb:64-69 | Raises only when `delete` raises something other than NotFound. Otherwise the answer is true if and only if the delete succeeded or the job no longer exists. |
| StalkClimber.StalkClimberStrategy.SetTestTube | lib/bean_counter/strategies/stalk_climber_strategy.rb:24 | The writer stores the value. |
| StalkClimber.StalkClimberStrategy.TestTube | lib/bean_counter/strategies/stalk_climber_strategy.rb:167-169 | Returns the tube that was set, or `bean_counter_stalk_climber_test`, and remembers it. |
| Lists.Uniq | lib/bean_counter/strategies/gemerald_beanstalk_strategy/strategy.rb:243 | `uniq!` keeps exactly the same members, each once. |
| Lists.UniqOrder | lib/bean_counter/strategies/gemerald_beanstalk_strategy/strategy.rb:243 | Survivors keep the order of their first occurrences. |
| Lists.Detect | lib/bean_counter/tube_expectation.rb:77-79 | `detect` finds the first element the block accepts; None means the block accepts none. |
| Lists.DetectIgnoresRest | lib/bean_counter/tube_expectation.rb:77-79 | Once an element is accepted, later elements play no part. |
| Lists.Select | lib/bean_counter/enqueued_expectation.rb:29-31 | `select` keeps exactly the elements the block accepts, each as many times as it occurs, and drops the rest. |
| Lists.SelectAppend | lib/bean_counter/enqueued_expectation.rb:29-31 | `select` keeps order: selecting from two lists joined is selecting from each and joining the results. |
| Lists.DetectIsFirstSelected | lib/bean_counter/enqueued_expectation.rb:28-36 | `detect` finds something if and only if `select` is non-empty, and what it finds is the first element selected. |
| Lists.StatForMethod | lib/bean_counter/strategies/gemerald_beanstalk_strategy/job.rb:19-23 | A generated accessor reads a stat whose underscored name is the accessor's name. No stat means no such accessor. |
| Lists.StatForMethodFinds | lib/bean_counter/strategies/gemerald_beanstalk_strategy/job.rb:19-23 | Each stat's accessor reads that stat. |
| GemeraldJob.JobStatsMethodsShape | lib/bean_counter/strategies/gemerald_beanstalk_strategy/job.rb:13-16 | The stat accessors are the job catalog without `body` and `connection`. |
| GemeraldJob.JobStatAccessor | lib/bean_counter/strategies/gemerald_beanstalk_strategy/job.rb:19-23 | Each stat's accessor returns the native job's value for that stat. |
| GemeraldJob.JobAccessorsAnswer | lib/bean_counter/strategies/gemerald_beanstalk_strategy/job.rb:7-23 | Every job catalog attribute is answered, under its name with hyphens replaced, by the attribute it names. |
| GemeraldJob.JobSend | lib/bean_counter/strategies/gemerald_beanstalk_strategy/job.rb:7-23 | `body` and `connection` answer the wrapped body and the connection. The only error is NoMethodError for a name the job has no accessor for. `GemeraldJob.JobAccessorsAnswer` states the answer for each catalog attribute. |
| GemeraldJob.Exists | lib/bean_counter/strategies/gemerald_beanstalk_strategy/job.rb:46-49 | A job marked deleted does not exist and sends nothing. Otherwise it sends `stats-job <id>` and exists unless the reply is NOT_FOUND. |
| GemeraldJob.Delete | lib/bean_counter/strategies/gemerald_beanstalk_strategy/job.rb:32-39 | Sends `delete <id>` first. The answer is true if and only if the reply is DELETED or the job no longer exists; only in the second case does the `exists?` exchange follow. |
| GemeraldJob.SortByName | lib/bean_counter/strategies/gemerald_beanstalk_strategy/job.rb:67 | `sort_by!(&:first)` returns a permutation sorted by name. |
| GemeraldJob.InsertSorted | lib/bean_counter/strategies/gemerald_beanstalk_strategy/job.rb:67 | Inserting a new name into a sorted list keeps it sorted. |
| GemeraldJob.ToHash | lib/bean_counter/strategies/gemerald_beanstalk_strategy/job.rb:62-71 | The Hash holds exactly the stats, `body` and `connection` without `file`. Names are unique and sorted. |
| GemeraldTube.TubeNamed | lib/bean_counter/strategies/gemerald_beanstalk_strategy/tube.rb:45 | `beanstalk.tubes[name]` is nil if and only if the server has no tube by that name. |
| GemeraldTube.PoolTubeNames | lib/bean_counter/strategies/gemerald_beanstalk_strategy/tube.rb:24-26 | The concatenated tube names are exactly the names some server has. |
| GemeraldTube.TubesInPool | lib/bean_counter/strategies/gemerald_beanstalk_strategy/tube.rb:24-27 | A name is listed if and only if some server of the pool has that tube, and no name is listed twice. `GemeraldTube.Exists` reads it. |
| GemeraldTube.Exists | lib/bean_counter/strategies/gemerald_beanstalk_strategy/tube.rb:23-29 | A tube exists if and only if some server of the handle has a tube by its name. |
| GemeraldTube.AddOne | lib/bean_counter/strategies/gemerald_beanstalk_strategy/tube.rb:50 | `hash[stat] += value` succeeds if and only if the total so far is an Integer. A String total raises TypeError. |
| GemeraldTube.AddNumeric | lib/bean_counter/strategies/gemerald_beanstalk_strategy/tube.rb:48-51 | Adding one server's stats fails only with TypeError or NoMethodError for `+`. `GemeraldTube.AddNumericMeaning` states the totals it leaves. |
| GemeraldTube.MergeFrom | lib/bean_counter/strategies/gemerald_beanstalk_strategy/tube.rb:44-53 | Folding over the servers fails only with the errors adding a server's stats can raise. `GemeraldTube.AddAllMeaning` and `GemeraldTube.ToHashMerges` state the merged totals. |
| GemeraldTube.AddNumericMeaning | lib/bean_counter/strategies/gemerald_beanstalk_strategy/tube.rb:48-51 | Adding one server's stats keeps the names and their order, and adds each Integer stat into its total. |
| GemeraldTube.AddAllMeaning | lib/bean_counter/strategies/gemerald_beanstalk_strategy/tube.rb:44-53 | Folding several servers' stats gives each Integer stat as the sum over all of them. |
| GemeraldTube.ToHashAbsent | lib/bean_counter/strategies/gemerald_beanstalk_strategy/tube.rb:43-54 | A tube that no server has gives the empty Hash. |
| GemeraldTube.ToHash | lib/bean_counter/strategies/gemerald_beanstalk_strategy/tube.rb:43-54 | `to_hash` fails only with TypeError or NoMethodError for `+`. `GemeraldTube.ToHashAbsent`, `GemeraldTube.ToHashSingle` and `GemeraldTube.ToHashMerges` state its value. |
| GemeraldTube.ToHashMerges | lib/bean_counter/strategies/gemerald_beanstalk_strategy/tube.rb:43-54 | The merge does not raise. It keeps the first holder's names in order. Each Integer stat is summed over every holder; any other stat takes the first holder's value. |
| GemeraldTube.ToHashSingle | lib/bean_counter/strategies/gemerald_beanstalk_strategy/tube.rb:46 | With a single holder, `to_hash` is that holder's stats. |
| GemeraldTube.TubeStatsMethodsShape | lib/bean_counter/strategies/gemerald_beanstalk_strategy/tube.rb:8-12 | The stat accessors are the tube catalog without `name`. |
| GemeraldTube.TubeStatAccessor | lib/bean_counter/strategies/gemerald_beanstalk_strategy/tube.rb:14-18 | Each stat's accessor reads that stat and is not `name`. |
| GemeraldTube.TubeAccessorsAnswer | lib/bean_counter/strategies/gemerald_beanstalk_strategy/tube.rb:4-18 | `name` answers the handle's name. Every stat reads `to_hash[stat]` and raises whatever `to_hash` raises. |
| GemeraldTube.TubeSend | lib/bean_counter/strategies/gemerald_beanstalk_strategy/tube.rb:4-18 | `name` answers the tube's name. Any other call fails only with NoMethodError for that name, or with the error `to_hash` raises. `GemeraldTube.TubeAccessorsAnswer` states the answer for each catalog attribute. |
| GemeraldStrategy.Snapshot | lib/bean_counter/strategies/gemerald_beanstalk_strategy/strategy.rb:31-34 | Each server's snapshot is its last job's id, or 0 if it has no jobs. |
| GemeraldStrategy.NewerTail | lib/bean_counter/strategies/gemerald_beanstalk_strategy/strategy.rb:43 | The tail walk passes a suffix of the job list whose ids are all above the snapshot. The job just before that suffix is at or below the snapshot. |
| GemeraldStrategy.Wrap | lib/bean_counter/strategies/gemerald_beanstalk_strategy/strategy.rb:219-221 | Each native job becomes a handle with its server's client. |
| GemeraldStrategy.WalkBack | lib/bean_counter/strategies/gemerald_beanstalk_strategy/strategy.rb:41-46 | The while loop pushes exactly the newer tail, newest first. |
| GemeraldStrategy.CollectNewJobs | lib/bean_counter/strategies/gemerald_beanstalk_strategy/strategy.rb:28-50 | Without a block: ArgumentError "Block required". Otherwise, for each server in declared order, the jobs above its snapshot, oldest first. |
| GemeraldStrategy.NewerTailIsAdded | lib/bean_counter/strategies/gemerald_beanstalk_strategy/strategy.rb:40-47 | When ids ascend, the tail walk finds exactly the jobs appended after the snapshot. |
| GemeraldStrategy.CollectsWhatBlockAdded | lib/bean_counter/strategies/gemerald_beanstalk_strategy/strategy.rb:28-50 | When the block only appends jobs, the collector returns exactly those jobs, server by server in the order they were put. |
| GemeraldStrategy.NothingEnqueuedNothingCollected | lib/bean_counter/strategies/gemerald_beanstalk_strategy/strategy.rb:28-50 | A block that enqueues nothing collects nothing. |
| GemeraldStrategy.AllJobsMembership | lib/bean_counter/strategies/gemerald_beanstalk_strategy/strategy.rb:174-182 | A handle is enumerated if and only if it wraps one of some server's jobs with that server's client. |
| GemeraldStrategy.AllJobs | lib/bean_counter/strategies/gemerald_beanstalk_strategy/strategy.rb:174-182 | Every job handle enumerated carries one of the servers' clients. `GemeraldStrategy.AllJobsMembership` states exactly which handles are enumerated. |
| GemeraldStrategy.AllTubes | lib/bean_counter/strategies/gemerald_beanstalk_strategy/strategy.rb:239-249 | One handle over the whole pool for each distinct tube name. |
| GemeraldStrategy.AllTubesMeaning | lib/bean_counter/strategies/gemerald_beanstalk_strategy/strategy.rb:239-249 | Names are distinct. A tube is enumerated if and only if some server has it, and every enumerated tube exists. |
| GemeraldStrategy.AllTubesOrder | lib/bean_counter/strategies/gemerald_beanstalk_strategy/strategy.rb:240-243 | Tubes come in the order their names first appear across the servers. |
| GemeraldStrategy.MethodFor | lib/bean_counter/strategies/gemerald_beanstalk_strategy/strategy.rb:190 | Every key names a method, its name with hyphens replaced. |
| GemeraldStrategy.JobLive | lib/bean_counter/strategies/gemerald_beanstalk_strategy/strategy.rb:187-192 | Every job catalog key reads the job attribute it names. |
| GemeraldStrategy.JobMatches | lib/bean_counter/strategies/gemerald_beanstalk_strategy/strategy.rb:99-101 | True if and only if the job exists and every job catalog key among the options accepts the attribute it names. Never raises. |
| GemeraldStrategy.TubeLive | lib/bean_counter/strategies/gemerald_beanstalk_strategy/strategy.rb:187-192 | Every tube catalog key reads the tube attribute it names, from the merged stats. |
| GemeraldStrategy.TubeMatches | lib/bean_counter/strategies/gemerald_beanstalk_strategy/strategy.rb:149-152 | No tube, or a tube no server has: false. When the stats merge, true if and only if the tube exists and every catalog key among the options accepts its attribute. When it raises, the error is the one merging the stats raised. |
| GemeraldStrategy.DeleteJob | lib/bean_counter/strategies/gemerald_beanstalk_strategy/strategy.rb:64-66 | True if and only if the reply is DELETED, or the job is marked deleted, or the server no longer knows it. |
| GemeraldStrategy.PrettyJobHash | lib/bean_counter/strategies/gemerald_beanstalk_strategy/strategy.rb:113-116 | The printed Hash is `to_hash` without `connection`: sorted, unique names, still holding the body. |
| GemeraldStrategy.PrettyPrintJob | lib/bean_counter/strategies/gemerald_beanstalk_strategy/strategy.rb:113-117 | The rendering of a Hash sorted by name that holds exactly the job's stats and body, without `file` or `connection`. |
| GemeraldStrategy.PrettyPrintTube | lib/bean_counter/strategies/gemerald_beanstalk_strategy/strategy.rb:128-130 | Succeeds if and only if the merge does, and renders the merged stats. A tube no server has renders the empty Hash. |
| GemeraldStrategy.UriOf | lib/bean_counter/strategies/gemerald_beanstalk_strategy/strategy.rb:199-200 | A URI has both a scheme and a host only when the scheme is well formed and the host is non-empty and has no colon. The scheme is kept in lower case, so `BEANSTALK` and `beanstalk` are the same scheme. |
| GemeraldStrategy.AuthorityOf | lib/bean_counter/strategies/gemerald_beanstalk_strategy/strategy.rb:199 | The authority is the prefix before the first `/`, `?` or `#`. |
| GemeraldStrategy.AuthorityOfPrefix | lib/bean_counter/strategies/gemerald_beanstalk_strategy/strategy.rb:199 | Text free of `/`, `?` and `#`, followed by nothing or by a path, query or fragment, is the whole authority. |
| GemeraldStrategy.UriAfterScheme | lib/bean_counter/strategies/gemerald_beanstalk_strategy/strategy.rb:199-203 | The authority keeps the scheme, leaves out any `user@` part, and yields a non-empty host with no colon. |
| GemeraldStrategy.HostPortUri | lib/bean_counter/strategies/gemerald_beanstalk_strategy/strategy.rb:202-203 | `host[:port]` yields a non-empty host with no colon; the port, when present, is digits. |
| GemeraldStrategy.NoUriWithoutSlashes | lib/bean_counter/strategies/gemerald_beanstalk_strategy/strategy.rb:199-200 | Text whose first colon is not followed by a slash is no `scheme://host` URI. |
| GemeraldStrategy.V4Match | lib/bean_counter/strategies/gemerald_beanstalk_strategy/strategy.rb:9 | `V4_IP_REGEX === url`: some line of the URL is four dot-separated octets of one to three digits worth at most 255, then optionally `:` and digits. |
| GemeraldStrategy.V4Address | lib/bean_counter/strategies/gemerald_beanstalk_strategy/strategy.rb:9 | Every dotted quad of numbers up to 255, with or without a `:port`, matches the IPv4 pattern. |
| GemeraldStrategy.NoOctetAbove255 | lib/bean_counter/strategies/gemerald_beanstalk_strategy/strategy.rb:9 | A dotted quad whose last number is above 255 is not four octets. |
| GemeraldStrategy.SchemeUrlNotV4 | lib/bean_counter/strategies/gemerald_beanstalk_strategy/strategy.rb:9 | A single-line `scheme://...` URL never matches the IPv4 pattern. |
| GemeraldStrategy.HostPortParts | lib/bean_counter/strategies/gemerald_beanstalk_strategy/strategy.rb:202-203 | `host[:port]` reads back as that host and port. |
| GemeraldStrategy.AuthorityShape | lib/bean_counter/strategies/gemerald_beanstalk_strategy/strategy.rb:199 | `[user@]host[:port]` holds no `/`, `?` or `#`, and its part after the `@` is `host[:port]`. |
| GemeraldStrategy.AuthorityParts | lib/bean_counter/strategies/gemerald_beanstalk_strategy/strategy.rb:199-203 | `[user@]host[:port]`, then nothing or a path, query or fragment, reads back as that host and port. The userinfo and what follows are not part of them. |
| GemeraldStrategy.UriDecides | lib/bean_counter/strategies/gemerald_beanstalk_strategy/strategy.rb:198-203 | A URL outside the IPv4 pattern that parses as a URI gives that URI's host and port for `beanstalk`, and raises ArgumentError for any other scheme. |
| GemeraldStrategy.SchemeUrlDecides | lib/bean_counter/strategies/gemerald_beanstalk_strategy/strategy.rb:198-203 | A one-line `scheme://rest` is decided by the URI its authority gives. |
| GemeraldStrategy.ParseHostPort | lib/bean_counter/strategies/gemerald_beanstalk_strategy/strategy.rb:197-212 | `host:port` parses to that host and that port as a number. |
| GemeraldStrategy.ParseUrl | lib/bean_counter/strategies/gemerald_beanstalk_strategy/strategy.rb:197-212 | The only error is ArgumentError, and a parsed port is never negative. `GemeraldStrategy.ParseHostPort`, `GemeraldStrategy.ParseBareHost`, `GemeraldStrategy.ParseBeanstalkUri` and `GemeraldStrategy.ParseOtherScheme` state the result for each form of URL. |
| GemeraldStrategy.ParseBareHost | lib/bean_counter/strategies/gemerald_beanstalk_strategy/strategy.rb:206-211 | A bare host parses to that host, with no port. |
| GemeraldStrategy.ParseBeanstalkUri | lib/bean_counter/strategies/gemerald_beanstalk_strategy/strategy.rb:197-212 | `beanstalk://[user@]host[:port]`, with the scheme in any letter case (`BEANSTALK://`, `Beanstalk://`) and optionally followed by a path, query or fragment, parses to its host and port. |
| GemeraldStrategy.ParseUpperCaseScheme | lib/bean_counter/strategies/gemerald_beanstalk_strategy/strategy.rb:199-204 | `BEANSTALK://host` parses to that host with no port: the scheme is compared after `URI` lower-cases it. |
| GemeraldStrategy.ParseOtherScheme | lib/bean_counter/strategies/gemerald_beanstalk_strategy/strategy.rb:201 | Any scheme other than `beanstalk` in some letter case raises ArgumentError "Invalid beanstalk URI: " followed by the URL. |
| GemeraldStrategy.ServerAddresses | lib/bean_counter/strategies/gemerald_beanstalk_strategy/strategy.rb:72-80 | Each configured URL is parsed, in order. The result fails if and only if some URL fails to parse, and then it carries the error of the first URL that fails. |
| Text.ParseDecimalRoundTrip | lib/bean_counter/strategies/gemerald_beanstalk_strategy/strategy.rb:211 | A port written in decimal reads back as the same number. |
| EnqueuedExpectation.CountOf | lib/bean_counter/enqueued_expectation.rb:94 | The `:count` value wins unless it is missing or nil. Then comes the `'count'` value; otherwise there is no count. |
| EnqueuedExpectation.WithoutCount | lib/bean_counter/enqueued_expectation.rb:94 | The two deletes leave exactly the options not named `count`. |
| EnqueuedExpectation.OtherOptionsKept | lib/bean_counter/enqueued_expectation.rb:94 | Every other option keeps its value. |
| EnqueuedExpectation.EnqueuedExpectation.constructor | lib/bean_counter/enqueued_expectation.rb:92-95 | Stores the options without the count, and the count taken out; nothing found yet. |
| EnqueuedExpectation.EnqueuedExpectation.CollectionMatcher | lib/bean_counter/enqueued_expectation.rb:28-36 | With a count: keeps every match, and answers whether the count accepts their number. Without one: keeps the first match as an Array of one, and answers whether there is one. |
| EnqueuedExpectation.EnqueuedExpectation.ProcMatcher | lib/bean_counter/enqueued_expectation.rb:167-170 | Evaluates only the jobs the block enqueued. |
| EnqueuedExpectation.EnqueuedExpectation.Matches | lib/bean_counter/enqueued_expectation.rb:125-131 | A Proc evaluates what it enqueues; anything else evaluates every job. Options and count are unchanged. |
| EnqueuedExpectation.EnqueuedExpectation.CountWords | lib/bean_counter/enqueued_expectation.rb:63 | The count as written, or "any number of". |
| EnqueuedExpectation.EnqueuedExpectation.ExpectedCountGiven | lib/bean_counter/enqueued_expectation.rb:43-45 | True if and only if a count was given and it is neither nil nor false. `EnqueuedExpectation.EnqueuedExpectation.CountWords` and `EnqueuedExpectation.EnqueuedExpectation.CountAndWord` branch on it. |
| EnqueuedExpectation.EnqueuedExpectation.FailureMessage | lib/bean_counter/enqueued_expectation.rb:53-67 | Always starts with what was expected. Then comes "none", or the number found and each job pretty-printed on its own line. |
| EnqueuedExpectation.EnqueuedExpectation.CountAndWord | lib/bean_counter/enqueued_expectation.rb:144-150 | The word is "job" if and only if the count given is exactly 1, otherwise "jobs". The count reads "any" when none was given. |
| EnqueuedExpectation.EnqueuedExpectation.NegativeFailureMessage | lib/bean_counter/enqueued_expectation.rb:139-156 | Empty if and only if nothing or an empty Array was found. Otherwise it reads as what was not expected, the number found and the jobs. |
| EnqueuedExpectation.DetectAgreesWithSelect | lib/bean_counter/enqueued_expectation.rb:35 | Without a count, the evaluation succeeds if and only if some job matches. |
| TubeExpectation.TubeExpectation.constructor | lib/bean_counter/tube_expectation.rb:48-50 | Stores the options as given. |
| TubeExpectation.TubeExpectation.Matches | lib/bean_counter/tube_expectation.rb:76-82 | A tube is found if and only if some tube matches, and it is the first that does. The answer is whether one was found. |
| TubeExpectation.TubeExpectation.FailureMessage | lib/bean_counter/tube_expectation.rb:22-25 | Empty if and only if a tube was found. Otherwise "expected tube matching ..., found none.". |
| TubeExpectation.TubeExpectation.NegativeFailureMessage | lib/bean_counter/tube_expectation.rb:90-96 | Empty if and only if nothing was found. Otherwise it names the options and the pretty-printed tube. |
| Core.EnvHosts | lib/bean_counter/core.rb:59-60 | One host per comma-separated field. Each is stripped of surrounding whitespace and holds no comma. |
| Core.AsArray | lib/bean_counter/core.rb:63 | A String becomes an Array of one; an Array stays as it is. |
| Core.BeanstalkdUrl | lib/bean_counter/core.rb:58-64 | The environment wins, then the explicit setting, then Beaneater's. An empty String or nothing at all raises RuntimeError "Could not determine beanstalkd url". The result is always an Array. |
| Core.GemeraldInitialize | lib/bean_counter/strategies/gemerald_beanstalk_strategy/strategy.rb:72-80 | The Gemerald strategy's `initialize` raises what `beanstalkd_url` raises. Otherwise it raises if and only if some configured URL fails to parse, and then it raises the error of the first such URL. |
| Core.GemeraldWithoutUrl | lib/bean_counter/core.rb:58-64 | With no URL configured anywhere, making a Gemerald strategy raises RuntimeError "Could not determine beanstalkd url". |
| Core.BeanCounter.SetBeanstalkdUrl | lib/bean_counter/core.rb:10-12 | Stores the setting and changes nothing else. |
| Core.BeanCounter.New | lib/bean_counter/core.rb:126 | `klass.new` fails with the error the class's `initialize` raises, and then makes no instance. Otherwise it returns a new instance of that class, numbered after every earlier one. No setting changes. |
| Core.BeanCounter.DefaultStrategy | lib/bean_counter/core.rb:75-77 | Materializes `DEFAULT_STRATEGY` once and remembers it. A failure leaves the slot empty. |
| Core.BeanCounter.SetStrategy | lib/bean_counter/core.rb:122-128 | nil empties the slot. An identifier succeeds if and only if it is known and the class's `initialize` does not raise; the slot then holds a new instance of that class. An unknown one raises ArgumentError; a known one whose `initialize` raises raises that error. A failure leaves the slot and the instance count as they were. |
| Core.BeanCounter.GetStrategy | lib/bean_counter/core.rb:137-139 | Returns the instance in the slot and changes nothing. Otherwise it makes a new instance of the remembered default class, or of the class `DEFAULT_STRATEGY` materializes, which is then remembered, and the instance stays in the slot. It fails with the error materializing raised when nothing is remembered and materializing fails, and with the error `initialize` raised when the class's `initialize` raises; a failure leaves the strategy slot and the instance count as they were. |
| Core.BeanCounter.GetStrategyTwice | lib/bean_counter/core.rb:137-139 | Asking twice gives the same instance. |
| Core.TubeOption | lib/bean_counter/core.rb:95 | `{:tube => tube_name}` looks up to that tube name. |
| Core.Attempted | lib/bean_counter/core.rb:94-95 | `reset!` tries to delete exactly the jobs in the tube, or every job when no tube is given, in pool order. |
| Core.ResetAsWritten | lib/bean_counter/core.rb:92-99 | As written, the answer is true if and only if no attempted delete succeeded. |
| Core.Reset | lib/bean_counter/core.rb:90-99 | The answer is true if and only if every attempted delete succeeded. |
| Core.ResetAsWrittenMisreports | lib/bean_counter/core.rb:96 | Take one job, no tube and a successful delete. Every attempted delete succeeded, so the corrected version answers true. But one delete succeeded, so the code as written answers false. |

## Left out

- Server I/O, connections and the in-process servers' startup in `initialize` (`gemerald_beanstalk_strategy/strategy.rb:72-80`). Server replies, job lists and tube tables are inputs. Of `initialize`, only its outcome is modelled: `Core.BeanCounter.New` takes, for each class, whether its `initialize` raises and with what, and `Core.GemeraldInitialize` gives that outcome for the Gemerald strategy from `beanstalkd_url` and URL parsing. A server failing to start is not modelled.
- StalkClimber itself: the `climber` accessor (`stalk_climber_strategy.rb:141-143`), its `jobs`/`tubes` enumerators, `max_job_ids` and `fetch_jobs`. The snapshots and the fetch function are parameters.
- The `pretty_print_job` and `pretty_print_tube` of `StalkClimberStrategy` (`stalk_climber_strategy.rb:101-115`). They render StalkClimber's own `to_h`, which is not part of this model.
- `Hash#to_s`, Regexp and Proc matchers. Rendering is a parameter; a pattern or predicate matcher is an opaque test on the value, printed from the rendering it carries. Ruby prints a Regexp as `(?-mix:...)` and a Proc as `#<Proc:0x...>`; those forms are not reproduced.
- StalkClimber.CollectNewJobs: the window is `min_id..max_id` inclusive (`stalk_climber_strategy.rb:47`), so the id at the top of the first snapshot is fetched again. That id belongs to the probe job StalkClimber puts and deletes to read the highest id. The job is already gone, so the fetch function drops it. The model does not promise that a job which existed before the block is never collected.
- GemeraldStrategy.ParseUrl: `Integer()` is modelled for plain decimal text only. Ruby also accepts signs, underscores, surrounding whitespace and radix prefixes, and reads a leading 0 as octal; the model raises ArgumentError for all of these.
- GemeraldStrategy.UriOf: `URI.parse` is modelled only for `scheme://[user@]host[:port]` followed by nothing, a path, a query or a fragment. The scheme is lower-cased, as `URI` stores it; a scheme has only ASCII letters, digits, `+`, `-` and `.`, so ASCII lower-casing is the whole of it. Any other shape counts as a URI without both a scheme and a host. That includes an authority with two `@`, an IPv6 literal and a host with characters RFC 3986 does not allow. `URI::InvalidURIError` is not modelled, and such a URL falls back to splitting at colons.
- Strategy.Registry.Strategies: Ruby returns `@@strategies.dup`, so a caller cannot change the registry through the result. A Dafny map is a value, so the copy holds by construction and is not written out.
- StalkClimber.Collected: a connection missing from the second snapshot gives the endless range `min..nil`. The model follows Ruby 2.6 and later, where `to_a` on it raises RangeError. Earlier Rubies raise ArgumentError when the range is built, and the model does not follow them.
- Strategy.Registry.MaterializeStrategy: the error message's list of known keys is not spelled out; the contract states only that ArgumentError is raised.
- GemeraldTube.ToHash: the first holder's stats Hash is returned and then added to in place, so Ruby changes that server's own stats. The model builds a new value and does not show that aliasing.
- Floats: the Integer/Float distinction of `Numeric`, and `expected_count == 1` for `1.0`, are not modelled. Values are integers, strings, nil, booleans or connection references.
- Values.Value: there is no Symbol value. A Symbol given as an expected value, such as `:state => :ready`, is not modelled; a stat read from a job or tube is never a Symbol, so such an option only matches through a Range, pattern or predicate, which the model does not describe either.
- `reset!`'s calls into the selected strategy are parameters (`strategy.jobs`, `job_matches?`, `delete_job`). The strategy is not called through the slot.
- Core.Reset and Core.ResetAsWritten: `job_matches?` and `delete_job` are total parameters returning a boolean. An exception the strategy raises in either call, which Ruby lets escape `reset!`, is not modelled; the contracts describe only runs in which every call answers.
- EnqueuedExpectation.EnqueuedExpectation.CollectionMatcher: `job_matches?` is a total parameter returning a boolean. The exception a strategy's `job_matches?` can raise (`StalkClimber.JobMatches` returns it as a Failure) is not propagated; the contract describes only runs in which every match answers.
- EnqueuedExpectation.EnqueuedExpectation.ProcMatcher: the same total `job_matches?`; an exception raised while matching, or by `collect_new_jobs`, is not modelled.
- EnqueuedExpectation.EnqueuedExpectation.Matches: the same total `job_matches?`; exceptions raised by the strategy are not modelled.
- EnqueuedExpectation.EnqueuedExpectation.NegativeFailureMessage and EnqueuedExpectation.EnqueuedExpectation.FailureMessage: `pretty_print_job` is a total parameter; an exception a strategy raises while rendering a job is not modelled.
- TubeExpectation.TubeExpectation.Matches: `tube_matches?` is a total parameter returning a boolean. The exception a strategy's `tube_matches?` can raise (`GemeraldStrategy.TubeMatches` and `StalkClimber.TubeMatches` return it as a Failure) is not propagated, and `detect` would let it escape.
- TubeExpectation.TubeExpectation.NegativeFailureMessage: `pretty_print_tube` is a total parameter returning a string. `GemeraldStrategy.PrettyPrintTube` can fail, and that exception is not modelled.
- EnqueuedExpectation.EnqueuedExpectation.constructor: `expected.delete(:count)` and `expected.delete('count')` (`enqueued_expectation.rb:94`) remove the count from the caller's own Hash in place. The model stores a copy without the count and leaves the caller's options untouched, so it does not show that aliasing.
- Ruby `detect` stops at the first match. The model computes the first index over the whole list; `Lists.DetectIgnoresRest` states that the rest is irrelevant.
- Concurrency: a writer racing with a block between the two snapshots is not modelled.
- The legacy `Climb` strategy and the test-framework adapters (`mini_test.rb`, `test_assertions.rb`, `spec_matchers.rb`) are not part of this model.
- Some unit tests for `beanstalkd_url` still expect a single URL to come back unwrapped. The model follows `core.rb:63`, which always returns an Array.

## Findings

| source | as written | input that shows it | evidently intended | confidence | as-written member | corrected member |
|---|---|---|---|---|---|---|
| lib/bean_counter/core.rb:92-99 | `partial_failure ||= success` turns true as soon as one delete succeeds. The method returns `!partial_failure`, so it answers false whenever any job was deleted. | One job in the pool, no tube name, and a delete that succeeds: the code returns false. | As documented at lines 90-91: true when every attempted delete succeeded, false once one fails. | not executed | Core.ResetAsWritten, Core.ResetAsWrittenMisreports | Core.Reset |
