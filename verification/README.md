# Bartender: verified model of the plugin and request core

Bartender loads plugins that live in directories on its host, starts them in an order that respects
their requirements, watches their processes, and validates requests before they are stored. This project
models the parts of it that decide something, and proves what they guarantee. `dafny verify dfyconfig.toml`
checks all of it.

The modules follow the program:

| module | models |
|---|---|
| `Scheduler`, `SchedulerSafety`, `SchedulerTermination`, `SchedulerFixpoint`, `SchedulerExactness`, `SystemQueries` | the start loop of `LocalPluginsManager` (`manager.py`), and the queries that seed it |
| `RequestModel`, `RequestValidator`, `RequestConformance`, `RequestLaws`, `RequestRevalidation`, `RequestErrors`, `RequestEntry` | `request_validator.py` |
| `EnvHelp`, `EnvScanner`, `EnvMeaning`, `EnvExactness`, `EnvLaws`, `PluginEnvironment` | `env_help.py`, and the environment a plugin process gets (`plugin_runner.py`, `validator.py`) |
| `Registry`, `RegistryRace`, `PluginsManager`, `PluginMonitor` | the registry, `start_plugin`, `stop_plugin`, `restart_plugin` and one pass of the monitor, on objects with mutable fields |
| `PluginConfig`, `PluginLoader`, `PluginRequirements` | normalising a configuration, loading and reloading a system, and the requirement check |
| `StopProtocol`, `StopLimits`, `StopEquivalence`, `MonitorEquivalence` | `stop_plugin` and the monitor in small steps, interleaved with everything else that touches a runner; where the guarantees end; and how the small steps relate to the single ones |

Where the program runs a loop, the model has a method with that loop, proved equal to a function; the
theorems are about the function. `Step` is one iteration of the start loop and `Run` any number of them;
`Validate` is the validator on values, and `Conforms` says without loops or error flow which requests are
accepted, with which result; `Expand` is the split-and-replace expansion and `Scan` a scanner that goes
through the text once. A function that a loop is proved equal to never speaks for itself: at least one
theorem says what it means in terms of the inputs alone.

## Where code and documentation disagree

The model follows the code. The differences, each shown by a lemma:

- `start_plugin` documents that it may return False (`bartender/local_plugins/manager.py:28-29`); it returns True or raises. So a
  failure during the start loop always goes back to a system that is unknown or had failed before
  (`FailuresComeFromOutside`).
- `_start_multiple_plugins` documents that a plugin is skipped until its requirements are loaded
  (`bartender/local_plugins/manager.py:183-184`). If a requirement is in the database but nobody starts it, the loop never ends
  (`StaleRequirementSpins`); `TerminatesExactlyWhenSettled` and `EndsExactlyWhenAcyclic` say exactly when it
  does end.
- `validate_plugin_requirements` documents that requirements can be satisfied (`bartender/local_plugins/loader.py:60`). It is a
  single pass, so a chain of missing requirements is missed (`ChainIsMissed`, `OnePassIsEnoughExactly`).
- A maximum or minimum of zero is taken for a missing one, and no bound is checked for an optional parameter
  (`MaximumHoldsUnlessZero`, `MinimumHoldsUnlessZero`, `AcceptedMaximumExactly`).
- Bounds, patterns and references that meet a value they cannot handle raise a bare `TypeError`, and choices
  with a dictionary that lacks "value" a bare `KeyError` (`TypeErrorEscapesExactly`, `KeyErrorEscapesExactly`).
- A request that was accepted can be rejected when it is validated again, because references read what is
  stored then (`RevalidatesExactly`).
- `stop_plugin` marks a plugin as stopped before it sends the message (`bartender/local_plugins/manager.py:92`),
  so that the monitor leaves it alone. A monitor that looked at the mark before can still restart it
  (`StopRacesMonitor`, `FlaggedIsRestartableExactly`).
- A process that is launched late outlives the `stop_plugin` that should have ended it
  (`ProcessOutlivesStopExactly`).
- `string_contains_environment_var` reports strings without a variable whose text before the first `$`
  starts with a letter (`DetectorFalseAlarm`, `DetectorIsRightExactly`).
- Expansion replaces a name wherever it occurs again before the next `$`, and lets a substituted value escape
  the variable behind it (`RecurringNameIsReplaced`, `BackslashValueEscapes`, `AgreesWithScanExactly`).

## Model

| member | source | states |
|---|---|---|
| Scheduler.DecideMeaning | bartender/local_plugins/manager.py:202-238 | a plugin is attempted iff all its requirements are known, not failed and started; it fails exactly for the first unknown or failed requirement all of whose predecessors are satisfied |
| Scheduler.Pop | bartender/local_plugins/manager.py:198-244 | one pass through the loop body, with its requirement scan and its early exits, is one `Step` |
| Scheduler.StartMultiplePlugins | bartender/local_plugins/manager.py:191-246 | observed for any number of iterations, the loop is in the state that many steps lead to; if it has ended, every run that ends returns this state |
| SchedulerSafety.Conservation | bartender/local_plugins/manager.py:191-244 | after any number of pops, queued and decided plugins together are the input as a multiset; at exit each input plugin was decided as often as it was passed |
| SchedulerSafety.StartOrder | bartender/local_plugins/manager.py:202-242 | in every run, each requirement of an attempted plugin is known, not failed initially or by an earlier decision, and runs initially or was started earlier in the run |
| SchedulerSafety.FailureCertificate | bartender/local_plugins/manager.py:202-228 | a plugin marked as failed has a finite chain of requirements through plugins marked earlier, ending in a name that is unknown, failed initially or refused to start |
| SchedulerSafety.MarkedPluginsAreCertified | bartender/local_plugins/manager.py:202-244 | every plugin that any run marks as failed has such a chain, starting at one of its own requirements |
| SchedulerSafety.FailuresComeFromOutside | bartender/local_plugins/manager.py:19-66 | since `start_plugin` never returns False, the chain always ends in an unknown or initially failed system |
| SchedulerTermination.SkipMeaning | bartender/local_plugins/manager.py:230-238 | a plugin is put back iff some known requirement is neither failed nor started and all before it are satisfied |
| SchedulerTermination.SkipShortensDistance | bartender/local_plugins/manager.py:230-238 | putting a plugin back leaves the name lists and the length alone and brings every decidable plugin one pop closer |
| SchedulerTermination.DecisionWithinDistance | bartender/local_plugins/manager.py:197-238 | a decidable plugin in the queue means that some plugin is decided within its distance from the end |
| SchedulerTermination.ProgressiveEnds | bartender/local_plugins/manager.py:197-244 | a loop over n plugins that can always decide one ends within 1 + ... + n pops |
| SchedulerTermination.AcyclicTerminates | bartender/local_plugins/manager.py:197-244 | if every system that must be waited for is queued and requirements among queued systems are acyclic, the loop ends within n(n+1)/2 pops with everything decided, unless a start raised |
| SchedulerTermination.BlockedStaysQueued | bartender/local_plugins/manager.py:202-238 | plugins that only plugins of their own set could unblock are all still queued after any number of pops |
| SchedulerTermination.BlockedNeverEnds | bartender/local_plugins/manager.py:202-238 | with a nonempty set of that kind the loop never ends |
| SchedulerTermination.StaleRequirementSpins | bartender/local_plugins/manager.py:230-238 | a requirement that the database lists but nobody starts keeps the loop spinning, against its documentation |
| SchedulerFixpoint.FateIsStable | bartender/local_plugins/manager.py:202-238 | a plugin that can be decided keeps its outcome while further names are settled consistently |
| SchedulerFixpoint.FixpointIsSoundAndClosed | bartender/local_plugins/manager.py:202-244 | the round-by-round outcome settles every name according to the requirements and leaves nothing to settle |
| SchedulerFixpoint.FixpointIsLeast | bartender/local_plugins/manager.py:202-244 | it is below every consistent assignment that leaves nothing to settle |
| SchedulerFixpoint.EndsAtFixpoint | bartender/local_plugins/manager.py:191-244 | a loop that ends has started and failed exactly the systems of the least fixpoint over the requirement graph |
| SchedulerFixpoint.OrderIndependence | bartender/local_plugins/manager.py:191-244 | the order of the input changes neither whether the loop ends nor which systems are started and which fail |
| SchedulerFixpoint.OrderCanMatter | bartender/local_plugins/manager.py:202-242 | two orders of the same plugins that fail different systems, when a queued system runs already |
| SchedulerFixpoint.TerminatesExactlyWhenSettled | bartender/local_plugins/manager.py:191-244 | the loop ends iff the least fixpoint leaves no queued plugin waiting, and then within n(n+1)/2 pops |
| SchedulerExactness.EndsExactlyWhenAcyclic | bartender/local_plugins/manager.py:197-244 | when nothing can fail, the loop ends iff every system to be waited for is queued and requirements are acyclic |
| SchedulerExactness.HaltedHasStartedAll | bartender/local_plugins/manager.py:191-244 | and then every input plugin has been started, as often as it was passed |
| SystemQueries.GetAllSystemNames | bartender/local_plugins/manager.py:249-250 | the known names are exactly the names of the systems in the database |
| SystemQueries.GetSystemNamesWithStatus | bartender/local_plugins/manager.py:253-268 | the names are those of systems all of whose instances have the status, said over the statuses themselves |
| SystemQueries.GetRunningSystemNames | bartender/local_plugins/manager.py:252-259 | exactly the names of systems every instance of which is "RUNNING" |
| SystemQueries.GetFailedSystemNames | bartender/local_plugins/manager.py:261-268 | exactly the names of systems every instance of which is "DEAD" |
| SystemQueries.StartFromDatabase | bartender/local_plugins/manager.py:191-246 | the start loop runs on exactly these three sets of names: all systems as known, the dead ones as failed, the running ones as started |
| SystemQueries.InstancelessSystemStopsDependants | bartender/local_plugins/manager.py:253-268 | a system without instances counts as running and as failed, and in every run each decided plugin that requires it is marked as failed |
| RequestValidator.ValidateValueInChoices | bartender/request_validator.py:172-298 | the choices loops compute `CheckChoices`, with its errors |
| RequestValidator.ValidateParameterBasedOnType | bartender/request_validator.py:423-478 | the type check, mutually recursive with the next three, computes `ByType` |
| RequestValidator.ExtractParameterValueFromRequest | bartender/request_validator.py:356-388 | default, null and list handling with its loop computes `Extract` |
| RequestValidator.ValidateField | bartender/request_validator.py:155-166 | required, extracted, then four checks in this order |
| RequestValidator.GetAndValidateParameters | bartender/request_validator.py:121-170 | the loop over the schema computes `Validate`; recursion ends on the depth of the schema, not of the value |
| RequestConformance.ToDictIsExact | bartender/request_validator.py:452 | a value becomes a dictionary iff it is one, is empty text, or is a list of pairs, of which the last one of each key counts |
| RequestConformance.ConvertIsExact | bartender/request_validator.py:433-462 | a value is coerced to w iff w is the value of that type that it denotes |
| RequestConformance.PyEqualMeaning | bartender/request_validator.py:275-298 | two values count as equal iff both are the same number, of whatever type, the same text, or lists or dictionaries equal element by element |
| RequestConformance.MeasureIsExact | bartender/request_validator.py:300-344 | what a bound is compared with is the number itself, or the length of a text or list, and nothing for other values |
| RequestConformance.RawListIsExact | bartender/request_validator.py:193-273 | the raw list of allowed values is the list as given, the table entry named after the request's instance for "instance_name", the entry that the referenced text names, the entry "null" for a missing or false one, or what the query returned |
| RequestConformance.CollapseIsExact | bartender/request_validator.py:275-282 | the collapsed list holds exactly the allowed values; collapsing fails iff a dictionary lacks "value" |
| RequestConformance.ChoicesAreExact | bartender/request_validator.py:172-298 | the choices check passes iff some raw list belongs to source and request, each dictionary in it has "value", and each value, or the value, equals what an entry allows |
| RequestConformance.ChecksAreExact | bartender/request_validator.py:162-165 | the four checks together pass iff the value is within choices and bounds and matches the pattern |
| RequestConformance.ByTypeIsExact | bartender/request_validator.py:423-478 | the type check returns w iff the value coerces to w, through nested dictionaries |
| RequestConformance.FieldIsExact | bartender/request_validator.py:155-166 | a parameter contributes w iff the declarative relation admits w for it |
| RequestConformance.FieldsAreExact | bartender/request_validator.py:154-170 | the result has exactly the declared keys, every parameter succeeds, and the last one of a key decides |
| RequestConformance.ValidateIsExact | bartender/request_validator.py:121-170 | validation succeeds with result R iff the request conforms to the schema with R, at every level |
| RequestLaws.ValidateIgnoresRequest | bartender/request_validator.py:205-211 | of the raw request around the validated dictionary only the table entries matter that references select: two requests that select the same give the same result or error |
| RequestLaws.ValidateIdempotent | bartender/request_validator.py:154-170 | validating the returned parameters again, for the same request, returns them unchanged, through lists and nested dictionaries |
| RequestRevalidation.RevalidatesExactly | bartender/request_validator.py:31-43 | once the returned parameters have replaced those of the request, validating again returns them iff, at every level, each constrained value is still in the entry that they select; otherwise it fails |
| RequestRevalidation.RevalidationIsIdentity | bartender/request_validator.py:31-43 | it returns them if every reference selects the same entry before and after |
| RequestRevalidation.StableReferencesRevalidate | bartender/request_validator.py:205-211 | so it does for requests all of whose references are to undeclared keys, or to values stored as sent that were sent or have no default |
| RequestRevalidation.DefaultIsReadLate | bartender/request_validator.py:208-211 | a reference to an omitted parameter selects "null" first and its default when the request is validated again |
| RequestRevalidation.OmittedReferenceIsNotIdempotent | bartender/request_validator.py:205-211 | by which a request is accepted once and rejected the second time |
| RequestRevalidation.ReferencedChoicesAreNotIdempotent | bartender/request_validator.py:205-211 | choices that refer to a coerced parameter accept a request once and reject its result |
| RequestLaws.OmittingIsSendingTheDefault | bartender/request_validator.py:361-363 | leaving out a parameter with a default is the same as sending the default, for result and error, if every reference selects the same entry either way |
| RequestLaws.SchemaOrderIsIrrelevant | bartender/request_validator.py:154-166 | rearranging a schema with distinct keys changes neither acceptance nor the result |
| RequestLaws.MaximumHoldsUnlessZero | bartender/request_validator.py:300-321 | values that pass the check are measurable and at most the maximum iff the maximum is not zero and the parameter not optional |
| RequestLaws.MinimumHoldsUnlessZero | bartender/request_validator.py:323-344 | values that pass the check are measurable and at least the minimum iff the minimum is not zero and the parameter not optional |
| RequestLaws.AcceptedAreBounded | bartender/request_validator.py:155-166 | in every accepted request, the value of a parameter that is not optional is within its bounds other than zero, or None |
| RequestLaws.AcceptedMaximumExactly | bartender/request_validator.py:154-170 | the integers of accepted requests keep to a maximum that is their only constraint iff it is not zero and the parameter not optional |
| RequestErrors.FieldEscapesExactly | bartender/request_validator.py:155-166 | one parameter ends in a bare TypeError iff it is present or not needed and stands for a value that passes the checks before one that cannot handle it: a look-up by a list or dictionary, a bound on a dictionary, a pattern on anything but a string |
| RequestErrors.TypeErrorEscapesExactly | bartender/request_validator.py:300-354 | a validation ends in a bare TypeError iff no undeclared key was sent and this happens to some parameter with all parameters before it accepted |
| RequestErrors.ByTypeNeverEscapes | bartender/request_validator.py:467-478 | below the type check no TypeError or ValueError gets out |
| RequestErrors.KeyErrorEscapesExactly | bartender/request_validator.py:275-282 | a validation ends in a bare KeyError iff the first parameter that is not accepted has choices with a dictionary without "value", or contains at any depth a dictionary whose validation does |
| RequestEntry.GetAndValidateCommand | bartender/request_validator.py:45-119 | succeeds iff system and instance exist and the first command of that name has the types that were given, if any were; then the types are filled in |
| RequestEntry.ValidateRequest | bartender/request_validator.py:31-43 | an accepted request gets parameters that conform to the command; a rejected one keeps its own, and no result conforms |
| RequestEntry.ValidateTwice | bartender/request_validator.py:31-43 | validating an accepted request object again gives the same command iff its stored values are still in the entries it selects, and never changes its parameters |
| EnvHelp.StringContainsEnvironmentVar | bartender/local_plugins/env_help.py:1-43 | the detector's loop computes `Contains` |
| EnvHelp.GetEnvironmentVarName | bartender/local_plugins/env_help.py:54-66 | returns the prefix in which every character is a letter, a digit or an underscore, and after which comes none of these |
| EnvHelp.ExpandString | bartender/local_plugins/env_help.py:69-95 | the expansion's loop, with its test on the output so far, computes `Expand` |
| EnvScanner.SplitJoin | bartender/local_plugins/env_help.py:73 | splitting at `$` loses nothing and leaves parts without `$` |
| EnvScanner.ExpandIsScan | bartender/local_plugins/env_help.py:69-95 | in a given environment, expansion is a left-to-right scan that replaces unescaped variables, if no name recurs before the next `$` and no value before an adjoining variable ends in a backslash |
| EnvMeaning.VariableIsReplaced | bartender/local_plugins/env_help.py:54-95 | `$` and a name of letters, digits and underscores that starts with a letter are replaced by the value of exactly that name, or by nothing, and the text around is kept |
| EnvMeaning.ReplaceAtFirst | bartender/local_plugins/env_help.py:91 | replacing keeps the text before the first place where the name stands, puts the value there and goes on behind it |
| EnvExactness.AgreesWithScanExactly | bartender/local_plugins/env_help.py:69-95 | expansion is that scan in all environments iff no variable directly follows another and no name recurs before the next `$` |
| EnvScanner.RecurringNameIsReplaced | bartender/local_plugins/env_help.py:91 | a name that recurs as text in its part is replaced there as well, which the scan does not do |
| EnvScanner.BackslashValueEscapes | bartender/local_plugins/env_help.py:85-86 | a value that ends in a backslash escapes the variable behind it, which the scan replaces |
| EnvLaws.FixedExactlyWhenInert | bartender/local_plugins/env_help.py:69-95 | a string is unchanged in every environment iff each `$` in it is escaped, last, or not followed by a letter |
| EnvLaws.DetectorMeaning | bartender/local_plugins/env_help.py:1-43 | the detector fires iff a variable occurs, or the string has a `$`, starts with a letter, and has no backslash directly before its first `$` |
| EnvLaws.DetectorAgreesWithExpansion | bartender/local_plugins/env_help.py:1-95 | a string the detector calls free of variables is returned as it is in every environment |
| EnvLaws.DetectorIsRightExactly | bartender/local_plugins/env_help.py:1-43 | the detector's answer says whether some environment changes the string iff its test on the first part fails or its test on a later part succeeds |
| EnvLaws.DetectorFalseAlarm | bartender/local_plugins/env_help.py:36-41 | "M$." is reported although no environment changes it |
| EnvLaws.SecondExpansionIsNoOp | bartender/local_plugins/env_help.py:73-95 | without adjacent `$$` and with values free of `$`, the expanded string contains no variable, so expanding it again changes nothing |
| PluginEnvironment.LocalPluginRunner.RenderSettings | bartender/local_plugins/plugin_runner.py:226-243 | the first loop renders each of bartender's own values as text |
| PluginEnvironment.LocalPluginRunner.GeneratePluginEnvironment | bartender/local_plugins/plugin_runner.py:224-261 | the three loops compute `Generate`: bartender's entries, then host variables, then declared values expanded over what is there |
| PluginEnvironment.EnvironmentContents | bartender/local_plugins/plugin_runner.py:226-261 | for every ENVIRONMENT the validator accepts: the keys are bartender's, the host variables and the declared ones; bartender's keys keep bartender's values; other host variables have the host's |
| PluginEnvironment.BartendersValues | bartender/local_plugins/plugin_runner.py:226-243 | each of the thirteen "BG_" keys holds the rendering of its own setting, and bartender has no other keys |
| PluginEnvironment.RenderingMeaning | bartender/local_plugins/plugin_runner.py:242-243 | text is kept, flags and None are spelled out, and an integer becomes the decimal digits that read as it, without leading zeros |
| PluginEnvironment.AcceptsExactly | bartender/local_plugins/validator.py:227-274 | ENVIRONMENT is accepted iff it is missing, or a dictionary from text that does not begin with "BG_" to text |
| PluginEnvironment.DeclaredValues | bartender/local_plugins/plugin_runner.py:258-259 | each declared key holds its value expanded over the environment of the declarations before it |
| PluginEnvironment.PrefixTestIsNeeded | bartender/local_plugins/validator.py:252-262 | bartender's values survive whatever values are declared iff no declared key is one of bartender's |
| PluginEnvironment.HostIsIsolated | bartender/local_plugins/plugin_runner.py:246-256 | hosts that agree on the allowed variables give the same environment |
| PluginEnvironment.ExpandedOverEarlierEntries | bartender/local_plugins/plugin_runner.py:258-259 | each declared value is expanded over exactly the entries built before it |
| PluginEnvironment.LiteralValuesSurvive | bartender/local_plugins/plugin_runner.py:258-259 | a declared value without a variable reaches the plugin as written |
| Registry.UniqueNameIsInjective | bartender/local_plugins/registry.py:94-96 | without "[" in systems and "]" in instances, the unique name determines system, instance and version |
| Registry.LocalPluginRegistry.GetPlugin | bartender/local_plugins/registry.py:19-27 | finds the first runner of that name, or none |
| Registry.LocalPluginRegistry.GetUniquePluginNames | bartender/local_plugins/registry.py:15-17 | returns exactly the names of the registered systems |
| Registry.LocalPluginRegistry.GetPluginsBySystem | bartender/local_plugins/registry.py:29-40 | returns the runners of the system in registry order |
| Registry.LocalPluginRegistry.Remove | bartender/local_plugins/registry.py:42-58 | takes out the first runner of that name and keeps the others in order |
| Registry.LocalPluginRegistry.RegisterPlugin | bartender/local_plugins/registry.py:60-77 | appends the runner unless its name is taken |
| Registry.ReplacingKeepsNames | bartender/local_plugins/registry.py:42-77 | removing a name and registering a runner of that name keeps the set of names, each of them once |
| Registry.Database.SetStatus | bartender/local_plugins/plugin_runner.py:115-125 | writes the status of an existing record and ignores a missing one |
| Registry.Runner.Kill | bartender/local_plugins/plugin_runner.py:127-132 | ends the process iff there is one that still runs |
| PluginsManager.LocalPluginsManager.StartPlugin | bartender/local_plugins/manager.py:19-66 | for each status: no effect, launch of this runner, replacement by a fresh one under the same name, or an error without effect |
| PluginsManager.StopTable | bartender/local_plugins/manager.py:79-127 | what a stop leaves in the record and whether it sets the flag, case by case: DEAD, STOPPED and STOPPING are left alone unless the read raises, and every other status sets the flag when nothing raises before |
| PluginsManager.LocalPluginsManager.StopPlugin | bartender/local_plugins/manager.py:68-127 | the status, flag, thread and process it leaves, for every point at which it can raise, every end of the thread and every report that counts; DEAD, STOPPED and STOPPING keep status and flag, every other status sets the flag when nothing raises |
| PluginsManager.LocalPluginsManager.RestartPlugin | bartender/local_plugins/manager.py:129-131 | restarts iff the stop leaves DEAD or STOPPED, so an undisturbed restart of a STOPPING plugin raises and changes nothing, and of a DEAD or STOPPED one succeeds |
| PluginMonitor.LocalPluginMonitor.Inspect | bartender/local_plugins/monitor.py:40-66 | what one iteration does to registry and statuses: for an exited, unflagged process RUNNING becomes STARTING and STARTING becomes DEAD, and all other statuses stay |
| PluginMonitor.LocalPluginMonitor.RunPass | bartender/local_plugins/monitor.py:36-66 | after each prefix of the snapshot, registry and statuses are as `PassAfter` says, although restarts change the registry under the loop |
| PluginMonitor.LocalPluginMonitor.Monitor | bartender/local_plugins/monitor.py:30-66 | over process, flag and status before: after n inspections the record of runner i < n is STARTING if it was RUNNING, exited and unflagged, DEAD if it was STARTING, and unchanged in every other case; also when the monitor is told to stop half-way, after which the next pass can begin |
| PluginMonitor.LocalPluginMonitor.Run | bartender/local_plugins/monitor.py:22-28 | any number of passes one after the other keep the number of runners and their specs |
| PluginMonitor.WhoIsReplaced | bartender/local_plugins/monitor.py:36-57 | of the inspected runners exactly those are replaced whose process has exited, whose flag is not set and whose status is RUNNING |
| PluginMonitor.NothingIsLost | bartender/local_plugins/monitor.py:36-66 | kept and replaced runners together are the inspected ones |
| PluginMonitor.PassKeepsNames | bartender/local_plugins/monitor.py:36-66 | a pass keeps the number of runners and their specs, so their unique names |
| PluginMonitor.PassKeepsWellFormed | bartender/local_plugins/monitor.py:36-66 | after a pass runners still have distinct names and each its own instance record |
| PluginMonitor.PassStatuses | bartender/local_plugins/monitor.py:45-66 | inspected runners that have exited unflagged end as STARTING if they were RUNNING and as DEAD if they were STARTING; all other statuses stay |
| PluginMonitor.PassLeavesOthers | bartender/local_plugins/monitor.py:36-66 | records of runners that were not inspected do not change |
| PluginConfig.LoadPluginConfig | bartender/local_plugins/loader.py:173-201 | the normalising branches and loops compute `Normalise`; which settings raise which error, and that a given INSTANCES is kept |
| PluginConfig.LoadedArguments | bartender/local_plugins/loader.py:173-201 | also for settings the validator rejects: INSTANCES is as given, "default", or the keys of PLUGIN_ARGS, and each name it yields has the shared list, None, or its own item |
| PluginConfig.AcceptedArguments | bartender/local_plugins/loader.py:173-201 | for every accepted setting, each instance has exactly the shared list, its own item or None; the instances are the given ones, ["default"] or the item keys in order |
| PluginConfig.AcceptedExactlyWhenConsistent | bartender/local_plugins/validator.py:145-185 | the validator accepts exactly the settings that normalise without error to arguments whose keys are the instances, all of them well formed |
| PluginLoader.LocalPluginLoader.LoadPlugin | bartender/local_plugins/loader.py:79-165 | for a valid plugin exactly the records of the system's instances are deleted and new ones are created as INITIALIZING; each instance gets a fresh runner, and those whose name is free are registered; it returns False, or raises, without effect otherwise; runners keep distinct names and records |
| PluginLoader.SpecForMeaning | bartender/local_plugins/loader.py:138-161 | a new runner has the system, version, path and requirements of the configuration, "system[instance]-version" as its name, the arguments under its instance name or None, and the record of the first instance of that name |
| PluginLoader.LocalPluginLoader.ReloadSystem | bartender/local_plugins/manager.py:133-173 | it refuses for an unregistered system, an invalid configuration, and iff some runner of the system is RUNNING, in this order, without effect; otherwise the system is removed, and loaded again iff loading finds it valid; runners keep distinct names and records |
| PluginLoader.RemovingLeavesOthers | bartender/local_plugins/manager.py:170-171 | removing the runners one by one leaves exactly those of other systems, in order |
| PluginLoader.OthersMeaning | bartender/local_plugins/registry.py:29-40 | these are exactly the runners with another system name or version |
| PluginLoader.ReloadIsExact | bartender/local_plugins/manager.py:140-173 | after a reload the system has exactly one runner per configured instance, all with path, arguments and requirements of the new configuration, and the other systems have theirs |
| PluginLoader.LocalPluginLoader.ValidatePluginRequirements | bartender/local_plugins/loader.py:59-77 | removes, one by one, the runners with a requirement that was not registered before the pass |
| PluginRequirements.CheckKeepsExactlySatisfied | bartender/local_plugins/loader.py:59-77 | what is left is exactly the runners each of whose requirements is the system of some runner registered before, in order |
| PluginRequirements.OnePassIsEnoughExactly | bartender/local_plugins/loader.py:61-77 | all remaining requirements are met by remaining runners iff no survivor requires a system all of whose runners are removed |
| PluginRequirements.StartUpEndsExactly | bartender/local_plugins/manager.py:175-246 | at start-up, when no survivor requires a failed system, the start loop over what the check leaves ends iff every requirement runs already or is among the survivors, and those that have to be started are acyclic |
| PluginRequirements.StartUpSettlesExactly | bartender/local_plugins/manager.py:175-246 | also with failed requirements, as long as no survivor's own system runs or has failed: it ends iff the least fixpoint leaves no survivor waiting |
| PluginRequirements.ChainIsMissed | bartender/local_plugins/loader.py:65-77 | with a missing requirement two steps away the check leaves a plugin on which the start loop never ends |
| StopProtocol.ApplyKeepsInv | bartender/local_plugins/manager.py:79-127 | every step of every participant keeps the invariant that ties messages, flags, calls and the monitor together |
| StopProtocol.SentMeansFlagged | bartender/local_plugins/manager.py:92-100 | in every reachable state, a runner for which `_stop` was sent has its stop flag set |
| StopProtocol.StoppedRunnersAreNotRestarted | bartender/local_plugins/monitor.py:40-57 | the monitor is never about to restart a runner whose process obeyed the `_stop` sent for it, or was killed after it was flagged |
| StopProtocol.NeverPickedAfterStop | bartender/local_plugins/monitor.py:36-44 | once `_stop` has been sent for a runner, no pass of the monitor picks it in any continuation of the run |
| StopProtocol.FlaggedInTimeIsNeverRestarted | bartender/local_plugins/monitor.py:36-66 | a runner flagged before its process exits is never restarted or given up, whatever is written to its status afterwards |
| StopProtocol.NamesStayUnique | bartender/local_plugins/registry.py:42-77 | as long as removing and registering are single steps, the registry holds at most one runner of each unique name under every interleaving |
| RegistryRace.DoubledExactly | bartender/local_plugins/registry.py:60-77 | with look-up and append apart, calls in progress can leave a name twice iff one is about to append a name that is listed by now, or two are for the same name, which is not listed |
| RegistryRace.OneAtATimeStaysDistinct | bartender/local_plugins/registry.py:42-77 | names stay distinct in every run in which a name is registered by one call at a time |
| StopEquivalence.EveryStopIsStopPlugin | bartender/local_plugins/manager.py:79-127 | every run of one call without interference that returns leaves the status, flag, thread and process that the one-step `StopPlugin` leaves, for some account of raises, the thread and reports |
| StopEquivalence.StopPluginIsAStop | bartender/local_plugins/manager.py:79-127 | every such account that fits the state has a run that ends so |
| MonitorEquivalence.EarlyReturnExactly | bartender/local_plugins/manager.py:83-93 | at its start a call of `stop_plugin` takes the early return iff the status is DEAD, STOPPED or STOPPING, and skips the mark iff it cannot be determined |
| MonitorEquivalence.StartTable | bartender/local_plugins/manager.py:19-66 | `start_plugin` as a single step of the protocol, status by status, with the registry it leaves |
| MonitorEquivalence.InspectAlone | bartender/local_plugins/monitor.py:36-66 | for each runner, the monitor's steps alone lead to the status, the runners and the registry that one iteration leaves |
| MonitorEquivalence.PassAlone | bartender/local_plugins/monitor.py:30-66 | so a whole pass of small steps without interference leaves RUNNING as STARTING and STARTING as DEAD for exited, unflagged runners, all other statuses as they were, and every name and record served by a registered runner |
| StopLimits.RestartableExactly | bartender/local_plugins/monitor.py:36-57 | in every reachable state, some continuation restarts a runner iff the monitor is already heading for it, or its flag is not set, the monitor can come across it and its process can exit |
| StopLimits.FlaggedIsRestartableExactly | bartender/local_plugins/monitor.py:40-57 | a flagged runner is restarted in some continuation iff the monitor saw it exited and unflagged before and has not found another status than RUNNING since |
| StopLimits.StopRacesMonitor | bartender/local_plugins/manager.py:92-100 | a reachable run in which a registered runner is restarted although its flag is set and `_stop` was sent for it |
| StopLimits.StopThroughReplacedRunnerCanBeUndone | bartender/local_plugins/manager.py:95-100 | the guarantee is about the runner that was passed: in a reachable state the successor of a replaced runner has obeyed, and can be restarted |
| StopLimits.ProcessOutlivesStopExactly | bartender/local_plugins/manager.py:113-119 | after the last look of `stop_plugin` no process lives, and one starts to live without another start iff it had not been launched and its thread works |

## Left out

- Python 3 semantics are modelled where Python 2 and 3 differ: comparing a dictionary with a number raises `TypeError`.
- Floats are real numbers: rounding, overflow, `nan` and the infinities are not modelled, nor integers beyond the range of a float.
- Parsing numbers from strings, `re.match` and the order of a two-key dictionary are arbitrary functions (`Library`).
- Dictionaries are compared without their order, and numeric keys up to Python equality.
- Url and command choices: the query is not modelled, only its answer (`Queried`).
- Type names are the constructors of `Kind`; ignoring upper and lower case is not modelled.
- `str()` of values other than text, integers, booleans and None.
- `str()` of a declared environment value: the validator admits only strings.
- Mongo, RabbitMQ, Thrift, logging and the loading of Bartender's own configuration. Database queries are inputs; statuses are a map from record ids. `bg_utils` and `brewtils` are not part of this model.
- Subprocess creation and the threads that read its output: a process is not launched, alive or exited.
- Scheduler.StartMultiplePlugins: is observed for a number of iterations, because a method that diverges cannot be written; when the loop ends, and after how many iterations, is the subject of `SchedulerTermination`, `SchedulerFixpoint` and `SchedulerExactness`.
- The database write of `_mark_as_failed`: only the decision is recorded.
- SchedulerFixpoint.OrderIndependence: same-named plugins share their requirements and the answer of `start_plugin`, no start raises, and no queued name is settled before the loop; `OrderCanMatter` shows that otherwise the outcome can depend on the order.
- RequestLaws.ValidateIdempotent, `RequestRevalidation` and `RequestEntry.ValidateTwice`: keys are distinct at every level.
- RequestLaws.AcceptedMaximumExactly: one integer parameter; other types and constraints can keep values below a bound that is not checked.
- PluginRequirements.StartUpEndsExactly and `StartUpSettlesExactly`: no start raises, which would end the loop.
- `PluginsManager` and `PluginMonitor` treat each operation as one uninterrupted step, and a pass with process states frozen; the code holds no locks. `StopProtocol` splits `stop_plugin` and the monitor pass into small steps; `start_plugin` and the registry operations stay single steps there; `RegistryRace` splits registering.
- StopEquivalence.EveryStopIsStopPlugin: a process that is launched during the call is interference; `ProcessOutlivesStopExactly` says what becomes of it.
- `PluginStatusMonitor.check_status` and the operations of the Thrift handler appear in `StopProtocol` as steps that write any status, start, stop or unregister a runner, or send `_stop` without one.
- A restart drops the runner's log level (`bartender/local_plugins/manager.py:40-57`); runner settings beyond identity, record, path, arguments and requirements are not modelled.
- Instance names and the keys of `PLUGIN_ARGS` are strings.
- Dictionaries of choices hold lists.
- Loading that raises half-way, after records were written: `load_plugin` raises while it reads the configuration or not at all.
- The validator's checks of entry points, paths and required keys.
- Pause and unpause, scanning the plugin directory, pruning, back-off and queue clearing.
