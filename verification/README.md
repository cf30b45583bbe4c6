# Verified models of the 3scale test suite's stateful helpers

The test suite talks to remote systems: an API management server, an OpenShift cluster, a
service mesh, a browser, Prometheus, a mail catcher. This project models the algorithms that
sit between the tests and those systems, and proves what each of them guarantees over every
input or every run. Remote servers, the browser and the clock are explicit state or parameters
with arbitrary answers; only the suite's own logic is under proof.

`dafny verify dfyconfig.toml` checks everything (Dafny 4.11).

## How it is laid out

Code that changes things step by step is a class or a method with a loop, proved against a
function that says what it computes; the promises themselves are lemmas about that function.

| files | subject |
|---|---|
| Wrappers, Text, Json | option and result types, Python's `split` and `join`, JSON values |
| JsonPointer, JsonPatch | pointers (RFC 6901, sections 3 and 4) and the operations "add" and "remove" (RFC 6902, sections 4.1, 4.2 and 5) |
| PatchScripts, WasmScripts, WasmRuns, WasmClients, WasmGateway | patch scripts for the WASM plugin, the credential cache over them, its runs, and what a client finds deployed entry by entry |
| Pairing, Comparison, Toolbox, Services, Agreement | the greedy matcher, the nested comparison, and what two accepted services have in common |
| FixtureRuns, FixtureCalls, Fixtures | resource factories, hooks, finalizers and teardown, over their state and read off their calls |
| NavigatorModel, Navigator | the UI navigator: backtracking and stepping |
| GreedyPattern, EnvListing, RemoteEnviron, Environ | the environment view: regular expressions, parser, what writes do to the remote variables, and the cache with remote calls that fail |
| OperatorEnviron | the same view over a custom resource |
| ModelPaths, Scaling, Scaler | paths into a nested resource, scaling blocks |
| Accounts, Capabilities, Routes, Mailbox, Scrape, SkipRules | account creation with retries, the capability registry, route tracking, mail search, scrape timing, skip rules |

JSON Pointer and JSON Patch belong to the remote side and have no lines of their own in the
repository. Their laws carry the script proofs: printing and parsing a pointer are inverse in
both directions (`JsonPointer.ParsePrint`, `JsonPointer.PrintParse`), two different tokens never
name one array element (`JsonPatch.ArrayIndexInjective`), a replacement leaves every location
alone that is neither above nor below it (`JsonPatch.PutFrame`), and an operation changes
exactly its container or fails (`JsonPatch.ApplyAtContainer`).

## Where the code does not do what one expects

Each of these is stated over all inputs, with the condition under which the promise holds; the
last two are clauses of method contracts, the others lemmas.

* The WASM extension assigns its credential cache before the patch is built and sent. After any
  attempt that failed, the retry sends nothing and hands out a client all the same
  (`WasmRuns.RetryAfterFailure`): with the "authorization" location for key credentials always
  over a document that was never changed (`WasmRuns.RetryAfterRaise`), with any other location
  when the patch request or the rollout failed. Over every run, a handed-out client sees the
  configuration just read if and only if the last patch that went through had exactly its
  credentials and was rolled out (`WasmRuns.HandedOutAlways`); when no remote call fails, that
  is if and only if the configuration avoids the "authorization" location for key credentials
  (`WasmRuns.HandedOutExact`).
* `remove_all_credentials` does not touch the cache: the credentials are deployed again if and
  only if the cache does not hold them (`WasmRuns.RemovalDefeatsCache`).
* The plugin template has no "mapping_rules" member, so on a fresh plugin
  `remove_all_mapping_rules` is refused (`WasmRuns.TemplateFacts`).
* Comparing two services is symmetric exactly when paired entities carry equally many ignored
  keys (`Comparison.ComparisonSwap`); `Comparison.SwapFails` is a pair accepted one way only.
* A delete-side hook that raises something else than an Exception gets past the finalizer's
  catch, and its object is not deleted; whatever else hooks raise, it is
  (`FixtureRuns.DeletesEachOnce`). When deletions themselves are refused, the one plan finalizer
  stops, and the plans behind the refused one are left too (`FixtureRuns.RefusedExact`).
  `FixtureCalls.TeardownExact` says of every object made, from the calls alone, whether it is
  deleted.
* With its greedy pattern the environment parser cannot read a value holding "=": the variable
  comes back under another name (`EnvListing.UnreadablePlain`, `RemoteEnviron.ReadAfterWrite`).
* Setting `True` writes "True" over a known variable and "true" only for a new one
  (`RemoteEnviron.TrueExact`, `RemoteEnviron.SetStores`).
* The environment's cache is emptied before the listing is asked for and dropped only after the
  wait that follows a write. It stops agreeing with the remote variables if and only if a
  listing fails that had something to list, or a wait fails after a write that changed
  something (`Environ.StepAgreesExact`, `Environ.RunAgreesExact`). Over the empty cache a
  variable taken from a secret or configmap is overwritten (`Environ.EmptyCacheExact`); over the
  stale one a read returns the old value (`Environ.StaleReadExact`).
* A batch of operator variables refused midway leaves its first part in the client's copy. The
  next write publishes it if its first apply goes through, and loses it if only a retry does
  (`OperatorEnviron.RefusedBatchIsPublishedLater`); `OperatorEnviron.StepSettlesExact` says
  exactly which calls leave the client's copy and the cluster apart. This rests on the client
  library fetching the object anew before it retries an apply.
* A scaling block whose first wait fails has scaled already and is not undone, unless a block
  around it restores the component (`Scaling.BlocksLeave`, `Scaling.BlocksRestoreExact`).
* A 409 from account creation makes the cleanup delete the first account of that name, also
  when it is somebody else's (`Accounts.ForeignAccountLost`). A cleanup may fail itself: where a
  409 means that the account was created, the call adds exactly the account it returns, and none
  when it gives up, if and only if every cleanup it came to went through
  (`Accounts.OneOrNoneExact`); otherwise if and only if conflicts that created an account are as
  many as cleanups that deleted one (`Accounts.BalanceExact`). Seven refusals and a conflict
  whose cleanup fails make it give up with an account left over (`Accounts.GivesUpWithOne`).
* An unknown capability is meant to answer False, but the failed lookup is unpacked and raises:
  a question raises if and only if no provider registered so far declares the capability
  (`Capabilities.QueryRaisesExact`, `Capabilities.UnknownRaisesExact`).
* `destroy` decides by name, so a foreign route with a tracked name goes too
  (`Routes.DestroyExact`, `Routes.ForeignRouteLost`).
* After the sleep for a scrape, the poll asks for a scrape strictly later than `after`; the one
  slept for misses that when `after` lies a whole number of intervals behind the truncated
  scrape observed (`Scrape.PollAcceptsExact`). Past the computed end the sleep wraps to nearly
  a day (`Scrape.SleepBoundExact`).
* A navigation target without prerequisite that is not displayed ends in an IndexError (empty
  chain) and not in the intended message (contract of `Navigator.Navigator.Navigate`).
* The documentation of the lifecycle hooks says that what `before_backend` returns is used; the
  factory ignores it (contract of `Fixtures.Factories.CustomBackend`).

## Model

| member | source | states |
|---|---|---|
| WasmGateway.PathTexts | testsuite/gateways/wasm/extension.py:90-236 | the path texts of the scripts are the pointers spec, pluginConfig, services, 0 and credentials, mapping_rules or authorities below it |
| WasmScripts.ReplaceCredentialsExact | testsuite/gateways/wasm/extension.py:128-163 | the script succeeds exactly on documents with the three label members, and then every label's list is the in-order translation of its credentials and nothing else differs |
| WasmScripts.ReplaceCredentialsDeploys | testsuite/gateways/wasm/extension.py:128-163 | read location by location: the three lists are deployed and any location neither above nor below them references what it did before |
| WasmScripts.RemoveCredentialsExact | testsuite/gateways/wasm/extension.py:165-181 | removing labels empties exactly those lists, or is refused as a whole when one label is missing |
| WasmScripts.ReplaceListExact | testsuite/gateways/wasm/extension.py:217-236 | with overwriting, the list field ends as exactly the given list, the rest unchanged; refused exactly when the field is missing |
| WasmScripts.ReplaceThenAdd | testsuite/gateways/wasm/extension.py:217-236 | replacing by A and then adding B without overwriting is replacing by A followed by B, failures included |
| WasmGateway.ResetThenAppend | testsuite/gateways/wasm/extension.py:90-126 | resetting a list field and then adding to it leaves exactly the given list; the reset is refused exactly when the member is missing |
| WasmGateway.WasmPlugin.Patch | testsuite/gateways/wasm/extension.py:163 | a patch is all or nothing: a failing operation leaves the document untouched |
| WasmGateway.WasmExtension.AddMappingRules | testsuite/gateways/wasm/extension.py:90-109 | the loop builds the appending script of all rules; the document changes by it or not at all |
| WasmGateway.WasmExtension.RemoveAllMappingRules | testsuite/gateways/wasm/extension.py:111-118 | the reset script, applied or refused as a whole |
| WasmGateway.WasmExtension.SynchroniseMappingRules | testsuite/gateways/wasm/extension.py:120-126 | succeeds exactly when both requests and the reading between them do and the member exists, and then the deployed rules are exactly those of the configuration; a failure after the removal leaves none |
| WasmGateway.WasmExtension.ReplaceCredentials | testsuite/gateways/wasm/extension.py:128-163 | the loops build the specified script or raise the first credential's error before anything is sent; the cache is not touched |
| WasmGateway.WasmExtension.RemoveCredentials | testsuite/gateways/wasm/extension.py:165-176 | the loop builds the resets of all given labels; applied or refused as a whole |
| WasmGateway.WasmExtension.SynchroniseCredentials | testsuite/gateways/wasm/extension.py:183-215 | translation, comparison with the cache and patch refine the state function whose runs are proved below |
| WasmGateway.WasmExtension.SynchroniseAndRollOut | testsuite/gateways/wasm/__init__.py:106-110 | a rollout follows exactly the calls that patched |
| WasmGateway.WasmExtension.ReplaceAuthorities | testsuite/gateways/wasm/extension.py:217-238 | the document changes by the whole script or not at all, and a waiting call that succeeds leaves no patch without rollout |
| WasmGateway.MeshGateway.OnServiceCreate | testsuite/gateways/wasm/__init__.py:47-58 | a new extension, with no cache, under the service's id, unless creating it raises first; all others keep their state |
| WasmGateway.MeshGateway.OnServiceDelete | testsuite/gateways/wasm/__init__.py:60-62 | exactly that extension is dropped, unless its own deletion raises first; an unknown id raises |
| WasmGateway.MeshGateway.CreateApiClient | testsuite/gateways/wasm/__init__.py:106-119 | the call is one step of the run model and changes no other service's extension |
| WasmRuns.SupportedConfigExact | testsuite/gateways/wasm/extension.py:183-209 | the configuration's credentials can be deployed if and only if the caller's guard on location and method holds, and they use only the three labels |
| WasmRuns.RepeatedCallIsQuiet | testsuite/gateways/wasm/extension.py:211-215 | a second call with unchanged non-empty credentials sends no patch, changes nothing and still hands out a client |
| WasmRuns.AttemptExact | testsuite/gateways/wasm/__init__.py:106-119 | a call that patches hands out a client if and only if the configuration is supported and both remote calls succeed; what is deployed afterwards is decided exactly by how far it got |
| WasmRuns.RetryAfterFailure | testsuite/gateways/wasm/extension.py:211-215 | after any attempt that failed the retry sends nothing and hands out a client, which sees its credentials if and only if no patch was made and they had been deployed before |
| WasmRuns.RemovalDefeatsCache | testsuite/gateways/wasm/extension.py:165-215 | after removing all credentials a client handed out sees its own if and only if the cache does not hold them; otherwise it finds empty lists |
| WasmRuns.RunKeepsInvariant | testsuite/gateways/wasm/__init__.py:47-119 | over every run with any failures, a completed non-empty cache agrees with the deployed document and its rollout is done, and the document is what the last patch made of it |
| WasmRuns.HandedOutAfterCompletion | testsuite/gateways/wasm/__init__.py:106-119 | in every run, with any failures, a client handed out by a patching call or after a completed one sees the configuration just read |
| WasmRuns.HandedOutAlways | testsuite/gateways/wasm/__init__.py:106-119 | in every run with any failures, a handed-out client sees the configuration just read if and only if the last patch that went through had exactly its credentials and was rolled out, or there was none and the plugin began with them |
| WasmRuns.HandedOutExact | testsuite/gateways/wasm/__init__.py:106-119 | in every run without remote failures, that is if and only if the configuration is supported |
| WasmRuns.RetryAfterRaise | testsuite/gateways/wasm/extension.py:211-215 | with the "authorization" location the first call raises and the second hands out a client that does not see its credentials, over the unchanged document |
| WasmRuns.TemplateFacts | testsuite/resources/service_mesh/plugin.yaml:37-62 | in whatever document holds the template's service entry, it has the three labels and the authorities but no mapping rules |
| WasmClients.DeploysShows | testsuite/gateways/wasm/extension.py:128-215 | deploying the credentials of a configuration is having exactly the list entries it calls for: its keys under query_string for "query" and header for "headers", the claim filter for OIDC, and none at all otherwise |
| WasmClients.PatchedShows | testsuite/gateways/wasm/__init__.py:106-119 | after a call that patched and rolled out, the plugin has exactly those entries |
| WasmClients.HandedOutShows | testsuite/gateways/wasm/__init__.py:106-119 | in every run without remote failures, a client is handed out for exactly the services there are, and for "query" and "headers" its keys are looked for in that place |
| WasmClients.LocationExact | testsuite/gateways/wasm/extension.py:196-199 | a location other than the three raises KeyError |
| WasmClients.AttemptErrors | testsuite/gateways/wasm/extension.py:144-215 | which error a failing call reports: KeyError exactly for an unknown location, NotImplemented only for basic authorization of a key |
| WasmClients.EmptyIsPatchedAgain | testsuite/gateways/wasm/extension.py:211-215 | without credentials every call patches |
| WasmClients.RulesShow | testsuite/gateways/wasm/extension.py:90-126 | replacing the mapping rules leaves one entry for each, in order, with its method, pattern, metric, delta and last |
| WasmClients.RuleEntryTells | testsuite/gateways/wasm/extension.py:98-107 | two rules with the same entry are the same |
| WasmClients.AuthoritiesShow | testsuite/gateways/wasm/extension.py:217-236 | replacing the authorities leaves exactly the given texts, in order |
| WasmClients.EventExact | testsuite/gateways/wasm/__init__.py:47-119 | an event touches no other service; what creating, deleting and asking for a client return, and when an extension is stored or dropped |
| WasmClients.StoredExact | testsuite/gateways/wasm/__init__.py:47-62 | over every run a service has an extension if and only if it was created and not deleted since by calls that went through |
| Pairing.StablePairing | testsuite/toolbox/toolbox.py:187-193 | the i-th entity of a key on the left is paired with the i-th of that key on the right, and the surplus on the right stays, in order |
| Pairing.LeftoverExact | testsuite/toolbox/toolbox.py:187-193 | what is left of the second list is the original minus the matched elements, in the original order |
| Pairing.PairCount | testsuite/toolbox/toolbox.py:187-193 | the number of pairs is the sum over the keys of the smaller multiplicity |
| Pairing.GreedyIsMaximum | testsuite/toolbox/toolbox.py:187-193 | no matching of equal keys has more pairs than the loop finds |
| Pairing.Mirror | testsuite/toolbox/toolbox.py:187-193 | swapping the two lists swaps the pairs and changes nothing else about them |
| Pairing.PairsArePartners | testsuite/toolbox/toolbox.py:187-193 | two entities are paired if and only if they have the same key and equally many of that key before them |
| Comparison.EntitySwap | testsuite/toolbox/toolbox.py:152-196 | equal key counts and equality on the first entity's compared keys force equal compared key sets, and the reverse comparison, if and only if equally many keys are ignored on both sides |
| Comparison.QueueIsGreedy | testsuite/toolbox/toolbox.py:187-193 | where all entities have their id attributes the loop raises nothing and is the greedy pairing |
| Comparison.SameIdsExact | testsuite/toolbox/toolbox.py:190 | two entities are taken for the same exactly when all id attributes are there and equal; a missing one raises unless one before it differs |
| Comparison.ListsExact | testsuite/toolbox/toolbox.py:175-196 | two lists are accepted if and only if they are equally long, where asked, and every two matched entities are accepted |
| Comparison.MissingIdRefused | testsuite/toolbox/toolbox.py:190 | an entity without the attribute it is matched by raises |
| Comparison.AcceptedValues | testsuite/toolbox/toolbox.py:152-172 | accepted entities have equal values at every compared key |
| Comparison.ComparisonSwap | testsuite/toolbox/toolbox.py:199-417 | an accepted nested comparison is accepted the other way round if and only if all paired entities carry equally many ignored keys |
| Comparison.ListsSwap | testsuite/toolbox/toolbox.py:175-196 | the same for one call of `find_and_cmp` on two lists |
| Comparison.SwapFails | testsuite/toolbox/toolbox.py:152-196 | a concrete pair accepted in one direction only |
| Toolbox.PyList.Remove | testsuite/toolbox/toolbox.py:192 | the first element equal to the argument goes, in place |
| Toolbox.CompareEntities | testsuite/toolbox/toolbox.py:152-172 | accepts exactly when every listed attribute is in both entities and equal |
| Toolbox.TakePartner | testsuite/toolbox/toolbox.py:189-193 | the first remaining entity with the same id attributes is taken out of the list; a missing attribute raises |
| Toolbox.BuildQueue | testsuite/toolbox/toolbox.py:187-193 | the queue and the list consumed in place are those of the pairing function |
| Toolbox.FindAndCmp | testsuite/toolbox/toolbox.py:175-196 | decides acceptance of two lists: lengths, pairing and all comparisons |
| Toolbox.CompareQueue | testsuite/toolbox/toolbox.py:194-196 | accepts exactly when every queued pair is accepted |
| Toolbox.CompareNodes | testsuite/toolbox/toolbox.py:199-417 | the nested comparison decides acceptance of two resource trees, and ends |
| Services.ServiceKeyed | testsuite/toolbox/toolbox.py:218-417 | resources carrying the attributes each level matches by never raise in the pairing |
| Services.ServicesSwap | testsuite/toolbox/toolbox.py:199-417 | for two services: the comparison can be turned round if and only if all paired entities carry equally many ignored keys |
| Agreement.CompareServices | testsuite/toolbox/toolbox.py:199-215 | decides acceptance of the two services' comparison trees, and with the attributes they are matched by, whether the services agree |
| Agreement.ServicesExact | testsuite/toolbox/toolbox.py:152-417 | two services are accepted if and only if their own values, the proxy's, and those of all metrics, methods, mapping rules, plans, limits, pricing rules, active docs, usages and backends matched by their ids are equal at every key that is not ignored |
| Agreement.OtherValueRefused | testsuite/toolbox/toolbox.py:152-172 | a service and a copy with one compared value changed, so with the same keys, are not accepted |
| FixtureRuns.PerformAllKeeps | testsuite/tests/conftest.py:818-1082 | over every run of the factories, registered objects are distinct and live, and children refer to live parents |
| FixtureRuns.DeletesEachOnce | testsuite/tests/conftest.py:818-1082 | whatever the delete-side hooks raise, teardown requests the deletion of every autocleaned object exactly once and of nothing else, but for an object whose own hook gets past the catch |
| FixtureRuns.TeardownSafeExact | testsuite/tests/conftest.py:818-1082 | no plan with a live application, service with a live plan or backend with a live usage is deleted, if and only if children of deleted parents are autocleaned and no hook of theirs gets past the catch |
| FixtureRuns.RefusedExact | testsuite/tests/conftest.py:818-1082 | with the deletions of any applications, plans and services refused, an autocleaned object is left if and only if a hook of its own gets past the catch, its deletion is refused, or it is a plan behind the first refused one; safety again exactly when children of deleted parents are deleted |
| FixtureRuns.RunThenTeardown | testsuite/tests/conftest.py:818-1082 | the same after any run with hooks and requests raising anywhere; with cleanup skipped nothing is deleted |
| FixtureCalls.RunExact | testsuite/tests/conftest.py:818-1082 | after every run the server has exactly the objects the calls made, and each registry exactly those made for it, in order: those to be cleaned by kind, and services that are not among the orphans |
| FixtureCalls.MadeOnce | testsuite/tests/conftest.py:818-1082 | every object is made by one call |
| FixtureCalls.ParentExact | testsuite/tests/conftest.py:827-909 | a plan hangs below the service its call named and an application below its plan |
| FixtureCalls.UsagesExact | testsuite/tests/conftest.py:1009-1011 | the usages are those of the backends attached when a service was made |
| FixtureCalls.HooksExact | testsuite/tests/conftest.py:908-1073 | each finalizer runs the delete-side hooks of the call that made its object |
| FixtureCalls.TeardownExact | testsuite/tests/conftest.py:818-1082 | after every run, each object made is deleted once and gone exactly when it was made to be cleaned with cleanup not skipped, its deletion is not refused, no hook of its own escapes and no plan to be cleaned before it is refused; any other stays |
| FixtureCalls.NothingElseDeleted | testsuite/tests/conftest.py:818-1082 | nothing that was not made is deleted, and nothing when cleanup is skipped |
| FixtureCalls.SafeExact | testsuite/tests/conftest.py:818-1082 | nothing with live dependents is deleted if and only if, call by call, children of deleted parents are deleted too |
| FixtureCalls.OrderExact | testsuite/tests/conftest.py:818-1082 | finalizers delete what was made last first, plans in the order they were made, a backend right after its usages |
| FixtureCalls.UsagesLeft | testsuite/tests/conftest.py:1034-1036 | the usages left are those of no deleted service and no swept backend |
| Fixtures.RunBefore | testsuite/tests/conftest.py:975-976 | each hook gets what the one before returned; the first that raises ends the loop |
| Fixtures.SelectBeforeExact | testsuite/tests/conftest.py:876-881 | exactly the hooks that have the name are called, each once, in their order |
| Fixtures.SelectOnExact | testsuite/tests/conftest.py:876-881 | the same for the create-side hooks |
| Fixtures.SelectDeleteExact | testsuite/tests/conftest.py:876-881 | the same for the delete-side hooks |
| Fixtures.ThreadExact | testsuite/tests/conftest.py:975-976 | the result is what the last hook returned, each given what the one before it returned |
| Fixtures.AttachedPrefix | testsuite/tests/conftest.py:1009-1011 | the backends attached are those before the first refusal |
| Fixtures.RunOn | testsuite/tests/conftest.py:1019-1020 | raises exactly when some selected hook does |
| Fixtures.RunOnDelete | testsuite/tests/conftest.py:996-1000 | passes over every Exception; ends early exactly when a hook raises something else |
| Fixtures.Factories.RegisterService | testsuite/tests/conftest.py:990-1008 | once created, the service's finalizer is in place with its delete-side hooks, whatever happens later, among the orphans when it is not autocleaned |
| Fixtures.Factories.AttachUsages | testsuite/tests/conftest.py:1009-1011 | the usages up to the first refusal are made, in order |
| Fixtures.Factories.CustomService | testsuite/tests/conftest.py:971-1022 | a hook raising before creation leaves no trace, one raising later leaves the service registered; returns exactly when nothing raised |
| Fixtures.Factories.CustomAppPlan | testsuite/tests/conftest.py:827-833 | with no service given one is made first, autocleaned, and the plan belongs to it; returns exactly when every request succeeded |
| Fixtures.Factories.CustomApplication | testsuite/tests/conftest.py:898-925 | the application is registered as soon as it exists, also when a later hook raises |
| Fixtures.Factories.CustomBackend | testsuite/tests/conftest.py:1049-1080 | hooks get the same parameters and their results are dropped; registration as for the other factories |
| Fixtures.Factories.FinishPlans | testsuite/tests/conftest.py:835-836 | the one plan finalizer deletes its list from the front and stops at the first plan that is refused |
| Fixtures.Factories.FinishEach | testsuite/tests/conftest.py:908-918 | finalizers run last registered first, each its hooks and then the deletion; one left by an exception, of a hook or of the deletion, does not stop the others |
| Fixtures.Factories.DeleteObject | testsuite/tests/conftest.py:1067-1073 | a backend goes through the retried deletion, after its usages |
| Fixtures.Factories.TearDown | testsuite/tests/conftest.py:818-1082 | the whole teardown, hooks, retries and refused deletions included, performs exactly the deletions the lemmas speak of |
| Fixtures.Factories.BackendDelete | testsuite/tests/conftest.py:1030-1036 | at most 14 attempts; when one meets no error, exactly the backend's usages and then the backend are gone, and otherwise the backend stays |
| Fixtures.Factories.SweepAttempt | testsuite/tests/conftest.py:1034-1036 | an attempt that gets through leaves no usage of the backend |
| NavigatorModel.ClimbDistinct | testsuite/ui/navigation/__init__.py:108-127 | the views on a finished chain are all distinct |
| NavigatorModel.ClimbUnique | testsuite/ui/navigation/__init__.py:108-127 | a target has only one finished chain, so the contract of the backtracking fixes its result |
| NavigatorModel.AcyclicEnds | testsuite/ui/navigation/__init__.py:108-127 | for every acyclic prerequisite relation the recursion ends, within one step more than there are prerequisites |
| NavigatorModel.ChooseExact | testsuite/ui/navigation/__init__.py:147-194 | an exact name is taken if and only if it is listed, "@href" only without it, and not-found is reported exactly when neither is there, in whatever order |
| NavigatorModel.PerformSucceeds | testsuite/ui/navigation/__init__.py:130-145 | when every pair has a working step, the displayed target is returned after chain length minus one steps, one `post_navigate` per destination in order, and the chain is reduced to the target |
| NavigatorModel.PerformFailsExactly | testsuite/ui/navigation/__init__.py:130-145 | when the existing steps work, navigation fails if and only if some pair has no step, at the pair nearest the root |
| NavigatorModel.PerformExact | testsuite/ui/navigation/__init__.py:130-194 | whatever steps do: the target is returned if and only if every pair has a step and every step and `post_navigate` returned; otherwise it ends at the first pair where one did not, with that error |
| Navigator.Navigator.FindStep | testsuite/ui/navigation/__init__.py:158-174 | the search through the listed steps makes the specified choice |
| Navigator.Navigator.FindAlternative | testsuite/ui/navigation/__init__.py:187-194 | the first "@href" among the collected alternatives is the first listed one |
| Navigator.Navigator.Backtrace | testsuite/ui/navigation/__init__.py:108-127 | ends with the chain from the target up to the nearest displayed ancestor, or fails because there is none, with the browser untouched |
| Navigator.Navigator.PerformSteps | testsuite/ui/navigation/__init__.py:130-145 | refines the step function: same result, chain, browser state and order of events |
| Navigator.Navigator.Navigate | testsuite/ui/navigation/__init__.py:64-75 | total: the target by the steps of the unique chain, a refresh when it is already displayed, or the error of a stuck climb |
| GreedyPattern.LongestExact | testsuite/openshift/env.py:17 | a greedy group takes the largest prefix after which the rest of the pattern matches |
| GreedyPattern.SplitExact | testsuite/openshift/env.py:17 | the pattern of plain variables matches exactly the lines holding the separator, and splits at its last occurrence |
| GreedyPattern.ReferenceExact | testsuite/openshift/env.py:45-65 | a reference line is read back as written if and only if neither separator occurs again in what follows it |
| EnvListing.EqualsMeansPlain | testsuite/openshift/env.py:126-132 | every line holding "=" is taken for a plain variable, split at its last "=" |
| EnvListing.LineTexts | testsuite/openshift/env.py:14-65 | the three forms of a line |
| EnvListing.LineRoundTrip | testsuite/openshift/env.py:14-70 | printing a variable and parsing the line gives it back if and only if a plain value holds no "=", the separators of a reference do not occur again, and one to a configmap does not read as one to a secret |
| EnvListing.ReferenceMatches | testsuite/openshift/env.py:45-65 | a line is taken for a reference exactly when its separators occur in order after the head |
| EnvListing.UnreadablePlain | testsuite/openshift/env.py:17 | a plain variable with "=" in its value comes back under another name |
| EnvListing.ListingLines | testsuite/openshift/env.py:125-126 | splitting the listing at newlines gives back the lines of the variables |
| EnvListing.CollectExact | testsuite/openshift/env.py:122-132 | the parsed listing has a name exactly when a readable variable of that name is there, with that variable |
| EnvListing.ListingRoundTrip | testsuite/openshift/env.py:122-132 | any set of readable variables printed as a listing and parsed is that set |
| RemoteEnviron.ReadAfterWrite | testsuite/openshift/env.py:150-167 | a read after a write returns that write if and only if the text holds no "=", and other variables read as before |
| RemoteEnviron.ReadAfterDelete | testsuite/openshift/env.py:169-174 | after a deletion the name is gone and other variables read as before |
| RemoteEnviron.RunIsDictionary | testsuite/openshift/env.py:106-174 | over every run of sets, deletions and bulk sets with readable texts, what the listing says is a plain dictionary |
| RemoteEnviron.TrueExact | testsuite/openshift/env.py:155-163 | the bool True reads back as "true" if and only if the name was not known before |
| RemoteEnviron.SetStores | testsuite/openshift/env.py:155-163 | a set stores the very text, "False" for False, and for True "true" where the name was new and "True" where it was known; other variables read as before |
| RemoteEnviron.SetManyStores | testsuite/openshift/env.py:134-148 | a bulk set stores every text under its name, "true" for True, and leaves other names alone |
| Environ.RunAgrees | testsuite/openshift/env.py:106-174 | in every run whose remote calls succeed the cache is absent or equals the parsed listing, and the remote variables are what the writes alone make of them |
| Environ.RunReads | testsuite/openshift/env.py:106-174 | after such a run of readable writes a client reads every name as from a plain dictionary that took the same writes |
| Environ.RunRecovers | testsuite/openshift/env.py:134-174 | whatever failed before, after a write that returns the cache agrees, and goes on agreeing while calls succeed |
| Environ.WriteExact | testsuite/openshift/env.py:134-174 | what a write over a right cache returns, and what it changes: exactly when its request is made, and then what was intended |
| Environ.ReadsWhatIsThere | testsuite/openshift/env.py:24-72 | a read returns the text, or what the server has under the object and key of a reference, or KeyError |
| Environ.StepAgreesExact | testsuite/openshift/env.py:116-174 | a call leaves a cache that does not agree if and only if its listing fails with something to list, or its wait fails after a change with a cache present |
| Environ.RunAgreesExact | testsuite/openshift/env.py:106-174 | over every run with failures the cache agrees throughout if and only if no call does either |
| Environ.EmptyCacheExact | testsuite/openshift/env.py:122-163 | after a failed listing every read raises, and a write does what it should if and only if the name is new, or plain and written the same either way; a reference is overwritten |
| Environ.StaleReadExact | testsuite/openshift/env.py:30-34 | after a failed wait a read finds what was written if and only if it was there before |
| Environ.Environ.Recognise | testsuite/openshift/env.py:127-132 | the first kind whose pattern matches decides |
| Environ.Environ.Refresh | testsuite/openshift/env.py:122-132 | the cache becomes the parsed listing, or is left empty when the listing raises |
| Environ.Environ.Envs | testsuite/openshift/env.py:116-120 | a cache that is there is returned unasked, otherwise it is refreshed |
| Environ.Environ.Get | testsuite/openshift/env.py:150-153 | the value by the cached view, KeyError, or the listing's own failure |
| Environ.Environ.Set | testsuite/openshift/env.py:155-167 | refines the write of the run model, with each remote call free to fail: a cached reference is refused with nothing changed, and the cache is dropped only after the wait |
| Environ.Environ.SetMany | testsuite/openshift/env.py:134-148 | refines the bulk write: all variables change in order or none, references included; the cache is dropped only after the wait |
| Environ.Environ.Delete | testsuite/openshift/env.py:169-174 | refines the deletion: missing and referenced names are refused with nothing changed; the cache is dropped only after the wait |
| OperatorEnviron.RunIsDictionary | testsuite/gateways/apicast/operator.py:45-114 | over every run with applies failing anywhere, plain names read as from a dictionary of the client's own writes, and the cluster holds another, whatever the list and version setters do in between |
| OperatorEnviron.ReturnSettles | testsuite/gateways/apicast/operator.py:88-114 | after a call that returns the cluster holds what the client holds, whatever was left open before |
| OperatorEnviron.StepSettlesExact | testsuite/gateways/apicast/operator.py:88-114 | where the two agree before, a call returns if and only if its names are accepted and some apply goes through, and leaves the two apart if and only if it does not return and has changed the client's copy |
| OperatorEnviron.RunPublishesExact | testsuite/gateways/apicast/operator.py:88-114 | over every run the two agree after each call if and only if no call leaves them apart |
| OperatorEnviron.WriteManyShows | testsuite/gateways/apicast/operator.py:88-94 | a batch is refused exactly when it holds an unknown name, and what came before that name shows in the client's copy |
| OperatorEnviron.EraseShows | testsuite/gateways/apicast/operator.py:79-86 | a deletion succeeds exactly for plain names that are set, and touches no other |
| OperatorEnviron.RefusedBatchIsPublishedLater | testsuite/gateways/apicast/operator.py:88-94 | the accepted part of a refused batch is published by the next write whose first apply goes through, and lost to one where only a retry does |
| OperatorEnviron.VersionsDoNotInterfere | testsuite/gateways/apicast/operator.py:29-33 | setting one service's version keeps every other version and every other field |
| OperatorEnviron.ServiceListExact | testsuite/gateways/apicast/operator.py:22-25 | the enabled services are the parts of the value between its commas, and no other field changes |
| OperatorEnviron.PlainOnly | testsuite/gateways/apicast/operator.py:79-102 | only plain names can be read and deleted, with which error otherwise |
| OperatorEnviron.Environ.Get | testsuite/gateways/apicast/operator.py:96-102 | the field's value or None; setters and unknown names are refused |
| OperatorEnviron.Environ.ModifyAndApply | testsuite/openshift/crd/apicast.py:49-54 | the modifier and up to three applies, with the copy fetched anew before a retry, refine the attempt function; exhausted retries raise with the client's copy changed |
| OperatorEnviron.Environ.Update | testsuite/gateways/apicast/operator.py:65-93 | sets, deletes or loops over a batch on the client's copy, up to the first refusal |
| OperatorEnviron.Environ.Set | testsuite/gateways/apicast/operator.py:104-106 | one such call, followed by a wait exactly when it returned |
| OperatorEnviron.Environ.Delete | testsuite/gateways/apicast/operator.py:108-110 | one such call; a refused or missing name changes nothing anywhere |
| OperatorEnviron.Environ.SetMany | testsuite/gateways/apicast/operator.py:88-94 | one such call over the whole batch |
| ModelPaths.AssignExact | testsuite/openshift/crd/apimanager.py:8-49 | an assignment is refused exactly when the parent is missing or no mapping, with the error of each |
| ModelPaths.ReadCons | testsuite/openshift/crd/apimanager.py:8-19 | reading a path goes through its first member; an absent one is Missing and what is no mapping raises |
| ModelPaths.ReadOne | testsuite/openshift/crd/apimanager.py:51-55 | the last fragment is looked up as a member |
| ModelPaths.SetThenGet | testsuite/openshift/crd/apimanager.py:43-55 | get after set returns the value, the last set wins, putting the old value back restores the document |
| ModelPaths.SetElsewhere | testsuite/openshift/crd/apimanager.py:43-55 | paths that do not prefix one another do not interfere |
| Scaling.PathsApart | testsuite/openshift/crd/apimanager.py:103-125 | the paths of the two components do not prefix one another |
| Scaling.BlocksLeave | testsuite/openshift/scaler.py:31-55 | any well-nested program of blocks, raising anywhere, ends with every effective replica count as it began and nothing else of the resource changed, but for what a block late for its first wait leaves behind |
| Scaling.BlocksRestoreExact | testsuite/openshift/scaler.py:31-55 | all counts are restored if and only if no reached block was late unrestored, or it asked for the count it found |
| Scaling.LateEntryIsNotUndone | testsuite/openshift/scaler.py:48-55 | a block failing its first wait leaves the count as it was only if it asked for that count |
| Scaling.BlockExact | testsuite/openshift/crd/apimanager.py:80-125 | by name and path: the body runs with the count asked for, and the block ends with the count from before, or 1 where there was none |
| Scaling.DirectBlockExact | testsuite/openshift/scaler.py:31-55 | the same over deployments with their own counts |
| Scaling.BlockRefused | testsuite/openshift/scaler.py:31-36 | an unknown name, or a path that cannot be read or set, raises with nothing changed |
| Scaler.APIManager.Locator | testsuite/openshift/crd/apimanager.py:8-19 | the walk ends at the object holding the last fragment, at Missing or at what is no mapping |
| Scaler.APIManager.Get | testsuite/openshift/crd/apimanager.py:51-55 | reads what the path laws speak of |
| Scaler.APIManager.Set | testsuite/openshift/crd/apimanager.py:43-49 | assigns what the path laws speak of, or raises and changes nothing |
| Scaler.Scaler.Component | testsuite/openshift/scaler.py:31-46 | the previous count in effect is returned and the new one set, through the operator or directly |
| Scaler.Scaler.Execute | testsuite/openshift/scaler.py:48-55 | blocks with their `finally` refine the program semantics of the restore theorem |
| Accounts.Client.AccountsCreate | testsuite/resilient.py:41-55 | the retry loop, with a cleanup whose requests may fail themselves, refines the attempt function |
| Accounts.AttemptBound | testsuite/resilient.py:41-42 | between one and the allowed number of attempts are made |
| Accounts.EndsExact | testsuite/resilient.py:41-55 | it goes on until an attempt creates the account or the attempts are used up |
| Accounts.GivesUpExact | testsuite/resilient.py:41-55 | where a 409 means that the account was created, it gives up if and only if all allowed attempts fail, and otherwise returns at the first that does not |
| Accounts.NoneBefore | testsuite/resilient.py:41-55 | with no such account before and cleanups that work, it returns with exactly one, new, or ends with none, all other accounts in place; it crashes only on a conflict that created nothing |
| Accounts.CountExact | testsuite/resilient.py:41-55 | whatever fails, accounts of other names stay as they were, and those of this name are conserved: before, returned and made by conflicts together are those in the end and those cleaned up |
| Accounts.OneOrNoneExact | testsuite/resilient.py:41-55 | where a 409 means that the account was created, the call adds exactly the account it returns, and none when it gives up, if and only if every cleanup it came to went through; it never crashes |
| Accounts.BalanceExact | testsuite/resilient.py:41-55 | for all answers: if and only if conflicts that created an account are as many as cleanups that deleted one |
| Accounts.GivesUpWithOne | testsuite/resilient.py:41-55 | within the eight attempts, a cleanup that fails on the last leaves an account over |
| Accounts.ForeignAccountLost | testsuite/resilient.py:49-55 | an account that already had the name survives if and only if no attempt meets a conflict whose cleanup goes through |
| Capabilities.QueryRaisesExact | testsuite/capabilities/__init__.py:78-87 | the failed lookup raises if and only if no provider declares the capability; False is never answered for one |
| Capabilities.UnknownRaisesExact | testsuite/capabilities/__init__.py:54-87 | the same at every position of every run: if and only if no provider registered before declares the capability, whatever providers declare, find or raise |
| Capabilities.QueryIsTruth | testsuite/capabilities/__init__.py:78-87 | with disjoint declarations and honest providers every question gets the one true answer, in whatever order questions come, unless the provider run for it raises |
| Capabilities.RanWasAsked | testsuite/capabilities/__init__.py:78-87 | over every run a provider has been run only if it was the first to declare what some question asked for |
| Capabilities.AskedIsDiscovered | testsuite/capabilities/__init__.py:78-87 | what was asked of a provider that did not raise has been discovered |
| Capabilities.LazyIsEager | testsuite/capabilities/__init__.py:54-87 | the lazy registry answers every sequence of registrations and questions as running every provider at once would, except where a provider raises, and completes none twice |
| Capabilities.OverlapDiffers | testsuite/capabilities/__init__.py:67-87 | with overlapping declarations the two can differ |
| Capabilities.CapabilityRegistry.Find | testsuite/capabilities/__init__.py:67-76 | the first provider that declares the capability, or none |
| Capabilities.CapabilityRegistry.Contains | testsuite/capabilities/__init__.py:78-87 | refines the question function; an undeclared capability raises, and a provider that raises leaves the registry as it was |
| Capabilities.CapabilityRegistry.RegisterProvider | testsuite/capabilities/__init__.py:63-65 | appended last, so earlier providers keep precedence |
| Routes.AlwaysTracks | testsuite/gateways/apicast/__init__.py:106-158 | over every run, with duplicates, outside changes and requests that fail, every live route the gateway created is tracked |
| Routes.NothingLeftBehind | testsuite/gateways/apicast/__init__.py:106-158 | a deletion leaves a route of this gateway if and only if there was one and the request fails; after a `destroy` that goes through there is none, and a second one changes nothing |
| Routes.WalkExact | testsuite/gateways/apicast/__init__.py:109-112 | `destroy` leaves the live routes of the names it has not passed, and raises exactly when it has not passed all |
| Routes.WalkCounts | testsuite/gateways/apicast/__init__.py:109-112 | a failing `destroy` ends after as many deletions as came before the failing request |
| Routes.RequestExact | testsuite/gateways/apicast/__init__.py:144-158 | what each creation, recreation and deletion leaves under its name and any other, accepted or refused |
| Routes.FailedDestroyExact | testsuite/gateways/apicast/__init__.py:106-115 | over every run, after a `destroy` that fails every live route of this gateway is still tracked, and repeating it finishes what it began |
| Routes.ServiceRoutesGone | testsuite/gateways/apicast/zyncless.py:58-65 | after a service's deletion that goes through neither of its routes is live by this gateway; other routes are untouched in any case |
| Routes.DestroyExact | testsuite/gateways/apicast/__init__.py:106-115 | over every run a live route survives a `destroy` that goes through if and only if its name is not tracked, and then it is foreign |
| Routes.ForeignRouteLost | testsuite/gateways/apicast/__init__.py:106-115 | a route put from outside under a name still tracked is destroyed |
| Routes.Gateway.Add | testsuite/gateways/apicast/__init__.py:144-148 | a taken name or a refused creation raises and is not tracked, any other is created and tracked |
| Routes.Gateway.Delete | testsuite/gateways/apicast/__init__.py:154-158 | a tracked live route goes together with one tracking entry, or neither when the request raises; otherwise nothing happens |
| Routes.Gateway.Create | testsuite/gateways/apicast/zyncless.py:33-42 | the route ends up created by this gateway and tracked, whoever had the name; when the creation is refused the old one is gone |
| Routes.Gateway.OnServiceDelete | testsuite/gateways/apicast/zyncless.py:58-65 | deletes the staging and then the production name, up to a request that raises |
| Routes.Gateway.DestroyAll | testsuite/gateways/apicast/__init__.py:106-112 | the loop removes exactly the live routes with tracked names, up to a request that raises |
| Mailbox.ChunksExact | testsuite/mailhog.py:70-86 | the chunks concatenate to the mailbox, with a positive limit to its prefix of that length rounded up to whole chunks, with a negative one to nothing |
| Mailbox.RoundUpIsMultiple | testsuite/mailhog.py:81-82 | the rounded length is a whole number of chunks |
| Mailbox.Mailhog.GetMessagesByChunk | testsuite/mailhog.py:70-86 | the loop yields the specified pages |
| Mailbox.Mailhog.AllMessages | testsuite/mailhog.py:62-68 | the whole mailbox, in order |
| Mailbox.Mailhog.Find | testsuite/mailhog.py:89-104 | the in-order filter of the mailbox, and its identifiers are remembered |
| Mailbox.Mailhog.DeleteSearched | testsuite/mailhog.py:106-121 | the mailbox loses exactly the remembered identifiers, which are forgotten; when a request fails, only those before it, and all stay remembered |
| Mailbox.RepeatedCleanup | testsuite/mailhog.py:116-121 | repeating a cleanup that failed leaves what one that went through would have |
| Mailbox.FailuresDoNotMatter | testsuite/mailhog.py:56-121 | over every run with mails arriving and cleanups failing between searches, a cleanup that goes through in the end leaves exactly the messages no search has matched, as if the others had not been tried |
| Mailbox.SearchedExact | testsuite/mailhog.py:56-104 | an identifier is remembered if and only if some search since the last cleanup saw and matched it |
| Mailbox.CleanupExact | testsuite/mailhog.py:116-121 | with mails arriving between calls, cleanup keeps exactly the messages no search has matched |
| Scrape.SleepBoundExact | testsuite/prometheus.py:154-164 | the sleep is at most the interval and two seconds if and only if the computed end has not passed |
| Scrape.TillExact | testsuite/prometheus.py:154-162 | the end is two seconds after the first scrape, in whole intervals from the one observed, not before `after`; 32 seconds after it when none is observed |
| Scrape.SecondsExact | testsuite/prometheus.py:164 | the sleep is what is left of the difference after whole days, in whole seconds |
| Scrape.ScrapeHasPassed | testsuite/prometheus.py:154-166 | on waking, a periodic scrape at or after `after` has happened, despite both roundings |
| Scrape.PollAcceptsExact | testsuite/prometheus.py:168-173 | the scrape slept for satisfies the poll unless `after` lies a whole number of intervals behind the truncated scrape observed |
| Scrape.TimeOfScrape | testsuite/prometheus.py:143-151 | the first target of the container, or none |
| Scrape.ObserveFirst | testsuite/prometheus.py:143-173 | the first target labelled with the container decides, and only a strictly later scrape counts |
| Scrape.WaitOnNextScrape | testsuite/prometheus.py:138-175 | returns at once exactly when a later scrape shows already; otherwise one sleep and at most ten polls, the last the first to succeed if any does |
| SkipRules.GoverningRule | testsuite/utils.py:152-156 | at most one rule governs a test, whatever the order of the rules, and one does exactly when some key is a prefix |
| SkipRules.FirstGoverns | testsuite/utils.py:152-155 | scanning by descending length, the first matching key is the longest one |
| SkipRules.WarnAndSkip | testsuite/utils.py:135-156 | the governing rule's action is taken, the default one exactly when no key is a prefix: all but "quiet" warn, "warn" and "quiet" skip, any other fails |

## Left out

- Remote effects beyond an abstract server state: `oc`, HTTP, SSH, Keycloak and payment providers are parameters or absent.
- The regular-expression names of operator variables are a lookup given by the table parameter, and so is the table of names; that plain names stand for distinct fields is a precondition.
- Three-way merging by `oc apply`: an apply that goes through publishes the client's copy. The client library is not part of the repository; its `modify_and_apply` is taken to fetch the object anew before each retry.
- The proxy-rules loop of `cmp_proxies` zips a list with itself and compares nothing, so it is not modelled; `jsondiff` is equality of values.
- Resources are values in the comparison: `list.remove` uses value equality, and lists fetched once are never shared between calls. The sets of ignored attributes are arbitrary.
- Comparison.ComparisonSwap: assumes that entities carry the attributes they are matched by; without them the pairing raises, which `Toolbox.BuildQueue` models.
- Agreement.ServicesExact: for services whose entities carry the attributes they are matched by, like `Comparison.ComparisonSwap`.
- Hooks of the factories are functions of their parameters; changing the parameter dictionary in place, names, descriptions and locks are not modelled. Of a delete-side hook only how it ends is modelled, and that one finalizer left by an exception does not keep the others from running is pytest's part.
- Fixtures.Factories.TearDown: assumes that the deletion of every backend gets through within its 14 attempts; any other deletion may be refused.
- FixtureCalls.TeardownExact: takes the deletion of every backend to get through, like the teardown it speaks of.
- Fixtures.Factories.BackendDelete: says nothing about which usages are gone after it gave up.
- Binding of keyword arguments to step methods, `open`, and step names that are not text are not modelled in the navigator; asking whether a view is displayed changes nothing.
- Navigator.Navigator.Navigate: takes a bound on the climb as precondition, which every acyclic relation has (`NavigatorModel.AcyclicEnds`); on a cycle of undisplayed views the original exhausts the recursion limit.
- RemoteEnviron.RunIsDictionary: for names and texts without newline and texts without "="; `RemoteEnviron.ReadAfterWrite` says what happens to the others.
- Environ.Environ.Set: a request that fails is taken to have changed nothing; one that takes effect and fails all the same is the case of the failing wait.
- Waiting for rollouts and replicas is a yes-or-no answer; the number of replicas awaited is left out.
- Scaler.Scaler.Component: an apply the cluster refuses through all retries, which raises with only the client's copy changed, is not modelled.
- Times between attempts, backoff and jitter; only the number of attempts is kept.
- Accounts.ForeignAccountLost: about the first account of the name; how many go in all is what `Accounts.CountExact` says.
- Providers that ask the registry themselves while they run.
- Routes.Gateway.Create: a creation that fails is taken to have created nothing, and a deletion that fails to have deleted nothing.
- Base routes, path routing, and the other resources a gateway deletes when destroyed.
- Mailbox.RepeatedCleanup: takes the server to accept deleting an identifier that a failed cleanup has deleted already.
- Mailbox.ChunksExact: for a mailbox that does not change during one scan.
- Scrape.ScrapeHasPassed: integers stand for the quotient of floating-point seconds; scrapes are exactly periodic, intervals are given in whole seconds and are shorter than a day.
- Configuration loading, logging, pickling, name randomisation and test selection.
