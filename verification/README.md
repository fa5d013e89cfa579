# Verified model of nexus: plugin resolution, workspaces, the connection pool and the token store

This project models the parts of nexus where several pieces of state have to stay in step, and proves what those
parts promise, for every input, every reachable state or every run.

- **Plugins and lockfiles.** `PluginRegistry` is the resolver: a worklist closure over the declared dependencies,
  then Kahn's algorithm with a queue that is sorted before every pop. The result is shown to be the alphabetically
  least of all topological orders of the closure, so it depends on the set of requested names and the dependency
  relation only; a missing dependency that is reported is the first one in breadth-first order (`BreadthFirst`), so
  there is one answer for each request. `LockManager` records that closure field by field and hashes canonical texts
  of it; `CanonicalText` shows what the texts say when they are split again, and exactly when they determine what
  they were made from.
- **Workspaces.** `ServiceOrder` validates a command's services and orders them by a depth-first walk that reports
  cycles; `Orchestrator` has the same walk without the report, and `DepthFirst` relates the two; `WalkOrder` shows
  which of the orders that respect dependencies the walk gives. `WorkspaceManager` is the port allocator and the
  workspace lifecycle; `WorkspaceSteps` says which operation causes which change of ports, records and statuses;
  `WorkspaceRuns` shows that no two holders ever share a port,
  and that the allocator's account is exact after a run if and only if no step overwrote a record that held one;
  `WorkspaceInterleavings` shows how far this survives when calls overlap, and `SequentialCalls` that calls which do
  not overlap are the atomic operations. `Retry` is the start loop with exponential backoff in 64-bit arithmetic.
- **Connection pool.** `ConnectionPool` has the connections, shared by the pool's lists and the wrappers;
  `PoolSteps` says what Get and put do to each connection, and when; `PoolRuns` has its counters, its limits, and the
  exclusive use of connections; `PoolExhaustion` shows exactly
  which targets can no longer be served, and under which configurations that comes about.
- **Tokens and lists.** `TokenStore` shows which tokens are held and that the periodic cleanup cannot be observed;
  `DependsOn` is the round trip between printed and parsed dependency lists.

## How it is built

Code that updates state is a class or a method with a loop, as in Go; its contract equates the new state with a
function of the old one, and the lemmas speak about that function. `WorkspaceModel`, `PoolModel`, `TokenStore.Step`
and `DepthFirst` are those functions. Runs are sequences of operations, folded over them.

- A public operation is one atomic step. For the workspace manager, whose operations lock several times,
  `WorkspaceInterleavings` repeats the question of shared ports with each locked section as a step.
- The clock, the provider's and the factory's answers, failing disconnects, and cancellations are parameters, so a
  statement about all runs covers every such outcome. A clock may step back unless a statement excludes it, which
  covers more than Go's monotonic readings give: `TokenStore.CleanupSeenWhenClockStepsBack` is a run that only such a
  clock allows.
- Iterating over a Go map is picking any remaining key, so no result depends on the order.
- A Go map from keys to `bool` is the set of the keys it maps to true.
- Transports are numbered in the order the factory creates them.
- SHA-256 with hex encoding is a parameter; where a statement needs it, it is assumed to give different hashes to
  different texts and no separators. Whether the lockfile can be marshalled, written and read is a parameter, as is
  the file that a failed write leaves; YAML itself changes nothing.
- `sort.Strings` is a function that returns a sorted permutation; strings are compared by Unicode scalar values,
  which orders them as Go orders their UTF-8 bytes.

Where the program and its documents differ, the model follows the program. docs/specs/technical/plugins.md
(section 5) describes a depth-first resolver with three node states and an error that prints the cycle; the program
uses Kahn's algorithm and names no cycle. Its section 3 describes a hash over merged rules; the program hashes the
plugins' keys, versions and SHAs.

## What turned out not to hold

- Creating an id again, or starting services that already have records, loses ports for good: the account is exact
  after a run if and only if no step overwrites a record that holds a port (`WorkspaceRuns.ExactIffCleanRun`), so it is
  exact whenever no id is created or started twice (`WorkspaceRuns.ExactWhenOnceEach`); `WorkspaceRuns.RecreationLeaks`
  is an instance of the loss.
- Not every allocated port can be given back: it can, by some later operations, if and only if a live workspace of an
  available provider holds it (`WorkspaceRuns.FreedUnlessNotReleasable`). A workspace created for an unavailable
  provider keeps its SSH port for ever (`WorkspaceRuns.UnavailableProviderKeepsPort`), as does a lost port
  (`WorkspaceRuns.LeakedForever`).
- Two overlapping deletes of one workspace can leave two workspaces with one port
  (`WorkspaceInterleavings.OverlappingDeletesShareAPort`). In any interleaving ports are unshared at every moment if
  and only if each release is of a record not released before or of ports that nobody owns by then
  (`WorkspaceInterleavings.UnsharedIffHarmlessReleases`); without such an overlap every release is.
- A wrapper that is disconnected twice can put two callers on one connection (`PoolRuns.DoubleDisconnectShares`);
  connections and wrappers stay in step throughout a run if and only if every disconnect is of an open wrapper or of a
  connection not in use (`PoolRuns.AgreeThroughout`).
- A target can become unable to serve: some later Get for it can succeed if and only if its list is not full of expired
  idle connections (`PoolExhaustion.ReachableServedUnlessDead`). With transports that close, a new pool can come to
  such a list exactly when it has no capacity at all, or when its idle limit reaches its capacity and its lifetime is not
  negative, so not with the default limits of 10 and 5 (`PoolSteps.DefaultLimits`); if closing may fail, under every
  configuration (`PoolExhaustion.DeadReachable`).
- The integrity check covers versions and SHAs only (`LockManager.IntegrityCoversVersionsAndSHAs`).
- Metadata texts are ambiguous among all maps: a map is the only one with its text if and only if the text has at most
  one "=" (`CanonicalText.DeterminedByText`), which means at most one pair, without "=" of its own
  (`CanonicalText.DeterminedMaps`); `CanonicalText.MetadataTextConfusesEquals` is an instance. Among maps whose keys
  have no "=" or ";" and whose values have no ";" the text determines the map
  (`CanonicalText.MetadataTextInjective`).
- The total backoff has its closed form exactly while the delays fit in 64 bits (`Retry.TotalBackoff`).

## Model

| member | source | states |
|---|---|---|
| PluginRegistry.Registry.constructor | pkg/plugins/registry.go:36-40 | a new registry knows no plugin |
| PluginRegistry.Registry.AddPlugin | pkg/plugins/registry.go:200-202 | exactly one name is bound, over any earlier binding |
| PluginRegistry.Registry.GetPlugin | pkg/plugins/registry.go:185-188 | the plugin bound to the name, if any |
| PluginRegistry.Registry.ResolveDependencies | pkg/plugins/registry.go:103-182 | the one answer for the request: its first unregistered name, the first missing dependency in breadth-first order, a cycle in the closure, or the alphabetically least topological order of the closure |
| Text.LessIsBefore | pkg/plugins/registry.go:161 | the order that names are sorted by: a proper prefix first, otherwise the smaller character at the first difference |
| PluginRegistry.Registry.CollectPlugins | pkg/plugins/registry.go:104-146 | the worklist phase yields exactly the needed plugins with every dependency edge counted with multiplicity, or the one not-found error that is due |
| PluginRegistry.Registry.CloseOver | pkg/plugins/registry.go:118-146 | the worklist terminates with every reached plugin finished, or at the first missing dependency in breadth-first order |
| PluginRegistry.Registry.AddDependencies | pkg/plugins/registry.go:131-145 | one turn records each listed dependency once per occurrence and queues exactly the unseen ones, once each and in their order; or it stops at the first unregistered one |
| BreadthFirst.FollowTurn | pkg/plugins/registry.go:118-146 | the worklist of requests and unseen dependencies yields names in breadth-first order, repeated requests included |
| BreadthFirst.OrdersAgree | pkg/plugins/registry.go:118-146 | there is one breadth-first order |
| PluginRegistry.Registry.SortPlugins | pkg/plugins/registry.go:148-174 | every name listed is the alphabetically first whose dependencies are all listed, and no name can be added at the end |
| PluginRegistry.Registry.InitialQueue | pkg/plugins/registry.go:150-157 | the queue starts with every name without dependencies, once |
| PluginRegistry.Registry.ReleaseDependents | pkg/plugins/registry.go:167-173 | degrees keep counting unmet dependencies with multiplicity, and a name joins the queue once, when its count reaches zero |
| TopoSort.GreedyIsLeast | pkg/plugins/registry.go:159-174 | always taking the first ready name gives the alphabetically least topological order |
| TopoSort.StuckMeansCycle | pkg/plugins/registry.go:176-179 | the greedy order lists everything if and only if no listed-for name is on a cycle, self-loops included |
| TopoSort.LeastTopoOrderUnique | pkg/plugins/registry.go:160-161 | there is just one least topological order |
| PluginResolution.OutcomeTrichotomy | pkg/plugins/registry.go:103-182 | not found if and only if some needed name is unregistered, otherwise circular if and only if the closure has a cycle, otherwise resolved |
| PluginResolution.AnswerUnique | pkg/plugins/registry.go:103-182 | registry and request determine the answer, the name in an error included |
| PluginResolution.ResolvedOrderHolds | pkg/plugins/registry.go:118-181 | a resolved order lists each needed plugin once and nothing else, every dependency strictly before, and is at most every other topological order |
| PluginResolution.ResolvedOrderAlphabetical | pkg/plugins/registry.go:159-181 | every other topological order of the closure has, at the first place where it differs, a name that is later in the alphabet |
| PluginResolution.AnswerDependsOnRelationOnly | pkg/plugins/registry.go:148-181 | equal request sets and equal dependency sets on the needed names give the same kind of answer and the same order |
| Graph.EveryOneBlockedMeansCycle | pkg/plugins/registry.go:176-179 | a finite set in which each member waits for a member holds a cycle |
| Graph.OrderedHasNoCycle | pkg/plugins/registry.go:176-179 | a name in a dependencies-first order is on no cycle |
| CanonicalText.MetadataTextInjective | pkg/lock/manager.go:209-229 | equal metadata texts come from equal maps when keys have no "=" or ";" and values no ";" |
| CanonicalText.MetadataReadsBack | pkg/lock/manager.go:209-229 | split at ";" the text gives key=value for every key, in alphabetical order, when keys have no "=" or ";" and values no ";" |
| CanonicalText.DeterminedByText | pkg/lock/manager.go:209-229 | a map is the only map with its text if and only if the text has at most one "=" |
| CanonicalText.DeterminedMaps | pkg/lock/manager.go:209-229 | that is, if and only if it has at most one pair and no other "=" in it |
| CanonicalText.PluginTextInjective | pkg/lock/manager.go:171-184 | for separator-free plugins the hashed text is equal exactly when all fields but the description are |
| CanonicalText.PluginTextReadsBack | pkg/lock/manager.go:171-184 | split at its vertical bars the text gives name, version, repository, path, dependencies and metadata, in this order |
| CanonicalText.ContentTextInjective | pkg/lock/manager.go:187-206 | the content text is equal exactly when the version and the map from keys to (version, SHA) are |
| CanonicalText.ContentReadsBack | pkg/lock/manager.go:187-206 | split at line ends the text gives the version line and, in alphabetical order of keys, the line of each plugin's key, version and SHA |
| LockManager.Manager.CanonicalizeMetadata | pkg/lock/manager.go:209-229 | the pairs in key order joined by ";", whatever the iteration order |
| LockManager.Manager.CollectSortedKeys | pkg/lock/manager.go:189-193 | collecting a map's keys in any order and sorting them gives its one sorted key list |
| LockManager.Manager.GeneratePluginSHA | pkg/lock/manager.go:171-184 | the hash of the plugin's canonical text |
| LockManager.Manager.GenerateContentHash | pkg/lock/manager.go:187-206 | the hash of the lockfile's canonical text |
| LockManager.Manager.GenerateLockfile | pkg/lock/manager.go:54-102 | succeeds exactly when the request resolves, with the lockfile that the set of needed plugins determines |
| LockManager.GeneratedRecordsPlugins | pkg/lock/manager.go:66-90 | a generated lockfile has an entry for exactly the needed plugins, with each one's name, version, repository, path, dependencies and metadata, and its SHA |
| LockManager.GeneratedHeader | pkg/lock/manager.go:55-62 | its version is "1.0", its generator "nexus", and its hash that of its content |
| LockManager.LockfileRoundTrip | pkg/lock/manager.go:54-102 | a registry filled from the lockfile's entries resolves the request to the same order |
| LockManager.Manager.SaveLockfile | pkg/lock/manager.go:124-136 | the file then holds the given lockfile; after a failed marshalling it is as before, after a failed write as that left it |
| LockManager.Manager.LoadLockfile | pkg/lock/manager.go:105-121 | the lockfile held, or that the file is missing, not readable or not parsable |
| LockManager.Manager.VerifyIntegrity | pkg/lock/manager.go:139-151 | accepts exactly when the recorded hash is the hash of the content |
| LockManager.Manager.IsUpToDate | pkg/lock/manager.go:154-168 | the resolver's error exactly when the request does not resolve; otherwise whether a lockfile can be loaded and has the hash generated now |
| LockManager.UpToDateMeansUnchanged | pkg/lock/manager.go:154-184 | against a generated and saved lockfile: true exactly when the closure is the same set and each plugin in it has the same name, version, repository, path, dependencies and metadata |
| LockManager.UnchangedIsUpToDate | pkg/lock/manager.go:154-168 | with any hash and any fields: the same closure with the same locked fields is reported up to date |
| LockManager.IntegrityCoversVersionsAndSHAs | pkg/lock/manager.go:139-151 | a generated lockfile passes; an edited one with that hash passes exactly when the version and every key's version and SHA are unchanged |
| ServiceOrder.ValidateServices | pkg/agent/workspace.go:176-212 | no error exactly when all names are present and distinct, commands and ports given, and dependencies defined; otherwise the first failing check of the first failing service |
| ServiceOrder.AcceptedExactly | pkg/agent/workspace.go:176-212 | accepted are exactly the lists with all names, commands and ports given, distinct names, and all dependencies defined |
| ServiceOrder.FaultUnique | pkg/agent/workspace.go:176-212 | the fault reported is determined by the list |
| ServiceOrder.ValidateService | pkg/agent/workspace.go:178-210 | the checks of one service in their order, given the names before it |
| ServiceOrder.FindService | pkg/agent/workspace.go:198-204 | found exactly when some service has the name |
| ServiceOrder.DependencyVisitor.VisitName | pkg/agent/workspace_manager.go:470-491 | one call of the closure makes the step of the checking walk, results included |
| ServiceOrder.ResolveServiceDependencies | pkg/agent/workspace_manager.go:451-500 | the start order, failing exactly when the service graph is cyclic |
| ServiceOrder.BuildGraph | pkg/agent/workspace_manager.go:456-463 | the graph and the map in which the last service of a name counts |
| ServiceOrder.StartOrderDecidesCycles | pkg/agent/workspace_manager.go:475-477 | for every list the order fails exactly on a cycle, and the name reported is on one |
| ServiceOrder.AcceptedStartOrder | pkg/agent/workspace_manager.go:451-500 | for every accepted list: failure exactly on a cycle, otherwise a permutation of the list with each service after all it depends on |
| ServiceOrder.StartsInTurn | pkg/agent/workspace_manager.go:493-497 | what the first services of the list need is started before all that they do not need |
| ServiceOrder.DependenciesStartInTurn | pkg/agent/workspace_manager.go:470-491 | of one service's dependencies, what the first ones need is started before all that neither they nor earlier services need |
| ServiceOrder.OrderedListIsKept | pkg/agent/workspace_manager.go:451-500 | an accepted list in which dependencies come earlier is its own start order |
| ServiceOrder.EveryServiceMapped | pkg/agent/workspace_manager.go:460-463 | with distinct names the graph and the map hold every service as listed |
| ServiceOrder.LastServiceMapped | pkg/agent/workspace_manager.go:456-463 | of the services of one name the last one counts, on any list |
| ServiceOrder.SelfDependencyAccepted | pkg/agent/workspace.go:196 | validation admits a service that depends on itself; the order rejects it by name |
| DepthFirst.Visit | pkg/agent/workspace_manager.go:470-491 | the checking walk terminates on names neither visited nor visiting, leaves the stack as it was and forgets nothing visited |
| DepthFirst.CheckedWalkDecidesCycles | pkg/agent/workspace_manager.go:451-500 | from all keys the checking walk fails exactly on cyclic graphs and otherwise lists every name, dependencies first |
| DepthFirst.VisitFailsOnCycle | pkg/agent/workspace_manager.go:475-477 | the name found on the recursion stack lies on a cycle |
| DepthFirst.VisitRefinesPost | pkg/orchestration/orchestrator.go:208-219 | a checked visit that succeeds is an unchecked visit from the names visited or on the stack |
| DepthFirst.VisitAllRefinesPostAll | pkg/orchestration/orchestrator.go:205-225 | when the checking resolver succeeds its order is the unchecked post-order from the same roots |
| DepthFirst.Post | pkg/orchestration/orchestrator.go:208-219 | the unchecked walk terminates on names not yet visited, cyclic graphs included, and visits its root |
| DepthFirst.UncheckedWalkListsAll | pkg/orchestration/orchestrator.go:199-228 | every name of the graph once, on any graph; dependencies first exactly when it is acyclic, and then the checking walk's order |
| WalkOrder.VisitedIsReachable | pkg/agent/workspace_manager.go:470-491 | a walk that succeeds has visited exactly what its roots reach |
| WalkOrder.RootsExpanded | pkg/agent/workspace_manager.go:480-485 | the order is the same when the dependencies of a root are listed as roots just before it |
| Orchestrator.PostOrderVisitor.VisitName | pkg/orchestration/orchestrator.go:208-219 | one call of the closure makes the step of the unchecked walk |
| Orchestrator.ResolveDependencies | pkg/orchestration/orchestrator.go:199-228 | for whatever order the map is iterated in: each declared and each mentioned name once, topological exactly when acyclic, and equal to the checking walk's order when that succeeds |
| Retry.StartServiceWithRetry | pkg/agent/workspace_manager.go:331-357 | at most maxRetries attempts; started exactly when an attempt is reached and succeeds, with nothing after it; cancelled exactly when a wait is; the slept time, in closed form when it fits |
| Retry.TotalBackoff | pkg/agent/workspace_manager.go:335-340 | the total backoff is backoff * (2^(maxRetries-1) - 1) exactly when no delay leaves the 64-bit range |
| WorkspaceModel.FirstFree | pkg/agent/workspace_manager.go:69-87 | the least free port of a range, none exactly when all are taken |
| WorkspaceManager.PortAllocationRange.constructor | pkg/agent/workspace_manager.go:59-65 | a new allocator has the given ranges and no allocated port |
| WorkspaceManager.PortAllocationRange.AllocateSSHPort | pkg/agent/workspace_manager.go:69-77 | takes the least free SSH port and nothing else |
| WorkspaceManager.PortAllocationRange.AllocateServicePort | pkg/agent/workspace_manager.go:79-87 | takes the least free service port and nothing else |
| WorkspaceManager.PortAllocationRange.ReleasePort | pkg/agent/workspace_manager.go:89-91 | gives back exactly that port |
| WorkspaceManager.WorkspaceManager.constructor | pkg/agent/workspace_manager.go:54-67 | a new manager has no workspace and no allocated port |
| WorkspaceManager.WorkspaceManager.CreateWorkspace | pkg/agent/workspace_manager.go:93-193 | the new state and the reply for every outcome of validation, allocation and provider calls; a created workspace is reported running exactly when the provider served every call |
| WorkspaceManager.CreateAnswered | pkg/agent/workspace_manager.go:93-193 | a running reply carries the id and the port of the record, which is running too; an error reply leaves a record in error that holds a port; without a creation nothing changes |
| WorkspaceManager.WorkspaceManager.ProvisionWorkspace | pkg/agent/workspace_manager.go:121-192 | the status and container id that each provider failure leaves in the record |
| WorkspaceManager.WorkspaceManager.StartServices | pkg/agent/workspace_manager.go:250-329 | the new state and the reported statuses, for every outcome of the attempts |
| WorkspaceManager.WorkspaceManager.StartService | pkg/agent/workspace_manager.go:274-308 | one turn of the start loop: port, record, final status, at most three attempts, and waits of one and two seconds before the second and third |
| WorkspaceManager.WorkspaceManager.StopWorkspace | pkg/agent/workspace_manager.go:502-528 | the status is set before the provider is asked; nothing else changes |
| WorkspaceManager.WorkspaceManager.DeleteWorkspace | pkg/agent/workspace_manager.go:530-564 | on success the record goes and exactly its ports are given back; on each error nothing changes |
| WorkspaceSteps.CreateEffect | pkg/agent/workspace_manager.go:104-192 | a creation takes the least free port from 2222 to 2299 and writes one record, running exactly when the provider served every call and in error otherwise |
| WorkspaceSteps.OtherCreatesDoNothing | pkg/agent/workspace_manager.go:94-104 | a create that is not valid or finds no port changes nothing |
| WorkspaceSteps.PortsInRange | pkg/agent/workspace_manager.go:59-65 | SSH ports are 2222 to 2299 and service ports 23000 to 30000 |
| WorkspaceSteps.RemovalExact | pkg/agent/workspace_manager.go:530-561 | an id stops being live exactly by a delete whose provider is available and destroys the container |
| WorkspaceSteps.ArrivalExact | pkg/agent/workspace_manager.go:113-116 | an id becomes live exactly by a creation |
| WorkspaceSteps.ReleaseExact | pkg/agent/workspace_manager.go:547-557 | a port stops being allocated exactly by such a delete of the workspace that holds it |
| WorkspaceSteps.OtherDeletesDoNothing | pkg/agent/workspace_manager.go:535-549 | every other delete leaves the state as it was |
| WorkspaceSteps.RecordStep | pkg/agent/workspace_manager.go:250-528 | a record that is not created anew keeps all but its status after a stop and its services after a start |
| WorkspaceSteps.StatusStep | pkg/agent/workspace_manager.go:181-512 | when a live workspace is running, and when it is stopped, after an operation |
| WorkspaceSteps.StoppedInRuns | pkg/agent/workspace_manager.go:510-512 | in every run a live workspace is stopped exactly when it was stopped while live and not created again since |
| WorkspaceSteps.StartEffect | pkg/agent/workspace_manager.go:250-329 | a start gives the first services of the start order the least free ports from 23000 to 30000, records and reports each as running exactly when one of three attempts succeeds, and reports the rest as errors; without workspace, provider or order nothing changes |
| WorkspaceRuns.RunsAreSafe | pkg/agent/workspace_manager.go:93-564 | in every run each held port is allocated, in its holder's range, and held by nobody else |
| WorkspaceRuns.ExactIffCleanRun | pkg/agent/workspace_manager.go:93-564 | after a run the allocated ports are exactly the held ones if and only if no step overwrote a record that held a port |
| WorkspaceRuns.ExactWhenOnceEach | pkg/agent/workspace_manager.go:93-564 | they are after every list of operations that creates distinct ids and starts each id at most once |
| WorkspaceRuns.EveryStep | pkg/agent/workspace_manager.go:93-564 | each operation keeps safety, gives no allocated port to a new holder, and keeps exactness exactly when it overwrites no record |
| WorkspaceRuns.StartAllStep | pkg/agent/workspace_manager.go:273-317 | starting services keeps exactness exactly when none of the services that get a port had a record |
| WorkspaceRuns.DeleteReleases | pkg/agent/workspace_manager.go:551-557 | a delete frees exactly the ports that the workspace and its services hold |
| WorkspaceRuns.LeakedForever | pkg/agent/workspace_manager.go:115 | a port that is allocated and not held stays so in every run |
| WorkspaceRuns.SSHExhaustion | pkg/agent/workspace_manager.go:69-77 | at most 78 workspaces are live; in an exact state SSH allocation fails exactly when 78 are |
| WorkspaceRuns.EmptyTogether | pkg/agent/workspace_manager.go:551-561 | in an exact state nothing is allocated exactly when no workspace is live |
| WorkspaceRuns.RunsFromInitial | pkg/agent/workspace_manager.go:54-564 | the above for every run of a new manager |
| WorkspaceRuns.RecreationLeaks | pkg/agent/workspace_manager.go:115 | create, create again, delete: one port stays allocated with no workspace live |
| WorkspaceRuns.UnavailableProviderKeepsPort | pkg/agent/workspace_manager.go:121-132 | a workspace of an unavailable provider keeps its SSH port allocated in every later run |
| WorkspaceRuns.FreedUnlessNotReleasable | pkg/agent/workspace_manager.go:530-564 | some later operations give an allocated port back if and only if a live workspace of an available provider holds it |
| WorkspaceInterleavings.InterleavingsKeepPortsUnshared | pkg/agent/workspace_manager.go:98-564 | with each locked section a step of its own: if two deletes of one id never overlap, every port in flight or held by a record not yet released is allocated and has one owner |
| WorkspaceInterleavings.StepKeeps | pkg/agent/workspace_manager.go:98-564 | each locked section of create, start-services and delete keeps that invariant, and its releases are harmless |
| WorkspaceInterleavings.ListedWorkspacesHoldTheirPorts | pkg/agent/workspace_manager.go:530-561 | in such interleavings a listed workspace that is not being removed holds its SSH port, allocated and alone |
| WorkspaceInterleavings.ReleaseExact | pkg/agent/workspace_manager.go:551-557 | a release keeps ports unshared exactly when its record was not released before or nobody owns its ports now |
| WorkspaceInterleavings.UnsharedIffHarmlessReleases | pkg/agent/workspace_manager.go:98-564 | in any interleaving, overlapping deletes included, ports are unshared at every moment if and only if every release is such a one |
| WorkspaceInterleavings.OverlappingDeletesShareAPort | pkg/agent/workspace_manager.go:530-564 | two overlapping deletes of one workspace lead to two workspaces with one port |
| SequentialCalls.InitiallyMatches | pkg/agent/workspace_manager.go:54-67 | a new manager is the same in both models |
| SequentialCalls.CreateAlone | pkg/agent/workspace_manager.go:98-116 | the locked sections of a create, run without a call in between, do to ports and records what the atomic operation does |
| SequentialCalls.StartAlone | pkg/agent/workspace_manager.go:251-292 | the same for starting services |
| SequentialCalls.DeleteAlone | pkg/agent/workspace_manager.go:530-561 | the same for a delete, and for one that fails at the provider |
| PoolModel.FindReusable | pkg/transport/pool.go:70-72 | the first connection that is idle and healthy, none exactly when there is none |
| PoolModel.TotalRemove | pkg/transport/pool.go:195-205 | the recomputed counts do not depend on the order of the targets |
| ConnectionPool.Pool.constructor | pkg/transport/pool.go:42-55 | a new pool is empty with zero counters |
| ConnectionPool.Pool.Get | pkg/transport/pool.go:57-116 | the new state, and a wrapper for the connection leased or the error for a failing factory or a full list |
| ConnectionPool.Pool.GetConnection | pkg/transport/pool.go:65-115 | reuse before capacity before factory, with the counters of each case |
| PoolSteps.GetReuses | pkg/transport/pool.go:70-88 | the first idle, connected connection of at most an hour is leased, its use marked and counted, and no other changed |
| PoolSteps.GetElse | pkg/transport/pool.go:91-115 | without one a full list is exhausted whatever the factory would do, a failing factory leaves the list as it was, and a new connection is appended otherwise |
| ConnectionPool.Pool.Put | pkg/transport/pool.go:118-166 | the new state and result for a connection kept, closed as surplus or as too old, failing to close, or not in use |
| PoolSteps.PutExact | pkg/transport/pool.go:118-166 | a connection in use that is put back is dropped exactly when as many others are idle as are allowed, or it is too old, and its transport closes; otherwise it stays listed, idle; nothing else in any list changes |
| PoolSteps.OtherPutsDoNothing | pkg/transport/pool.go:125-127 | a put of a connection not in use changes nothing |
| ConnectionPool.Pool.CountIdle | pkg/transport/pool.go:139-150 | the idle connections of the target, the returned one counted |
| ConnectionPool.Pool.DestroyConnection | pkg/transport/pool.go:241-262 | refuses a connection in use or a failing disconnect without change; otherwise drops exactly that connection |
| ConnectionPool.Pool.GetMetrics | pkg/transport/pool.go:187-208 | the stored counters with active and idle recomputed from the lists |
| ConnectionPool.PooledTransportWrapper.Disconnect | pkg/transport/pool.go:299-301 | returns the wrapper's connection to its pool |
| PoolRuns.RunsAreSound | pkg/transport/pool.go:57-208 | in every run, double disconnects included: stored counters equal recomputed ones, created minus destroyed is the number pooled, leases are created plus reused, lists stay within capacity |
| PoolRuns.RunsKeepIdleLimit | pkg/transport/pool.go:134-154 | when disconnects succeed no target exceeds its idle limit |
| PoolRuns.PutIdleLimit | pkg/transport/pool.go:134-154 | a put keeps the idle limit exactly when it does not fail to close a surplus connection |
| PoolRuns.GetEffect | pkg/transport/pool.go:70-112 | a Get leases a connection nobody uses and changes the use of no other |
| PoolRuns.PutEffect | pkg/transport/pool.go:118-166 | a put ends the use of its connection and of no other; it does nothing when that is not in use |
| PoolRuns.ExclusiveUse | pkg/transport/pool.go:57-116 | if no wrapper is disconnected twice, the connections in use are exactly those of the open wrappers, one each |
| PoolRuns.AgreeDisconnect | pkg/transport/pool.go:125-127 | a disconnect keeps that agreement exactly when its wrapper is open or its connection is not in use |
| PoolRuns.AgreeThroughout | pkg/transport/pool.go:57-166 | the agreement holds after every operation of a run if and only if each disconnect is such a one |
| PoolRuns.BusyStayOpen | pkg/transport/pool.go:57-166 | in every run, double disconnects included, each connection in use has an open wrapper |
| PoolRuns.DoubleDisconnectShares | pkg/transport/pool.go:299-301 | a second disconnect of one wrapper lets two open wrappers share a connection |
| PoolExhaustion.DeadTargetStaysExhausted | pkg/transport/pool.go:72-115 | a list full of expired idle connections makes every later Get for the target fail |
| PoolExhaustion.ServedUnlessDead | pkg/transport/pool.go:57-166 | some later operations end in a lease for the target if and only if its list is not such a one |
| PoolExhaustion.ReachableServedUnlessDead | pkg/transport/pool.go:42-166 | the same for the state after any run of a new pool |
| PoolExhaustion.DeadReachable | pkg/transport/pool.go:42-166 | with transports that close and a clock that does not step back, such a list can arise if and only if the capacity is not positive, or is at most the idle limit while the lifetime is not negative; if closing may fail, always |
| PoolSteps.DefaultLimits | pkg/transport/pool.go:65-68 | without configured limits: at most 10 connections for a target, at most 5 idle while transports close, and then every target can be served again |
| PoolRuns.RunsFromStart | pkg/transport/pool.go:42-208 | counters, limits and exclusive use for every run of a new pool |
| TokenStore.OAuthStateStore.constructor | pkg/coordination/registry.go:353-360 | a new store holds no token |
| TokenStore.OAuthStateStore.StoreToken | pkg/coordination/registry.go:363-367 | the token's expiry is set to now plus ttl |
| TokenStore.OAuthStateStore.ValidateToken | pkg/coordination/registry.go:370-382 | accepts a held, unexpired token and forgets it in every case |
| TokenStore.OAuthStateStore.CleanupExpired | pkg/coordination/registry.go:389-398 | one tick removes exactly the expired tokens |
| TokenStore.CleanupUnobservable | pkg/coordination/registry.go:363-399 | every validation answers as in the run without the cleanup ticks, as the clock of a Go process does not step back |
| TokenStore.CleanupSeen | pkg/coordination/registry.go:363-399 | whatever the clock does, the ticks change an answer if and only if one of them, between a store and an otherwise successful validation, reads a time past the store's expiry |
| TokenStore.HeldMeansKept | pkg/coordination/registry.go:363-399 | whatever the clock does, a token is held with expiry t + ttl if and only if its last touch is a store at t and no tick since then read a later time |
| TokenStore.ValidatesOncePerStore | pkg/coordination/registry.go:363-399 | a validation succeeds exactly when the token's last store is at most ttl ago with no validation since |
| TokenStore.NoMoreSuccessesThanStores | pkg/coordination/registry.go:363-399 | in every run a token validates at most as often as it was stored |
| DependsOn.ParseDependsOn | pkg/coordination/models.go:170-179 | no names for the empty text, otherwise the trimmed parts between commas |
| DependsOn.ParsedParts | pkg/coordination/models.go:170-179 | each name is its part without the white space at both ends |
| DependsOn.TrimSpaceExactly | pkg/coordination/models.go:176 | trimming removes all white space at both ends and nothing else |
| DependsOn.IsSpaceExactly | pkg/coordination/models.go:176 | the characters that count as white space |
| DependsOn.TrimmedIsFixed | pkg/coordination/models.go:176 | trimming gives a trimmed name back, also with a leading blank |
| DependsOn.SplitPrinted | pkg/coordination/models.go:182-184 | splitting a printed list at commas gives the names, all but the first with a leading blank |
| DependsOn.ParsePrinted | pkg/coordination/models.go:170-184 | parsing what was printed gives the list back exactly for lists of trimmed, comma-free names other than the list of one empty name |

## Left out

- Plugins are values: callers that change a plugin in place after registering it are not modelled, nor is the spare capacity of the caller's slice that the worklist may append into.
- Plugin discovery and manifests (pkg/plugins/registry.go:43-100): directory walks and YAML.
- Lockfile YAML, paths and timestamps: a lockfile that is written without an error is read back as it was.
- LockManager.UpToDateMeansUnchanged: SHA-256 is replaced by a hash that never collides, and the fields are separator-free; a dependency list of one empty name is excluded because it prints like an empty list.
- ServiceOrder.ValidateServices: the service-list part only; the other required-field checks of the command are one flag of `WorkspaceModel.Command`.
- Service definitions carry name, command, port and dependencies; environment, metadata and health checks (pkg/agent/workspace_manager.go:359-449) are not modelled, so a service's status is the one that its start leaves.
- Overlapping calls of workspace operations: `WorkspaceModel` and `WorkspaceManager` take each operation as one atomic step; `WorkspaceInterleavings` takes each locked section as one step, for the ports only, allows a start to turn to any service name, and lets a delete read the record's services at one moment, where in Go it walks through them without the record's lock (pkg/agent/workspace_manager.go:551-557).
- Workspace timestamps, error messages and the contents of provider sessions.
- Retry.StartServiceWithRetry: when a timer and a cancellation are ready together Go picks either; the choice is part of the parameter `cancelled`.
- `Pool.Close` and `Pool.CleanupIdleConnections` (pkg/transport/pool.go:168-185, 210-233): both range over a slice whose array `destroyConnectionLocked` shifts in place, which can skip a connection and visit another twice; no claim about counters is made across them.
- Waiting time in the pool's metrics, which the program never sets, and the wrapper's methods that only forward to the transport.
- ConnectionPool.Pool.Get: one clock reading stands for the readings within a call.
- `BaseOrchestrator.Start`, `Stop` and health monitoring, server-sent events, HTTP handlers, providers, metrics and templates.
