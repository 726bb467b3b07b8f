# Skyr: a verified model of its core protocols and formats

This project models, in Dafny, the parts of Skyr whose correctness is not evident from reading one
function: the subnet allocator, the dependency resolver, the deployment store with its supersession
protocol, Git path reads, the identifier grammar, service-address templates, the notification
engine, the token payload and the diagnostics publisher. `dafny verify dfyconfig.toml` checks it.

State that the original changes in place is a class here, and each of its methods is proved against
a function on values; the properties are lemmas about those functions, most of them over all runs.
Clocks, replies of remote services, file contents and analysis results are parameters.

| file | what it models |
|---|---|
| `SubnetTrie.dfy`, `SubnetState.dfy`, `SubnetAllocator.dfy` | the prefix trie, the allocator's states and runs, and both in place |
| `Resolver.dfy` | dependency resolution over a world in which every fetch may fail |
| `Supersession.dfy`, `TableView.dfy`, `DeploymentTables.dfy` | deployments as a state machine, tables as views of a map, and the store as its four tables |
| `GitTree.dfy` | reading directories, files and hashes of a commit |
| `Text.dfy`, `Ids.dfy`, `EntityQid.dfy`, `ServiceTemplate.dfy` | string searching, identifiers, owners of entities, host name templates |
| `NotificationEngine.dfy`, `NotificationLoss.dfy`, `NotificationLossRuns.dfy` | the queue protocol as a step machine, and when it loses a notification |
| `NotificationWorker.dfy`, `Batcher.dfy` | `process_delivery` as steps of the protocol, the batcher |
| `TokenFormat.dfy` | the payload of identity tokens |
| `Diagnostics.dfy` | publishing diagnostics to an editor |
| `Bits.dfy`, `Prelude.dfy` | alignment, bitwise or, 64-bit casts; `Option` and `Result` |

Where the code and its comments disagree, the code is modelled:

- the allocator is said to look for the smallest free block that fits; it takes the lowest free
  aligned block (`SubnetTrie.AllocateIsLeftmost`). That comes out of a smallest free block exactly
  when no free block that fits is smaller than the lowest one (`SubnetTrie.TakesSmallestIff`), which
  a release can bring about (`SubnetState.LargerBlockIsTaken`);
- the resolver has a branch that reports dependency cycles; it is never reached, and consistent
  cycles resolve (`Resolver.ResolveAll`, `Resolver.MutualDependencyIsConsistent`);
- `current_deployment` is said to have at most one candidate; a tear-down leaves two.
  `Supersession.CurrentIsUniqueIff` and `Supersession.SetIsUniqueIff` say exactly when a promotion
  and when setting a state leave at most one;
- environment names are said not to contain `::`; the parsers accept such names and read them
  back correctly (`Ids.DeploymentReadsBack`, `Ids.ResourceReadsBack`);
- claims are said to make redelivery safe, and a failed lookup is said to be retried; claims prevent
  duplicates, but notifications can be lost. `NotificationLoss.StillHandledIff` says exactly in which
  states a key can still be handled, and `NotificationLoss.LostIff` exactly which steps lose it: a
  crash after the claim and before the last recipient is enqueued, or before a release; a claim that
  takes effect although its reply is an error; a failed release; and the end of the last copy, as
  when a lost channel makes the broker deliver again, that delivery is dropped as a duplicate, and
  the first attempt then gives up (`NotificationLossRuns.LostChannelLoses`);
- an incident's environment is taken from whichever QID parser accepts first; for a resource it is
  right exactly when the resource's name does not end like a deployment (`EntityQid.ResourceOwner`);
- `format` is said to substitute the service and the region; as the region is replaced second, a
  service text with braces can make it do more (`ServiceTemplate.FormatIsSubstitutionIff`).

## Model

| member | source | states |
|---|---|---|
| `Bits.BitOrIsSum` | crates/plugin_std_container/src/subnet_allocator.rs:68 | setting the next address bit with `\|` adds half the block, because block addresses are aligned |
| `Bits.AlignedIsMultiple` | crates/plugin_std_container/src/subnet_allocator.rs:28-29 | being aligned, the bit-by-bit condition used for network addresses, is being a multiple of the block size |
| `SubnetTrie.LeasesAreDisjoint` | crates/plugin_std_container/src/subnet_allocator.rs:13-25 | the blocks a trie grants are aligned, inside its block and pairwise disjoint, whatever the trie |
| `SubnetTrie.CanonicalIsUnique` | crates/plugin_std_container/src/subnet_allocator.rs:18-25 | a trie without a split of two free halves is determined by which name holds which block |
| `SubnetTrie.AllocateIsLeftmost` | crates/plugin_std_container/src/subnet_allocator.rs:31-72 | allocation fails, changing nothing, exactly when every aligned block of the size overlaps a lease; otherwise it adds the lowest free one and stays canonical |
| `SubnetTrie.FreeLeavesAreMaximal` | crates/plugin_std_container/src/subnet_allocator.rs:18-25 | the free leaves of a canonical trie are the maximal free blocks: a block overlaps no lease exactly when it lies in one |
| `SubnetTrie.AllocateTakesLowestLeaf` | crates/plugin_std_container/src/subnet_allocator.rs:31-72 | allocation fails exactly when no free leaf fits, and otherwise takes the low end of the lowest one that does |
| `SubnetTrie.TakesSmallestIff` | crates/plugin_std_container/src/subnet_allocator.rs:1-6 | the granted block comes out of a smallest fitting free leaf exactly when no fitting free leaf is smaller than the lowest one |
| `SubnetTrie.SeedIsExact` | crates/plugin_std_container/src/subnet_allocator.rs:76-126 | seeding succeeds exactly when the subnet overlaps no lease; it adds that lease or changes nothing, and stays canonical |
| `SubnetTrie.ReleaseRemoves` | crates/plugin_std_container/src/subnet_allocator.rs:129-151 | releasing removes exactly the name's lease, coalesces to canonical form, and reports whether there was one |
| `SubnetAllocator.Node.Allocate` | crates/plugin_std_container/src/subnet_allocator.rs:31-72 | the recursion that overwrites nodes in place computes the trie operation |
| `SubnetAllocator.Node.Seed` | crates/plugin_std_container/src/subnet_allocator.rs:76-126 | the same for seeding |
| `SubnetAllocator.Node.Release` | crates/plugin_std_container/src/subnet_allocator.rs:129-151 | the same for release with coalescing |
| `SubnetState.GrantedAreDisjointBlocks` | crates/plugin_std_container/src/subnet_allocator.rs:161-168 | all granted subnets are aligned, inside the cluster and pairwise disjoint |
| `SubnetState.AllocateGrantsLowest` | crates/plugin_std_container/src/subnet_allocator.rs:189-227 | for a valid prefix and a new name: fails with the state unchanged exactly when no aligned block is available, else grants the lowest one |
| `SubnetState.SeedGrantsIffAvailable` | crates/plugin_std_container/src/subnet_allocator.rs:232-266 | a new name is seeded exactly when the subnet lies in the cluster and is available; a known name only with its own subnet; a refusal changes nothing |
| `SubnetState.ReleaseForgets` | crates/plugin_std_container/src/subnet_allocator.rs:269-277 | release forgets exactly that name and keeps trie and map in agreement |
| `SubnetState.EveryRunKeepsInv` | crates/plugin_std_container/src/subnet_allocator.rs:170-278 | after every run of allocate, seed and release the trie is canonical and its leaves are exactly the map's entries |
| `SubnetState.HistoryIndependent` | crates/plugin_std_container/src/subnet_allocator.rs:161-168 | for one cluster, the trie is a function of the map and the map of the trie |
| `SubnetState.RunsWithSameGrantsAgree` | crates/plugin_std_container/src/subnet_allocator.rs:170-278 | two runs that leave the same grants leave the same trie |
| `SubnetState.ReleaseUndoesAllocate` | crates/plugin_std_container/src/subnet_allocator.rs:189-277 | releasing a freshly allocated name restores map and trie |
| `SubnetState.LargerBlockIsTaken` | crates/plugin_std_container/src/subnet_allocator.rs:1-6 | in every cluster of prefix 28 or shorter: after granting a half and a quarter and releasing the half, a quarter is cut out of the free half although a quarter is free |
| `SubnetState.SeedingRebuilds` | crates/plugin_std_container/src/subnet_allocator.rs:229-266 | seeding a fresh allocator with a state's grants in any order always succeeds and rebuilds the identical state |
| `SubnetAllocator.Allocator.constructor` | crates/plugin_std_container/src/subnet_allocator.rs:172-183 | a new allocator is the fresh state |
| `SubnetAllocator.Allocator.Allocate` | crates/plugin_std_container/src/subnet_allocator.rs:189-227 | the object steps as the state machine does, grants the lowest available block and fails exactly when there is none; out of range prefixes are refused by kind, and a known name gets its grant back |
| `SubnetAllocator.Allocator.Seed` | crates/plugin_std_container/src/subnet_allocator.rs:232-266 | the object steps as the state machine does and accepts exactly available subnets; each refusal says whether the name is taken, the subnet lies outside or it conflicts |
| `SubnetAllocator.Allocator.Release` | crates/plugin_std_container/src/subnet_allocator.rs:269-277 | the object forgets exactly the name |
| `Resolver.ResolveAll` | crates/cli/src/resolver.rs:54-85 | resolution terminates and succeeds exactly when everything the manifests require resolves, loads and needs one commit per repository; it then lists exactly the required packages under their own ids and commits, none twice; an error names a reference, package or pair of versions that is at fault, and is never a cycle |
| `Resolver.Search.ResolveDeps` | crates/cli/src/resolver.rs:88-185 | on success all given dependencies and everything newly resolved are satisfied inside the visited set and the in-progress set is restored; an error names what is at fault, a conflict the listed version as the existing one |
| `Resolver.Search.ResolveOne` | crates/cli/src/resolver.rs:96-135 | the same for one dependency, through the visited, conflict and cycle checks |
| `Resolver.Search.Descend` | crates/cli/src/resolver.rs:132-180 | the same for a package that has to be fetched, which is listed right after what was listed before, ahead of its own dependencies |
| `Resolver.Search.FindResolved` | crates/cli/src/resolver.rs:112-114 | finds a resolved package of the repository if there is one |
| `Resolver.ClosedHoldsRequired` | crates/cli/src/resolver.rs:166-178 | a set closed under dependencies that satisfies the root holds every required package |
| `Resolver.MutualDependencyIsConsistent` | crates/cli/src/resolver.rs:132-164 | packages that depend on each other at one commit each are consistent, so the cycle is accepted |
| `Supersession.StepKeepsFields` | crates/cdb/src/client.rs:1102-1153 | no step removes a deployment or changes its creation time, and only `set_progress` changes its bootstrapped flag |
| `Supersession.CreationTimeIsForever` | crates/cdb/src/client.rs:1116-1126 | the same over whole runs |
| `Supersession.CreatedWhenBorn` | crates/cdb/src/client.rs:1110-1126 | a deployment was created by a `set` or a promotion of its own, and its creation time is that step's |
| `Supersession.SetStores` | crates/cdb/src/client.rs:1102-1135 | after any run, `set` leaves the deployment in the state asked for unless it was down and asked to be undesired, and changes nothing else |
| `Supersession.FlagIsLastReport` | crates/cdb/src/client.rs:1137-1153 | after any run the bootstrapped flag is what the last `set_progress` on the known deployment said, and false without one |
| `Supersession.DownStaysDown` | crates/cdb/src/client.rs:1102-1135 | over whole runs, a down deployment stays down until it is promoted or set to a live state itself; asking for `Undesired` never revives it |
| `Supersession.EveryRunHasOneDesired` | crates/cdb/src/client.rs:1220-1251 | if `Desired` is entered only through `make_desired`, no environment ever has two desired deployments, whatever else is set |
| `Supersession.SupersededAreKnown` | crates/cdb/src/client.rs:1238-1247 | only known deployments are ever superseded |
| `Supersession.CurrentIsUniqueIff` | crates/cdb/src/client.rs:867-895 | promoting a deployment that is not superseded leaves at most one current deployment exactly when every other current one was desired; promoting a superseded one exactly when at most one other was current and not desired |
| `Supersession.SetIsUniqueIff` | crates/cdb/src/client.rs:867-895 | setting a state leaves at most one current deployment exactly when no other is current, if the deployment ends up current, and otherwise when at most one other is |
| `Supersession.SetKeepsUnique` | crates/cdb/src/client.rs:1102-1135 | setting a known deployment that is not revived from `Down` keeps uniqueness |
| `Supersession.TearDownLeavesTwoCurrent` | crates/api/src/main.rs:957-967 | a tear-down followed by a new deployment leaves two current deployments |
| `Supersession.UnknownLeavesTwoCurrent` | crates/cdb/src/client.rs:1102-1135 | setting an unknown deployment undesired leaves two current ones |
| `Supersession.EveryRunIsAChain` | crates/cdb/src/client.rs:1155-1251 | in every orderly run the supersessions of an environment form one chain: the promoted deployments in order, each superseded by the next, only the last desired; progress may be reported on any of them |
| `Supersession.ChainIsInCreationOrder` | crates/cdb/src/client.rs:1120-1123 | with a clock that does not go backwards, creation times follow the chain |
| `Supersession.FollowWalksChain` | crates/cdb/src/client.rs:1253-1279 | following `get_superseding` from a deployment walks the rest of the chain and ends at its last |
| `Supersession.SupersessionLeadsToCurrent` | crates/cdb/src/client.rs:1253-1279 | from every deployment it reaches the one that is not superseded, which is the only desired and the only current one |
| `Supersession.CurrentIsLastPromoted` | crates/cdb/src/client.rs:875-895 | after an orderly run the only deployment `current_deployment` can return is the last promoted one, and it is desired |
| `Supersession.SupersededByYounger` | crates/cdb/src/client.rs:1238-1250 | if promoted ids are new, a deployment is superseded only by one created after it, whatever else is set |
| `Supersession.NoSupersessionCycle` | crates/cdb/src/client.rs:1253-1279 | in such runs, tear-downs included, following `get_superseding` never returns to its start and always ends |
| `Supersession.EveryRunIsChained` | crates/cdb/src/client.rs:1220-1251 | if promoted ids are new and `Desired` is entered only by promotion, no superseded deployment is ever desired and no two deployments have one successor, whatever is torn down |
| `Supersession.SupersessionsAreDisjointChains` | crates/cdb/src/client.rs:1253-1279 | in such runs every deployment leads to one that is not superseded, two that lead to a common one lie on one path, and a desired one ends its chain |
| `TableView.WriteKeepsView` | crates/cdb/src/client.rs:524-597 | writing or deleting one row under a key of its own keeps a table a view of the map |
| `DeploymentTables.NonceColumn` | crates/cdb/src/client.rs:531 | the cast of a nonce to a signed column and back loses nothing |
| `DeploymentTables.StateReadsBack` | crates/cdb/src/deployment.rs:59-86 | each state prints as its own column text and parses back |
| `DeploymentTables.RowReadsBack` | crates/cdb/src/client.rs:357-379 | a row read back is the deployment that was written |
| `DeploymentTables.RowIsExact` | crates/cdb/src/client.rs:357-379 | a row is read exactly when it is the row of a deployment with valid names and a known state |
| `DeploymentTables.DeploymentsHaveOwnKeys` | crates/cdb/src/client.rs:90-129 | each deployment has a key of its own in each table, provided its creation time stays |
| `DeploymentTables.WriteKeepsStore` | crates/cdb/src/client.rs:524-597 | the three writes keep all tables views of one map |
| `DeploymentTables.Tables.ListedActive` | crates/cdb/src/client.rs:560-589 | the active index lists a deployment exactly when it is not down |
| `DeploymentTables.Tables.FindDeployment` | crates/cdb/src/client.rs:466-522 | finds exactly the stored deployment |
| `DeploymentTables.Tables.SetDeployment` | crates/cdb/src/client.rs:524-597 | the map is updated at one deployment, and the three tables stay views of it exactly when the deployment is new or keeps its creation time |
| `DeploymentTables.StaleRowRemains` | crates/cdb/src/client.rs:90-129 | a deployment written with another creation time leaves its old row behind |
| `DeploymentTables.Tables.Set` | crates/cdb/src/client.rs:1102-1135 | stores the state asked for unless a down deployment is asked to be undesired, keeps creation time and flag or sets them for a new deployment, and leaves every other row and the supersessions alone |
| `DeploymentTables.Tables.SetProgress` | crates/cdb/src/client.rs:1137-1153 | sets exactly the flag of a known deployment, or fails without a change for an unknown one |
| `DeploymentTables.Tables.MarkSupersededBy` | crates/cdb/src/client.rs:1155-1178 | records the supersession |
| `DeploymentTables.Tables.GetSuperseding` | crates/cdb/src/client.rs:1253-1279 | returns exactly the recorded successor |
| `DeploymentTables.Tables.Superseded` | crates/cdb/src/client.rs:1180-1211 | returns exactly the deployments a deployment took over from |
| `DeploymentTables.Tables.ActiveDeployments` | crates/cdb/src/client.rs:796-865 | returns every deployment of the repository that is not down, once |
| `DeploymentTables.Tables.Deployments` | crates/cdb/src/client.rs:897-926 | returns every deployment of the repository as stored, once, in order of creation time, the youngest first |
| `DeploymentTables.Tables.CurrentDeployment` | crates/cdb/src/client.rs:875-895 | returns a current deployment of the environment exactly when there is one |
| `DeploymentTables.Tables.FindRivals` | crates/cdb/src/client.rs:1221-1236 | collects exactly the other desired deployments of the environment |
| `DeploymentTables.Tables.MakeDesired` | crates/cdb/src/client.rs:1220-1251 | the loop of demotions and the promotion step the store as one operation: the deployment is desired, and every other desired one of the environment is lingering and superseded by it |
| `DeploymentTables.Tables.Execute` | crates/cdb/src/client.rs:1102-1251 | any run of operations on new tables leaves them views of the state the machine reaches |
| `DeploymentTables.CurrentAfter` | crates/cdb/src/client.rs:867-895 | after an orderly run on the tables `current_deployment` returns the last promoted deployment of the environment, desired, or nothing if none was promoted |
| `GitTree.ReadDir` | crates/cdb/src/client.rs:957-993 | the walk that reassigns the tree returns the directory at the path, or the right error |
| `GitTree.WalkIsDescent` | crates/cdb/src/client.rs:961-992 | a walk succeeds exactly when the path never goes up and its names open one directory after the other from the root; it ends in the last |
| `GitTree.FailedWalkStops` | crates/cdb/src/client.rs:961-992 | a walk that fails says where and why: the segments before lead to a directory without the entry, or whose entry is no directory, or whose tree cannot be read, or the path goes up |
| `GitTree.DirAtIff` | crates/cdb/src/client.rs:957-993 | a directory read returns exactly the tree to which the path leads from the commit's root |
| `GitTree.DirAtFails` | crates/cdb/src/client.rs:957-993 | it fails because the root cannot be read, or as its walk stops |
| `GitTree.ReadFileIff` | crates/cdb/src/client.rs:995-1013 | a file is read exactly when its path names a blob entry, the first of its name in a directory the rest of the path leads to, whose object is stored; the data are that object's |
| `GitTree.ReadFileOfEntry` | crates/cdb/src/client.rs:1008-1012 | an entry of another kind is reported as no file, a missing object as unreadable |
| `GitTree.ReadFileOfNothing` | crates/cdb/src/client.rs:997-1006 | without such an entry the file is not found, or the directory's error is passed on |
| `GitTree.PathHashIff` | crates/cdb/src/client.rs:1015-1042 | a path's hash is the commit's tree for the root, and otherwise that of the entry it names |
| `GitTree.NoPathHashIff` | crates/cdb/src/client.rs:1025-1042 | there is no hash exactly when the path ends in no name, its directory has no such entry, or its directory is not found |
| `GitTree.PathHashFails` | crates/cdb/src/client.rs:1018-1035 | any other failure is the commit's or the directory's own |
| `GitTree.SameHashReadsTheSame` | crates/cdb/src/client.rs:957-1042 | if two commits agree in `path_hash` at a path that is a directory in both, every directory, file and hash read at or below it agrees, errors included |
| `GitTree.FileIsBlobAtHash` | crates/cdb/src/client.rs:995-1042 | a file that can be read is the blob stored under its `path_hash` |
| `Ids.HexReadsBack` | crates/ids/src/lib.rs:1062-1084 | zero-padded lowercase hexadecimal parses back |
| `Ids.HexPrintsBack` | crates/ids/src/lib.rs:1062-1084 | every accepted hexadecimal text prints back |
| `Ids.HexPadDigit` | crates/ids/src/lib.rs:1062-1084 | digit by digit, what padded lowercase hexadecimal looks like |
| `Ids.SymbolIff` | crates/ids/src/lib.rs:606-633 | organisation and repository names are letters, digits and underscores that do not start with a digit |
| `Ids.DeploymentLayout` | crates/ids/src/lib.rs:1461-1465 | where organisation, repository, environment, commit and nonce lie in a printed deployment QID, and with which separators |
| `Ids.ResourceLayout` | crates/ids/src/lib.rs:1370-1374 | where region, type and name lie in a printed resource QID |
| `Ids.RepoReadsBack` | crates/ids/src/lib.rs:606-633 | a printed repository QID parses back |
| `Ids.EnvironmentReadsBack` | crates/ids/src/lib.rs:820-849 | a printed environment QID parses back, for any non-empty environment name |
| `Ids.DeploymentIdReadsBack` | crates/ids/src/lib.rs:1142-1169 | a printed deployment id parses back |
| `Ids.DeploymentReadsBack` | crates/ids/src/lib.rs:1461-1490 | a printed deployment QID parses back, even if the environment name contains `::` or `@` |
| `Ids.ResourceIdReadsBack` | crates/ids/src/lib.rs:1252-1295 | a printed resource id parses back |
| `Ids.ResourceReadsBack` | crates/ids/src/lib.rs:1370-1401 | a printed resource QID parses back, even if the environment name contains `::` or ends in `:` |
| `Ids.RepoPrintsBack` | crates/ids/src/lib.rs:618-633 | every accepted repository QID is valid and prints back |
| `Ids.EnvironmentPrintsBack` | crates/ids/src/lib.rs:832-849 | every accepted environment QID is valid and prints back |
| `Ids.DeploymentIdPrintsBack` | crates/ids/src/lib.rs:1154-1169 | every accepted deployment id is valid and prints back |
| `Ids.DeploymentPrintsBack` | crates/ids/src/lib.rs:1473-1490 | every accepted deployment QID is valid and prints back |
| `Ids.ResourceIdPrintsBack` | crates/ids/src/lib.rs:1264-1295 | every accepted resource id is valid and prints back |
| `Ids.ResourcePrintsBack` | crates/ids/src/lib.rs:1382-1401 | every accepted resource QID is valid and prints back |
| `Ids.DeploymentKeysAreInjective` | crates/ids/src/lib.rs:1461-1465 | two valid deployments never print to the same key |
| `Ids.ResourceKeysAreInjective` | crates/ids/src/lib.rs:1370-1374 | two valid resources never print to the same key |
| `Ids.GitRefComesBack` | crates/ids/src/lib.rs:703-729 | an accepted Git ref comes back from its environment exactly when it is not a branch starting with `tag:` |
| `Ids.FromGitRefIff` | crates/ids/src/lib.rs:703-719 | exactly the full names of branches and tags are accepted, and which environment each gives |
| `Ids.EnvironmentComesBack` | crates/ids/src/lib.rs:703-729 | an environment comes back from its ref exactly when it is not the bare `tag:` prefix |
| `EntityQid.DeploymentOwner` | crates/ne/src/recipients.rs:49-57 | for a printed deployment QID organisation, repository and environment are right |
| `EntityQid.ResourceReadAsDeployment` | crates/api/src/schema.rs:1692-1700 | a printed resource QID parses as a deployment exactly when its name ends in `@` and a deployment id; the repository is then right and the environment wrong |
| `EntityQid.ResourceOwner` | crates/api/src/schema.rs:1682-1710 | for a printed resource QID organisation and repository are always right, and the environment exactly when the name has no such end |
| `EntityQid.MisreadEnvironment` | crates/api/src/schema.rs:1702-1710 | every name with such an end is misread |
| `EntityQid.AcceptedTextIsAnEntity` | crates/ne/src/recipients.rs:49-57 | an organisation is extracted exactly from printed deployment and resource QIDs |
| `ServiceTemplate.Validate` | crates/ids/src/lib.rs:517-568 | the loop accepts exactly the texts written from brace-free literals and the two placeholders, the service among them; each rejection says what the first unreadable position holds, or that the service is missing |
| `ServiceTemplate.TokensOfWritten` | crates/ids/src/lib.rs:525-558 | a written template has only one reading |
| `ServiceTemplate.FormatIsSubstitutionIff` | crates/ids/src/lib.rs:467-471 | the two replacements in sequence are one simultaneous substitution, for every accepted template and region, exactly when the service text can form no region placeholder |
| `ServiceTemplate.StartedInService` | crates/ids/src/lib.rs:467-471 | a region placeholder that begins inside a service text lies in that text or straddles two copies of it |
| `ServiceTemplate.FormatSubstitutes` | crates/ids/src/lib.rs:467-471 | with a service text without braces the result is that substitution and has no brace left |
| `NotificationEngine.StepKeepsExclusive` | crates/ne/src/dedup.rs:110-141 | no step, failed reply or crash breaks the exclusiveness of claims |
| `NotificationEngine.EveryRunIsExclusive` | crates/ne/src/lib.rs:67-179 | in every run an owner's key is set and no two attempts own one key |
| `NotificationEngine.AtMostOneAttemptEnters` | crates/ne/src/lib.rs:67-179 | for any interleaving, duplicate publish, redelivery, failed call or crash, at most one attempt per idempotency key ever enters the enqueue loop |
| `NotificationEngine.CalmRunLosesNothing` | crates/ne/src/lib.rs:80-178 | without crashes, lost channels and failed settlements, running attempts hold their messages, claimed keys are carried to an end and unclaimed ones are waiting |
| `NotificationEngine.NoNotificationIsLost` | crates/ne/src/lib.rs:80-178 | in such runs every published key is finished, or a copy is queued or held by an attempt that will not drop it as a duplicate |
| `NotificationLoss.BlockedForever` | crates/ne/src/lib.rs:80-95 | once a key is claimed and no attempt is about to enqueue or release it, no continuation makes any further attempt enqueue it, as long as the claim does not expire |
| `NotificationLoss.EveryRunIsLinked` | crates/ne/src/lib.rs:67-179 | in every run attempts have known messages of their key, held messages have running holders, and only published keys are claimed |
| `NotificationLoss.StillSentIff` | crates/ne/src/lib.rs:80-178 | without publishing the key again, some continuation makes a further attempt enter the enqueue loop exactly when the key is not blocked and a copy is left: a message the broker has not forgotten, or an attempt before or after its claim without an answer |
| `NotificationLoss.StillHandledIff` | crates/ne/src/lib.rs:80-178 | without publishing the key again, some continuation handles it in full exactly when an attempt has done so or is in the loop, or the key is not blocked and a copy is left |
| `NotificationLoss.LosesIff` | crates/ne/src/lib.rs:67-179 | for every step: the key is lost after it exactly when the step loses it, or it was lost and is not published anew while unblocked |
| `NotificationLoss.BlocksIff` | crates/ne/src/lib.rs:80-178 | a step blocks a key exactly when it learns the recipients or is a crash between claim and answer or before a release, a failed claim that took effect, or a failed release |
| `NotificationLoss.CrashBlocksIff` | crates/ne/src/lib.rs:80-146 | a crash blocks a key that was not blocked exactly when the attempt has claimed it and not yet learned the recipients or released it |
| `NotificationLoss.LostIff` | crates/ne/src/lib.rs:67-179 | in every run a key is lost exactly when some step lost it, by a crash, a failed claim or release or the end of its last copy, and no later publish revived it |
| `NotificationLoss.CalmRunLosesNoKey` | crates/ne/src/lib.rs:80-178 | without crashes, lost channels and failed settlements no key is lost |
| `NotificationLossRuns.FailedClaimLoses` | crates/ne/src/lib.rs:96-105 | without a crash: a claim that is set but reported as failed requeues the message and loses its key |
| `NotificationLossRuns.FailedReleaseLoses` | crates/ne/src/lib.rs:136-146 | without a crash: a failed lookup whose release fails requeues the message and loses its key |
| `NotificationLossRuns.CrashInLoopLoses` | crates/ne/src/lib.rs:166-170 | a crash on entering the loop loses the key though nothing was enqueued |
| `NotificationLossRuns.LostChannelLoses` | crates/ne/src/lib.rs:84-146 | a lost channel loses the key with every call answered and nobody crashing, although the key is free again |
| `NotificationWorker.Worker.TryClaim` | crates/ne/src/dedup.rs:110-131 | set-if-absent on the store is a claim step of the protocol |
| `NotificationWorker.Worker.ReleaseOrLog` | crates/ne/src/dedup.rs:136-141 | deleting the key is a release step |
| `NotificationWorker.Worker.EnqueueAll` | crates/ne/src/lib.rs:166-176 | the loop enqueues one event for each recipient, the i-th new event for the i-th recipient, and claims stay |
| `NotificationWorker.Worker.ProcessClaimed` | crates/ne/src/lib.rs:108-178 | after the claim: outcome, events, claim and error as the lookup and the replies determine |
| `NotificationWorker.Worker.ProcessDelivery` | crates/ne/src/lib.rs:67-179 | the effects are steps of the protocol; from the replies alone: when the outcome is requeued or dead-lettered, that each recipient gets one event in order exactly when the key was claimed here and they were found, and which keys are claimed afterwards |
| `Batcher.Batching.Enqueue` | crates/ne/src/batcher.rs:103-129 | the event is appended, the quiet deadline slides or collapses at the size limit, the cap deadline stays |
| `Batcher.Batching.DrainDue` | crates/ne/src/batcher.rs:233-247 | takes out exactly the due batches, each once with its events |
| `Batcher.Batching.DrainAll` | crates/ne/src/batcher.rs:249-259 | takes out every non-empty batch once and leaves nothing |
| `Batcher.Batching.ComputeSleep` | crates/ne/src/batcher.rs:214-231 | some batch is due on waking, and the sleep passes neither deadline of any batch by more than 10 ms |
| `Batcher.Batching.Execute` | crates/ne/src/batcher.rs:103-259 | any run of operations on a new batcher leaves the batches of the model and takes out, per recipient, what the model drains, in order |
| `Batcher.EventsAreConserved` | crates/ne/src/batcher.rs:103-259 | per recipient, drained batches followed by the pending one are the enqueued events, in order |
| `Batcher.DeadlinesFollowArrivals` | crates/ne/src/batcher.rs:103-129 | after every run the deadlines are first arrival plus cap, and last arrival plus quiet or, at the limit, last arrival |
| `Batcher.BatchesLeaveInTime` | crates/ne/src/batcher.rs:233-247 | a batch leaves with a drain exactly when the cap has passed since its first event, the quiet time since its last, or it is full |
| `Batcher.DrainsAreSpaced` | crates/ne/src/batcher.rs:10-23 | without overflow or shutdown consecutive drains of a recipient are at least the shorter timer apart |
| `Batcher.EmailsAreRateLimited` | crates/ne/src/batcher.rs:1-8 | `k` drains of one recipient span at least `k - 1` times the shorter timer |
| `TokenFormat.I64ReadsBack` | crates/auth_token/src/lib.rs:206-214 | big-endian signed 64-bit fields read back |
| `TokenFormat.BigEndianDigit` | crates/auth_token/src/lib.rs:156-157 | which byte of a number field has which weight |
| `TokenFormat.ValidUtf8Iff` | crates/auth_token/src/lib.rs:194-204 | the strings accepted are exactly the encodings of sequences of Unicode scalar values, as in RFC 3629 |
| `TokenFormat.RegionBytesIff` | crates/auth_token/src/lib.rs:162-183 | the issuer regions accepted are exactly the texts that are region ids |
| `TokenFormat.EncodingLayout` | crates/auth_token/src/lib.rs:150-159 | where each field of a payload lies, and how long the payload is |
| `TokenFormat.DecodeEncode` | crates/auth_token/src/lib.rs:138-183 | decoding an encoding gives the claims back |
| `TokenFormat.EncodeDecode` | crates/auth_token/src/lib.rs:138-183 | every accepted payload is the encoding of what it decodes to |
| `TokenFormat.DecodedErrors` | crates/auth_token/src/lib.rs:162-183 | which error a rejected payload gives: another version, a payload well formed but for its region, or malformed |
| `TokenFormat.EncodingIsInjective` | crates/auth_token/src/lib.rs:138-160 | different claims have different payloads |
| `TokenFormat.Encode` | crates/auth_token/src/lib.rs:138-160 | the pushes build the encoding |
| `TokenFormat.ReadString` | crates/auth_token/src/lib.rs:194-204 | reads a length-prefixed valid UTF-8 string at the cursor, or fails |
| `TokenFormat.ReadI64` | crates/auth_token/src/lib.rs:206-214 | reads a signed number at the cursor, or fails |
| `TokenFormat.ReadArray` | crates/auth_token/src/lib.rs:216-224 | reads bytes at the cursor, or fails |
| `TokenFormat.Decode` | crates/auth_token/src/lib.rs:162-183 | the cursor accepts exactly the encodings of encodable claims |
| `Diagnostics.LanguageServer.PublishDiagnostics` | crates/lsp/src/server.rs:559-591 | the messages bring every reported URI up to date, clear every URI no longer reported and touch no other |
| `Diagnostics.LanguageServer.HandleClose` | crates/lsp/src/server.rs:426-452 | the same after clearing the closed file |
| `Diagnostics.LanguageServer.Handle` | crates/lsp/src/server.rs:384-457 | once a root is known, after a save and after opening, changing or closing a file the editor shows exactly the non-empty lists of the analysis that came with it; otherwise nothing changes; the first opened file with a directory sets the root |
| `Diagnostics.RootIsFirstOpened` | crates/lsp/src/server.rs:509-523 | over every session the root is the directory of the first opened file that has one |
| `Diagnostics.LastForIff` | crates/lsp/src/server.rs:559-591 | what a sequence of messages last says of a URI |
| `Diagnostics.RefreshReplaces` | crates/lsp/src/server.rs:559-591 | an editor that shows nothing but published URIs then shows exactly the new result |
| `Diagnostics.SessionShowsLatest` | crates/lsp/src/server.rs:384-592 | over every session the messages received leave exactly the non-empty lists of the latest analysis |
| `Diagnostics.LastEventIsShown` | crates/lsp/src/server.rs:384-592 | if a session with a root ends with a save or an event of a file, the editor shows the result that came with it |
| `Diagnostics.RunSession` | crates/lsp/src/server.rs:384-592 | a new server that handles any notifications in turn sends messages that leave the editor with exactly the non-empty lists of the latest published analysis, which is the last one if the last event publishes |

## Left out

- Databases, queues, mail, RPC and SSH are maps, queues or parameters; their statements succeed unless a reply says otherwise.
- Interleaved `make_desired` calls and the expiry of claims: the code promises nothing about them.
- Addresses with host bits: subnets are taken as truncated to their network address.
- Reasons in error messages: errors keep their kind, and parsers of identifiers only fail.
- Cryptography and base64: tokens are modelled up to their payload.
- Diagnostics.LanguageServer.Handle: takes URIs as the editor sees them, that is, as preserved by `parse_uri`; the text of open documents only feeds the analysis and is not kept.
- Supersession.EveryRunIsAChain: is stated for runs in which promoted ids are new and other states are set only on superseded deployments, while progress may be reported on any; a tear-down starts a second chain, and Supersession.SupersessionsAreDisjointChains covers those runs.
- Events already in the batcher are lost with its process; a crash in the protocol ends one attempt, and what it had put into the batcher stays.
- NotificationWorker.Worker.ProcessDelivery: executes one delivery without interruption; interleavings are in `NotificationEngine`.
- Paths in `GitTree` are sequences of segments as a path iterates over them; the decoders of Git objects are part of the stored object.
- Ties in the creation order of listed deployments, and the rest of the tables' clustering order.
- The kebab-case normaliser, the batched e-mail body, the worker table of the deployment engine and `verify_at` would only add easy members.
- The GraphQL schema, command line, log tailing, pack fetching and back-off are not part of this model.
