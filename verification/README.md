# Verified model of the mesh VPN's control plane and client

The repository is a small WireGuard mesh VPN: a control plane that stores networks, nodes, memberships,
invites, endpoints and relay assignments, and a Windows client that turns versioned snapshots of them into
routes, an address and a WireGuard configuration. This project models the parts that decide its behaviour
and proves what they promise. `dafny verify dfyconfig.toml` checks all of it.

| files | part |
|---|---|
| `Text`, `NetIp` | strings, order, decimal text; addresses as net/netip sees them |
| `AddressPool` | IPv4 pools: CIDR arithmetic on 32-bit words, enumeration, random-start search |
| `Control` | records and validation |
| `Relational`, `Constraints` | the schema and its statements as functions on tables; every statement keeps every constraint but the two of `Checks` |
| `Checks` | the two row checks an operation can break, with the exact condition for each |
| `Rows` | what every operation and every snapshot means, in columns of rows alone |
| `CacheKey` | the network version is a sound cache key over every run |
| `Statements`, `Postgres` | the PostgreSQL repository as statements, foreign keys and checks, and exactly when it agrees with the tables |
| `Storage`, `Memory`, `Owners` | the in-memory repository with its nested tables and three inverse indexes, refining the tables |
| `Enrollment`, `Invites`, `Recovery` | the enrolment transaction, single use of invites, recovery from an ambiguous commit |
| `Locks`, `Coverage` | the row locks of the PostgreSQL repository as a transition system, and that they cover what is changed |
| `Reconciler`, `Planner`, `Applier`, `Service` | routes and addresses, planning, applying snapshots, the command state machine |
| `WireGuard`, `Codec`, `Wire` | configuration validation, the driver's buffer as written and read, and the same byte by byte |
| `Selector`, `Limiter` | the path state machine and the join limiter |
| `EndToEnd` | a reachable repository's snapshots are never refused as invalid, fit the driver's buffer, and skipping a known generation is sound |

Conventions. Go maps are iterated in arbitrary order (`:|`). Times are integers with zero for the zero time.
A backend or adapter call may fail at any point: each object carries an arbitrary schedule of faults by call
number, and a failed call changes nothing. Results about failures are exact in that schedule. Clocks, random draws, the control plane's answers and cancelled contexts are
parameters. Where a promise needs a hypothesis, the hypothesis is a named predicate and the statement is an
equivalence wherever one exists.

Hypotheses that are written out:

- `CacheKey.RoomForRun`: no version bump meets the largest int64 (`VersionsAdvanceExactlyWithRoom` shows it is exact).
- `Storage.Separable`: owner keys of the stored network ids are injective (`IndexAgreesExactlyWhenSeparable` shows it is exact); ids without NUL always are.
- Foreign routes and addresses are not changed by third parties while the reconciler runs.
- `Limiter.Consecutive`: once left, a window does not come back (`CapsHoldExactlyWhenConsecutive` shows it is exact for the caps); the bound on memory takes `Limiter.Orderly`, that no reading falls in an earlier window.
- `EndToEnd.ZoneFreeSnapshot`: endpoint addresses have no IPv6 zone, as net.IP values do not.
- `Service.NamesNetworks`: the control plane answers with a snapshot of the network it was asked for.
- `EndToEnd.CanonicalKeys`: members' public keys are canonical encodings of non-zero keys.
- `Recovery.Honest`, `Recovery.LeavesAlone`: reads are truthful or inconclusive, and nobody else touches the node.

Where the two stores differ, the tables follow the in-memory one. `Postgres.Parts` lists five differences and
`Postgres.Leaves` one more inside transactions. `Postgres.PostgresAgreesExactly` and `Postgres.TransactionsAgreeExactly`
prove that there are no others, up to the limits of column types, and each has an input that shows it:

- PostgreSQL rejects an increment past the largest int64 (`internal/db/schema.sql:18`); memory wraps.
- PostgreSQL rejects a revocation dated before the invite (`internal/db/schema.sql:43`); memory stores it.
- PostgreSQL accepts a client version made of blanks (`internal/db/postgres.go:376-380`); memory does not.
- PostgreSQL validates endpoints before it looks for the node (`internal/db/postgres.go:780-788`); memory looks for the node first.
- PostgreSQL validates a whole endpoint list before it can meet a duplicate (`internal/db/postgres.go:781-816`); memory takes entry by entry.
- Inside a transaction a replacement of endpoints that stops at a repeated entry leaves what it has done so far (`internal/db/postgres.go:800-816`), because inner operations run without a savepoint (`internal/db/postgres.go:158-160`); memory leaves the rows alone.

## Model

| member | source | states |
|---|---|---|
| `AddressPool.AndMask` | internal/address/pool.go:50-78 | masking a word with the mask of a prefix, computed with 32-bit shifts, subtracts its remainder modulo the block size |
| `AddressPool.CanonicalIsAligned` | internal/address/pool.go:50-60 | a prefix is canonical exactly when its address is a multiple of its block size |
| `AddressPool.PoolShape` | internal/address/pool.go:50-78 | for every canonical prefix from /0 to /32 the usable range is network+1 to network+size-2 with no 32-bit wrap, and /31 and /32 have none |
| `AddressPool.ContainsIsInterval` | internal/address/pool.go:103-114 | Contains is exactly the interval [network, network+size) |
| `AddressPool.UsableRange` | internal/address/pool.go:117-123 | the usable addresses are exactly first..first+count-1, strictly inside the block |
| `AddressPool.ForEachCandidate` | internal/address/pool.go:127-148 | visits the usable addresses once each, in ascending order, up to the first one the visitor stops at |
| `AddressPool.AddOccupied` | internal/address/pool.go:251-280 | the loop collects exactly the IPv4 addresses of the list |
| `AddressPool.Next` | internal/address/pool.go:180-204 | returns the least free usable address, or nothing exactly when none is free |
| `AddressPool.Search` | internal/address/pool.go:235-246 | the cyclic scan finds the first free address at or after the start, wrapping once, or nothing exactly when none is free |
| `AddressPool.RandomNext` | internal/address/pool.go:216-247 | for every start: the first free address from it, exhausted exactly when no address is free, and an error only when randomness failed |
| `AddressPool.FullTurn` | internal/address/pool.go:235-246 | a full turn from any start meets every usable address, so a turn without a hit means none is free |
| `AddressPool.RandomNextReaches` | internal/address/pool.go:216-247 | every free address is the answer for some start |
| `AddressPool.FirstFreeMeans` | internal/address/pool.go:235-246 | all addresses from the start up to the answer are used, going on at the first address after the last |
| `Control.BumpAdvances` | internal/db/repository.go:289-297 | a version bump moves forward exactly when the version is not the largest int64 |
| `Constraints.RemoveNodeKeeps` | internal/db/schema.sql:4-80 | deleting a node with the cascade and set-null rules keeps every key, foreign key and uniqueness constraint and every row check but the two of `Checks` |
| `Constraints.AddMembershipKeeps` | internal/db/repository.go:488-524 | adding a member keeps the constraints: distinct addresses, inside the pool, existing ends |
| `Constraints.RemoveMembershipKeeps` | internal/db/repository.go:532-555 | removing a member with its relay assignments keeps the constraints |
| `Constraints.ConsumeInviteKeeps` | internal/db/repository.go:622-657 | consuming keeps the constraints: never both consumed and revoked, and the consumer exists |
| `Constraints.ConsumeRewritesOne` | internal/db/postgres.go:736-776 | the conditional UPDATE rewrites exactly one row, the one its WHERE clause admits |
| `Constraints.ReplaceEndpointsKeeps` | internal/db/repository.go:676-712 | replacing endpoints keeps the constraints |
| `Constraints.SetRelayKeeps` | internal/db/repository.go:715-767 | the relay upsert keeps both ends distinct members of the network and assignment ids unique |
| `Constraints.ExecKeeps` | internal/db/schema.sql:4-80 | every operation, successful or not, keeps every constraint of the schema but two: positive versions and the order of revocation dates, which `Checks` treats |
| `Constraints.EndpointsOutcomeMeaning` | internal/db/repository.go:676-712 | a list of endpoints is accepted exactly when all belong to the node, are valid and are pairwise different |
| `Rows.SnapshotExactly` | internal/db/repository.go:800-885 | a snapshot is the one a node gets if and only if the node is an active member with a record and the snapshot shows the rows: the network version, exactly the other active members with a record, once each in byte order, each with its node and membership rows and exactly its endpoints observed within the maximum age, and the local assignment exactly when it is active, assigned, unexpired and both its ends are active members |
| `Rows.SnapshotShows` | internal/db/postgres.go:966-1080 | there is a snapshot exactly for an active member, and it shows those rows |
| `Rows.ConsumeMeans` | internal/db/repository.go:622-673 | an invite is consumed exactly when the consumer is empty or known and the row named by id, or by network where no row has that id, with this hash is unconsumed, unrevoked and at or after its creation and before its expiry; consumed, revoked, expired, too early and not found each exactly in their case; only that row is written |
| `Rows.RevokeMeans` | internal/db/repository.go:589-612 | each answer exactly in its case, and one column of one row |
| `Rows.PoolMeans` | internal/control/validation.go:120-135 | a pool is an IPv4 block whose address is a multiple of its size, and an address is in it exactly when it lies in that interval |
| `Text.BlankMeans` | internal/control/validation.go:37-43 | blank text has nothing but characters of the Unicode property White_Space |
| `Rows.NetworkColumns` | internal/control/validation.go:45-73 | which networks are valid, column by column |
| `Rows.NodeColumns` | internal/control/validation.go:75-93 | which nodes are valid, column by column |
| `Rows.MembershipColumns` | internal/control/validation.go:95-118 | which memberships are valid, column by column |
| `Rows.EndpointColumns` | internal/control/validation.go:137-180 | which endpoints are valid, column by column |
| `Rows.InviteColumns` | internal/control/validation.go:182-212 | which invites are valid, column by column |
| `Rows.RelayColumns` | internal/control/validation.go:214-250 | which assignments are valid, column by column |
| `Rows.CreateNetworkMeans` | internal/db/repository.go:301-318 | each answer exactly in its case, and the one new row, with version one for zero |
| `Rows.AddNodeMeans` | internal/db/repository.go:335-353 | each answer exactly in its case, and the one new row |
| `Rows.UpdateNodeMeans` | internal/db/repository.go:398-439 | touching and updating a node answer each in its case and change one column of one row |
| `Rows.AddMembershipMeans` | internal/db/repository.go:488-524 | a member is added exactly when it is valid, its ends exist, its address lies in the block and neither node nor address is in the network; one row, and the next version |
| `Rows.RemoveMembershipMeans` | internal/db/repository.go:532-555 | the row goes with exactly the assignments of the network in which the node is an end |
| `Rows.CreateInviteMeans` | internal/db/repository.go:558-584 | each answer exactly in its case |
| `Rows.ReplaceEndpointsMeans` | internal/db/repository.go:676-712 | a list is taken exactly when all entries are the own, valid and without a clash in address, port and interface; the rows after it are those of the list and of other nodes |
| `Rows.SetRelayMeans` | internal/db/repository.go:715-767 | an assignment is stored exactly when it is valid, both ends are active members and no other pair has its id |
| `Rows.SetRelayWrites` | internal/db/repository.go:715-767 | it writes that row and the next version of its network, and nothing else |
| `Rows.RemoveNodeMeans` | internal/db/schema.sql:22-80 | what goes with a node, what stays, and which networks advance, row by row |
| `Rows.RemoveRelayMeans` | internal/db/repository.go:770-786 | exactly the assignments of the network go |
| `Rows.NetworkRow` | internal/db/schema.sql:13-20 | what the checks of the schema say about every network |
| `Rows.MembershipRow` | internal/db/schema.sql:22-30 | what the checks of the schema say about every membership |
| `Rows.InviteRow` | internal/db/schema.sql:32-46 | what the checks of the schema say about every invite |
| `Rows.EndpointRow` | internal/db/schema.sql:48-60 | what the checks of the schema say about every endpoint |
| `Rows.RelayRow` | internal/db/schema.sql:62-80 | what the checks of the schema say about every assignment |
| `CacheKey.ViewDeterminesSnapshot` | internal/db/repository.go:800-885 | a snapshot depends on nothing but the rows of its network, up to LastSeen and ClientVersion |
| `CacheKey.StepView` | internal/db/repository.go:443-786 | every operation bumps each affected network once and leaves the visible rows of all other networks as they were |
| `CacheKey.BumpsOnce` | internal/db/repository.go:443-786 | a successful operation bumps exactly the affected networks, each once |
| `CacheKey.FailureChangesNothing` | internal/db/repository.go:301-786 | a failed operation changes nothing |
| `CacheKey.ReachableIsWellFormed` | internal/db/repository.go:35-47 | every state reached by any run of operations and transactions satisfies every constraint of the schema but the two of `Checks` |
| `CacheKey.VersionIsSoundCacheKey` | internal/db/repository.go:289-297 | over any run: versions never decrease, and equal versions at two moments give every member the same snapshot at the same time of reading; the hypothesis is that no bump meets the largest int64 |
| `CacheKey.ErasedMeans` | internal/db/repository.go:800-885 | the same up to LastSeen and ClientVersion means equal in every other field of every peer and of the snapshot |
| `CacheKey.VersionsAdvanceExactlyWithRoom` | internal/db/repository.go:289-297 | an operation keeps versions from going back if and only if no network it affects is at the largest int64 |
| `Checks.VersionsStayPositiveExactlyWithRoom` | internal/db/schema.sql:18 | an operation keeps every version positive if and only if no network it affects is at the largest int64 |
| `Checks.RunStaysPositive` | internal/db/repository.go:289-318 | versions stay positive over any run that has room |
| `Checks.RevocationsStayInOrderExactly` | internal/db/schema.sql:43 | an operation keeps every revocation dated at or after its invite if and only if it is no effective revocation dated before the invite |
| `Checks.SchemaKeptExactly` | internal/db/schema.sql:4-80 | an operation keeps the whole schema if and only if it has room for its increments and dates no revocation back |
| `CacheKey.VersionGoesBackWithoutRoom` | internal/db/repository.go:289-318 | the condition is needed: a network created at the largest version turns negative with its first member |
| `Storage.OwnerKeyCollides` | internal/db/repository.go:207-209 | two networks share an owner key for some non-blank nodes exactly when one network id followed by NUL is a prefix of the other |
| `Storage.NulFreeIsSeparable` | internal/db/repository.go:207-209 | owner keys are injective when network ids contain no NUL |
| `Storage.OwnerLookup` | internal/db/repository.go:755-758 | with injective owner keys the index check admits an assignment exactly when no row of another pair has its id |
| `Owners.SharedKeyAdmitsTakenId` | internal/db/repository.go:755-758 | for any two network ids of which one followed by NUL starts the other, a well-formed store with an exact index and a valid assignment that the index check admits and the tables refuse |
| `Owners.IndexAgreesExactlyWhenSeparable` | internal/db/repository.go:755-758 | on every store with given network ids the index check agrees with the tables if and only if no id followed by NUL starts another |
| `Storage.LookupIsMatch` | internal/db/repository.go:659-673 | the lookup by id, else by token index and network, finds exactly the row of the SQL predicate |
| `Storage.ConsumeAgrees` | internal/db/repository.go:622-657 | the checks of the memory store and the conditional UPDATE with its classification give the same result |
| `Storage.ConsumeNeverConflicts` | internal/db/postgres.go:771-776 | the final conflict of the SQL consume path is unreachable under atomic execution |
| `Memory.MemoryRepository.CreateNetwork` | internal/db/repository.go:301-318 | does what its statement does to the tables, and all indexes stay exact whatever the identifier |
| `Memory.MemoryRepository.AddNode` | internal/db/repository.go:335-353 | does what the INSERT does, including both uniqueness conflicts, through the public-key index |
| `Memory.MemoryRepository.TouchNode` | internal/db/repository.go:398-414 | changes one LastSeen and no version |
| `Memory.MemoryRepository.UpdateNodeClientVersion` | internal/db/repository.go:423-439 | changes one ClientVersion and no version |
| `Memory.MemoryRepository.RemoveNode` | internal/db/repository.go:443-485 | the hand-written cascade over nested maps gives the tables of DELETE with the ON DELETE rules, and bumps each affected network once |
| `Memory.MemoryRepository.DeleteRelayAssignment` | internal/db/repository.go:211-222 | removes one assignment, its owner entry and an emptied group |
| `Memory.MemoryRepository.AddMembership` | internal/db/repository.go:488-524 | same result and next state as the statement, for every input |
| `Memory.MemoryRepository.RemoveMembership` | internal/db/repository.go:532-555 | same result and next state as the statement, including the relay assignments it deletes |
| `Memory.MemoryRepository.CreateInvite` | internal/db/repository.go:558-584 | same result and next state as the INSERT, through the token index |
| `Memory.MemoryRepository.RevokeInvite` | internal/db/repository.go:589-612 | same result and next state as the statement |
| `Memory.MemoryRepository.ConsumeInviteForNode` | internal/db/repository.go:622-657 | consumption through the token index is the conditional UPDATE; a success returns the row that was consumed |
| `Memory.MemoryRepository.ReplaceEndpoints` | internal/db/repository.go:676-712 | accepts exactly the valid lists without duplicates, replaces the rows of the node and bumps each of its networks once |
| `Memory.MemoryRepository.SetRelayAssignment` | internal/db/repository.go:715-767 | the upsert through the owner index has the result and next tables of the relational one |
| `Memory.MemoryRepository.RemoveRelayAssignment` | internal/db/repository.go:770-786 | same result and next state as deleting all assignments of a network |
| `Memory.MemoryRepository.BuildSnapshotAt` | internal/db/repository.go:800-885 | the loops over nested maps build the relational snapshot: active peers by node id, fresh endpoints, usable relay |
| `Memory.MemoryRepository.Clone` | internal/db/repository.go:101-139 | the working copy has the same contents and shares no inner table with the original |
| `Memory.MemoryRepository.Publish` | internal/db/repository.go:76-99 | publishing takes over the working copy whole |
| `Memory.MemoryRepository.Do` | internal/db/repository.go:301-786 | any operation gives the result and next tables of its statement |
| `Memory.MemoryRepository.WithTransaction` | internal/db/repository.go:76-99 | a committed transaction has the effect of its operations in order; otherwise nothing is published |
| `Statements.UpsertPutsRow` | internal/db/postgres.go:849-889 | insert, check by id and update together put the row in place unless another pair owns the id; the conflict after the update is unreachable |
| `Statements.ForeignKeysRemoveNode` | internal/db/schema.sql:22-80 | deleting the row of a node and following the foreign keys, in whatever order, until nothing refers to a missing row, ends in the tables of the removal |
| `Statements.ForeignKeysSettle` | internal/db/schema.sql:22-80 | from any tables the foreign keys come to rest |
| `Postgres.RaiseEachIsBump` | internal/db/postgres.go:610-624 | incrementing networks one statement at a time, in any order without repetition, is the bump of all of them, and is rejected exactly when one is at the largest int64 |
| `Postgres.OutcomeByPosition` | internal/db/repository.go:676-712 | the loop over endpoints reports a duplicate exactly when some entry repeats an earlier one with all entries up to it valid, otherwise a validation error exactly when some entry is invalid |
| `Postgres.RemoveNodeAgrees` | internal/db/postgres.go:400-430 | the affected networks read first in any order, the cascading delete and the increments give the result and tables of the removal exactly with room, and are rejected otherwise |
| `Postgres.AddMembershipAgrees` | internal/db/postgres.go:541-568 | locks, pool check, insert and increment give the result and tables of the operation exactly with room |
| `Postgres.RemoveMembershipAgrees` | internal/db/postgres.go:577-603 | deleting assignments and membership and incrementing give the result and tables of the operation exactly with room |
| `Postgres.RevokeAgrees` | internal/db/postgres.go:654-694 | the conditional UPDATE and its classification agree with the operation exactly unless the revocation is dated before the invite |
| `Postgres.ConsumedRows` | internal/db/postgres.go:736-776 | the conditional UPDATE that consumes never meets a check of the schema |
| `Postgres.ConsumeAgrees` | internal/db/postgres.go:711-776 | the lookup predicate, the conditional UPDATE and the explanation of a miss, as written in SQL, give the result and tables of the operation |
| `Postgres.ReplaceEndpointsAgrees` | internal/db/postgres.go:780-822 | validating the whole list before looking for the node and writing agrees with the entry-by-entry loop exactly when there is room, an unknown node comes with a valid list, and no repeat comes before the first invalid entry |
| `Postgres.SetRelayAgrees` | internal/db/postgres.go:825-889 | locks, membership checks, the three statements and the increment have the result and next tables of the one operation exactly with room |
| `Postgres.PostgresAgreesExactly` | internal/db/postgres.go:225-932 | every operation, written as its statements with the checks of the schema, has the result and next tables of the in-memory repository if and only if none of the five guards of `Parts` holds; otherwise it changes nothing, except for a client version of blanks |
| `Postgres.RunsAgreeExactly` | internal/db/postgres.go:225-932 | over any sequence of single operations both repositories give the same results and tables at every step if and only if no guard of `Parts` ever holds |
| `Postgres.WithinAgreesExactly` | internal/db/postgres.go:151-222 | inside a transaction, where nothing undoes an operation that fails halfway, an operation agrees with memory if and only if no guard of `Parts` holds and no replacement of endpoints stops at a repeated entry having changed rows |
| `Postgres.TransactionsAgreeExactly` | internal/db/postgres.go:198-222 | over any run of transactions, committed or not, where one rejected statement undoes the whole transaction, both repositories give every operation the same answer and working tables and publish the same tables if and only if none of the six guards ever holds |
| `Postgres.LeavesInTransaction` | internal/db/postgres.go:780-822 | the sixth guard: in a committed transaction a list with a repeated entry is refused by both, and PostgreSQL has replaced the rows up to the repeat |
| `Postgres.PostgresKeepsSchemaExactly` | internal/db/postgres.go:225-932 | what PostgreSQL answers keeps the schema with valid records exactly unless it stores a client version of blanks |
| `Postgres.PartsAtLargestVersion` | internal/db/postgres.go:610-624 | first guard: a member added to a network at the largest version is rejected, memory accepts it and the version turns negative |
| `Postgres.PartsOnBackdatedRevocation` | internal/db/postgres.go:654-694 | second guard: a revocation dated before its invite is rejected, memory stores it |
| `Postgres.PartsOnBlankVersion` | internal/db/postgres.go:376-395 | third guard: a client version of one blank is stored, memory refuses it |
| `Postgres.PartsOnUnknownNode` | internal/db/postgres.go:780-799 | fourth guard: an invalid list for an unknown node fails validation, in memory the node is not found |
| `Postgres.PartsOnEarlyRepeat` | internal/db/postgres.go:780-822 | fifth guard: a repeat before an invalid entry fails validation, in memory it conflicts |
| `Enrollment.OnlyAddressConflicts` | internal/enrollment/service.go:189-206 | AddMembership in the loop succeeds or conflicts, and conflicts exactly on a held address |
| `Enrollment.AllTried` | internal/enrollment/service.go:183-213 | as many different tries as usable addresses means every usable address is held |
| `Enrollment.Allocate` | internal/enrollment/service.go:180-213 | never tries an address twice, ends within the pool size, yields a usable address no member holds, and is exhausted only when every usable address is held; the draws decide: the tries are the ones drawn, all but an accepted last one are held, and a failed draw is the one after them |
| `Enrollment.AdmissionMeansAdmits` | internal/enrollment/service.go:156-176 | a request gets past node and invite exactly when some invite admits it, and that invite is unique |
| `Enrollment.AdmissionMeans` | internal/enrollment/service.go:156-176 | admitted exactly when the node is new and an invite it names is open and of a network that is not revoked; each refusal exactly in its case |
| `Enrollment.EnrolmentMeans` | internal/enrollment/service.go:156-228 | an accepted enrolment, row by row: the node, a membership with role member and status active at an address strictly inside the block that nobody had, and the invite, which was open and not yet expired at that moment |
| `Enrollment.FullByRows` | internal/enrollment/service.go:180-213 | full means that every address strictly inside the block has a member |
| `Enrollment.AllocationCompletes` | internal/enrollment/service.go:180-228 | storing the member after node and invite is exactly one enrolment |
| `Enrollment.Transact` | internal/enrollment/service.go:156-228 | the callback refuses for the reason the tables give, fails with exhaustion exactly when the network is full, and otherwise performs exactly one enrolment |
| `Enrollment.Enroll` | internal/enrollment/service.go:129-233 | all or nothing: one node, one active membership, the presented invite consumed and one bump, nothing else touched; a refusal publishes nothing |
| `Enrollment.EnrolmentIsTransaction` | internal/enrollment/service.go:156-228 | an accepted enrolment is the transaction that adds the node, consumes the invite and adds the member, so every theorem about runs covers it |
| `Enrollment.Run` | internal/db/repository.go:76-99 | over any sequence of transactions and enrolments the store holds what a run of transactions gives: each event becomes the transaction it asked for, an accepted enrolment the three operations of its reply and a refused one nothing, and each reply is the outcome the tables before it call for |
| `Invites.ConsumedAtMostOnce` | internal/db/repository.go:622-657 | over any run an invite that was consumed is never consumed again |
| `Invites.SpentStays` | internal/db/repository.go:558-657 | no operation makes a consumed invite available |
| `Recovery.Recover` | internal/control/http.go:548-576 | the readings decide: success exactly when an attempt confirms before the deadline, rejection exactly when all are made and deny; with truthful or inconclusive reads a committed enrolment keeps its live session and token, success is reported only if it was committed, an answer without token means rolled back with the session revoked, and conclusive reads leave nothing in doubt |
| `Recovery.EnrollControl` | internal/control/http.go:445-542 | the same over the whole request, for any interference that leaves the node alone: the callback answers what the tables call for, the enrolment is published exactly when it was accepted, a session was issued and the store did not roll back, a commit without error is a success, and otherwise the readings decide |
| `Recovery.AcceptedIsPresent` | internal/control/http.go:469-535 | an accepted enrolment leaves the node with exactly its network, and there was no trace of it before |
| `Reconciler.RouteKeyInjective` | internal/netwin/route_reconciler.go:210-216 | route keys are injective on validated routes |
| `Reconciler.AcceptsMeans` | internal/netwin/route_reconciler.go:190-208 | acceptable means a single IPv4 host on an interface and different IPv4 host routes on interfaces, each with an IPv4 next hop or none |
| `Reconciler.CanonicalRoutes` | internal/netwin/route_reconciler.go:98-138 | removing stale and adding missing routes ends in foreign plus desired, whatever the iteration order |
| `Reconciler.KeyedDetermined` | internal/netwin/route_reconciler.go:210-216 | a registry is determined by the routes in it |
| `Reconciler.RouteReconciler.Attempt` | internal/netwin/route_reconciler.go:84-125 | the forward half never touches what was not created here and records enough to be undone |
| `Reconciler.RouteReconciler.Rollback` | internal/netwin/route_reconciler.go:171-188 | compensates one call for each route added or removed and at most two for the address; it is undone exactly when none of these calls fails, and then the kernel is exactly as before |
| `Reconciler.RouteReconciler.Reconcile` | internal/netwin/route_reconciler.go:60-140 | rejects exactly the unacceptable requests and is cancelled exactly when asked to; otherwise it takes one call per stale or missing route and per address that comes or goes, succeeds exactly when none of them fails, and ends in the canonical state (kernel foreign plus desired, owned desired minus foreign); a failure keeps the registry, and the kernel is restored when no call after the first failing one fails; what was ever removed is never forgotten |
| `Reconciler.RouteReconciler.Clear` | internal/netwin/route_reconciler.go:143-169 | removes owned resources only, with one call for each; it succeeds exactly when none of them fails, and keeps in the registry exactly what could not be removed |
| `Reconciler.RouteReconciler.CanonicalRegistry` | internal/netwin/route_reconciler.go:120-140 | canonical states of the same request have the same registry |
| `Reconciler.RouteReconciler.SwitchAndBack` | internal/netwin/route_reconciler.go:60-140 | reconciling to another set and back restores kernel and registry exactly; it succeeds exactly when both requests are acceptable and no call fails |
| `Reconciler.Run` | internal/netwin/route_reconciler.go:60-188 | over any sequence of calls and failures, including failing rollbacks, every result and the state after it follow from the command, the state before it and the calls that fail; removal is only asked for what this reconciler created, the record of removals only grows, and foreign resources stay |
| `Planner.SelectEndpoint` | internal/reconcile/snapshot.go:226-264 | picks a best eligible candidate in the order IPv6, priority, newest, text, or none |
| `Planner.SelectionIsUnique` | internal/reconcile/snapshot.go:226-264 | the choice depends on the set of candidates only |
| `Planner.SelectionMeans` | internal/reconcile/snapshot.go:226-264 | the endpoint of a peer is, of its endpoints and, if it is the active relay, the address of the relay with priority zero, a usable one such that no other goes before it: IPv6, then lower priority, then later observation, then smaller text; none exactly when none is usable |
| `Planner.PlannableMeans` | internal/reconcile/snapshot.go:170-211 | what plan asks of a snapshot, field by field |
| `NetIp.GlobalUnicastRanges` | internal/reconcile/snapshot.go:236-241 | which addresses are usable, by their ranges |
| `Planner.MakePlan` | internal/reconcile/snapshot.go:170-217 | accepts exactly the plannable snapshots; what it plans is a valid configuration with one peer and one host route each, in order |
| `Planner.PlanIsValid` | internal/reconcile/snapshot.go:213-215 | the final Validate can never reject |
| `Planner.StampedIsAccepted` | internal/reconcile/snapshot.go:111-120 | once stamped with a non-zero LUID a plan passes every check Reconcile makes |
| `WireGuard.Validate` | internal/wgnt/api.go:98-131 | the loop with its set of seen keys decides validity exactly |
| `WireGuard.ValidMeans` | internal/wgnt/api.go:98-131 | non-zero different keys, ports with endpoints, keepalives of whole seconds in sixteen bits, and single hosts as allowed IPs |
| `Applier.Applier.Rollback` | internal/reconcile/snapshot.go:266-291 | it works exactly when the context lives, no compensating call fails and the device is the one to be restored; then the last good routes and configuration are in force again |
| `Applier.InForceMeans` | internal/reconcile/snapshot.go:170-217 | what is in force, field by field: for each peer a route to its address alone through the interface itself, and an entry with its key, that address and the endpoint chosen for it |
| `Applier.PlanInForce` | internal/reconcile/snapshot.go:111-128 | recording a stamped plan records what the snapshot asks for: its local address, and one host route and one configured peer for each of its peers, in order |
| `Applier.Applier.Install` | internal/reconcile/snapshot.go:104-130 | success puts the planned snapshot in force; which of success, route failure and adapter failure it is, and whether a failure is put back, is decided by the calls that fail; a failure keeps the record and, if put back, the registry, the kernel and the device that was in use, or no device |
| `Applier.Applier.Apply` | internal/reconcile/snapshot.go:74-130 | what it answers is a function of the state before it and of the calls that fail (`ApplyOutcome`), and so is whether a failure leaves nothing half done (`Tidy`); failure leaves state and generation unchanged and, if nothing is half done, also kernel routes, address and device configuration; on success address, routes and peers in force are those of a snapshot of the given generation, the given one unless that generation was in force already; the network in force is the one named exactly when the generation is new or the network was the same; a successful new generation is appended to the log |
| `Applier.Applier.Clear` | internal/reconcile/snapshot.go:132-159 | with a live context and something applied it succeeds exactly when no call fails and the device is the recorded one; success leaves no record; it leaves no device, no owned route and no address if and only if a snapshot was applied or there was none before; with nothing applied it touches nothing; failure keeps the record |
| `Applier.DeviceLeftOpen` | internal/reconcile/snapshot.go:95-141 | why the condition is there: a first Apply whose context is lost before its routes are set leaves the device it opened, and Clear then succeeds without deleting it |
| `Applier.OutcomeReasons` | internal/reconcile/snapshot.go:74-130 | the reasons of each answer: cancelled and stale exactly in their cases, a known generation always succeeds, routes fail only with a lost context or a failing route call, the adapter only with a failing adapter call, and a lost context never lets a new generation through |
| `Applier.WithoutFaults` | internal/reconcile/snapshot.go:74-130 | where no call fails and contexts live, every plannable snapshot that is not stale is applied |
| `Applier.Run` | internal/reconcile/snapshot.go:74-159 | every result and the state after it follow from the command, the state before it and the calls that fail; the snapshots put in force between clears have strictly increasing generations, the last of them is in force, and kernel, registry and device match the record while no compensation failed |
| `Service.Service.Start` | internal/service/service.go:98-129 | starts exactly with a usable identity and a live context, and never disturbs a started service |
| `Service.Service.Shutdown` | internal/service/service.go:135-171 | ends not started and not joined; it succeeds exactly when there was nothing to shut down or the data plane could be cleared, and success leaves nothing applied |
| `Service.Service.FinishJoin` | internal/service/service.go:295-339 | its answer is decided: a control failure exactly for an unusable answer, an adapter failure exactly when the snapshot cannot be applied; success joins the accepted network, reports its address and generation as disconnected, and has a snapshot of the answered generation in force, the answered one unless that generation was in force already; failure changes neither joined nor status |
| `Service.Service.DoJoin` | internal/service/service.go:219-265 | answers already-joined exactly when joined, and never reaches that branch of finishJoin |
| `Service.Service.DoLeave` | internal/service/service.go:353-389 | success leaves nothing joined or applied; every refusal exactly in its case: not joined, wrong network, an adapter that does not disconnect or a data plane that cannot be cleared, and a control plane that refuses once nothing is applied |
| `Service.Service.DoConnect` | internal/service/service.go:458-490 | succeeds exactly when the network is the joined one and the answered snapshot can be applied, and ends with a snapshot of that generation in force, the answered one unless that generation was in force already; not joined and wrong network exactly in their cases |
| `Service.Service.DoDisconnect` | internal/service/service.go:492-518 | succeeds exactly when the network is the joined one and the data plane can be cleared, and leaves nothing applied and generation zero |
| `Service.Service.Handle` | internal/service/service.go:179-218 | the answer to every command and the state after it follow from the state before it and the calls that fail; every command keeps joined and status naming the same network, and, unless a cleanup or compensation failed, nothing applied while not joined and nothing of another network while joined |
| `Service.Run` | internal/service/service.go:98-518 | the same over any run of commands, starts and shutdowns, each result tied to its event; the already-joined branch of finishJoin is never taken |
| `Service.Reconnect` | internal/service/service.go:458-518 | disconnecting and connecting succeeds exactly when clearing does and the answered snapshot can be applied to an empty data plane, and puts it in force, also at the generation that was in force |
| `Service.JoinOverLeftovers` | internal/service/service.go:135-171 | the condition on cleanups is needed: after a shutdown that cleared nothing, joining another network at the same generation succeeds and leaves the old network in force |
| `Codec.EndpointRoundTrip` | internal/wgnt/adapter_windows.go:396-476 | reading a written endpoint gives it back if and only if its zone is empty or canonical, and an absent one has no port |
| `Codec.ZoneRoundTrip` | internal/wgnt/adapter_windows.go:413-419 | a zone survives if and only if it is empty or the canonical decimal of a non-zero 32-bit index |
| `Text.DecimalPlaces` | internal/wgnt/adapter_windows.go:413-419 | the characters of a decimal are its digits by place, without a leading zero |
| `Text.LeadingDigit` | internal/wgnt/adapter_windows.go:413-419 | a digit in front of a numeral counts for its place |
| `Codec.AllowedRoundTrip` | internal/wgnt/adapter_windows.go:375-491 | every valid prefix survives |
| `Codec.PeerLayout` | internal/wgnt/adapter_windows.go:54-67 | the fields of a peer record are at the byte offsets of the driver structure |
| `Codec.InterfaceLayout` | internal/wgnt/adapter_windows.go:38-45 | the fields of the interface record are at the byte offsets of the driver structure |
| `Codec.PeersRoundTrip` | internal/wgnt/adapter_windows.go:345-460 | reading n of the written peers gives the first n, in order |
| `Codec.RoundTrip` | internal/wgnt/adapter_windows.go:334-460 | reading a written configuration gives its port and, in order, its peers up to the 32-bit peer count |
| `Codec.RecoversExactly` | internal/wgnt/adapter_windows.go:334-491 | every peer is recovered with key, endpoint and allowed IPs if and only if there are fewer than 2^32 peers and every endpoint survives |
| `Codec.LeadingZeroIsLost` | internal/wgnt/adapter_windows.go:413-419 | a zone with a leading zero is accepted but read back without it |
| `Codec.ValidIsEncodable` | internal/wgnt/adapter_windows.go:345-373 | a validated configuration can be written exactly when its zones are numeric and its lists can be counted |
| `Codec.BuildConfiguration` | internal/wgnt/adapter_windows.go:334-373 | the nested append loops write exactly the encoding, and fail exactly on what has none |
| `Wire.WireExactly` | internal/wgnt/adapter_windows.go:334-423 | a buffer is the one written for a configuration if and only if its bytes are the driver structures: interface and peer flag words as numbers, ports and IPv4 addresses most significant byte first, counts and families least significant byte first, keepalives in whole seconds, keys and IPv6 addresses as they are, records at their offsets, and zeros elsewhere |
| `Wire.EndpointWire` | internal/wgnt/adapter_windows.go:396-423 | the 28 bytes of a socket address |
| `Wire.AllowedWire` | internal/wgnt/adapter_windows.go:375-394 | the 24 bytes of an allowed IP |
| `Wire.PeerWire` | internal/wgnt/adapter_windows.go:349-366 | the 136 bytes of a peer record |
| `Wire.InterfaceWire` | internal/wgnt/adapter_windows.go:335-344 | the 80 bytes of the interface record |
| `Wire.PeerIsRead` | internal/wgnt/adapter_windows.go:440-444 | what is read for a peer, from its bytes: key, endpoint if flagged, sent, received and handshake counters in that order |
| `Wire.EndpointIsRead` | internal/wgnt/adapter_windows.go:462-476 | what is read for an endpoint, from its bytes |
| `Wire.AllowedIsRead` | internal/wgnt/adapter_windows.go:478-492 | what is read for an allowed IP, from its bytes |
| `Wire.HeadIsRead` | internal/wgnt/adapter_windows.go:425-434 | port, public key if flagged, and number of peers, from the bytes |
| `Codec.ParseStatus` | internal/wgnt/adapter_windows.go:425-460 | on any byte buffer the offset loop ends, reads only inside it and gives the decoding by suffixes |
| `Codec.ParseAllowedList` | internal/wgnt/adapter_windows.go:450-456 | the inner loop gives the known-family prefixes in order |
| `Selector.Selector.Observe` | internal/path/selector.go:75-162 | the state is what runs of accepted observations alone determine, each counter is the run it stands for, an inactive member is disconnected at once, and a rejected observation changes nothing |
| `Selector.RunsFit` | internal/path/selector.go:75-162 | what each state says about the current runs |
| `Selector.DirectExactly` | internal/path/selector.go:75-162 | the path is direct if and only if the last observations, as many as the recovery threshold, were all healthy, or it was direct from the start and all were |
| `Selector.InactiveDisconnects` | internal/path/selector.go:89-94 | after an inactive observation the state is disconnected |
| `Selector.RecoveryIsEarned` | internal/path/selector.go:75-162 | direct after an inactive observation needs a full run of healthy ones since |
| `Selector.FailingRun` | internal/path/selector.go:96-150 | during a run of failures the path is suspect below the failure threshold if it was direct or suspect, and otherwise the relay decides at each of them |
| `Selector.HealthyRun` | internal/path/selector.go:96-150 | during a run of healthy observations below the recovery threshold a relayed path stays relayed and any other than direct is suspect |
| `Selector.HysteresisBound` | internal/path/selector.go:75-162 | failure threshold times exits plus recovery threshold times entries is at most the number of accepted observations, for every history |
| `Selector.BoundIsAttained` | internal/path/selector.go:75-162 | for any thresholds and any number of rounds some history meets the bound with equality |
| `Limiter.RollRemembers` | internal/control/room.go:78-86 | moving to a new window and pruning forgets no live count |
| `Limiter.CapsHold` | internal/control/room.go:66-99 | when no window comes back after another, every window admits at most the global cap, and at most the per-source cap from one source |
| `Limiter.CapsHoldExactlyWhenConsecutive` | internal/control/room.go:66-99 | clock readings in lock order keep both caps, whatever they are and whoever calls, if and only if no window comes back after another |
| `Limiter.AdmittedExactly` | internal/control/room.go:66-99 | while no window comes back, a call is admitted if and only if fewer calls than the global cap were admitted in its minute and fewer of its source than the cap per source |
| `Limiter.CountsAddUp` | internal/control/room.go:66-99 | the counts held for the current window add up to the global count |
| `Limiter.SourcesAreFew` | internal/control/room.go:78-82 | with a clock that never falls back to an earlier window the source map holds at most three times the global cap |
| `Limiter.NoBoundBackwards` | internal/control/room.go:78-82 | the condition on memory is needed: under any caps, calls of new sources that each fall a minute back are all admitted and never pruned, and exceed three times the global cap |
| `Limiter.SteppingBackAndForth` | internal/control/room.go:66-99 | a clock that steps back over a window boundary and returns breaks a cap; one that only steps back does not |
| `Limiter.JoinLimiter.Prune` | internal/control/room.go:78-82 | the loop keeps exactly the entries seen within two minutes |
| `Limiter.JoinLimiter.Allow` | internal/control/room.go:66-99 | admits exactly the calls of which fewer than both caps were admitted in their minute, while no window comes back; a remote address without host is refused unchanged |
| `Limiter.JoinLimiter.Keeps` | internal/control/room.go:53-99 | the bounds for the calls of any limiter object |
| `Locks.SortedUnique` | internal/db/postgres.go:472-485 | compacting the sorted copy in place gives each string once, in order |
| `Text.LessMeans` | internal/db/postgres.go:472-485 | one string is before another when it is a proper prefix or smaller at the first place where they differ |
| `Locks.PlansClimb` | internal/db/postgres.go:400-932 | every mutation, and the composite enrolment, asks for nodes in ascending order, then networks, then the assignment row, re-asking only for rows it holds, whatever it reads on the way |
| `Coverage.PlansCoverChanges` | internal/db/postgres.go:400-932 | the rows a mutation locks cover what it changes: networks and the members and assignments in them by the network row, members and endpoints by the node row, and a removed node by its own |
| `Locks.RunKeeps` | internal/db/postgres.go:432-458 | over any interleaving of arrivals, acquisitions, commits and aborts, owners hold exactly what they took |
| `Locks.NoDeadlock` | internal/db/postgres.go:400-932 | in no reachable state is there a cycle of transactions waiting for each other |
| `Locks.SomeoneMoves` | internal/db/postgres.go:400-932 | while a transaction is open, one can take its next row or commit |
| `Locks.AllComplete` | internal/db/postgres.go:400-932 | from every such state all open transactions can be run to commit |
| `EndToEnd.SnapshotsArePlannable` | internal/db/repository.go:800-885 | every snapshot of a well-formed repository with canonical keys is accepted by plan |
| `EndToEnd.ReachableSnapshotsAreAccepted` | internal/reconcile/snapshot.go:74-114 | whatever run built the repository, its snapshots name their network, are plannable and carry a positive generation |
| `EndToEnd.Deliver` | internal/reconcile/snapshot.go:74-130 | applying what a reachable repository builds is stale, skipped or decided by the calls that fail; it never fails as invalid unless the adapter reports no interface, it succeeds where no call fails, and success puts it in force |
| `EndToEnd.InForceFitsDriver` | internal/wgnt/adapter_windows.go:334-491 | the configuration in force for a plannable snapshot with zone-free endpoints can always be written for the driver, and reading it back recovers every peer if and only if there are fewer than 2^32 |
| `EndToEnd.ReachesActiveMembers` | internal/reconcile/snapshot.go:170-217 | once a snapshot is in force the data plane reaches exactly the other active members of the network, each through one route and one peer with its key: all of them and nobody else |
| `EndToEnd.SkippingIsSound` | internal/reconcile/snapshot.go:86-91 | why a generation may be skipped: over any run, if the snapshot built earlier is in force and a later state shows the same generation, then what the later state builds at the same time of reading is in force already |

## Left out

- HTTP routing, JSON, WebSockets, IPC, the control client and status codes: plumbing around the modelled calls.
- SQL execution, drivers and isolation, and the limits of column types (text without NUL, the range of timestamps and their precision of microseconds, so that dates closer than that meet the checks as equal): statements run atomically on tables, and only explicit row locks are modelled, not those of foreign keys, cascades or uncontended updates.
- Windows and Linux system calls, and `internal/relay/routes_linux.go`, whose rollback does not restore deleted stale routes.
- Cryptography: hashes are values compared for equality, base64 decoding is a parameter of the planner, and the session store is the set of live tokens.
- Token parsing and trimming before enrolment, and the room endpoints with their coordinator (`internal/control/room.go:101-241`): straight-line code over the modelled operations.
- Endpoint lists in snapshots are sets: the order given by `sortEndpointCandidates` is not modelled, and the selection is proved not to depend on it.
- `Service` is modelled with a reconciler configured; the mode with only an adapter has no data-plane state to speak of. Error codes of the control plane are merged into one.
- `Applier`: the adapter of one interface name only.
- Limiter.SourcesAreFew: is claimed for clocks that never fall back to an earlier window only; `NoBoundBackwards` shows the bound fails without that, but how much falling back it can bear is not decided.
- Codec.ParseStatus: does not convert the handshake time, and leaves the name, LUID and link state to the caller.
- Codec.BuildConfiguration: the driver's own limit on buffer sizes is not modelled.
- Service.Service.FinishJoin: the Leave call it makes to the control plane when it fails is not modelled.
- Selector.Selector.Observe: mutual exclusion and nil receivers are not modelled.
- Locks.PlansClimb: rows locked implicitly by statements that change them are included only where the source names the row again.
- Recovery.EnrollControl: the time limit of the recovery is the moment from which readings are no longer in time.
- Memory.MemoryRepository.BuildSnapshotAt: does not tell apart the errors of a refused read.
- Nil receivers, the zero `Pool` and missing backends, which the source answers with a fixed error.
- Packaging, installers, command lines and environment configuration.
