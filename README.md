# Cluster coordination of the RavenDB message store, modelled in Dafny

This project models the cluster-coordination part of Wolverine's RavenDB
message store (`RavenDbMessageStore`), over an abstract in-memory store rather
than a RavenDB server:

- **Leadership lock** (`locking.dfy`, module `Locking`): the class
  `LeadershipLock` holds the process-local cache, `leaderLock` (the
  `DistributedLock?` this process last wrote) and `lastLockIndex` (the
  compare-exchange index it was written at). It acquires, renews, releases and
  checks leadership through one compare-exchange key that all processes share.
- **Compare-exchange store** (`compare_exchange.dfy`, module `CompareExchange`):
  the store's versioned key table as pure functions `Put` and `Delete`, plus a
  `Store` class that lock instances share, so that two processes' writes
  interleave on one key. The semantics are the store's contract, not code of
  the repository; they are stated once in the module comment.
- **Node registry** (`node_agents.dfy`, module `NodeAgents`): the class
  `NodeAgentPersistence` holds the `WolverineNode` documents (a map from node
  id to node), the `NodeRecord` log (a sequence) and the process's
  `nodeNumber` counter. It models id assignment, deletion, queries, agent add
  and remove, leader hand-off and heartbeat patches.
- **Agent lists** (`agent_lists.dfy`, module `AgentLists`): `Fill` (append
  unless present) and `Remove` (`List<T>.Remove`, first occurrence), with a
  reference definition `Without` and the lemmas that relate them.
- **Record log queries** (`node_records.dfy`, module `NodeRecords`): the
  store's newest-first ordering, `Take`, and the in-place `Reverse` that
  returns the most recent records oldest first.
- `common.dfy` (module `Common`): GUIDs, URIs, time in ticks, the C# `int`
  range, `Option` and `Result`.

Time is an integer count of 100 ns ticks and is passed in as `now`; the lease
length is 5 minutes, that is `5 * 600_000_000` ticks. `_nodeNumber` is a C#
`int`, and its unchecked `++` wraps from `Int32Max` to `Int32Min`. The model
writes that wrap out explicitly.

Behaviour of the code that the model keeps:

- `HasLeadershipLock` treats a lock that expires exactly at `now` as still
  held, because it tests `ExpirationTime < now`.
- Nothing ever expires the compare-exchange entry. A process that acquired
  the lock and never released it blocks every other process's first acquire,
  even after its own lease has lapsed (`FirstAcquireRace`, third ensures).
- A failed acquire or renewal leaves the cached lock in place.
- `ReleaseLeadershipLock` clears the cache but keeps `lastLockIndex`.
- Assigning an agent and then removing it restores the node's list only when
  the agent was absent before. If the agent was already there, `Fill` adds
  nothing and `Remove` then deletes the existing copy (`FillThenRemove`,
  `AssignThenRemove`).
- `MarkNodeAsLeaderAsync` dereferences node `id` without a null check. When
  that node is missing, the call throws before `SaveChangesAsync`, so nothing
  is saved. The model returns `Failure` and leaves the store unchanged.
- `MarkNodeAsLeaderAsync` takes the leader marker off the original leader with
  `List.Remove`, which deletes one copy only. An original leader whose agents
  carry the marker twice stays marked, so two nodes end up marked as leader
  (`TwoLeadersAfterHandOff`). The single-leader result of `HandOffMovesMarker`
  holds only when that list has no duplicates.
- A process built over existing node documents starts its counter at 0, so
  its first ids can repeat ids already stored. `Persist` proves fresh,
  distinct ids only when every stored id came from this counter (`Numbered`).

## Model

| member | source | states |
|---|---|---|
| `CompareExchange.Put` | src/Persistence/Wolverine.RavenDb/Internals/RavenDbMessageStore.Locking.cs:32-33 | A put succeeds iff the key is absent (expected index 0) or stored at the expected index. On success the key holds the value under an index larger than every index stored before, and nothing else changes. On failure the table is unchanged. |
| `CompareExchange.Delete` | src/Persistence/Wolverine.RavenDb/Internals/RavenDbMessageStore.Locking.cs:57 | A delete succeeds iff the key is stored at the given index. It then removes exactly that key; otherwise nothing changes. |
| `CompareExchange.OnlyOneCreateSucceeds` | src/Persistence/Wolverine.RavenDb/Internals/RavenDbMessageStore.Locking.cs:32-33 | Of two successive index-0 puts on one key, at most one succeeds. On an absent key it is the first. |
| `CompareExchange.DeleteThenCreate` | src/Persistence/Wolverine.RavenDb/Internals/RavenDbMessageStore.Locking.cs:57 | After a delete whose index matched, an index-0 put on that key succeeds. |
| `CompareExchange.OccupiedKeyRefusesCreate` | src/Persistence/Wolverine.RavenDb/Internals/RavenDbMessageStore.Locking.cs:32-33 | While any value is stored under the key, an index-0 put fails, whatever the stored lock's expiration time. |
| `CompareExchange.Store.constructor` | src/Persistence/Wolverine.RavenDb/Internals/RavenDbMessageStore.Locking.cs:32 | A fresh store holds no keys. |
| `CompareExchange.Store.PutCompareExchangeValue` | src/Persistence/Wolverine.RavenDb/Internals/RavenDbMessageStore.Locking.cs:32 | The shared store's put returns the answer of `Put` and takes its new table. |
| `CompareExchange.Store.DeleteCompareExchangeValue` | src/Persistence/Wolverine.RavenDb/Internals/RavenDbMessageStore.Locking.cs:57 | The shared store's delete returns the answer of `Delete` and takes its new table. |
| `Locking.LeadershipLock.constructor` | src/Persistence/Wolverine.RavenDb/Internals/RavenDbMessageStore.Locking.cs:8-13 | A new instance has no cached lock and a last index of 0. |
| `Locking.LeadershipLock.HasLeadershipLock` | src/Persistence/Wolverine.RavenDb/Internals/RavenDbMessageStore.Locking.cs:15-20 | Always false without a cached lock. With one, true iff `now <= ExpirationTime`, so a lock expiring exactly now still counts as held. |
| `Locking.LeadershipLock.TryAttainLeadershipLock` | src/Persistence/Wolverine.RavenDb/Internals/RavenDbMessageStore.Locking.cs:22-52 | Without a cache it succeeds iff the key was absent; with one, iff the key is still at `lastLockIndex`. On success the cache holds `(UniqueNodeId, now + 5 min)` and the fresh, larger index that the store wrote it under, and the lease is held up to and including `now + 5 min` and not after. On failure the cache, the index and the store are unchanged. |
| `Locking.LeadershipLock.ReleaseLeadershipLock` | src/Persistence/Wolverine.RavenDb/Internals/RavenDbMessageStore.Locking.cs:54-59 | Without a cache nothing changes. With one, the store takes the result of a delete at `lastLockIndex`, whether or not it matched. The cache is always cleared and `lastLockIndex` is kept. If the index matched, the key is absent afterwards. |
| `Locking.FirstAcquireRace` | src/Persistence/Wolverine.RavenDb/Internals/RavenDbMessageStore.Locking.cs:30-41 | Two instances share a key and neither has a cached lock: their first acquires do not both succeed, and on an empty key the first one wins. The loser fails even after the winner's lease has lapsed. |
| `Locking.ReleaseThenAcquire` | src/Persistence/Wolverine.RavenDb/Internals/RavenDbMessageStore.Locking.cs:30-38 | After the holder releases at a matching index, another instance without a cached lock acquires, and only it reports leadership. |
| `AgentLists.Fill` | src/Persistence/Wolverine.RavenDb/Internals/RavenDbMessageStore.NodeAgents.cs:89 | The agent is present afterwards. The elements are the old ones plus the agent, and the old list is a prefix. Nothing is added if the agent was already present, so a second fill changes nothing. A list without duplicates keeps none. |
| `AgentLists.IndexOf` | src/Persistence/Wolverine.RavenDb/Internals/RavenDbMessageStore.NodeAgents.cs:75 | Returns -1 iff the agent is absent, and otherwise the first position that holds it. |
| `AgentLists.Remove` | src/Persistence/Wolverine.RavenDb/Internals/RavenDbMessageStore.NodeAgents.cs:75 | An absent agent leaves the list unchanged; a present one shortens it by one. On a list without duplicates the agent is gone afterwards and no duplicates appear. |
| `AgentLists.RemoveMultiset` | src/Persistence/Wolverine.RavenDb/Internals/RavenDbMessageStore.NodeAgents.cs:75 | Remove takes away exactly one copy of the agent if there is one, and nothing else. |
| `AgentLists.WithoutAbsent` | src/Persistence/Wolverine.RavenDb/Internals/RavenDbMessageStore.NodeAgents.cs:75 | Filtering out an agent that is absent gives back the list. |
| `AgentLists.RemovePastHead` | src/Persistence/Wolverine.RavenDb/Internals/RavenDbMessageStore.NodeAgents.cs:75 | Removing an agent that is not at the head keeps the head and removes from the tail. |
| `AgentLists.RemoveKeepsOthersInOrder` | src/Persistence/Wolverine.RavenDb/Internals/RavenDbMessageStore.NodeAgents.cs:66-77 | On a list without duplicates, Remove equals the reference filter: every other agent remains, in order. |
| `AgentLists.FillThenRemove` | src/Persistence/Wolverine.RavenDb/Internals/RavenDbMessageStore.NodeAgents.cs:66-91 | For an agent that was absent, filling and then removing it restores the list exactly. |
| `NodeRecords.InsertNewestFirst` | src/Persistence/Wolverine.RavenDb/Internals/RavenDbMessageStore.NodeAgents.cs:160 | Inserting into a newest-first sequence keeps it newest first and adds one element. |
| `NodeRecords.InsertMultiset` | src/Persistence/Wolverine.RavenDb/Internals/RavenDbMessageStore.NodeAgents.cs:160 | Insertion adds exactly the inserted record. |
| `NodeRecords.OrderByDescending` | src/Persistence/Wolverine.RavenDb/Internals/RavenDbMessageStore.NodeAgents.cs:160 | The ordering is newest first by Timestamp and has the log's length. |
| `NodeRecords.OrderByDescendingMultiset` | src/Persistence/Wolverine.RavenDb/Internals/RavenDbMessageStore.NodeAgents.cs:160 | The ordering is a permutation of the log. |
| `NodeRecords.Take` | src/Persistence/Wolverine.RavenDb/Internals/RavenDbMessageStore.NodeAgents.cs:160 | Returns a prefix of length min(count, length), or nothing for count <= 0. |
| `NodeRecords.Reverse` | src/Persistence/Wolverine.RavenDb/Internals/RavenDbMessageStore.NodeAgents.cs:161 | Element k of the result is element length-1-k of the input. |
| `NodeRecords.ReverseMultiset` | src/Persistence/Wolverine.RavenDb/Internals/RavenDbMessageStore.NodeAgents.cs:161 | Reversal is a permutation. |
| `NodeRecords.ReverseInPlace` | src/Persistence/Wolverine.RavenDb/Internals/RavenDbMessageStore.NodeAgents.cs:161 | Reversing the array in place leaves it holding the reverse of its old contents. |
| `NodeRecords.ReverseOfNewestFirst` | src/Persistence/Wolverine.RavenDb/Internals/RavenDbMessageStore.NodeAgents.cs:160-161 | Reversing a newest-first sequence gives an oldest-first one. |
| `NodeRecords.SuffixNoNewer` | src/Persistence/Wolverine.RavenDb/Internals/RavenDbMessageStore.NodeAgents.cs:160 | In a newest-first sequence, nothing after a cut point is newer than anything before it. |
| `NodeRecords.Recent` | src/Persistence/Wolverine.RavenDb/Internals/RavenDbMessageStore.NodeAgents.cs:160-161 | The query: newest first, take `count`, reverse. Its own contract says only that it returns no more records than the log holds; its size, order and recency are stated by `RecentSizeAndOrder` and `RecentAreNewest`. |
| `NodeRecords.RecentSizeAndOrder` | src/Persistence/Wolverine.RavenDb/Internals/RavenDbMessageStore.NodeAgents.cs:157-163 | The recent records number min(count, log length), or none for count <= 0. They are oldest first and drawn from the log. |
| `NodeRecords.RecentAreNewest` | src/Persistence/Wolverine.RavenDb/Internals/RavenDbMessageStore.NodeAgents.cs:157-163 | Every log record left out is no newer than any returned record. |
| `NodeAgents.SameIdsKeepNumbering` | src/Persistence/Wolverine.RavenDb/Internals/RavenDbMessageStore.NodeAgents.cs:22-33 | Changes that delete nodes or keep every assigned id keep the ids distinct and within the counter. |
| `NodeAgents.Unmarked` | src/Persistence/Wolverine.RavenDb/Internals/RavenDbMessageStore.NodeAgents.cs:98-104 | Taking the marker off the original leader keeps the set of stored nodes. |
| `NodeAgents.HandOff` | src/Persistence/Wolverine.RavenDb/Internals/RavenDbMessageStore.NodeAgents.cs:98-112 | The saved documents have the same ids. Only ActiveAgents may differ, and only on the original and the new leader. |
| `NodeAgents.HandOffMovesMarker` | src/Persistence/Wolverine.RavenDb/Internals/RavenDbMessageStore.NodeAgents.cs:98-112 | The new leader carries the marker. A different original leader loses it if its list had no duplicates. If at most the original leader was marked before and its list had no duplicates (`ReadyForHandOff`), only the new leader is marked after. |
| `NodeAgents.TwoLeadersAfterHandOff` | src/Persistence/Wolverine.RavenDb/Internals/RavenDbMessageStore.NodeAgents.cs:102 | An original leader whose agents carry the marker twice is still marked after the hand-off, so two nodes are marked. |
| `NodeAgents.NodeAgentPersistence.constructor` | src/Persistence/Wolverine.RavenDb/Internals/RavenDbMessageStore.NodeAgents.cs:22 | A process starts with the store's documents and a counter of 0. |
| `NodeAgents.NodeAgentPersistence.ClearAll` | src/Persistence/Wolverine.RavenDb/Internals/RavenDbMessageStore.NodeAgents.cs:9-20 | Afterwards no node document is left. The record log and the counter are untouched. |
| `NodeAgents.NodeAgentPersistence.Persist` | src/Persistence/Wolverine.RavenDb/Internals/RavenDbMessageStore.NodeAgents.cs:22-33 | Returns the old counter + 1 (with int wrap-around) and stores the node under its id with that AssignedNodeId. Below `Int32Max`, and when every stored id came from this counter (`Numbered`), the id exceeds every stored one and the ids stay distinct. |
| `NodeAgents.Increment` | src/Persistence/Wolverine.RavenDb/Internals/RavenDbMessageStore.NodeAgents.cs:25 | The counter's unchecked `++`: the result is the old value plus one modulo 2^32 in the int range, and larger than the old value below `Int32Max`. |
| `NodeAgents.NodeAgentPersistence.Delete` | src/Persistence/Wolverine.RavenDb/Internals/RavenDbMessageStore.NodeAgents.cs:35-40 | Exactly that node is gone and every other node is unchanged. |
| `NodeAgents.NodeAgentPersistence.LoadAllNodes` | src/Persistence/Wolverine.RavenDb/Internals/RavenDbMessageStore.NodeAgents.cs:42-50 | Returns every stored node exactly once, as stored. |
| `NodeAgents.NodeAgentPersistence.LoadNode` | src/Persistence/Wolverine.RavenDb/Internals/RavenDbMessageStore.NodeAgents.cs:115-119 | Returns the node stored under the id, carrying that id, or nothing. |
| `NodeAgents.NodeAgentPersistence.RemoveAssignment` | src/Persistence/Wolverine.RavenDb/Internals/RavenDbMessageStore.NodeAgents.cs:66-78 | On a stored node only its agents change, by List.Remove. Without duplicates the agent is gone and the others stay in order. A missing node changes nothing. |
| `NodeAgents.NodeAgentPersistence.AddAssignment` | src/Persistence/Wolverine.RavenDb/Internals/RavenDbMessageStore.NodeAgents.cs:80-92 | On a stored node only its agents change, by Fill, and the agent is present afterwards. A missing node changes nothing. |
| `NodeAgents.NodeAgentPersistence.MarkNodeAsLeader` | src/Persistence/Wolverine.RavenDb/Internals/RavenDbMessageStore.NodeAgents.cs:94-113 | A missing node `id` gives a failure and no change. Otherwise the call returns `id` and saves `HandOff`: the marker is on `id`, and if only the original leader was marked before and its list had no duplicates, only `id` is marked now. |
| `NodeAgents.NodeAgentPersistence.PatchLastHealthCheck` | src/Persistence/Wolverine.RavenDb/Internals/RavenDbMessageStore.NodeAgents.cs:124 | Only LastHealthCheck of that node changes. ActiveAgents and AssignedNodeId are untouched everywhere. |
| `NodeAgents.NodeAgentPersistence.MarkHealthCheck` | src/Persistence/Wolverine.RavenDb/Internals/RavenDbMessageStore.NodeAgents.cs:121-126 | Only the node's LastHealthCheck changes, to `now`. |
| `NodeAgents.NodeAgentPersistence.OverwriteHealthCheckTime` | src/Persistence/Wolverine.RavenDb/Internals/RavenDbMessageStore.NodeAgents.cs:128-133 | Only the node's LastHealthCheck changes, to the given time. |
| `NodeAgents.NodeAgentPersistence.LoadAllNodeAssignedIds` | src/Persistence/Wolverine.RavenDb/Internals/RavenDbMessageStore.NodeAgents.cs:135-144 | Returns one AssignedNodeId per stored node: a list of all stored nodes, each exactly once, projected position by position, so each id occurs as often as nodes carry it. There are no duplicates while ids are numbered. |
| `NodeAgents.NodeAgentPersistence.LogRecords` | src/Persistence/Wolverine.RavenDb/Internals/RavenDbMessageStore.NodeAgents.cs:146-155 | The log grows by exactly the batch, in order; the nodes are untouched. |
| `NodeAgents.NodeAgentPersistence.FetchRecentRecords` | src/Persistence/Wolverine.RavenDb/Internals/RavenDbMessageStore.NodeAgents.cs:157-163 | Returns min(count, log length) records (none for count <= 0), oldest first, drawn from the log. Every record left out is no newer than any returned. |
| `NodeAgents.SuccessivePersists` | src/Persistence/Wolverine.RavenDb/Internals/RavenDbMessageStore.NodeAgents.cs:25 | Below `Int32Max - 1`, two successive registrations on one process get increasing, hence distinct, ids. |
| `NodeAgents.AssignThenRemove` | src/Persistence/Wolverine.RavenDb/Internals/RavenDbMessageStore.NodeAgents.cs:66-92 | Adding an agent the node does not hold and then removing it leaves all documents as they were. |

## Left out

- RavenDB client machinery is not modelled: sessions, batching in
  `SaveChangesAsync`, index staleness and `WaitForNonStaleResults`, LINQ and
  `Patch`. Each operation reads and writes the abstract documents directly,
  and its changes become visible at once. In particular `ClearAllAsync` sees
  every stored node; its query does not wait for non-stale results.
- The compare-exchange semantics are the store's contract and are taken as
  assumptions.
- Cancellation tokens, async/await and interleaving between processes are not
  modelled, except for the two-instance race in `Locking.FirstAcquireRace`.
  The node registry is modelled for a single writer.
- The clock `DateTimeOffset.UtcNow` becomes a `now` parameter. Overflow of
  `AddMinutes` near `DateTimeOffset.MaxValue` is not modelled.
- `_lastLockIndex` is a `long`; the model uses an unbounded natural number.
- `_scheduledLockId` and `_runtime` are not modelled. The runtime supplies
  only `UniqueNodeId`, which is a constructor argument here.
- `AssignAgentsAsync` is not modelled, because `WolverineNode.AssignAgents`
  is not part of this model.
- Add or remove on a missing node builds a node in memory that is never
  stored. The model treats this as no change to the store.
- Patching the heartbeat of a missing document is taken to change nothing.
- `Fill` is JasperFx.Core's extension, which is not part of this model. It is
  taken to mean "append if not already contained".
- `WolverineNode` keeps only NodeId, AssignedNodeId, ActiveAgents and
  LastHealthCheck. Its other fields play no part in these operations.
- `NodeRecord` keeps NodeNumber, RecordType (as text), Timestamp and
  Description. Its document id is not modelled.
- The document id of a node is taken to be its NodeId, which is the id that
  every load, delete and patch uses.
- `NodeAgentController.LeaderUri` is not part of this model. Its value is
  taken as the constant `"wolverine://leader"`, and only its equality matters.
- A `null` original leader in `MarkNodeAsLeaderAsync` is taken to load
  nothing.
- Which of several records with the same Timestamp the store's
  `OrderByDescending` puts first is unspecified. The model fixes one order.
  Only the timestamps' order and the record multiset are promised.
- A `count` of zero or less is taken to return no records.
- `AgentLists.Fill`, `AgentLists.Remove`: agent URIs are compared as text.
  `System.Uri.Equals` ignores case in the scheme and host and ignores the
  fragment, so two URIs the code treats as one agent can be two agents here.
- `NodeAgents.NodeAgentPersistence.Persist`: store calls never fail in the
  model. In the code the counter is incremented before the save, so a failed
  save still uses up a number; the model does not capture that, nor store
  unavailability as a failure of any operation.
- `NodeAgents.NodeAgentPersistence.Persist`: the code writes AssignedNodeId
  into the caller's own node object. The model stores a copy with that id and
  returns the id; the caller's object is not modelled, nor is aliasing with it.
