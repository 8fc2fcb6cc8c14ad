/**
 * Node-agent persistence of the RavenDB message store: the WolverineNode
 * documents keyed by node id, the NodeRecord log, and this process's
 * `nodeNumber` counter used to hand out assigned node ids. Each operation opens
 * a session, stages its changes and saves them at the end; the model computes
 * the staged state and assigns it to the store's fields in one step.
 */
module NodeAgents {
  import opened Common
  import AgentLists
  import opened NodeRecords

  /** NodeAgentController.LeaderUri: the reserved agent that marks the leader. */
  const LeaderUri: Uri := "wolverine://leader"

  datatype WolverineNode = WolverineNode(
    NodeId: Guid,
    AssignedNodeId: Int32,
    ActiveAgents: seq<Uri>,
    LastHealthCheck: Time)

  /** C#'s unchecked `++` on an int. */
  function Increment(n: Int32): (r: Int32)
    ensures (r as int - Int32Min as int) % 0x1_0000_0000 == (n as int + 1 - Int32Min as int) % 0x1_0000_0000
    ensures n < Int32Max ==> r > n
  {
    if n == Int32Max then Int32Min else n + 1
  }

  /** Assigned ids in `m` are distinct and within 1..n. */
  ghost predicate NumberedUpTo(m: map<Guid, WolverineNode>, n: Int32) {
    && 0 <= n
    && (forall id :: id in m ==> 1 <= m[id].AssignedNodeId <= n)
    && (forall a, b :: a in m && b in m && m[a].AssignedNodeId == m[b].AssignedNodeId ==> a == b)
  }

  /** The nodes of `m` whose agents include the leader marker. */
  ghost function Marked(m: map<Guid, WolverineNode>): (r: set<Guid>) {
    set id | id in m && LeaderUri in m[id].ActiveAgents
  }

  /** Changes that leave every node's assigned id where it was keep the numbering. */
  lemma SameIdsKeepNumbering(before: map<Guid, WolverineNode>, after: map<Guid, WolverineNode>, n: Int32)
    requires after.Keys <= before.Keys
    requires forall id :: id in after ==> after[id].AssignedNodeId == before[id].AssignedNodeId
    ensures NumberedUpTo(before, n) ==> NumberedUpTo(after, n)
  {
  }

  /** The original leader's agents without the marker, when that node is stored. */
  function Unmarked(m: map<Guid, WolverineNode>, orig: Option<Guid>): (r: map<Guid, WolverineNode>)
    ensures r.Keys == m.Keys
  {
    if orig.Some? && orig.value in m
    then m[orig.value := m[orig.value].(ActiveAgents := AgentLists.Remove(m[orig.value].ActiveAgents, LeaderUri))]
    else m
  }

  /** The documents MarkNodeAsLeader saves: the marker off `orig`, then onto `id`. */
  function HandOff(m: map<Guid, WolverineNode>, orig: Option<Guid>, id: Guid): (r: map<Guid, WolverineNode>)
    requires id in m
    ensures r.Keys == m.Keys
    ensures forall k :: k in r ==> r[k] == m[k].(ActiveAgents := r[k].ActiveAgents)
    ensures forall k :: k in m && k != id && orig != Some(k) ==> r[k] == m[k]
  {
    var removed := Unmarked(m, orig);
    removed[id := removed[id].(ActiveAgents := AgentLists.Fill(removed[id].ActiveAgents, LeaderUri))]
  }

  /** Before a hand-off, at most the original leader carries the marker, and only once. */
  ghost predicate ReadyForHandOff(m: map<Guid, WolverineNode>, orig: Option<Guid>) {
    && Marked(m) <= (if orig.Some? then {orig.value} else {})
    && (orig.Some? && orig.value in m ==> NoDuplicates(m[orig.value].ActiveAgents))
  }

  /**
   * After a hand-off the new leader carries the marker; a different original
   * leader whose agents had no duplicates no longer does; and when only the
   * original leader was marked before, and its agents had no duplicates, only
   * the new leader is marked after. `TwoLeadersAfterHandOff` shows that the
   * no-duplicates condition is needed.
   */
  lemma HandOffMovesMarker(m: map<Guid, WolverineNode>, orig: Option<Guid>, id: Guid)
    requires id in m
    ensures LeaderUri in HandOff(m, orig, id)[id].ActiveAgents
    ensures orig != Some(id) ==>
              HandOff(m, orig, id)[id].ActiveAgents == AgentLists.Fill(m[id].ActiveAgents, LeaderUri)
    ensures orig.Some? && orig.value in m && orig.value != id ==>
              HandOff(m, orig, id)[orig.value].ActiveAgents == AgentLists.Remove(m[orig.value].ActiveAgents, LeaderUri)
    ensures orig.Some? && orig.value in m && orig.value != id && NoDuplicates(m[orig.value].ActiveAgents) ==>
              LeaderUri !in HandOff(m, orig, id)[orig.value].ActiveAgents
    ensures ReadyForHandOff(m, orig) ==> Marked(HandOff(m, orig, id)) == {id}
  {
    var removed := Unmarked(m, orig);
    var after := HandOff(m, orig, id);
    if ReadyForHandOff(m, orig) {
      forall k | k in removed
        ensures LeaderUri !in removed[k].ActiveAgents
      {
        if orig.Some? && k == orig.value {
        } else {
          assert k !in Marked(m);
        }
      }
      assert id in Marked(after);
      forall k | k in after && k != id
        ensures LeaderUri !in after[k].ActiveAgents
      {
        assert after[k] == removed[k];
      }
    }
  }

  /**
   * List.Remove takes off one copy of the marker only: an original leader that
   * carries it twice stays marked, and the hand-off leaves two leaders.
   */
  lemma TwoLeadersAfterHandOff()
    ensures var orig: Guid, id: Guid := 1, 2;
            var m := map[orig := WolverineNode(orig, 1, [LeaderUri, LeaderUri], 0),
                         id := WolverineNode(id, 2, [], 0)];
            Marked(m) == {orig} && Marked(HandOff(m, Some(orig), id)) == {orig, id}
  {
    var orig: Guid, id: Guid := 1, 2;
    var m := map[orig := WolverineNode(orig, 1, [LeaderUri, LeaderUri], 0),
                 id := WolverineNode(id, 2, [], 0)];
    assert AgentLists.IndexOf([LeaderUri, LeaderUri], LeaderUri) == 0;
    assert AgentLists.Remove([LeaderUri, LeaderUri], LeaderUri) == [LeaderUri];
    assert Marked(m) == {orig} by {
      assert LeaderUri !in m[id].ActiveAgents;
    }
    var removed := m[orig := m[orig].(ActiveAgents := [LeaderUri])];
    assert Unmarked(m, Some(orig)) == removed;
    var after := removed[id := removed[id].(ActiveAgents := [LeaderUri])];
    assert HandOff(m, Some(orig), id) == after;
    assert Marked(after) == {orig, id} by {
      assert LeaderUri in after[orig].ActiveAgents && LeaderUri in after[id].ActiveAgents;
      assert after.Keys == {orig, id};
    }
  }

  class NodeAgentPersistence {
    /** The WolverineNode documents, by document id (the node's NodeId). */
    var nodes: map<Guid, WolverineNode>
    /** The NodeRecord documents, in the order they were stored. */
    var records: seq<NodeRecord>
    var nodeNumber: Int32

    /** Every node document is stored under its own NodeId. */
    ghost predicate Valid()
      reads this
    {
      forall id :: id in nodes ==> nodes[id].NodeId == id
    }

    /** Assigned ids are distinct and all were handed out by this counter. */
    ghost predicate Numbered()
      reads this
    {
      NumberedUpTo(nodes, nodeNumber)
    }

    /** The nodes whose agents include the leader marker. */
    ghost function MarkedLeaders(): set<Guid>
      reads this
    {
      Marked(nodes)
    }

    /** A process starting against the documents already in the store; its counter starts at 0. */
    constructor (existing: map<Guid, WolverineNode>, log: seq<NodeRecord>)
      requires forall id :: id in existing ==> existing[id].NodeId == id
      ensures Valid()
      ensures nodes == existing && records == log && nodeNumber == 0
      ensures existing == map[] ==> Numbered()
    {
      nodes := existing;
      records := log;
      nodeNumber := 0;
    }

    /** Deletes every node document the query returns; the record log and counter stay. */
    method ClearAll()
      requires Valid()
      modifies this
      ensures Valid()
      ensures nodes == map[]
      ensures old(Numbered()) ==> Numbered()
      ensures records == old(records) && nodeNumber == old(nodeNumber)
    {
      var all := LoadAllNodes();
      var deleted: set<Guid> := {};
      for i := 0 to |all|
        invariant forall k :: 0 <= k < i ==> all[k].NodeId in deleted
      {
        deleted := deleted + {all[i].NodeId};
      }
      nodes := nodes - deleted;
      assert forall id :: id !in nodes;
    }

    /** Gives the node the next number of this process's counter, stores it, and returns the number. */
    method Persist(node: WolverineNode) returns (assignedId: Int32)
      requires Valid()
      modifies this
      ensures Valid()
      ensures assignedId == nodeNumber
      ensures old(nodeNumber) < Int32Max ==> assignedId as int == old(nodeNumber) as int + 1
      ensures old(nodeNumber) == Int32Max ==> assignedId == Int32Min
      ensures nodes == old(nodes)[node.NodeId := node.(AssignedNodeId := assignedId)]
      ensures records == old(records)
      ensures old(Numbered()) && old(nodeNumber) < Int32Max ==> Numbered()
      ensures old(Numbered()) && old(nodeNumber) < Int32Max ==>
                forall id :: id in old(nodes) ==> old(nodes)[id].AssignedNodeId < assignedId
    {
      nodeNumber := Increment(nodeNumber);
      var stored := node.(AssignedNodeId := nodeNumber);
      nodes := nodes[node.NodeId := stored];
      if old(Numbered()) && old(nodeNumber) < Int32Max {
        forall id | id in nodes
          ensures 1 <= nodes[id].AssignedNodeId <= nodeNumber
        {
          if id != node.NodeId {
            assert id in old(nodes) && nodes[id] == old(nodes)[id];
            assert old(1 <= nodes[id].AssignedNodeId <= nodeNumber);
          }
        }
      }
      return nodeNumber;
    }

    /** Deletes the node document with this id, if there is one. */
    method Delete(nodeId: Guid)
      requires Valid()
      modifies this
      ensures Valid()
      ensures nodes == old(nodes) - {nodeId}
      ensures nodeId !in nodes && forall id :: id in nodes ==> id in old(nodes) && nodes[id] == old(nodes)[id]
      ensures records == old(records) && nodeNumber == old(nodeNumber)
      ensures old(Numbered()) ==> Numbered()
    {
      nodes := nodes - {nodeId};
    }

    /** Every stored node, each once, in the order the query yields them. */
    method LoadAllNodes() returns (all: seq<WolverineNode>)
      requires Valid()
      ensures |all| == |nodes|
      ensures forall i :: 0 <= i < |all| ==> all[i].NodeId in nodes && nodes[all[i].NodeId] == all[i]
      ensures forall id :: id in nodes ==> exists i :: 0 <= i < |all| && all[i].NodeId == id
      ensures forall i, j :: 0 <= i < j < |all| ==> all[i].NodeId != all[j].NodeId
    {
      all := [];
      var remaining := nodes.Keys;
      while remaining != {}
        invariant remaining <= nodes.Keys
        invariant |all| + |remaining| == |nodes|
        invariant forall i :: 0 <= i < |all| ==> all[i].NodeId in nodes && nodes[all[i].NodeId] == all[i]
        invariant forall i :: 0 <= i < |all| ==> all[i].NodeId !in remaining
        invariant forall id :: id in nodes && id !in remaining ==> exists i :: 0 <= i < |all| && all[i].NodeId == id
        invariant forall i, j :: 0 <= i < j < |all| ==> all[i].NodeId != all[j].NodeId
        decreases remaining
      {
        var id :| id in remaining;
        ghost var before := all;
        all := all + [nodes[id]];
        assert forall i :: 0 <= i < |before| ==> all[i] == before[i];
        assert all[|before|].NodeId == id;
        remaining := remaining - {id};
      }
    }

    function LoadNode(nodeId: Guid): (r: Option<WolverineNode>)
      reads this
      ensures r.Some? <==> nodeId in nodes
      ensures r.Some? ==> r.value == nodes[nodeId]
      ensures Valid() && r.Some? ==> r.value.NodeId == nodeId
    {
      if nodeId in nodes then Some(nodes[nodeId]) else None
    }

    /**
     * Removes the first occurrence of the agent from the node's agents. A node
     * that is not stored is built in memory only, so the store does not change.
     */
    method RemoveAssignment(nodeId: Guid, agentUri: Uri)
      requires Valid()
      modifies this
      ensures Valid()
      ensures nodeId !in old(nodes) ==> nodes == old(nodes)
      ensures nodeId in old(nodes) ==>
                nodes == old(nodes)[nodeId := old(nodes)[nodeId].(ActiveAgents := AgentLists.Remove(old(nodes)[nodeId].ActiveAgents, agentUri))]
      ensures nodeId in old(nodes) && NoDuplicates(old(nodes)[nodeId].ActiveAgents) ==>
                nodes[nodeId].ActiveAgents == AgentLists.Without(old(nodes)[nodeId].ActiveAgents, agentUri)
                && agentUri !in nodes[nodeId].ActiveAgents
      ensures records == old(records) && nodeNumber == old(nodeNumber)
      ensures old(Numbered()) ==> Numbered()
    {
      if nodeId !in nodes {
        return;
      }
      var node := nodes[nodeId];
      var agents := AgentLists.Remove(node.ActiveAgents, agentUri);
      if NoDuplicates(node.ActiveAgents) {
        AgentLists.RemoveKeepsOthersInOrder(node.ActiveAgents, agentUri);
      }
      nodes := nodes[nodeId := node.(ActiveAgents := agents)];
    }

    /**
     * Appends the agent to the node's agents unless it is already there. A node
     * that is not stored is built in memory only, so the store does not change.
     */
    method AddAssignment(nodeId: Guid, agentUri: Uri)
      requires Valid()
      modifies this
      ensures Valid()
      ensures nodeId !in old(nodes) ==> nodes == old(nodes)
      ensures nodeId in old(nodes) ==>
                nodes == old(nodes)[nodeId := old(nodes)[nodeId].(ActiveAgents := AgentLists.Fill(old(nodes)[nodeId].ActiveAgents, agentUri))]
      ensures nodeId in nodes ==> agentUri in nodes[nodeId].ActiveAgents
      ensures records == old(records) && nodeNumber == old(nodeNumber)
      ensures old(Numbered()) ==> Numbered()
    {
      if nodeId !in nodes {
        return;
      }
      var node := nodes[nodeId];
      nodes := nodes[nodeId := node.(ActiveAgents := AgentLists.Fill(node.ActiveAgents, agentUri))];
    }

    /**
     * Takes the leader marker off the original leader, if that node is stored,
     * and puts it on node `id`. Node `id` is dereferenced without a check: when
     * it is missing the call throws before saving, and nothing changes.
     */
    method MarkNodeAsLeader(originalLeader: Option<Guid>, id: Guid) returns (r: Result<Guid>)
      requires Valid()
      modifies this
      ensures Valid()
      ensures records == old(records) && nodeNumber == old(nodeNumber)
      ensures id !in old(nodes) ==> r.Failure? && nodes == old(nodes)
      ensures id in old(nodes) ==> r == Success(id) && nodes == HandOff(old(nodes), originalLeader, id)
      ensures id in old(nodes) ==> LeaderUri in nodes[id].ActiveAgents
      ensures id in old(nodes) && ReadyForHandOff(old(nodes), originalLeader) ==> MarkedLeaders() == {id}
      ensures old(Numbered()) ==> Numbered()
    {
      var pending := nodes;
      if originalLeader.Some? && originalLeader.value in pending {
        var original := pending[originalLeader.value];
        pending := pending[originalLeader.value := original.(ActiveAgents := AgentLists.Remove(original.ActiveAgents, LeaderUri))];
      }
      if id !in pending {
        return Failure("NullReferenceException");
      }
      var node := pending[id];
      pending := pending[id := node.(ActiveAgents := AgentLists.Fill(node.ActiveAgents, LeaderUri))];
      assert pending == HandOff(nodes, originalLeader, id);
      HandOffMovesMarker(nodes, originalLeader, id);
      SameIdsKeepNumbering(nodes, pending, nodeNumber);
      nodes := pending;
      return Success(id);
    }

    /** Sets LastHealthCheck of a stored node; a missing document is left alone. */
    method PatchLastHealthCheck(nodeId: Guid, time: Time)
      requires Valid()
      modifies this
      ensures Valid()
      ensures nodeId !in old(nodes) ==> nodes == old(nodes)
      ensures nodeId in old(nodes) ==> nodes == old(nodes)[nodeId := old(nodes)[nodeId].(LastHealthCheck := time)]
      ensures nodes.Keys == old(nodes).Keys
      ensures forall k :: k in nodes ==>
                nodes[k].ActiveAgents == old(nodes)[k].ActiveAgents && nodes[k].AssignedNodeId == old(nodes)[k].AssignedNodeId
      ensures records == old(records) && nodeNumber == old(nodeNumber)
      ensures old(Numbered()) ==> Numbered()
    {
      if nodeId in nodes {
        nodes := nodes[nodeId := nodes[nodeId].(LastHealthCheck := time)];
      }
    }

    /** Patches only the heartbeat field, to the caller's current time. */
    method MarkHealthCheck(nodeId: Guid, now: Time)
      requires Valid()
      modifies this
      ensures Valid()
      ensures nodeId !in old(nodes) ==> nodes == old(nodes)
      ensures nodeId in old(nodes) ==> nodes == old(nodes)[nodeId := old(nodes)[nodeId].(LastHealthCheck := now)]
      ensures forall k :: k in nodes ==>
                nodes[k].ActiveAgents == old(nodes)[k].ActiveAgents && nodes[k].AssignedNodeId == old(nodes)[k].AssignedNodeId
      ensures records == old(records) && nodeNumber == old(nodeNumber)
      ensures old(Numbered()) ==> Numbered()
    {
      PatchLastHealthCheck(nodeId, now);
    }

    /** Patches only the heartbeat field, to the given time. */
    method OverwriteHealthCheckTime(nodeId: Guid, lastHeartbeatTime: Time)
      requires Valid()
      modifies this
      ensures Valid()
      ensures nodeId !in old(nodes) ==> nodes == old(nodes)
      ensures nodeId in old(nodes) ==> nodes == old(nodes)[nodeId := old(nodes)[nodeId].(LastHealthCheck := lastHeartbeatTime)]
      ensures forall k :: k in nodes ==>
                nodes[k].ActiveAgents == old(nodes)[k].ActiveAgents && nodes[k].AssignedNodeId == old(nodes)[k].AssignedNodeId
      ensures records == old(records) && nodeNumber == old(nodeNumber)
      ensures old(Numbered()) ==> Numbered()
    {
      PatchLastHealthCheck(nodeId, lastHeartbeatTime);
    }

    /**
     * The AssignedNodeId of every stored node, one per node: `all` is the
     * node list the query runs over, and `ids` projects it position by position.
     */
    method LoadAllNodeAssignedIds() returns (ids: seq<Int32>, ghost all: seq<WolverineNode>)
      requires Valid()
      ensures |all| == |nodes|
      ensures forall i :: 0 <= i < |all| ==> all[i].NodeId in nodes && nodes[all[i].NodeId] == all[i]
      ensures forall id :: id in nodes ==> exists i :: 0 <= i < |all| && all[i].NodeId == id
      ensures forall i, j :: 0 <= i < j < |all| ==> all[i].NodeId != all[j].NodeId
      ensures |ids| == |all| && forall i :: 0 <= i < |all| ==> ids[i] == all[i].AssignedNodeId
      ensures forall id :: id in nodes ==> nodes[id].AssignedNodeId in ids
      ensures Numbered() ==> NoDuplicates(ids)
    {
      var loaded := LoadAllNodes();
      all := loaded;
      ids := seq(|loaded|, i requires 0 <= i < |loaded| => loaded[i].AssignedNodeId);
      forall id | id in nodes
        ensures nodes[id].AssignedNodeId in ids
      {
        var i :| 0 <= i < |loaded| && loaded[i].NodeId == id;
        assert ids[i] == nodes[id].AssignedNodeId;
      }
    }

    /** Stores each record of the batch; they are saved together, in order. */
    method LogRecords(batch: seq<NodeRecord>)
      modifies this
      ensures records == old(records) + batch
      ensures nodes == old(nodes) && nodeNumber == old(nodeNumber)
    {
      var pending: seq<NodeRecord> := [];
      for i := 0 to |batch|
        invariant pending == batch[..i]
      {
        pending := pending + [batch[i]];
      }
      records := records + pending;
    }

    /**
     * The `count` most recent records, oldest first: the store orders them
     * newest first and takes `count`, then the list is reversed in place.
     */
    method FetchRecentRecords(count: Int32) returns (r: seq<NodeRecord>)
      ensures r == Recent(records, count as int)
      ensures |r| == if count <= 0 then 0 else if count as int < |records| then count as int else |records|
      ensures OldestFirst(r)
      ensures multiset(r) <= multiset(records)
      ensures forall x: NodeRecord, y: NodeRecord :: x in multiset(records) - multiset(r) && y in r ==> x.Timestamp <= y.Timestamp
    {
      var list := Take(OrderByDescending(records), count as int);
      var a := new NodeRecord[|list|](i requires 0 <= i < |list| => list[i]);
      assert a[..] == list;
      ReverseInPlace(a);
      r := a[..];
      RecentSizeAndOrder(records, count as int);
      RecentAreNewest(records, count as int);
    }
  }

  /** Successive registrations on one process return increasing, hence distinct, ids. */
  method SuccessivePersists(p: NodeAgentPersistence, first: WolverineNode, second: WolverineNode)
    returns (id1: Int32, id2: Int32)
    requires p.Valid() && p.nodeNumber < Int32Max - 1
    modifies p
    ensures id1 < id2
  {
    id1 := p.Persist(first);
    id2 := p.Persist(second);
  }

  /** Assigning an agent a node does not hold and then removing it leaves the node as it was. */
  method AssignThenRemove(p: NodeAgentPersistence, nodeId: Guid, agentUri: Uri)
    requires p.Valid()
    requires nodeId in p.nodes ==> agentUri !in p.nodes[nodeId].ActiveAgents
    modifies p
    ensures p.nodes == old(p.nodes)
  {
    if nodeId in p.nodes {
      AgentLists.FillThenRemove(p.nodes[nodeId].ActiveAgents, agentUri);
    }
    p.AddAssignment(nodeId, agentUri);
    p.RemoveAssignment(nodeId, agentUri);
  }
}
