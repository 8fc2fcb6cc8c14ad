/**
 * The two list operations the node registry applies to a node's ActiveAgents:
 * JasperFx's Fill (append unless already present) and List<T>.Remove (delete
 * the first occurrence, if any).
 */
module AgentLists {
  import opened Common

  /** Appends `agent` unless the list already contains it. */
  function Fill(agents: seq<Uri>, agent: Uri): (r: seq<Uri>)
    ensures agent in r
    ensures forall x :: x in r <==> x == agent || x in agents
    ensures agents <= r && |r| <= |agents| + 1
    ensures agent in agents ==> r == agents
    ensures NoDuplicates(agents) ==> NoDuplicates(r)
  {
    if agent in agents then agents else agents + [agent]
  }

  /** List<T>.IndexOf: the first position holding `agent`, or -1. */
  function IndexOf(agents: seq<Uri>, agent: Uri): (i: int)
    ensures -1 <= i < |agents|
    ensures i == -1 <==> agent !in agents
    ensures 0 <= i ==> agents[i] == agent && agent !in agents[..i]
  {
    if |agents| == 0 then -1
    else if agents[0] == agent then 0
    else
      var j := IndexOf(agents[1..], agent);
      if j == -1 then -1
      else
        assert agents[..j + 1] == [agents[0]] + agents[1..][..j];
        j + 1
  }

  /** List<T>.Remove: deletes the first occurrence of `agent`, if any. */
  function Remove(agents: seq<Uri>, agent: Uri): (r: seq<Uri>)
    ensures agent !in agents ==> r == agents
    ensures agent in agents ==> |r| == |agents| - 1
    ensures NoDuplicates(agents) ==> NoDuplicates(r) && agent !in r
  {
    var i := IndexOf(agents, agent);
    if i < 0 then agents
    else
      var r := agents[..i] + agents[i + 1..];
      assert forall k :: 0 <= k < |r| ==> r[k] == agents[if k < i then k else k + 1];
      r
  }

  /** Remove takes away exactly one copy of `agent` when there is one, and nothing else. */
  lemma RemoveMultiset(agents: seq<Uri>, agent: Uri)
    ensures multiset(Remove(agents, agent)) == multiset(agents) - multiset{agent}
  {
    var i := IndexOf(agents, agent);
    if i >= 0 {
      assert agents == agents[..i] + [agents[i]] + agents[i + 1..];
    }
  }

  /** Reference definition: every element but `agent`, in their original order. */
  function Without(agents: seq<Uri>, agent: Uri): (r: seq<Uri>) {
    if agents == [] then []
    else (if agents[0] == agent then [] else [agents[0]]) + Without(agents[1..], agent)
  }

  lemma {:induction false} WithoutAbsent(agents: seq<Uri>, agent: Uri)
    requires agent !in agents
    ensures Without(agents, agent) == agents
  {
    if agents != [] {
      WithoutAbsent(agents[1..], agent);
    }
  }

  /** Remove past a head that differs from `agent` leaves the head in place. */
  lemma {:induction false} RemovePastHead(agents: seq<Uri>, agent: Uri)
    requires agents != [] && agents[0] != agent
    ensures Remove(agents, agent) == [agents[0]] + Remove(agents[1..], agent)
  {
    var tail := agents[1..];
    var j := IndexOf(tail, agent);
    if j == -1 {
      assert IndexOf(agents, agent) == -1;
    } else {
      assert IndexOf(agents, agent) == j + 1;
      assert agents[..j + 1] == [agents[0]] + tail[..j] by {
        assert agents == [agents[0]] + tail;
      }
      assert agents[j + 2..] == tail[j + 1..];
    }
  }

  /** On a list without duplicates, Remove keeps every other agent, in order. */
  lemma {:induction false} RemoveKeepsOthersInOrder(agents: seq<Uri>, agent: Uri)
    requires NoDuplicates(agents)
    ensures Remove(agents, agent) == Without(agents, agent)
  {
    if agents == [] {
    } else if agents[0] == agent {
      assert agent !in agents[1..];
      WithoutAbsent(agents[1..], agent);
    } else {
      assert NoDuplicates(agents[1..]);
      RemoveKeepsOthersInOrder(agents[1..], agent);
      RemovePastHead(agents, agent);
    }
  }

  /** Adding an agent that was absent and then removing it restores the list. */
  lemma FillThenRemove(agents: seq<Uri>, agent: Uri)
    requires agent !in agents
    ensures Remove(Fill(agents, agent), agent) == agents
  {
    var filled := agents + [agent];
    var i := IndexOf(filled, agent);
    assert filled[..|agents|] == agents;
    assert i == |agents|;
    assert filled[..i] == agents;
  }
}
