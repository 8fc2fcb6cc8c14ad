/**
 * The leadership lock of the RavenDB message store: a per-process cache of the
 * lock this process last wrote (`leaderLock`) and the compare-exchange index it
 * was written at (`lastLockIndex`), on top of one compare-exchange key shared by
 * every process of the cluster.
 */
module Locking {
  import opened Common
  import CompareExchange

  /** DateTimeOffset.AddMinutes(5): how long a freshly written lock lasts. */
  const LeaseDuration: Time := 5 * TicksPerMinute

  /** The value stored under the lock key. */
  datatype DistributedLock = DistributedLock(NodeId: Guid, ExpirationTime: Time)

  class LeadershipLock {
    /** The store shared with the other processes. */
    const store: CompareExchange.Store<DistributedLock>
    const leaderLockId: string
    /** The runtime's UniqueNodeId, written into every lock this process takes. */
    const uniqueNodeId: Guid

    var leaderLock: Option<DistributedLock>
    var lastLockIndex: nat

    constructor (store: CompareExchange.Store<DistributedLock>, leaderLockId: string, uniqueNodeId: Guid)
      ensures this.store == store && this.leaderLockId == leaderLockId && this.uniqueNodeId == uniqueNodeId
      ensures leaderLock == None && lastLockIndex == 0
    {
      this.store := store;
      this.leaderLockId := leaderLockId;
      this.uniqueNodeId := uniqueNodeId;
      leaderLock := None;
      lastLockIndex := 0;
    }

    /** Consults only the cache: a lock expiring exactly at `now` still counts as held. */
    function HasLeadershipLock(now: Time): (held: bool)
      reads this
      ensures leaderLock.None? ==> !held
      ensures leaderLock.Some? ==> (held <==> now <= leaderLock.value.ExpirationTime)
    {
      if leaderLock.None? then false
      else if leaderLock.value.ExpirationTime < now then false
      else true
    }

    /**
     * Without a cached lock, writes a new lock only if the key is absent; with
     * one, only if the key is still at the index this process last wrote. On
     * success the new lock and its index are cached; on failure nothing changes.
     */
    method TryAttainLeadershipLock(now: Time) returns (ok: bool)
      requires store.table.Valid()
      modifies this, store
      ensures store.table.Valid()
      ensures old(leaderLock).None? ==> (ok <==> leaderLockId !in old(store.table.entries))
      ensures old(leaderLock).Some? ==>
                (ok <==> CompareExchange.Accepts(old(store.table), leaderLockId, old(lastLockIndex)))
      ensures ok ==> leaderLock == Some(DistributedLock(uniqueNodeId, now + LeaseDuration))
      ensures ok ==> store.table.entries
                       == old(store.table.entries)[leaderLockId := CompareExchange.Entry(leaderLock.value, lastLockIndex)]
      ensures ok ==> forall k :: k in old(store.table.entries) ==> old(store.table.entries[k].index) < lastLockIndex
      ensures ok ==> HasLeadershipLock(now + LeaseDuration) && !HasLeadershipLock(now + LeaseDuration + 1)
      ensures !ok ==> leaderLock == old(leaderLock) && lastLockIndex == old(lastLockIndex)
                      && store.table == old(store.table)
    {
      var newLock := DistributedLock(uniqueNodeId, now + LeaseDuration);

      if leaderLock.None? {
        var result := store.PutCompareExchangeValue(leaderLockId, newLock, 0);
        if result.successful {
          leaderLock := Some(newLock);
          lastLockIndex := result.index;
          return true;
        }
        return false;
      }

      var result2 := store.PutCompareExchangeValue(leaderLockId, newLock, lastLockIndex);
      if result2.successful {
        leaderLock := Some(newLock);
        lastLockIndex := result2.index;
        return true;
      }
      return false;
    }

    /**
     * With a cached lock, deletes the key at the cached index, ignores whether
     * that worked, and forgets the lock (the index is kept).
     */
    method ReleaseLeadershipLock()
      requires store.table.Valid()
      modifies this, store
      ensures store.table.Valid()
      ensures leaderLock == None && lastLockIndex == old(lastLockIndex)
      ensures old(leaderLock).None? ==> store.table == old(store.table)
      ensures old(leaderLock).Some? ==>
                store.table == CompareExchange.Delete(old(store.table), leaderLockId, old(lastLockIndex)).1
      ensures old(leaderLock).Some? && leaderLockId in old(store.table.entries)
              && old(store.table.entries[leaderLockId].index) == old(lastLockIndex)
              ==> leaderLockId !in store.table.entries
    {
      if leaderLock.None? {
        return;
      }
      var _ := store.DeleteCompareExchangeValue(leaderLockId, lastLockIndex);
      leaderLock := None;
    }
  }

  /**
   * Two processes share the lock key and neither has a cached lock: at most one
   * of their first acquires succeeds, whatever the clocks say; on an empty key
   * the first one does. The store never expires the entry, so the loser keeps
   * failing even after the winner's lease has lapsed.
   */
  method FirstAcquireRace(a: LeadershipLock, b: LeadershipLock, nowA: Time, nowB: Time)
    returns (okA: bool, okB: bool)
    requires a != b && a.store == b.store && a.leaderLockId == b.leaderLockId
    requires a.leaderLock.None? && b.leaderLock.None?
    requires a.store.table.Valid()
    modifies a, b, a.store
    ensures !(okA && okB)
    ensures a.leaderLockId !in old(a.store.table.entries) ==> okA && !okB
    ensures okA && nowB > nowA + LeaseDuration ==> !a.HasLeadershipLock(nowB) && !okB
  {
    okA := a.TryAttainLeadershipLock(nowA);
    okB := b.TryAttainLeadershipLock(nowB);
  }

  /**
   * A holder whose cached index still matches the store releases the lock;
   * afterwards another process without a cached lock acquires it.
   */
  method ReleaseThenAcquire(a: LeadershipLock, b: LeadershipLock, now: Time) returns (okB: bool)
    requires a != b && a.store == b.store && a.leaderLockId == b.leaderLockId
    requires a.leaderLock.Some? && b.leaderLock.None?
    requires a.store.table.Valid()
    requires a.leaderLockId in a.store.table.entries
    requires a.store.table.entries[a.leaderLockId].index == a.lastLockIndex
    modifies a, b, a.store
    ensures okB && b.HasLeadershipLock(now) && !a.HasLeadershipLock(now)
  {
    a.ReleaseLeadershipLock();
    okB := b.TryAttainLeadershipLock(now);
  }
}
