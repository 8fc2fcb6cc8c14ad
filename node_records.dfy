/**
 * The append-only log of NodeRecord documents and the query that returns the
 * most recent ones: the store orders by descending Timestamp and takes `count`,
 * then the caller reverses the list in place so it reads oldest first.
 */
module NodeRecords {
  import opened Common

  datatype NodeRecord = NodeRecord(NodeNumber: Int32, RecordType: string, Timestamp: Time, Description: string)

  ghost predicate NewestFirst(s: seq<NodeRecord>) {
    forall i, j :: 0 <= i < j < |s| ==> s[j].Timestamp <= s[i].Timestamp
  }

  ghost predicate OldestFirst(s: seq<NodeRecord>) {
    forall i, j :: 0 <= i < j < |s| ==> s[i].Timestamp <= s[j].Timestamp
  }

  function InsertNewestFirst(r: NodeRecord, s: seq<NodeRecord>): (o: seq<NodeRecord>)
    requires NewestFirst(s)
    ensures NewestFirst(o)
    ensures |o| == |s| + 1
    ensures o[0] == r || (s != [] && o[0] == s[0])
  {
    if s == [] || s[0].Timestamp <= r.Timestamp then [r] + s
    else [s[0]] + InsertNewestFirst(r, s[1..])
  }

  lemma {:induction false} InsertMultiset(r: NodeRecord, s: seq<NodeRecord>)
    requires NewestFirst(s)
    ensures multiset(InsertNewestFirst(r, s)) == multiset(s) + multiset{r}
  {
    if s != [] && r.Timestamp < s[0].Timestamp {
      InsertMultiset(r, s[1..]);
      assert s == [s[0]] + s[1..];
    }
  }

  /** The store's OrderByDescending(x => x.Timestamp) over all records. */
  function OrderByDescending(s: seq<NodeRecord>): (o: seq<NodeRecord>)
    ensures NewestFirst(o)
    ensures |o| == |s|
  {
    if s == [] then [] else InsertNewestFirst(s[0], OrderByDescending(s[1..]))
  }

  /** Ordering the log loses and invents no record. */
  lemma {:induction false} OrderByDescendingMultiset(s: seq<NodeRecord>)
    ensures multiset(OrderByDescending(s)) == multiset(s)
  {
    if s != [] {
      var sorted := OrderByDescending(s[1..]);
      calc {
        multiset(OrderByDescending(s));
        multiset(InsertNewestFirst(s[0], sorted));
        { InsertMultiset(s[0], sorted); }
        multiset(sorted) + multiset{s[0]};
        { OrderByDescendingMultiset(s[1..]); }
        multiset(s[1..]) + multiset{s[0]};
        { assert s == [s[0]] + s[1..]; }
        multiset(s);
      }
    }
  }

  /** Take(count): the first `count` elements, none for a count of zero or less. */
  function Take(s: seq<NodeRecord>, count: int): (o: seq<NodeRecord>)
    ensures |o| == if count <= 0 then 0 else if count < |s| then count else |s|
    ensures s == o + s[|o|..]
  {
    if count <= 0 then [] else if count < |s| then s[..count] else s
  }

  /** The elements of `s` in the opposite order. */
  function Reverse(s: seq<NodeRecord>): (o: seq<NodeRecord>)
    ensures |o| == |s|
    ensures forall k :: 0 <= k < |s| ==> o[k] == s[|s| - 1 - k]
  {
    if s == [] then [] else [s[|s| - 1]] + Reverse(s[..|s| - 1])
  }

  lemma {:induction false} ReverseMultiset(s: seq<NodeRecord>)
    ensures multiset(Reverse(s)) == multiset(s)
  {
    if s != [] {
      var front := s[..|s| - 1];
      ReverseMultiset(front);
      assert s == front + [s[|s| - 1]];
    }
  }

  /** List<T>.Reverse on the array backing the result list. */
  method ReverseInPlace(a: array<NodeRecord>)
    modifies a
    ensures a[..] == Reverse(old(a[..]))
  {
    ghost var was := a[..];
    var n := a.Length;
    var lo, hi := 0, n - 1;
    while lo < hi
      invariant 0 <= lo <= hi + 1 <= n && lo + hi == n - 1
      invariant forall k :: 0 <= k < lo ==> a[k] == was[n - 1 - k]
      invariant forall k :: hi < k < n ==> a[k] == was[n - 1 - k]
      invariant forall k :: lo <= k <= hi ==> a[k] == was[k]
    {
      a[lo], a[hi] := a[hi], a[lo];
      lo, hi := lo + 1, hi - 1;
    }
    assert forall k :: 0 <= k < n ==> a[k] == was[n - 1 - k];
    assert a[..] == Reverse(was);
  }

  /** The records FetchRecentRecords returns for a log and a count. */
  function Recent(log: seq<NodeRecord>, count: int): (r: seq<NodeRecord>)
    ensures |r| <= |log|
  {
    Reverse(Take(OrderByDescending(log), count))
  }

  lemma ReverseOfNewestFirst(s: seq<NodeRecord>)
    requires NewestFirst(s)
    ensures OldestFirst(Reverse(s))
  {
    var r := Reverse(s);
    forall i, j | 0 <= i < j < |r| ensures r[i].Timestamp <= r[j].Timestamp {
      assert r[i] == s[|s| - 1 - i] && r[j] == s[|s| - 1 - j];
    }
  }

  /** In a newest-first sequence, nothing after position m is newer than anything before it. */
  lemma SuffixNoNewer(d: seq<NodeRecord>, m: nat)
    requires NewestFirst(d) && m <= |d|
    ensures forall x: NodeRecord, y: NodeRecord :: x in d[m..] && y in d[..m] ==> x.Timestamp <= y.Timestamp
  {
    forall x: NodeRecord, y: NodeRecord | x in d[m..] && y in d[..m]
      ensures x.Timestamp <= y.Timestamp
    {
      var j :| 0 <= j < |d| - m && d[m..][j] == x;
      var i :| 0 <= i < m && d[..m][i] == y;
      assert d[m + j] == x && d[i] == y;
    }
  }

  /**
   * Recent returns min(count, |log|) records of the log (none for count <= 0),
   * oldest first.
   */
  lemma RecentSizeAndOrder(log: seq<NodeRecord>, count: int)
    ensures |Recent(log, count)| == (if count <= 0 then 0 else if count < |log| then count else |log|)
    ensures OldestFirst(Recent(log, count))
    ensures multiset(Recent(log, count)) <= multiset(log)
  {
    var d := OrderByDescending(log);
    var p := Take(d, count);
    assert NewestFirst(p) by {
      assert forall i :: 0 <= i < |p| ==> p[i] == d[i];
    }
    ReverseOfNewestFirst(p);
    ReverseMultiset(p);
    OrderByDescendingMultiset(log);
    assert multiset(d) == multiset(p) + multiset(d[|p|..]);
  }

  /** Every record of the log that Recent leaves out is no newer than any it returns. */
  lemma RecentAreNewest(log: seq<NodeRecord>, count: int)
    ensures forall x: NodeRecord, y: NodeRecord ::
              x in multiset(log) - multiset(Recent(log, count)) && y in Recent(log, count)
              ==> x.Timestamp <= y.Timestamp
  {
    var d := OrderByDescending(log);
    var p := Take(d, count);
    var q := d[|p|..];
    var r := Reverse(p);
    ReverseMultiset(p);
    OrderByDescendingMultiset(log);
    assert multiset(log) - multiset(r) == multiset(q) by {
      assert multiset(d) == multiset(p) + multiset(q);
    }
    SuffixNoNewer(d, |p|);
    assert p == d[..|p|];
    forall x: NodeRecord, y: NodeRecord | x in multiset(q) && y in r
      ensures x.Timestamp <= y.Timestamp
    {
      assert y in multiset(r);
      assert y in p;
    }
  }
}
