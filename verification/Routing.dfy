/**
 K-buckets and the routing table (internal/dht/routing.go).

 The first half defines what every operation does to the contents of a bucket and of the table as
 functions on values; the second half is the in-place code, proved to compute those functions.
 What the operations keep over whole histories is in RoutingInvariant.dfy.
 */
module Routing {
  import opened Common
  import opened NodeIds

  const NUM_BUCKETS: nat := 256

  datatype NodeContact = NodeContact(id: NodeId, address: string, lastSeen: int)

  type Bucket = seq<NodeContact>
  type Table = seq<Bucket>

  // ---------------------------------------------------------------------------------------------
  // Buckets as values
  // ---------------------------------------------------------------------------------------------

  /** The position of the first entry with this identifier, or the length of the bucket. */
  function Find(b: Bucket, id: NodeId): (i: nat)
    ensures i <= |b|
    ensures i < |b| ==> b[i].id == id
    ensures forall j :: 0 <= j < i ==> b[j].id != id
  {
    if b == [] then 0 else if b[0].id == id then 0 else 1 + Find(b[1..], id)
  }

  function Without(b: Bucket, i: nat): Bucket
    requires i < |b|
  {
    b[..i] + b[i + 1..]
  }

  function Added(b: Bucket, k: nat, c: NodeContact, now: int): Bucket {
    var i := Find(b, c.id);
    if i < |b| then Without(b, i) + [c.(lastSeen := now)]
    else if |b| < k then b + [c.(lastSeen := now)]
    else b
  }

  /** The least recently seen entry, offered for eviction when a new contact finds the bucket full. */
  function Candidate(b: Bucket, k: nat, c: NodeContact): Option<NodeContact>
    requires k >= 1
  {
    if Find(b, c.id) == |b| && |b| >= k then Some(b[0]) else None
  }

  function Evicted(b: Bucket, c: NodeContact, now: int): Bucket {
    (if |b| > 0 then b[1..] else b) + [c.(lastSeen := now)]
  }

  function MovedToTail(b: Bucket, id: NodeId, now: int): Bucket {
    var i := Find(b, id);
    if i < |b| then Without(b, i) + [b[i].(lastSeen := now)] else b
  }

  function Removed(b: Bucket, id: NodeId): Bucket {
    var i := Find(b, id);
    if i < |b| then Without(b, i) else b
  }

  // ---------------------------------------------------------------------------------------------
  // The bucket of an identifier
  // ---------------------------------------------------------------------------------------------

  function Log2(n: nat): nat {
    if n < 2 then 0 else 1 + Log2(n / 2)
  }

  lemma {:induction false} Log2Unique(n: nat, e: nat)
    requires Pow2(e) <= n < Pow2(e + 1)
    ensures Log2(n) == e
  {
    if e > 0 {
      Log2Unique(n / 2, e - 1);
    }
  }

  lemma {:induction false} Log2Bounds(n: nat)
    requires n > 0
    ensures Pow2(Log2(n)) <= n < Pow2(Log2(n) + 1)
  {
    if n >= 2 {
      Log2Bounds(n / 2);
    }
  }

  lemma {:induction false} Pow2Monotone(m: nat, n: nat)
    requires m <= n
    ensures Pow2(m) <= Pow2(n)
  {
    if m < n {
      Pow2Monotone(m, n - 1);
    }
  }

  /** The bucket of a target: the position of the highest bit of its distance (0 for self). */
  function BucketOf(self: NodeId, target: NodeId): (i: nat)
    ensures i < NUM_BUCKETS
  {
    BucketOfInRange(self, target);
    Log2(Dist(self, target))
  }

  lemma BucketOfInRange(self: NodeId, target: NodeId)
    ensures Log2(Dist(self, target)) < NUM_BUCKETS
  {
    var d := Dist(self, target);
    ValueBelowPow2(Xor(self, target));
    if d > 0 {
      Log2Bounds(d);
      if Log2(d) >= NUM_BUCKETS {
        Pow2Monotone(NUM_BUCKETS, Log2(d));
        assert false;
      }
    }
  }

  /** A bucket holds exactly the identifiers whose distance lies in [2^i, 2^(i+1)). */
  lemma BucketIsDistanceBand(self: NodeId, target: NodeId, i: nat)
    requires target != self && i < NUM_BUCKETS
    ensures BucketOf(self, target) == i <==> Pow2(i) <= Dist(self, target) < Pow2(i + 1)
  {
    DistZeroOnlyOnEqual(self, target);
    Log2Bounds(Dist(self, target));
    if Pow2(i) <= Dist(self, target) < Pow2(i + 1) {
      Log2Unique(Dist(self, target), i);
    }
  }

  /** `BucketIndex`: 255 minus the leading zeros of the distance, clamped at 0. */
  method BucketIndex(self: NodeId, target: NodeId) returns (idx: nat)
    ensures idx == BucketOf(self, target)
  {
    var dist := Distance(self, target);
    var lz := LeadingZeros(dist);
    var i := NUM_BUCKETS as int - 1 - lz;
    if i < 0 {
      i := 0;
    }
    idx := i;
    if Value(dist) > 0 {
      Log2Unique(Value(dist), idx);
    }
  }

  // ---------------------------------------------------------------------------------------------
  // Tables as values
  // ---------------------------------------------------------------------------------------------

  function EmptyTable(): (t: Table)
    ensures |t| == NUM_BUCKETS && forall i :: 0 <= i < NUM_BUCKETS ==> t[i] == []
  {
    seq(NUM_BUCKETS, _ => [])
  }

  function TableAdd(self: NodeId, k: nat, t: Table, c: NodeContact, now: int): Table
    requires |t| == NUM_BUCKETS
  {
    if c.id == self then t
    else
      var i := BucketOf(self, c.id);
      t[i := Added(t[i], k, c, now)]
  }

  function TableCandidate(self: NodeId, k: nat, t: Table, c: NodeContact): Option<NodeContact>
    requires |t| == NUM_BUCKETS && k >= 1
  {
    if c.id == self then None else Candidate(t[BucketOf(self, c.id)], k, c)
  }

  function TableEvict(t: Table, idx: int, c: NodeContact, now: int): Table
    requires |t| == NUM_BUCKETS
  {
    if 0 <= idx < NUM_BUCKETS then t[idx := Evicted(t[idx], c, now)] else t
  }

  function TableRemove(self: NodeId, t: Table, id: NodeId): Table
    requires |t| == NUM_BUCKETS
  {
    var i := BucketOf(self, id);
    t[i := Removed(t[i], id)]
  }

  function TableMarkSeen(self: NodeId, t: Table, id: NodeId, now: int): Table
    requires |t| == NUM_BUCKETS
  {
    var i := BucketOf(self, id);
    t[i := MovedToTail(t[i], id, now)]
  }

  function Flatten(t: Table): seq<NodeContact> {
    if t == [] then [] else Flatten(t[..|t| - 1]) + t[|t| - 1]
  }

  // ---------------------------------------------------------------------------------------------
  // Closest contacts
  // ---------------------------------------------------------------------------------------------

  ghost predicate Ascending(s: seq<NodeContact>, target: NodeId) {
    forall i, j :: 0 <= i < j < |s| ==> Dist(s[i].id, target) <= Dist(s[j].id, target)
  }

  ghost predicate StrictlyAscending(s: seq<NodeContact>, target: NodeId) {
    forall i, j :: 0 <= i < j < |s| ==> Dist(s[i].id, target) < Dist(s[j].id, target)
  }

  ghost predicate DistinctIds(s: seq<NodeContact>) {
    forall i, j :: 0 <= i < j < |s| ==> s[i].id != s[j].id
  }

  /** r lists the min(count, |all|) contacts nearest to the target, nearest first. */
  ghost predicate IsClosest(all: seq<NodeContact>, target: NodeId, count: nat, r: seq<NodeContact>) {
    && |r| == (if |all| > count then count else |all|)
    && StrictlyAscending(r, target)
    && (forall i :: 0 <= i < |r| ==> r[i] in all)
    && (forall c, i :: c in all && c !in r && 0 <= i < |r| ==> Dist(r[i].id, target) < Dist(c.id, target))
  }

  /** The same, with repeated contacts allowed: r holds as many, and no contact left out is nearer. */
  ghost predicate IsNearest(all: seq<NodeContact>, target: NodeId, count: nat, r: seq<NodeContact>) {
    && |r| == (if |all| > count then count else |all|)
    && Ascending(r, target)
    && multiset(r) <= multiset(all)
    && (forall c, i :: c in multiset(all) - multiset(r) && 0 <= i < |r| ==> Dist(r[i].id, target) <= Dist(c.id, target))
  }

  /** Distinct identifiers are at distinct distances, so an ascending list of them is strictly so. */
  lemma DistinctMakesStrict(s: seq<NodeContact>, target: NodeId)
    requires Ascending(s, target) && DistinctIds(s)
    ensures StrictlyAscending(s, target)
  {
    forall i, j | 0 <= i < j < |s|
      ensures Dist(s[i].id, target) < Dist(s[j].id, target)
    {
      DistInjective(s[i].id, s[j].id, target);
    }
  }

  /** Insertion into an ascending list, after every contact that is at most as far. */
  function InsertByDistance(s: seq<NodeContact>, c: NodeContact, target: NodeId): (r: seq<NodeContact>)
    ensures multiset(r) == multiset(s) + multiset{c}
  {
    if s == [] || Dist(c.id, target) < Dist(s[0].id, target) then [c] + s
    else
      assert s == [s[0]] + s[1..];
      [s[0]] + InsertByDistance(s[1..], c, target)
  }

  lemma {:induction false} InsertKeepsAscending(s: seq<NodeContact>, c: NodeContact, target: NodeId)
    requires Ascending(s, target)
    ensures Ascending(InsertByDistance(s, c, target), target)
  {
    if s != [] && Dist(c.id, target) >= Dist(s[0].id, target) {
      InsertKeepsAscending(s[1..], c, target);
      InsertIsNoNearer(s[1..], c, target, Dist(s[0].id, target));
      FirstIsNearest(s[0], InsertByDistance(s[1..], c, target), target);
    }
  }

  ghost predicate NoneNearer(s: seq<NodeContact>, target: NodeId, d: nat) {
    forall i :: 0 <= i < |s| ==> d <= Dist(s[i].id, target)
  }

  lemma FirstIsNearest(c: NodeContact, rest: seq<NodeContact>, target: NodeId)
    requires Ascending(rest, target) && NoneNearer(rest, target, Dist(c.id, target))
    ensures Ascending([c] + rest, target)
  {}

  lemma {:induction false} InsertIsNoNearer(s: seq<NodeContact>, c: NodeContact, target: NodeId, d: nat)
    requires d <= Dist(c.id, target) && NoneNearer(s, target, d)
    ensures NoneNearer(InsertByDistance(s, c, target), target, d)
  {
    if s != [] && Dist(c.id, target) >= Dist(s[0].id, target) {
      InsertIsNoNearer(s[1..], c, target, d);
      assert InsertByDistance(s, c, target) == [s[0]] + InsertByDistance(s[1..], c, target);
    }
  }

  /**
   The outcome promised by `sort.Slice` with the distance comparison: some ascending permutation.
   The order of equal distances is not promised, and callers use nothing but this contract.
   */
  method SortByDistance(s: seq<NodeContact>, target: NodeId) returns (r: seq<NodeContact>)
    ensures multiset(r) == multiset(s)
    ensures Ascending(r, target)
  {
    r := [];
    for i := 0 to |s|
      invariant multiset(r) == multiset(s[..i])
      invariant Ascending(r, target)
    {
      InsertKeepsAscending(r, s[i], target);
      r := InsertByDistance(r, s[i], target);
      assert s[..i + 1] == s[..i] + [s[i]];
    }
    assert s[..|s|] == s;
  }

  // ---------------------------------------------------------------------------------------------
  // The in-place code
  // ---------------------------------------------------------------------------------------------

  class KBucket {
    var entries: Bucket
    const k: nat

    constructor (k: nat)
      ensures this.k == k && entries == []
    {
      this.k := k;
      entries := [];
    }

    method AddOrUpdate(contact: NodeContact, now: int) returns (candidate: Option<NodeContact>)
      requires k >= 1
      modifies this
      ensures entries == Added(old(entries), k, contact, now)
      ensures candidate == Candidate(old(entries), k, contact)
    {
      for i := 0 to |entries|
        invariant entries == old(entries)
        invariant forall j :: 0 <= j < i ==> entries[j].id != contact.id
      {
        if entries[i].id == contact.id {
          entries := entries[..i] + entries[i + 1..];
          entries := entries + [contact.(lastSeen := now)];
          return None;
        }
      }
      if |entries| < k {
        entries := entries + [contact.(lastSeen := now)];
        return None;
      }
      return Some(entries[0]);
    }

    method Evict(contact: NodeContact, now: int)
      modifies this
      ensures entries == Evicted(old(entries), contact, now)
    {
      if |entries| > 0 {
        entries := entries[1..];
      }
      entries := entries + [contact.(lastSeen := now)];
    }

    method MoveToTail(id: NodeId, now: int)
      modifies this
      ensures entries == MovedToTail(old(entries), id, now)
    {
      for i := 0 to |entries|
        invariant entries == old(entries)
        invariant forall j :: 0 <= j < i ==> entries[j].id != id
      {
        if entries[i].id == id {
          var e := entries[i];
          entries := entries[..i] + entries[i + 1..];
          entries := entries + [e.(lastSeen := now)];
          return;
        }
      }
    }

    method Remove(id: NodeId)
      modifies this
      ensures entries == Removed(old(entries), id)
    {
      for i := 0 to |entries|
        invariant entries == old(entries)
        invariant forall j :: 0 <= j < i ==> entries[j].id != id
      {
        if entries[i].id == id {
          entries := entries[..i] + entries[i + 1..];
          return;
        }
      }
    }
  }

  class RoutingTable {
    const selfId: NodeId
    const k: nat
    const buckets: seq<KBucket>
    ghost var table: Table

    ghost predicate Valid()
      reads this, buckets
    {
      && k >= 1
      && |buckets| == NUM_BUCKETS == |table|
      && (forall i, j :: 0 <= i < j < NUM_BUCKETS ==> buckets[i] != buckets[j])
      && (forall i :: 0 <= i < NUM_BUCKETS ==> buckets[i].k == k && buckets[i].entries == table[i])
    }

    constructor (selfId: NodeId, k: nat)
      requires k >= 1
      ensures Valid() && this.selfId == selfId && this.k == k
      ensures table == EmptyTable()
      ensures fresh(buckets)
    {
      var bs: seq<KBucket> := [];
      for i := 0 to NUM_BUCKETS
        invariant |bs| == i && fresh(bs)
        invariant forall j, l :: 0 <= j < l < i ==> bs[j] != bs[l]
        invariant forall j :: 0 <= j < i ==> bs[j].k == k && bs[j].entries == []
      {
        var b := new KBucket(k);
        bs := bs + [b];
      }
      this.selfId := selfId;
      this.k := k;
      buckets := bs;
      table := EmptyTable();
    }

    method AddNode(contact: NodeContact, now: int) returns (candidate: Option<NodeContact>)
      requires Valid()
      modifies this, buckets
      ensures Valid()
      ensures table == TableAdd(selfId, k, old(table), contact, now)
      ensures candidate == TableCandidate(selfId, k, old(table), contact)
    {
      if contact.id == selfId {
        return None;
      }
      var idx := BucketIndex(selfId, contact.id);
      candidate := buckets[idx].AddOrUpdate(contact, now);
      table := table[idx := buckets[idx].entries];
    }

    method RemoveNode(id: NodeId)
      requires Valid()
      modifies this, buckets
      ensures Valid()
      ensures table == TableRemove(selfId, old(table), id)
    {
      var idx := BucketIndex(selfId, id);
      buckets[idx].Remove(id);
      table := table[idx := buckets[idx].entries];
    }

    method EvictAndReplace(bucketIdx: int, contact: NodeContact, now: int)
      requires Valid()
      modifies this, buckets
      ensures Valid()
      ensures table == TableEvict(old(table), bucketIdx, contact, now)
    {
      if 0 <= bucketIdx < NUM_BUCKETS {
        buckets[bucketIdx].Evict(contact, now);
        table := table[bucketIdx := buckets[bucketIdx].entries];
      }
    }

    method MarkSeen(id: NodeId, now: int)
      requires Valid()
      modifies this, buckets
      ensures Valid()
      ensures table == TableMarkSeen(selfId, old(table), id, now)
    {
      var idx := BucketIndex(selfId, id);
      buckets[idx].MoveToTail(id, now);
      table := table[idx := buckets[idx].entries];
    }

    /** `FindClosest`: collect every bucket, sort by distance, keep the first `count`. */
    method FindClosest(target: NodeId, count: nat) returns (r: seq<NodeContact>)
      requires Valid()
      ensures IsNearest(Flatten(table), target, count, r)
      ensures DistinctIds(Flatten(table)) ==> IsClosest(Flatten(table), target, count, r)
    {
      var all: seq<NodeContact> := [];
      for i := 0 to NUM_BUCKETS
        invariant all == Flatten(table[..i])
      {
        assert table[..i + 1][..i] == table[..i];
        all := all + buckets[i].entries;
      }
      assert table[..NUM_BUCKETS] == table;
      var sorted := SortByDistance(all, target);
      assert sorted[..|sorted|] == sorted;
      SortedPrefixIsNearest(all, sorted, target, count, if |sorted| > count then count else |sorted|);
      if DistinctIds(all) {
        SortedPrefixIsClosest(all, sorted, target, count);
      }
      r := if |sorted| > count then sorted[..count] else sorted;
    }
  }

  // ---------------------------------------------------------------------------------------------
  // Sorting and cutting gives the closest contacts, whatever the order of ties
  // ---------------------------------------------------------------------------------------------

  /** A permutation of a list with distinct identifiers has distinct identifiers. */
  lemma PermutationKeepsDistinct(a: seq<NodeContact>, b: seq<NodeContact>)
    requires multiset(a) == multiset(b) && DistinctIds(a)
    ensures DistinctIds(b) && |a| == |b|
  {
    assert |multiset(a)| == |multiset(b)|;
    forall i, j | 0 <= i < j < |b|
      ensures b[i].id != b[j].id
    {
      if b[i].id == b[j].id {
        DistinctMeansOnce(a);
        assert b[i] in multiset(a) && b[j] in multiset(a);
        assert b[i] == b[j];
        TwoPlacesCountTwice(b, i, j);
        assert false;
      }
    }
  }

  lemma {:induction false} DistinctMeansOnce(a: seq<NodeContact>)
    requires DistinctIds(a)
    ensures forall x, y :: x in a && y in a && x.id == y.id ==> x == y
    ensures forall x :: x in a ==> multiset(a)[x] == 1
  {
    if a != [] {
      DistinctMeansOnce(a[1..]);
      assert a == [a[0]] + a[1..];
      assert a[0] !in a[1..];
    }
  }

  lemma SortedPrefixIsNearest(all: seq<NodeContact>, sorted: seq<NodeContact>, target: NodeId, count: nat, n: nat)
    requires multiset(all) == multiset(sorted) && Ascending(sorted, target)
    requires n == if |sorted| > count then count else |sorted|
    ensures IsNearest(all, target, count, sorted[..n])
  {
    var r, rest := sorted[..n], sorted[n..];
    PrefixAndRest(all, sorted, n);
    forall c: NodeContact, i: int | c in multiset(rest) && 0 <= i < n
      ensures Dist(r[i].id, target) <= Dist(c.id, target)
    {
      RestIsFarther(sorted, target, n, c, i);
    }
  }

  lemma PrefixAndRest(all: seq<NodeContact>, sorted: seq<NodeContact>, n: nat)
    requires multiset(all) == multiset(sorted) && n <= |sorted|
    ensures |all| == |sorted| && multiset(sorted[..n]) <= multiset(all)
    ensures multiset(all) - multiset(sorted[..n]) == multiset(sorted[n..])
  {
    assert |multiset(all)| == |multiset(sorted)|;
    assert sorted == sorted[..n] + sorted[n..];
    assert multiset(sorted) == multiset(sorted[..n]) + multiset(sorted[n..]);
  }

  lemma RestIsFarther(sorted: seq<NodeContact>, target: NodeId, n: nat, c: NodeContact, i: nat)
    requires Ascending(sorted, target) && i < n <= |sorted| && c in multiset(sorted[n..])
    ensures Dist(sorted[i].id, target) <= Dist(c.id, target)
  {}

  lemma SortedPrefixIsClosest(all: seq<NodeContact>, sorted: seq<NodeContact>, target: NodeId, count: nat)
    requires multiset(all) == multiset(sorted) && Ascending(sorted, target) && DistinctIds(all)
    ensures IsClosest(all, target, count, if |sorted| > count then sorted[..count] else sorted)
  {
    PermutationKeepsDistinct(all, sorted);
    DistinctMakesStrict(sorted, target);
    var r := if |sorted| > count then sorted[..count] else sorted;
    forall c | c in all
      ensures c in sorted
    {
      assert c in multiset(all);
    }
    forall i | 0 <= i < |r|
      ensures r[i] in all
    {
      assert sorted[i] in multiset(sorted);
    }
  }

  ghost predicate SameContacts(a: seq<NodeContact>, b: seq<NodeContact>) {
    forall c :: c in a <==> c in b
  }

  ghost function ContactSet(s: seq<NodeContact>): (r: set<NodeContact>)
    ensures forall c :: c in r <==> c in s
  {
    set c | c in s
  }

  lemma {:induction false} DistinctCardinality(s: seq<NodeContact>)
    requires DistinctIds(s)
    ensures |ContactSet(s)| == |s|
  {
    if s != [] {
      DistinctCardinality(s[1..]);
      assert ContactSet(s) == {s[0]} + ContactSet(s[1..]);
    }
  }

  lemma StrictlyAscendingIsDistinct(s: seq<NodeContact>, target: NodeId)
    requires StrictlyAscending(s, target)
    ensures DistinctIds(s)
  {}

  lemma TailContacts(s: seq<NodeContact>)
    requires s != [] && DistinctIds(s)
    ensures forall c :: c in s[1..] <==> c in s && c != s[0]
  {}

  lemma {:induction false} AscendingListsOfOneSetAgree(r: seq<NodeContact>, s: seq<NodeContact>, target: NodeId)
    requires StrictlyAscending(r, target) && StrictlyAscending(s, target)
    requires SameContacts(r, s)
    ensures r == s
  {
    assert r != [] ==> r[0] in s;
    assert s != [] ==> s[0] in r;
    if r != [] {
      assert r[0] == s[0];
      TailContacts(r);
      TailContacts(s);
      AscendingListsOfOneSetAgree(r[1..], s[1..], target);
    }
  }

  /**
   The answer is a function of the set of contacts alone: not of the order of the buckets or of the
   entries in them, nor of how the sort treats ties.
   */
  lemma ClosestIsUnique(all: seq<NodeContact>, other: seq<NodeContact>, target: NodeId, count: nat,
                        r: seq<NodeContact>, s: seq<NodeContact>)
    requires DistinctIds(all) && DistinctIds(other) && SameContacts(all, other)
    requires IsClosest(all, target, count, r) && IsClosest(other, target, count, s)
    ensures r == s
  {
    assert ContactSet(all) == ContactSet(other);
    DistinctCardinality(all);
    DistinctCardinality(other);
    StrictlyAscendingIsDistinct(r, target);
    StrictlyAscendingIsDistinct(s, target);
    DistinctCardinality(r);
    DistinctCardinality(s);
    if ContactSet(r) != ContactSet(s) {
      var x := PickDifference(ContactSet(r), ContactSet(s));
      var y := PickDifference(ContactSet(s), ContactSet(r));
      NearerThanOmitted(all, target, count, r, x, y);
      NearerThanOmitted(other, target, count, s, y, x);
      assert false;
    }
    assert forall c :: c in r <==> c in ContactSet(r);
    assert forall c :: c in s <==> c in ContactSet(s);
    AscendingListsOfOneSetAgree(r, s, target);
  }

  lemma NearerThanOmitted(all: seq<NodeContact>, target: NodeId, count: nat, r: seq<NodeContact>,
                          kept: NodeContact, omitted: NodeContact)
    requires IsClosest(all, target, count, r)
    requires kept in r && omitted in all && omitted !in r
    ensures Dist(kept.id, target) < Dist(omitted.id, target)
  {}

  lemma PickDifference<T>(a: set<T>, b: set<T>) returns (x: T)
    requires |a| == |b| && a != b
    ensures x in a && x !in b
  {
    if a <= b {
      SubsetOfSameSizeIsEqual(a, b);
      assert false;
    }
    x :| x in a && x !in b;
  }

  lemma SubsetOfSameSizeIsEqual<T>(a: set<T>, b: set<T>)
    requires a <= b && |a| == |b|
    ensures a == b
  {
    assert b == a + (b - a);
    assert |b| == |a| + |b - a|;
  }
}
