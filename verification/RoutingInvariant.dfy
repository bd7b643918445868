/**
 What every history of routing-table operations keeps (internal/dht/routing.go and `AddNode`,
 `Ping` in internal/dht/dht.go).

 Each `AddNode` (look up, ping the candidate, replace) is one step here; RoutingInterleaved.dfy splits
 it at its lock boundaries.
 */
module RoutingInvariant {
  import opened Common
  import opened NodeIds
  import opened Routing

  // ---------------------------------------------------------------------------------------------
  // The invariant
  // ---------------------------------------------------------------------------------------------

  ghost predicate Recency(b: Bucket, now: int) {
    && (forall i, j :: 0 <= i < j < |b| ==> b[i].lastSeen <= b[j].lastSeen)
    && (forall i :: 0 <= i < |b| ==> b[i].lastSeen <= now)
  }

  ghost predicate BucketInv(b: Bucket, k: nat, now: int) {
    |b| <= k && DistinctIds(b) && Recency(b, now)
  }

  ghost predicate PlacedIn(self: NodeId, b: Bucket, i: nat) {
    forall j :: 0 <= j < |b| ==> b[j].id != self && BucketOf(self, b[j].id) == i
  }

  /** Capacity, placement and self-exclusion. */
  ghost predicate Placed(self: NodeId, k: nat, t: Table) {
    && |t| == NUM_BUCKETS
    && forall i :: 0 <= i < NUM_BUCKETS ==> |t[i]| <= k && PlacedIn(self, t[i], i)
  }

  ghost predicate TableInv(self: NodeId, k: nat, t: Table, now: int) {
    && Placed(self, k, t)
    && forall i :: 0 <= i < NUM_BUCKETS ==> BucketInv(t[i], k, now)
  }

  lemma EmptyTableInv(self: NodeId, k: nat, now: int)
    ensures TableInv(self, k, EmptyTable(), now)
  {}

  // ---------------------------------------------------------------------------------------------
  // One bucket
  // ---------------------------------------------------------------------------------------------

  lemma AppendKeepsRecency(b: Bucket, c: NodeContact)
    requires Recency(b, c.lastSeen)
    ensures Recency(b + [c], c.lastSeen)
  {}

  lemma WithoutKeepsRecency(b: Bucket, i: nat, now: int)
    requires Recency(b, now) && i < |b|
    ensures Recency(Without(b, i), now)
  {}

  lemma AddedKeepsRecency(b: Bucket, k: nat, c: NodeContact, now: int)
    requires Recency(b, now)
    ensures Recency(Added(b, k, c, now), now)
  {
    var i := Find(b, c.id);
    if i < |b| {
      WithoutKeepsRecency(b, i, now);
      AppendKeepsRecency(Without(b, i), c.(lastSeen := now));
    } else if |b| < k {
      AppendKeepsRecency(b, c.(lastSeen := now));
    }
  }

  lemma MovedKeepsRecency(b: Bucket, id: NodeId, now: int)
    requires Recency(b, now)
    ensures Recency(MovedToTail(b, id, now), now)
  {
    var i := Find(b, id);
    if i < |b| {
      WithoutKeepsRecency(b, i, now);
      AppendKeepsRecency(Without(b, i), b[i].(lastSeen := now));
    }
  }

  lemma RemovedKeepsRecency(b: Bucket, id: NodeId, now: int)
    requires Recency(b, now)
    ensures Recency(Removed(b, id), now)
  {
    var i := Find(b, id);
    if i < |b| {
      WithoutKeepsRecency(b, i, now);
    }
  }

  lemma EvictedKeepsRecency(b: Bucket, c: NodeContact, now: int)
    requires Recency(b, now)
    ensures Recency(Evicted(b, c, now), now)
  {
    if |b| > 0 {
      WithoutKeepsRecency(b, 0, now);
      assert Without(b, 0) == b[1..];
      AppendKeepsRecency(b[1..], c.(lastSeen := now));
    }
  }

  lemma AppendKeepsDistinct(b: Bucket, c: NodeContact)
    requires DistinctIds(b) && forall j :: 0 <= j < |b| ==> b[j].id != c.id
    ensures DistinctIds(b + [c])
  {}

  lemma WithoutKeepsDistinct(b: Bucket, i: nat)
    requires DistinctIds(b) && i < |b|
    ensures DistinctIds(Without(b, i)) && forall j :: 0 <= j < |b| - 1 ==> Without(b, i)[j].id != b[i].id
  {}

  lemma AddedKeepsDistinct(b: Bucket, k: nat, c: NodeContact, now: int)
    requires DistinctIds(b)
    ensures DistinctIds(Added(b, k, c, now))
  {
    var i := Find(b, c.id);
    if i < |b| {
      WithoutKeepsDistinct(b, i);
      AppendKeepsDistinct(Without(b, i), c.(lastSeen := now));
    } else if |b| < k {
      AppendKeepsDistinct(b, c.(lastSeen := now));
    }
  }

  lemma MovedKeepsDistinct(b: Bucket, id: NodeId, now: int)
    requires DistinctIds(b)
    ensures DistinctIds(MovedToTail(b, id, now)) && DistinctIds(Removed(b, id))
  {
    var i := Find(b, id);
    if i < |b| {
      WithoutKeepsDistinct(b, i);
      AppendKeepsDistinct(Without(b, i), b[i].(lastSeen := now));
    }
  }

  lemma AddedKeeps(b: Bucket, k: nat, c: NodeContact, now: int)
    requires BucketInv(b, k, now)
    ensures BucketInv(Added(b, k, c, now), k, now)
  {
    AddedKeepsRecency(b, k, c, now);
    AddedKeepsDistinct(b, k, c, now);
  }

  lemma MovedKeeps(b: Bucket, k: nat, id: NodeId, now: int)
    requires BucketInv(b, k, now)
    ensures BucketInv(MovedToTail(b, id, now), k, now) && BucketInv(Removed(b, id), k, now)
  {
    MovedKeepsRecency(b, id, now);
    RemovedKeepsRecency(b, id, now);
    MovedKeepsDistinct(b, id, now);
  }

  /** Replacing the head keeps identifiers distinct exactly when the newcomer is not in the tail. */
  lemma EvictKeepsDistinctIff(b: Bucket, c: NodeContact, now: int)
    requires DistinctIds(b)
    ensures DistinctIds(Evicted(b, c, now)) <==> forall j :: 1 <= j < |b| ==> b[j].id != c.id
  {
    var e := Evicted(b, c, now);
    if |b| > 0 {
      assert forall j :: 1 <= j < |b| ==> e[j - 1] == b[j];
      if j :| 1 <= j < |b| && b[j].id == c.id {
        assert e[j - 1].id == e[|e| - 1].id;
      }
    }
  }

  lemma EvictedKeeps(b: Bucket, k: nat, c: NodeContact, now: int)
    requires BucketInv(b, k, now) && k >= 1
    requires Find(b, c.id) == |b|
    ensures BucketInv(Evicted(b, c, now), k, now)
  {
    EvictKeepsDistinctIff(b, c, now);
    EvictedKeepsRecency(b, c, now);
  }

  /** A newcomer displaces exactly the entry seen least recently, and becomes the most recent one. */
  lemma EvictReplacesLeastRecent(b: Bucket, k: nat, c: NodeContact, now: int)
    requires BucketInv(b, k, now) && k >= 1 && b != [] && Find(b, c.id) == |b|
    ensures BucketInv(Evicted(b, c, now), k, now)
    ensures BucketIds(Evicted(b, c, now)) == BucketIds(b) - {b[0].id} + {c.id}
    ensures forall j :: 0 <= j < |b| ==> b[0].lastSeen <= b[j].lastSeen
    ensures Evicted(b, c, now)[|b| - 1] == c.(lastSeen := now)
  {
    EvictedKeeps(b, k, c, now);
    EvictedIds(b, c, now);
  }

  lemma EvictedIds(b: Bucket, c: NodeContact, now: int)
    requires DistinctIds(b) && b != []
    ensures BucketIds(Evicted(b, c, now)) == BucketIds(b) - {b[0].id} + {c.id}
  {
    WithoutIds(b, 0);
    assert Without(b, 0) == b[1..];
    AppendIds(b[1..], c.(lastSeen := now));
  }

  // ---------------------------------------------------------------------------------------------
  // The whole table, atomic steps
  // ---------------------------------------------------------------------------------------------

  /** `DHT.AddNode`: add; if the bucket was full, ping its head; keep the head or replace it. */
  function DhtAdd(self: NodeId, k: nat, t: Table, c: NodeContact, alive: bool, addedAt: int, resolvedAt: int): Table
    requires |t| == NUM_BUCKETS && k >= 1
  {
    var t1 := TableAdd(self, k, t, c, addedAt);
    match TableCandidate(self, k, t, c)
    case None => t1
    case Some(head) =>
      if alive then TableAdd(self, k, t1, head, resolvedAt)
      else TableEvict(t1, BucketOf(self, c.id), c, resolvedAt)
  }

  datatype TableStep =
    | Add(contact: NodeContact, alive: bool, addedAt: int, resolvedAt: int)
    | PingAnswered(pinged: NodeContact, at: int)
    | Remove(id: NodeId)
    | MarkSeen(seen: NodeId, at: int)

  function Apply(self: NodeId, k: nat, t: Table, s: TableStep): (r: Table)
    requires |t| == NUM_BUCKETS && k >= 1
    ensures |r| == NUM_BUCKETS
  {
    match s
    case Add(c, alive, addedAt, resolvedAt) => DhtAdd(self, k, t, c, alive, addedAt, resolvedAt)
    case PingAnswered(c, at) => TableAdd(self, k, t, c, at)
    case Remove(id) => TableRemove(self, t, id)
    case MarkSeen(id, at) => TableMarkSeen(self, t, id, at)
  }

  /** The clock reading after a step, and whether the step's readings continue from `now`. */
  function ClockAfter(s: TableStep, now: int): int {
    match s
    case Add(_, _, _, resolvedAt) => resolvedAt
    case PingAnswered(_, at) => at
    case Remove(_) => now
    case MarkSeen(_, at) => at
  }

  predicate ClockOk(s: TableStep, now: int) {
    now <= ClockAfter(s, now) && (s.Add? ==> now <= s.addedAt <= s.resolvedAt)
  }

  lemma ReplaceBucket(self: NodeId, k: nat, t: Table, now: int, later: int, i: nat, b: Bucket)
    requires TableInv(self, k, t, now) && now <= later && i < NUM_BUCKETS
    requires BucketInv(b, k, later) && PlacedIn(self, b, i)
    ensures TableInv(self, k, t[i := b], later)
  {}

  lemma TimePasses(self: NodeId, k: nat, t: Table, now: int, later: int)
    requires TableInv(self, k, t, now) && now <= later
    ensures TableInv(self, k, t, later)
  {}

  lemma TableAddKeeps(self: NodeId, k: nat, t: Table, now: int, c: NodeContact, later: int)
    requires TableInv(self, k, t, now) && now <= later
    ensures TableInv(self, k, TableAdd(self, k, t, c, later), later)
  {
    TimePasses(self, k, t, now, later);
    if c.id != self {
      var i := BucketOf(self, c.id);
      AddedKeeps(t[i], k, c, later);
      ReplaceBucket(self, k, t, later, later, i, Added(t[i], k, c, later));
    }
  }

  lemma DhtAddKeeps(self: NodeId, k: nat, t: Table, now: int, c: NodeContact, alive: bool, addedAt: int,
                    resolvedAt: int)
    requires TableInv(self, k, t, now) && now <= addedAt <= resolvedAt && k >= 1
    ensures TableInv(self, k, DhtAdd(self, k, t, c, alive, addedAt, resolvedAt), resolvedAt)
  {
    TableAddKeeps(self, k, t, now, c, addedAt);
    var t1 := TableAdd(self, k, t, c, addedAt);
    TimePasses(self, k, t1, addedAt, resolvedAt);
    match TableCandidate(self, k, t, c)
    case None =>
    case Some(head) =>
      var i := BucketOf(self, c.id);
      if alive {
        TableAddKeeps(self, k, t1, addedAt, head, resolvedAt);
      } else {
        EvictedKeeps(t1[i], k, c, resolvedAt);
        ReplaceBucket(self, k, t1, resolvedAt, resolvedAt, i, Evicted(t1[i], c, resolvedAt));
      }
  }

  lemma StepKeeps(self: NodeId, k: nat, t: Table, now: int, s: TableStep)
    requires TableInv(self, k, t, now) && ClockOk(s, now) && k >= 1
    ensures TableInv(self, k, Apply(self, k, t, s), ClockAfter(s, now))
  {
    match s
    case Add(c, alive, addedAt, resolvedAt) =>
      DhtAddKeeps(self, k, t, now, c, alive, addedAt, resolvedAt);
    case PingAnswered(c, at) =>
      TableAddKeeps(self, k, t, now, c, at);
    case Remove(id) =>
      var i := BucketOf(self, id);
      MovedKeeps(t[i], k, id, now);
      ReplaceBucket(self, k, t, now, now, i, Removed(t[i], id));
    case MarkSeen(id, at) =>
      var i := BucketOf(self, id);
      TimePasses(self, k, t, now, at);
      MovedKeeps(t[i], k, id, at);
      ReplaceBucket(self, k, t, at, at, i, MovedToTail(t[i], id, at));
  }

  function Run(self: NodeId, k: nat, steps: seq<TableStep>): (t: Table)
    requires k >= 1
    ensures |t| == NUM_BUCKETS
  {
    if steps == [] then EmptyTable()
    else Apply(self, k, Run(self, k, steps[..|steps| - 1]), steps[|steps| - 1])
  }

  function ClockOfRun(steps: seq<TableStep>, start: int): int {
    if steps == [] then start
    else ClockAfter(steps[|steps| - 1], ClockOfRun(steps[..|steps| - 1], start))
  }

  predicate ClockNeverRunsBack(steps: seq<TableStep>, start: int) {
    steps == []
    || (ClockNeverRunsBack(steps[..|steps| - 1], start)
        && ClockOk(steps[|steps| - 1], ClockOfRun(steps[..|steps| - 1], start)))
  }

  /** Every reachable table satisfies the whole invariant, whatever the pings answered. */
  lemma {:induction false} EveryRunKeepsTableInv(self: NodeId, k: nat, steps: seq<TableStep>, start: int)
    requires k >= 1 && ClockNeverRunsBack(steps, start)
    ensures TableInv(self, k, Run(self, k, steps), ClockOfRun(steps, start))
  {
    if steps == [] {
      EmptyTableInv(self, k, start);
    } else {
      var n := |steps| - 1;
      EveryRunKeepsTableInv(self, k, steps[..n], start);
      StepKeeps(self, k, Run(self, k, steps[..n]), ClockOfRun(steps[..n], start), steps[n]);
    }
  }

  // ---------------------------------------------------------------------------------------------
  // Consequences of the invariant
  // ---------------------------------------------------------------------------------------------

  lemma {:induction false} FlattenMembers(self: NodeId, k: nat, t: Table, n: nat)
    requires Placed(self, k, t) && n <= NUM_BUCKETS
    ensures forall j :: 0 <= j < |Flatten(t[..n])| ==>
              Flatten(t[..n])[j].id != self && BucketOf(self, Flatten(t[..n])[j].id) < n
  {
    if n > 0 {
      assert t[..n][..n - 1] == t[..n - 1];
      FlattenMembers(self, k, t, n - 1);
      assert PlacedIn(self, t[n - 1], n - 1);
    }
  }

  lemma {:induction false} FlattenDistinct(self: NodeId, k: nat, t: Table, now: int, n: nat)
    requires TableInv(self, k, t, now) && n <= NUM_BUCKETS
    ensures DistinctIds(Flatten(t[..n]))
  {
    if n > 0 {
      assert t[..n][..n - 1] == t[..n - 1];
      FlattenDistinct(self, k, t, now, n - 1);
      FlattenMembers(self, k, t, n - 1);
      assert PlacedIn(self, t[n - 1], n - 1) && BucketInv(t[n - 1], k, now);
    }
  }

  /** What `FindClosest` needs: all contacts of a reachable table are distinct, and none is self. */
  lemma ContactsDistinct(self: NodeId, k: nat, t: Table, now: int)
    requires TableInv(self, k, t, now)
    ensures DistinctIds(Flatten(t))
    ensures forall c :: c in Flatten(t) ==> c.id != self
  {
    assert t[..NUM_BUCKETS] == t;
    FlattenDistinct(self, k, t, now, NUM_BUCKETS);
    FlattenMembers(self, k, t, NUM_BUCKETS);
  }

  ghost function BucketIds(b: Bucket): (r: set<NodeId>)
    ensures forall i :: 0 <= i < |b| ==> b[i].id in r
    ensures forall id :: id in r ==> exists i :: 0 <= i < |b| && b[i].id == id
  {
    set c | c in b :: c.id
  }

  /**
   The Kademlia replacement policy.  A known contact stays, with the data just received.  A new one
   takes free room.  Into a full bucket it comes only if the head did not answer, and then the
   entry it displaces is the one seen least recently; a head that answered becomes the most recent.
   No other bucket changes.
   */
  lemma AddPolicy(self: NodeId, k: nat, t: Table, now: int, c: NodeContact, alive: bool, addedAt: int, resolvedAt: int)
    requires TableInv(self, k, t, now) && k >= 1 && c.id != self
    ensures var i := BucketOf(self, c.id);
            var t' := DhtAdd(self, k, t, c, alive, addedAt, resolvedAt);
            t' == t[i := t'[i]] && BucketPolicy(t[i], k, c, alive, addedAt, resolvedAt, t'[i])
  {
    var i := BucketOf(self, c.id);
    assert BucketInv(t[i], k, now) && PlacedIn(self, t[i], i);
    AddTouchesOneBucket(self, k, t, c, alive, addedAt, resolvedAt);
    AddedBucketPolicy(t[i], k, now, c, alive, addedAt, resolvedAt);
  }

  function AddedBucket(b: Bucket, k: nat, c: NodeContact, alive: bool, addedAt: int, resolvedAt: int): Bucket
    requires k >= 1
  {
    if Candidate(b, k, c).None? then Added(b, k, c, addedAt)
    else if alive then Added(b, k, b[0], resolvedAt)
    else Evicted(b, c, resolvedAt)
  }

  lemma AddTouchesOneBucket(self: NodeId, k: nat, t: Table, c: NodeContact, alive: bool, addedAt: int, resolvedAt: int)
    requires Placed(self, k, t) && k >= 1 && c.id != self
    ensures var i := BucketOf(self, c.id);
            DhtAdd(self, k, t, c, alive, addedAt, resolvedAt)
            == t[i := AddedBucket(t[i], k, c, alive, addedAt, resolvedAt)]
  {}

  lemma AddedBucketPolicy(b: Bucket, k: nat, now: int, c: NodeContact, alive: bool, addedAt: int, resolvedAt: int)
    requires BucketInv(b, k, now) && k >= 1
    ensures BucketPolicy(b, k, c, alive, addedAt, resolvedAt, AddedBucket(b, k, c, alive, addedAt, resolvedAt))
  {
    KnownIff(b, c.id);
    if Find(b, c.id) < |b| || |b| < k {
      RoomyBucketPolicy(b, k, now, c, alive, addedAt, resolvedAt);
    } else {
      FullBucketPolicy(b, k, now, c, alive, addedAt, resolvedAt);
    }
  }

  lemma RoomyBucketPolicy(b: Bucket, k: nat, now: int, c: NodeContact, alive: bool, addedAt: int, resolvedAt: int)
    requires BucketInv(b, k, now) && k >= 1 && (Find(b, c.id) < |b| || |b| < k)
    ensures BucketPolicy(b, k, c, alive, addedAt, resolvedAt, AddedBucket(b, k, c, alive, addedAt, resolvedAt))
  {
    KnownIff(b, c.id);
    OthersAre(b, c.id);
    AddedIds(b, k, c, addedAt);
  }

  lemma FullBucketPolicy(b: Bucket, k: nat, now: int, c: NodeContact, alive: bool, addedAt: int, resolvedAt: int)
    requires BucketInv(b, k, now) && k >= 1 && Find(b, c.id) == |b| == k
    ensures BucketPolicy(b, k, c, alive, addedAt, resolvedAt, AddedBucket(b, k, c, alive, addedAt, resolvedAt))
  {
    KnownIff(b, c.id);
    OthersAre(b, b[0].id);
    assert Without(b, 0) == b[1..];
    if alive {
      HeadMovesToTail(b, k, resolvedAt);
      EvictedIds(b, b[0], resolvedAt);
    } else {
      EvictedIds(b, c, resolvedAt);
    }
  }

  lemma KnownIff(b: Bucket, id: NodeId)
    ensures id in BucketIds(b) <==> Find(b, id) < |b|
  {}

  lemma AddedIds(b: Bucket, k: nat, c: NodeContact, now: int)
    requires DistinctIds(b) && (Find(b, c.id) < |b| || |b| < k)
    ensures var b' := Added(b, k, c, now);
            BucketIds(b') == BucketIds(b) + {c.id} && |b'| > 0 && b'[|b'| - 1] == c.(lastSeen := now)
  {
    var p := Find(b, c.id);
    if p < |b| {
      WithoutIds(b, p);
      AppendIds(Without(b, p), c.(lastSeen := now));
    } else {
      AppendIds(b, c.(lastSeen := now));
    }
  }

  lemma HeadMovesToTail(b: Bucket, k: nat, now: int)
    requires b != []
    ensures Added(b, k, b[0], now) == Evicted(b, b[0], now)
  {
    assert Find(b, b[0].id) == 0 && Without(b, 0) == b[1..];
  }

  ghost predicate BucketPolicy(b: Bucket, k: nat, c: NodeContact, alive: bool, addedAt: int, resolvedAt: int,
                               b': Bucket)
    requires k >= 1
  {
    if c.id in BucketIds(b) || |b| < k then
      BucketIds(b') == BucketIds(b) + {c.id} && b' == Others(b, c.id) + [c.(lastSeen := addedAt)]
    else if alive then
      BucketIds(b') == BucketIds(b) && b' == Others(b, b[0].id) + [b[0].(lastSeen := resolvedAt)]
    else
      && BucketIds(b') == BucketIds(b) - {b[0].id} + {c.id}
      && b' == Others(b, b[0].id) + [c.(lastSeen := resolvedAt)]
      && forall j :: 0 <= j < |b| ==> b[0].lastSeen <= b[j].lastSeen
  }

  /** All entries but those with this identifier, as they are and in order. */
  function Others(b: Bucket, id: NodeId): Bucket {
    if b == [] then [] else (if b[0].id == id then [] else [b[0]]) + Others(b[1..], id)
  }

  lemma {:induction false} NoOther(b: Bucket, id: NodeId)
    requires forall j :: 0 <= j < |b| ==> b[j].id != id
    ensures Others(b, id) == b
  {
    if b != [] {
      NoOther(b[1..], id);
      assert b == [b[0]] + b[1..];
    }
  }

  lemma OthersAre(b: Bucket, id: NodeId)
    requires DistinctIds(b)
    ensures Others(b, id) == Removed(b, id)
    ensures Find(b, id) < |b| ==> Others(b, id) == Without(b, Find(b, id))
  {
    var p := Find(b, id);
    if p == |b| {
      NoOther(b, id);
    } else {
      AllButOne(b, id, p);
    }
  }

  lemma {:induction false} AllButOne(b: Bucket, id: NodeId, p: nat)
    requires p < |b| && forall j :: 0 <= j < |b| ==> (b[j].id == id <==> j == p)
    ensures Others(b, id) == b[..p] + b[p + 1..]
  {
    if p == 0 {
      NoOther(b[1..], id);
      assert b[..0] + b[1..] == b[1..];
    } else {
      AllButOne(b[1..], id, p - 1);
      assert b[..p] == [b[0]] + b[1..][..p - 1];
      assert b[1..][p..] == b[p + 1..];
    }
  }

  lemma {:induction false} FlattenIff(t: Table, c: NodeContact)
    ensures c in Flatten(t) <==> exists i :: 0 <= i < |t| && c in t[i]
  {
    if t != [] {
      var n := |t| - 1;
      FlattenIff(t[..n], c);
      if i :| 0 <= i < |t| && c in t[i] {
        assert i < n ==> c in t[..n][i];
      }
      if i :| 0 <= i < n && c in t[..n][i] {
        assert c in t[i];
      }
    }
  }

  /** Removing an identifier takes its contact out of the table and leaves every other one. */
  lemma RemovePolicy(self: NodeId, k: nat, t: Table, now: int, id: NodeId)
    requires TableInv(self, k, t, now)
    ensures var t' := TableRemove(self, t, id);
            && t' == t[BucketOf(self, id) := Others(t[BucketOf(self, id)], id)]
            && forall c :: c in Flatten(t') <==> c in Flatten(t) && c.id != id
  {
    var i := BucketOf(self, id);
    assert BucketInv(t[i], k, now);
    OthersAre(t[i], id);
    forall c
      ensures c in Flatten(TableRemove(self, t, id)) <==> c in Flatten(t) && c.id != id
    {
      OneBucketLess(self, k, t, id, Others(t[i], id), c);
    }
  }

  lemma OneBucketLess(self: NodeId, k: nat, t: Table, id: NodeId, b: Bucket, c: NodeContact)
    requires Placed(self, k, t) && b == Others(t[BucketOf(self, id)], id)
    ensures c in Flatten(t[BucketOf(self, id) := b]) <==> c in Flatten(t) && c.id != id
  {
    var i := BucketOf(self, id);
    var t' := t[i := b];
    FlattenIff(t, c);
    FlattenIff(t', c);
    OthersHas(t[i], id, c);
    if j :| 0 <= j < |t| && c in t[j] && j != i {
      assert PlacedIn(self, t[j], j);
      assert t'[j] == t[j];
    }
    if c in t[i] && c.id != id {
      assert c in t'[i];
    }
    if j :| 0 <= j < |t'| && c in t'[j] {
      assert c in t[j];
    }
  }

  lemma {:induction false} OthersHas(b: Bucket, id: NodeId, c: NodeContact)
    ensures c in Others(b, id) <==> c in b && c.id != id
  {
    if b != [] {
      OthersHas(b[1..], id, c);
      assert b == [b[0]] + b[1..];
    }
  }

  /** A contact that is marked as seen becomes the most recent of its bucket; nothing else changes. */
  lemma MarkSeenPolicy(self: NodeId, k: nat, t: Table, now: int, id: NodeId, at: int)
    requires TableInv(self, k, t, now)
    ensures var i, t' := BucketOf(self, id), TableMarkSeen(self, t, id, at);
            if id in BucketIds(t[i]) then
              exists e :: e in t[i] && e.id == id && t' == t[i := Others(t[i], id) + [e.(lastSeen := at)]]
            else t' == t
  {
    var i := BucketOf(self, id);
    assert BucketInv(t[i], k, now);
    KnownIff(t[i], id);
    OthersAre(t[i], id);
    if id in BucketIds(t[i]) {
      var e := t[i][Find(t[i], id)];
      assert e in t[i];
    }
  }

  lemma WithoutIds(b: Bucket, i: nat)
    requires DistinctIds(b) && i < |b|
    ensures BucketIds(Without(b, i)) == BucketIds(b) - {b[i].id}
  {}

  lemma AppendIds(b: Bucket, c: NodeContact)
    ensures BucketIds(b + [c]) == BucketIds(b) + {c.id}
  {}
}
