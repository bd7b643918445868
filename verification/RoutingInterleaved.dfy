/**
 `AddNode` (internal/dht/dht.go) split at its lock boundaries: it looks the contact up in the routing
 table, pings the head of a full bucket without a lock, and then keeps or replaces that head, so that
 other operations may come between.
 */
module RoutingInterleaved {
  import opened Common
  import opened NodeIds
  import opened Routing
  import opened RoutingInvariant

  /** An `AddNode` call between its look-up and its decision. */
  datatype Waiting = Waiting(contact: NodeContact, head: NodeContact)

  datatype Interleaved = Interleaved(table: Table, waiting: seq<Waiting>)

  datatype MicroStep =
    | LookUp(contact: NodeContact, at: int)
    | HeadAnswered(call: nat, at: int)
    | HeadSilent(call: nat, at: int)
    | RemoveNow(id: NodeId)
    | MarkNow(seen: NodeId, at: int)

  function Micro(self: NodeId, k: nat, s: Interleaved, m: MicroStep): (r: Interleaved)
    requires |s.table| == NUM_BUCKETS && k >= 1
    ensures |r.table| == NUM_BUCKETS
  {
    match m
    case LookUp(c, at) =>
      Interleaved(TableAdd(self, k, s.table, c, at),
                  match TableCandidate(self, k, s.table, c)
                  case None => s.waiting
                  case Some(head) => s.waiting + [Waiting(c, head)])
    case HeadAnswered(n, at) =>
      if n >= |s.waiting| then s
      else Interleaved(TableAdd(self, k, s.table, s.waiting[n].head, at), s.waiting[..n] + s.waiting[n + 1..])
    case HeadSilent(n, at) =>
      if n >= |s.waiting| then s
      else
        var c := s.waiting[n].contact;
        Interleaved(TableEvict(s.table, BucketOf(self, c.id), c, at), s.waiting[..n] + s.waiting[n + 1..])
    case RemoveNow(id) => s.(table := TableRemove(self, s.table, id))
    case MarkNow(id, at) => s.(table := TableMarkSeen(self, s.table, id, at))
  }

  /** Removals and sightings take one lock, so they are the atomic operations and leave waiting calls alone. */
  lemma OneLockIsAtomic(self: NodeId, k: nat, s: Interleaved, id: NodeId, at: int)
    requires |s.table| == NUM_BUCKETS && k >= 1
    ensures Micro(self, k, s, RemoveNow(id)) == Interleaved(Apply(self, k, s.table, Remove(id)), s.waiting)
    ensures Micro(self, k, s, MarkNow(id, at)) == Interleaved(Apply(self, k, s.table, MarkSeen(id, at)), s.waiting)
  {}

  /** With nothing in between, the steps of one call are the atomic `AddNode`. */
  lemma UninterruptedIsAdd(self: NodeId, k: nat, s: Interleaved, c: NodeContact, alive: bool, addedAt: int,
                           resolvedAt: int)
    requires |s.table| == NUM_BUCKETS && k >= 1
    ensures var looked := Micro(self, k, s, LookUp(c, addedAt));
            var call := |s.waiting|;
            var done := if |looked.waiting| == call then looked
                        else Micro(self, k, looked, if alive then HeadAnswered(call, resolvedAt)
                                                    else HeadSilent(call, resolvedAt));
            done == Interleaved(DhtAdd(self, k, s.table, c, alive, addedAt, resolvedAt), s.waiting)
  {
    match TableCandidate(self, k, s.table, c)
    case None =>
    case Some(head) =>
      var w := s.waiting + [Waiting(c, head)];
      assert w[..|s.waiting|] + w[|s.waiting| + 1..] == s.waiting;
  }

  ghost predicate InterleavedInv(self: NodeId, k: nat, s: Interleaved) {
    && Placed(self, k, s.table)
    && forall n :: 0 <= n < |s.waiting| ==> s.waiting[n].contact.id != self
  }

  lemma ReplacePlaced(self: NodeId, k: nat, t: Table, i: nat, b: Bucket)
    requires Placed(self, k, t) && i < NUM_BUCKETS && |b| <= k && PlacedIn(self, b, i)
    ensures Placed(self, k, t[i := b])
  {}

  lemma TableAddPlaced(self: NodeId, k: nat, t: Table, c: NodeContact, at: int)
    requires Placed(self, k, t)
    ensures Placed(self, k, TableAdd(self, k, t, c, at))
  {}

  lemma MicroKeeps(self: NodeId, k: nat, s: Interleaved, m: MicroStep)
    requires InterleavedInv(self, k, s) && k >= 1
    ensures InterleavedInv(self, k, Micro(self, k, s, m))
  {
    match m
    case LookUp(c, at) =>
      TableAddPlaced(self, k, s.table, c, at);
    case HeadAnswered(n, at) =>
      if n < |s.waiting| {
        TableAddPlaced(self, k, s.table, s.waiting[n].head, at);
      }
    case HeadSilent(n, at) =>
      if n < |s.waiting| {
        EvictPlaced(self, k, s.table, s.waiting[n].contact, at);
      }
    case RemoveNow(id) =>
      RemovePlaced(self, k, s.table, id);
    case MarkNow(id, at) =>
      MarkPlaced(self, k, s.table, id, at);
  }

  lemma EvictPlaced(self: NodeId, k: nat, t: Table, c: NodeContact, at: int)
    requires Placed(self, k, t) && k >= 1 && c.id != self
    ensures Placed(self, k, TableEvict(t, BucketOf(self, c.id), c, at))
  {
    var i := BucketOf(self, c.id);
    assert |t[i]| <= k && PlacedIn(self, t[i], i);
    ReplacePlaced(self, k, t, i, Evicted(t[i], c, at));
  }

  lemma RemovePlaced(self: NodeId, k: nat, t: Table, id: NodeId)
    requires Placed(self, k, t)
    ensures Placed(self, k, TableRemove(self, t, id))
  {
    var i := BucketOf(self, id);
    assert |t[i]| <= k && PlacedIn(self, t[i], i);
    MovedPlaced(self, t[i], i, id, 0);
    ReplacePlaced(self, k, t, i, Removed(t[i], id));
  }

  lemma MarkPlaced(self: NodeId, k: nat, t: Table, id: NodeId, at: int)
    requires Placed(self, k, t)
    ensures Placed(self, k, TableMarkSeen(self, t, id, at))
  {
    var i := BucketOf(self, id);
    assert |t[i]| <= k && PlacedIn(self, t[i], i);
    MovedPlaced(self, t[i], i, id, at);
    ReplacePlaced(self, k, t, i, MovedToTail(t[i], id, at));
  }

  lemma MovedPlaced(self: NodeId, b: Bucket, i: nat, id: NodeId, at: int)
    requires PlacedIn(self, b, i)
    ensures PlacedIn(self, Removed(b, id), i) && |Removed(b, id)| <= |b|
    ensures PlacedIn(self, MovedToTail(b, id, at), i) && |MovedToTail(b, id, at)| == |b|
  {
    var p := Find(b, id);
    if p < |b| {
      WithoutPlaced(self, b, i, p);
      assert b[p].(lastSeen := at).id == b[p].id;
    }
  }

  lemma WithoutPlaced(self: NodeId, b: Bucket, i: nat, p: nat)
    requires PlacedIn(self, b, i) && p < |b|
    ensures PlacedIn(self, Without(b, p), i)
  {}

  ghost predicate TableRecency(t: Table, now: int) {
    forall i :: 0 <= i < |t| ==> Recency(t[i], now)
  }

  function MicroClock(m: MicroStep, now: int): int {
    if m.RemoveNow? then now else m.at
  }

  lemma ReplaceKeepsRecency(t: Table, i: nat, b: Bucket, now: int, later: int)
    requires TableRecency(t, now) && now <= later && i < |t| && (Recency(t[i], later) ==> Recency(b, later))
    ensures TableRecency(t[i := b], later)
  {
    RecentLater(t, now, later);
    assert Recency(t[i], later);
  }

  lemma RecentLater(t: Table, now: int, later: int)
    requires TableRecency(t, now) && now <= later
    ensures TableRecency(t, later)
  {
    forall i | 0 <= i < |t|
      ensures Recency(t[i], later)
    {
      assert Recency(t[i], now);
    }
  }

  lemma TableAddKeepsRecency(self: NodeId, k: nat, t: Table, c: NodeContact, now: int, later: int)
    requires |t| == NUM_BUCKETS && TableRecency(t, now) && now <= later
    ensures TableRecency(TableAdd(self, k, t, c, later), later)
  {
    RecentLater(t, now, later);
    if c.id != self {
      var i := BucketOf(self, c.id);
      AddedKeepsRecency(t[i], k, c, later);
      ReplaceKeepsRecency(t, i, Added(t[i], k, c, later), later, later);
    }
  }

  /** Recency order survives: whatever comes between, an entry goes to the tail with the current time. */
  lemma MicroKeepsRecency(self: NodeId, k: nat, s: Interleaved, m: MicroStep, now: int)
    requires |s.table| == NUM_BUCKETS && k >= 1 && TableRecency(s.table, now) && now <= MicroClock(m, now)
    ensures TableRecency(Micro(self, k, s, m).table, MicroClock(m, now))
  {
    var later := MicroClock(m, now);
    RecentLater(s.table, now, later);
    match m
    case LookUp(c, at) =>
      TableAddKeepsRecency(self, k, s.table, c, now, at);
    case HeadAnswered(n, at) =>
      if n < |s.waiting| {
        TableAddKeepsRecency(self, k, s.table, s.waiting[n].head, now, at);
      }
    case HeadSilent(n, at) =>
      if n < |s.waiting| {
        var c := s.waiting[n].contact;
        var b := s.table[BucketOf(self, c.id)];
        EvictedKeepsRecency(b, c, at);
        ReplaceKeepsRecency(s.table, BucketOf(self, c.id), Evicted(b, c, at), later, later);
      }
    case RemoveNow(id) =>
      var b := s.table[BucketOf(self, id)];
      RemovedKeepsRecency(b, id, later);
      ReplaceKeepsRecency(s.table, BucketOf(self, id), Removed(b, id), later, later);
    case MarkNow(id, at) =>
      var b := s.table[BucketOf(self, id)];
      MovedKeepsRecency(b, id, at);
      ReplaceKeepsRecency(s.table, BucketOf(self, id), MovedToTail(b, id, at), later, later);
  }

  function ClockOfMicroRun(ms: seq<MicroStep>, start: int): int {
    if ms == [] then start else MicroClock(ms[|ms| - 1], ClockOfMicroRun(ms[..|ms| - 1], start))
  }

  predicate MicroClockNeverRunsBack(ms: seq<MicroStep>, start: int) {
    ms == []
    || (MicroClockNeverRunsBack(ms[..|ms| - 1], start)
        && ClockOfMicroRun(ms[..|ms| - 1], start) <= ClockOfMicroRun(ms, start))
  }

  function MicroRun(self: NodeId, k: nat, ms: seq<MicroStep>): (s: Interleaved)
    requires k >= 1
    ensures |s.table| == NUM_BUCKETS
  {
    if ms == [] then Interleaved(EmptyTable(), [])
    else Micro(self, k, MicroRun(self, k, ms[..|ms| - 1]), ms[|ms| - 1])
  }

  /**
   Capacity, placement and self-exclusion hold at every point of every interleaving, and so does
   recency order if the clock never runs back.
   */
  lemma {:induction false} EveryInterleavingKeepsInv(self: NodeId, k: nat, ms: seq<MicroStep>, start: int)
    requires k >= 1
    ensures InterleavedInv(self, k, MicroRun(self, k, ms))
    ensures MicroClockNeverRunsBack(ms, start) ==> TableRecency(MicroRun(self, k, ms).table, ClockOfMicroRun(ms, start))
  {
    if ms != [] {
      var before, m := ms[..|ms| - 1], ms[|ms| - 1];
      EveryInterleavingKeepsInv(self, k, before, start);
      MicroKeeps(self, k, MicroRun(self, k, before), m);
      if MicroClockNeverRunsBack(ms, start) {
        MicroKeepsRecency(self, k, MicroRun(self, k, before), m, ClockOfMicroRun(before, start));
      }
    }
  }

  // ---------------------------------------------------------------------------------------------
  // When interleaved adds keep identifiers distinct
  // ---------------------------------------------------------------------------------------------

  ghost predicate DistinctTable(t: Table) {
    forall i :: 0 <= i < |t| ==> DistinctIds(t[i])
  }

  /** A contact that comes in for a silent head has not come into the rest of the bucket meanwhile. */
  ghost predicate GuardMet(self: NodeId, s: Interleaved, m: MicroStep)
    requires |s.table| == NUM_BUCKETS
  {
    m.HeadSilent? && m.call < |s.waiting| ==>
      var c := s.waiting[m.call].contact;
      var b := s.table[BucketOf(self, c.id)];
      forall j :: 1 <= j < |b| ==> b[j].id != c.id
  }

  lemma ReplaceDistinctIff(t: Table, i: nat, b: Bucket)
    requires DistinctTable(t) && i < |t|
    ensures DistinctTable(t[i := b]) <==> DistinctIds(b)
  {
    assert t[i := b][i] == b;
  }

  lemma TableAddKeepsDistinct(self: NodeId, k: nat, t: Table, c: NodeContact, at: int)
    requires |t| == NUM_BUCKETS && DistinctTable(t)
    ensures DistinctTable(TableAdd(self, k, t, c, at))
  {
    if c.id != self {
      var i := BucketOf(self, c.id);
      AddedKeepsDistinct(t[i], k, c, at);
      ReplaceDistinctIff(t, i, Added(t[i], k, c, at));
    }
  }

  /** A micro-step keeps identifiers distinct exactly when its guard is met. */
  lemma MicroKeepsDistinctIff(self: NodeId, k: nat, s: Interleaved, m: MicroStep)
    requires |s.table| == NUM_BUCKETS && k >= 1 && DistinctTable(s.table)
    ensures DistinctTable(Micro(self, k, s, m).table) <==> GuardMet(self, s, m)
  {
    match m
    case LookUp(c, at) =>
      TableAddKeepsDistinct(self, k, s.table, c, at);
    case HeadAnswered(n, at) =>
      if n < |s.waiting| {
        TableAddKeepsDistinct(self, k, s.table, s.waiting[n].head, at);
      }
    case HeadSilent(n, at) =>
      if n < |s.waiting| {
        var c := s.waiting[n].contact;
        var b := s.table[BucketOf(self, c.id)];
        EvictKeepsDistinctIff(b, c, at);
        ReplaceDistinctIff(s.table, BucketOf(self, c.id), Evicted(b, c, at));
      }
    case RemoveNow(id) =>
      var b := s.table[BucketOf(self, id)];
      MovedKeepsDistinct(b, id, 0);
      ReplaceDistinctIff(s.table, BucketOf(self, id), Removed(b, id));
    case MarkNow(id, at) =>
      var b := s.table[BucketOf(self, id)];
      MovedKeepsDistinct(b, id, at);
      ReplaceDistinctIff(s.table, BucketOf(self, id), MovedToTail(b, id, at));
  }

  ghost predicate AlwaysDistinct(self: NodeId, k: nat, ms: seq<MicroStep>)
    requires k >= 1
  {
    forall n :: 0 <= n <= |ms| ==> DistinctTable(MicroRun(self, k, ms[..n]).table)
  }

  ghost predicate GuardsMet(self: NodeId, k: nat, ms: seq<MicroStep>)
    requires k >= 1
  {
    forall n :: 0 <= n < |ms| ==> GuardMet(self, MicroRun(self, k, ms[..n]), ms[n])
  }

  lemma {:induction false} DistinctUpTo(self: NodeId, k: nat, ms: seq<MicroStep>, n: nat)
    requires k >= 1 && n <= |ms| && GuardsMet(self, k, ms)
    ensures DistinctTable(MicroRun(self, k, ms[..n]).table)
  {
    if n > 0 {
      DistinctUpTo(self, k, ms, n - 1);
      MicroRunStep(self, k, ms, n - 1);
      GuardKeepsDistinct(self, k, MicroRun(self, k, ms[..n - 1]), ms[n - 1]);
    }
  }

  lemma GuardKeepsDistinct(self: NodeId, k: nat, s: Interleaved, m: MicroStep)
    requires |s.table| == NUM_BUCKETS && k >= 1 && DistinctTable(s.table) && GuardMet(self, s, m)
    ensures DistinctTable(Micro(self, k, s, m).table)
  {
    MicroKeepsDistinctIff(self, k, s, m);
  }

  lemma MicroRunStep(self: NodeId, k: nat, ms: seq<MicroStep>, n: nat)
    requires k >= 1 && n < |ms|
    ensures MicroRun(self, k, ms[..n + 1]) == Micro(self, k, MicroRun(self, k, ms[..n]), ms[n])
  {
    assert ms[..n + 1][..n] == ms[..n];
  }

  /** Identifiers stay distinct throughout an interleaving exactly when every replacement in it meets the guard. */
  lemma InterleavingDistinctIff(self: NodeId, k: nat, ms: seq<MicroStep>)
    requires k >= 1
    ensures AlwaysDistinct(self, k, ms) <==> GuardsMet(self, k, ms)
  {
    if GuardsMet(self, k, ms) {
      forall n | 0 <= n <= |ms|
        ensures DistinctTable(MicroRun(self, k, ms[..n]).table)
      {
        DistinctUpTo(self, k, ms, n);
      }
    }
    if AlwaysDistinct(self, k, ms) {
      forall n | 0 <= n < |ms|
        ensures GuardMet(self, MicroRun(self, k, ms[..n]), ms[n])
      {
        MicroRunStep(self, k, ms, n);
        MicroKeepsDistinctIff(self, k, MicroRun(self, k, ms[..n]), ms[n]);
      }
    }
  }

  /**
   Distinctness does not survive interleaving: two overlapping adds of one contact, both finding
   the same full bucket and both getting no answer from its head, insert the contact twice.
   */
  lemma OverlappingAddsDuplicate(self: NodeId, s: Interleaved, c: NodeContact, x: NodeContact, y: NodeContact, at: int)
    requires |s.table| == NUM_BUCKETS && s.waiting == [] && c.id != self
    requires s.table[BucketOf(self, c.id)] == [x, y] && x.id != c.id && y.id != c.id
    ensures var s1 := Micro(self, 2, s, LookUp(c, at));
            var s2 := Micro(self, 2, s1, LookUp(c, at));
            var s3 := Micro(self, 2, s2, HeadSilent(0, at));
            var s4 := Micro(self, 2, s3, HeadSilent(0, at));
            !DistinctIds(s4.table[BucketOf(self, c.id)])
  {
    var s1 := Micro(self, 2, s, LookUp(c, at));
    LookUpInFullBucket(self, s, c, x, y, at);
    LookUpInFullBucket(self, s1, c, x, y, at);
    var s2 := Micro(self, 2, s1, LookUp(c, at));
    assert s2.waiting == [Waiting(c, x), Waiting(c, x)];
    SilentHeadReplaced(self, s2, c, at);
    var s3 := Micro(self, 2, s2, HeadSilent(0, at));
    SilentHeadReplaced(self, s3, c, at);
    var b := Micro(self, 2, s3, HeadSilent(0, at)).table[BucketOf(self, c.id)];
    assert b[0].id == b[1].id;
  }

  lemma LookUpInFullBucket(self: NodeId, s: Interleaved, c: NodeContact, x: NodeContact, y: NodeContact, at: int)
    requires |s.table| == NUM_BUCKETS && c.id != self
    requires s.table[BucketOf(self, c.id)] == [x, y] && x.id != c.id && y.id != c.id
    ensures Micro(self, 2, s, LookUp(c, at)) == Interleaved(s.table, s.waiting + [Waiting(c, x)])
  {}

  lemma SilentHeadReplaced(self: NodeId, s: Interleaved, c: NodeContact, at: int)
    requires |s.table| == NUM_BUCKETS && s.waiting != [] && s.waiting[0].contact == c
    requires |s.table[BucketOf(self, c.id)]| == 2
    ensures var s' := Micro(self, 2, s, HeadSilent(0, at));
            && s'.waiting == s.waiting[1..]
            && s'.table[BucketOf(self, c.id)] == [s.table[BucketOf(self, c.id)][1], c.(lastSeen := at)]
  {}
}
