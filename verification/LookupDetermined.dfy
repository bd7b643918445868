/**
 A lookup is determined by where it starts and what the network answers (`iterativeFindNode` and
 `iterativeFindValue` in internal/dht/dht.go).

 The promises of the two lookups leave nothing open: whom each round asks, in which order and how
 often, which answers it takes, when the search ends and which identifiers or value it returns.
 */
module LookupDetermined {
  import opened Common
  import opened NodeIds
  import opened Routing
  import opened RoutingInvariant
  import opened Nearest
  import opened Lookup
  import opened LookupComplete
  import DhtNode

  // ---------------------------------------------------------------------------------------------
  // The candidates, and whom to ask next
  // ---------------------------------------------------------------------------------------------

  ghost predicate SameCounts(a: seq<NodeContact>, b: seq<NodeContact>, target: NodeId) {
    forall d: nat :: Nearer(a, target, d) == Nearer(b, target, d)
  }

  /** Lists in ascending order that have as many entries within every distance list the same identifiers. */
  lemma {:induction false} SameCountsSameIds(a: seq<NodeContact>, b: seq<NodeContact>, target: NodeId)
    requires Ascending(a, target) && Ascending(b, target) && SameCounts(a, b, target)
    ensures IdsOf(a) == IdsOf(b)
    decreases |a|
  {
    LastsAgree(a, b, target);
    if a != [] {
      var n := |a| - 1;
      forall d: nat
        ensures Nearer(a[..n], target, d) == Nearer(b[..n], target, d)
      {
        assert Nearer(a, target, d) == Nearer(b, target, d);
      }
      SameCountsSameIds(a[..n], b[..n], target);
      assert forall i :: 0 <= i < n ==> IdsOf(a[..n])[i] == a[i].id && IdsOf(b[..n])[i] == b[i].id;
    }
  }

  lemma LastsAgree(a: seq<NodeContact>, b: seq<NodeContact>, target: NodeId)
    requires Ascending(a, target) && Ascending(b, target) && SameCounts(a, b, target)
    ensures |a| == |b| && (a != [] ==> a[|a| - 1].id == b[|b| - 1].id)
  {
    if a != [] {
      LastReaches(a, b, target);
    }
    if b != [] {
      LastReaches(b, a, target);
    }
    if a != [] && b != [] {
      DistInjective(a[|a| - 1].id, b[|b| - 1].id, target);
    }
  }

  /** Within the distance of the last entry of a, b has all the entries that a has. */
  lemma LastReaches(a: seq<NodeContact>, b: seq<NodeContact>, target: NodeId)
    requires a != [] && Ascending(a, target) && Ascending(b, target) && SameCounts(a, b, target)
    ensures |a| <= |b|
    ensures |a| == |b| ==> Dist(b[|b| - 1].id, target) <= Dist(a[|a| - 1].id, target)
  {
    var d := Dist(a[|a| - 1].id, target) + 1;
    NearerAtMostAll(a, target, d);
    NearerAtMostAll(b, target, d);
    assert Nearer(a, target, d) == Nearer(b, target, d);
  }

  lemma HeldIdsAgree<V>(seeds: seq<NodeContact>, tr: Transcript<V>, self: NodeId, target: NodeId, k: nat,
                        a: seq<NodeContact>, b: seq<NodeContact>)
    requires Held(seeds, tr, self, target, k, a) && Held(seeds, tr, self, target, k, b)
    ensures IdsOf(a) == IdsOf(b)
  {
    SameCountsSameIds(a, b, target);
  }

  lemma {:induction false} NotInByIds(a: seq<NodeContact>, b: seq<NodeContact>, ids: set<NodeId>)
    requires IdsOf(a) == IdsOf(b)
    ensures IdsOf(NotIn(a, ids)) == IdsOf(NotIn(b, ids))
  {
    assert |a| == |IdsOf(a)| == |b|;
    if a != [] {
      var n := |a| - 1;
      assert IdsOf(a)[n] == IdsOf(b)[n];
      assert IdsOf(a[..n]) == IdsOf(a)[..n] == IdsOf(b)[..n] == IdsOf(b[..n]);
      NotInByIds(a[..n], b[..n], ids);
      SnocIds(NotIn(a[..n], ids), a[n]);
      SnocIds(NotIn(b[..n], ids), b[n]);
    }
  }

  lemma SnocIds(s: seq<NodeContact>, c: NodeContact)
    ensures IdsOf(s + [c]) == IdsOf(s) + [c.id] && s + [] == s
  {}

  /** Whom to ask next follows from what happened so far. */
  lemma AsksNextIsDetermined<V>(seeds: seq<NodeContact>, tr: Transcript<V>, self: NodeId, target: NodeId, k: nat,
                                alpha: nat, asked: seq<NodeId>, asked': seq<NodeId>)
    requires AsksNext(seeds, tr, self, target, k, alpha, asked) && AsksNext(seeds, tr, self, target, k, alpha, asked')
    ensures asked == asked'
  {
    var ids := AskedIds(tr) + {self};
    var a: seq<NodeContact> :| && Held(seeds, tr, self, target, k, a)
                               && asked == IdsOf(FirstOf(NotIn(a, ids), alpha));
    var b: seq<NodeContact> :| && Held(seeds, tr, self, target, k, b)
                               && asked' == IdsOf(FirstOf(NotIn(b, ids), alpha));
    HeldIdsAgree(seeds, tr, self, target, k, a, b);
    NotInByIds(a, b, ids);
    FirstIds(NotIn(a, ids), alpha);
    FirstIds(NotIn(b, ids), alpha);
  }

  lemma FirstIds(s: seq<NodeContact>, n: nat)
    ensures IdsOf(FirstOf(s, n)) == FirstOf(IdsOf(s), n)
  {}

  // ---------------------------------------------------------------------------------------------
  // The transcript
  // ---------------------------------------------------------------------------------------------

  /** When a value is wanted, only the very last answer of the transcript may carry one. */
  ghost predicate ValueOnlyLast<V>(tr: Transcript<V>) {
    forall r, j :: 0 <= r < |tr| && 0 <= j < |tr[r].answers| && tr[r].answers[j].value.Some? ==>
      r == |tr| - 1 && j == |tr[r].answers| - 1
  }

  ghost predicate EndsWithValue<V>(tr: Transcript<V>) {
    tr != [] && LastHasValue(tr[|tr| - 1].answers)
  }

  /** What both lookups promise of their transcripts. */
  ghost predicate IsSearch<V>(seeds: seq<NodeContact>, self: NodeId, target: NodeId, k: nat, alpha: nat,
                              arrivals: (nat, nat) -> Arrival<V>, wantValue: bool, tr: Transcript<V>) {
    && Records(tr, arrivals, wantValue) && GoodRounds(tr, self, alpha)
    && AsksInOrder(seeds, tr, self, target, k, alpha) && AlwaysNews(tr, self)
    && (wantValue ==> ValueOnlyLast(tr))
    && (seeds != [] && !(wantValue && EndsWithValue(tr)) ==> Ended(seeds, tr, self, target, k, alpha))
  }

  lemma SameAnswers<V>(a: Transcript<V>, b: Transcript<V>, arrivals: (nat, nat) -> Arrival<V>, wantValue: bool, n: nat)
    requires Records(a, arrivals, wantValue) && Records(b, arrivals, wantValue)
    requires wantValue ==> ValueOnlyLast(b)
    requires n < |a| && n < |b| && a[n].asked == b[n].asked
    ensures |b[n].answers| <= |a[n].answers|
  {
    assert RecordsRound(a[n], n, n == |a| - 1, arrivals, wantValue);
    assert RecordsRound(b[n], n, n == |b| - 1, arrivals, wantValue);
    var m := |a[n].answers|;
    if m < |b[n].answers| {
      assert false;
    }
  }

  lemma SameRound<V>(seeds: seq<NodeContact>, self: NodeId, target: NodeId, k: nat, alpha: nat,
                     arrivals: (nat, nat) -> Arrival<V>, wantValue: bool, a: Transcript<V>, b: Transcript<V>, n: nat)
    requires IsSearch(seeds, self, target, k, alpha, arrivals, wantValue, a)
    requires IsSearch(seeds, self, target, k, alpha, arrivals, wantValue, b)
    requires n < |a| && n < |b| && a[..n] == b[..n]
    ensures a[n] == b[n]
  {
    AsksNextIsDetermined(seeds, a[..n], self, target, k, alpha, a[n].asked, b[n].asked);
    SameAnswers(a, b, arrivals, wantValue, n);
    SameAnswers(b, a, arrivals, wantValue, n);
    assert RecordsRound(a[n], n, n == |a| - 1, arrivals, wantValue);
    assert RecordsRound(b[n], n, n == |b| - 1, arrivals, wantValue);
    forall j | 0 <= j < |a[n].answers|
      ensures a[n].answers[j] == b[n].answers[j]
    {
      assert arrivals(n, j) == Reply(a[n].answers[j]) && arrivals(n, j) == Reply(b[n].answers[j]);
    }
    assert a[n].answers == b[n].answers;
  }

  lemma {:induction false} SamePrefix<V>(seeds: seq<NodeContact>, self: NodeId, target: NodeId, k: nat, alpha: nat,
                                         arrivals: (nat, nat) -> Arrival<V>, wantValue: bool,
                                         a: Transcript<V>, b: Transcript<V>, n: nat)
    requires IsSearch(seeds, self, target, k, alpha, arrivals, wantValue, a)
    requires IsSearch(seeds, self, target, k, alpha, arrivals, wantValue, b)
    requires n <= |a| && n <= |b|
    ensures a[..n] == b[..n]
  {
    if n > 0 {
      SamePrefix(seeds, self, target, k, alpha, arrivals, wantValue, a, b, n - 1);
      SameRound(seeds, self, target, k, alpha, arrivals, wantValue, a, b, n - 1);
      OneLonger(a, b, n - 1);
    }
  }

  lemma OneLonger<T>(a: seq<T>, b: seq<T>, n: nat)
    requires n < |a| && n < |b| && a[..n] == b[..n] && a[n] == b[n]
    ensures a[..n + 1] == b[..n + 1]
  {
    assert a[..n + 1] == a[..n] + [a[n]] && b[..n + 1] == b[..n] + [b[n]];
  }

  /** Before its end a search has somebody to ask, was not cut short, had news and no value. */
  lemma BeforeTheEnd<V>(seeds: seq<NodeContact>, self: NodeId, target: NodeId, k: nat, alpha: nat,
                        arrivals: (nat, nat) -> Arrival<V>, wantValue: bool, tr: Transcript<V>, n: nat)
    requires IsSearch(seeds, self, target, k, alpha, arrivals, wantValue, tr) && n < |tr|
    ensures !AsksNext(seeds, tr[..n], self, target, k, alpha, [])
    ensures !CutShort(tr[..n]) && !NoNews(tr[..n], self) && !(wantValue && EndsWithValue(tr[..n]))
  {
    assert AsksNext(seeds, tr[..n], self, target, k, alpha, tr[n].asked) && 1 <= |tr[n].asked|;
    if AsksNext(seeds, tr[..n], self, target, k, alpha, []) {
      AsksNextIsDetermined(seeds, tr[..n], self, target, k, alpha, [], tr[n].asked);
      assert false;
    }
    if n > 0 {
      assert RecordsRound(tr[n - 1], n - 1, false, arrivals, wantValue) && tr[..n][n - 1] == tr[n - 1];
    }
  }

  /** A search that has ended does not go on. */
  lemma EndedIsEnd<V>(seeds: seq<NodeContact>, self: NodeId, target: NodeId, k: nat, alpha: nat,
                      arrivals: (nat, nat) -> Arrival<V>, wantValue: bool, a: Transcript<V>, b: Transcript<V>)
    requires IsSearch(seeds, self, target, k, alpha, arrivals, wantValue, a)
    requires IsSearch(seeds, self, target, k, alpha, arrivals, wantValue, b)
    requires |a| <= |b| && b[..|a|] == a
    ensures |a| == |b|
  {
    if seeds == [] {
      NobodyIsAsked(b, self, target, k, alpha);
    } else if |a| < |b| {
      BeforeTheEnd(seeds, self, target, k, alpha, arrivals, wantValue, b, |a|);
    }
  }

  /** Without seeds nobody is ever asked. */
  lemma NobodyIsAsked<V>(tr: Transcript<V>, self: NodeId, target: NodeId, k: nat, alpha: nat)
    requires AsksInOrder([], tr, self, target, k, alpha) && GoodRounds(tr, self, alpha)
    ensures tr == []
  {
    if tr != [] {
      assert tr[..0] == [];
      assert AsksNext([], tr[..0], self, target, k, alpha, tr[0].asked) && 1 <= |tr[0].asked|;
      NobodyToAsk(tr[..0], self, target, k, alpha, tr[0].asked);
      assert false;
    }
  }

  lemma NobodyToAsk<V>(tr: Transcript<V>, self: NodeId, target: NodeId, k: nat, alpha: nat, asked: seq<NodeId>)
    requires tr == [] && AsksNext([], tr, self, target, k, alpha, asked)
    ensures asked == []
  {
    assert forall held :: Held([], tr, self, target, k, held) ==> held == [];
  }

  /** The whole course of a lookup follows from its seeds and the answers. */
  lemma TranscriptIsDetermined<V>(seeds: seq<NodeContact>, self: NodeId, target: NodeId, k: nat, alpha: nat,
                                  arrivals: (nat, nat) -> Arrival<V>, wantValue: bool,
                                  a: Transcript<V>, b: Transcript<V>)
    requires IsSearch(seeds, self, target, k, alpha, arrivals, wantValue, a)
    requires IsSearch(seeds, self, target, k, alpha, arrivals, wantValue, b)
    ensures a == b
  {
    var n := Min(|a|, |b|);
    SamePrefix(seeds, self, target, k, alpha, arrivals, wantValue, a, b, n);
    assert a[..|a|] == a && b[..|b|] == b;
    if |a| <= |b| {
      EndedIsEnd(seeds, self, target, k, alpha, arrivals, wantValue, a, b);
    } else {
      EndedIsEnd(seeds, self, target, k, alpha, arrivals, wantValue, b, a);
    }
  }

  // ---------------------------------------------------------------------------------------------
  // The answer of a node lookup
  // ---------------------------------------------------------------------------------------------

  ghost predicate HaveSameIds(a: seq<NodeContact>, b: seq<NodeContact>) {
    forall id :: HasId(a, id) <==> HasId(b, id)
  }

  lemma {:induction false} StrictlyAscendingIdsAgree(a: seq<NodeContact>, b: seq<NodeContact>, target: NodeId)
    requires StrictlyAscending(a, target) && StrictlyAscending(b, target) && HaveSameIds(a, b)
    ensures IdsOf(a) == IdsOf(b)
    decreases |a|
  {
    if a == [] {
      assert b != [] ==> HasId(b, b[0].id) && HasId(a, b[0].id);
    } else {
      var n, m := |a| - 1, |b| - 1;
      FarthestAgree(a, b, target);
      forall id
        ensures HasId(a[..n], id) <==> HasId(b[..m], id)
      {
        HasIdWithoutLast(a, target, id);
        HasIdWithoutLast(b, target, id);
      }
      StrictlyAscendingIdsAgree(a[..n], b[..m], target);
      assert a == a[..n] + [a[n]] && b == b[..m] + [b[m]];
      SnocIds(a[..n], a[n]);
      SnocIds(b[..m], b[m]);
    }
  }

  lemma FarthestAgree(a: seq<NodeContact>, b: seq<NodeContact>, target: NodeId)
    requires StrictlyAscending(a, target) && StrictlyAscending(b, target) && HaveSameIds(a, b) && a != []
    ensures b != [] && a[|a| - 1].id == b[|b| - 1].id
  {
    assert HasId(a, a[|a| - 1].id) && HasId(b, a[|a| - 1].id);
    var i :| 0 <= i < |b| && b[i].id == a[|a| - 1].id;
    assert HasId(b, b[|b| - 1].id) && HasId(a, b[|b| - 1].id);
    var j :| 0 <= j < |a| && a[j].id == b[|b| - 1].id;
    DistInjective(a[|a| - 1].id, b[|b| - 1].id, target);
  }

  lemma HasIdWithoutLast(s: seq<NodeContact>, target: NodeId, id: NodeId)
    requires StrictlyAscending(s, target) && s != []
    ensures HasId(s[..|s| - 1], id) <==> HasId(s, id) && id != s[|s| - 1].id
  {
    var n := |s| - 1;
    if HasId(s[..n], id) {
      var j :| 0 <= j < n && s[..n][j].id == id;
      assert s[j].id == id;
    }
    if HasId(s, id) && id != s[n].id {
      var j :| 0 <= j < |s| && s[j].id == id;
      assert s[..n][j].id == id;
    }
  }

  /** The k nearest of one set of identifiers are one set. */
  lemma NearestIsDetermined(candidates: seq<NodeContact>, candidates': seq<NodeContact>, target: NodeId, k: nat,
                            found: seq<NodeContact>, found': seq<NodeContact>)
    requires HaveSameIds(candidates, candidates')
    requires NearestOf(candidates, target, k, found) && NearestOf(candidates', target, k, found')
    requires StrictlyAscending(found, target) && StrictlyAscending(found', target) && |found| <= k && |found'| <= k
    ensures HaveSameIds(found, found')
  {
    forall id
      ensures HasId(found, id) <==> HasId(found', id)
    {
      if HasId(found, id) {
        FoundInBoth(candidates, candidates', target, k, found, found', id);
      }
      if HasId(found', id) {
        FoundInBoth(candidates', candidates, target, k, found', found, id);
      }
    }
  }

  lemma FoundInBoth(candidates: seq<NodeContact>, candidates': seq<NodeContact>, target: NodeId, k: nat,
                    found: seq<NodeContact>, found': seq<NodeContact>, id: NodeId)
    requires HaveSameIds(candidates, candidates')
    requires NearestOf(candidates, target, k, found) && NearestOf(candidates', target, k, found')
    requires StrictlyAscending(found, target) && StrictlyAscending(found', target) && |found| <= k
    requires HasId(found, id)
    ensures HasId(found', id)
  {
    if !HasId(found', id) {
      FoundOrBeyond(candidates, candidates', target, k, found, found', id);
      assert Beyond(found', target, k, id);
      var other := MissingOne(found, found', target, id);
      FoundOrBeyond(candidates', candidates, target, k, found', found, other);
      var i :| 0 <= i < |found| && found[i].id == id;
      var j :| 0 <= j < |found'| && found'[j].id == other;
      DistInjective(id, other, target);
      assert false;
    }
  }

  /** What one answer has, the other has too, unless it is full of nearer ones. */
  lemma FoundOrBeyond(candidates: seq<NodeContact>, candidates': seq<NodeContact>, target: NodeId, k: nat,
                      found: seq<NodeContact>, found': seq<NodeContact>, id: NodeId)
    requires HaveSameIds(candidates, candidates')
    requires NearestOf(candidates, target, k, found) && NearestOf(candidates', target, k, found')
    requires HasId(found, id)
    ensures HasId(found', id) || Beyond(found', target, k, id)
  {
    var i :| 0 <= i < |found| && found[i].id == id;
    assert found[i] in candidates;
    assert HasId(candidates, id) && HasId(candidates', id);
    var j :| 0 <= j < |candidates'| && candidates'[j].id == id;
  }

  /** A list that lacks an identifier of another one and is as long has one that the other lacks. */
  lemma MissingOne(found: seq<NodeContact>, found': seq<NodeContact>, target: NodeId, id: NodeId)
    returns (other: NodeId)
    requires StrictlyAscending(found, target) && StrictlyAscending(found', target) && |found| <= |found'|
    requires HasId(found, id) && !HasId(found', id)
    ensures HasId(found', other) && !HasId(found, other)
  {
    StrictlyAscendingIsDistinct(found, target);
    StrictlyAscendingIsDistinct(found', target);
    FoundIdsCount(found);
    FoundIdsCount(found');
    if FoundIds(found') <= FoundIds(found) {
      SubsetSize(FoundIds(found') + {id}, FoundIds(found));
      assert false;
    } else {
      other :| other in FoundIds(found') && other !in FoundIds(found);
    }
  }

  /** Candidates of one interrupted search have the same identifiers. */
  lemma InterruptedIds<V>(seeds: seq<NodeContact>, tr: Transcript<V>, self: NodeId, target: NodeId, k: nat,
                          candidates: seq<NodeContact>, candidates': seq<NodeContact>)
    requires Interrupted(seeds, tr, self, target, k, candidates)
    requires Interrupted(seeds, tr, self, target, k, candidates')
    ensures HaveSameIds(candidates, candidates')
  {
    var held, news := HeldAndNews(seeds, tr, self, target, k, candidates);
    var held', news' := HeldAndNews(seeds, tr, self, target, k, candidates');
    HeldIdsAgree(seeds, tr[..|tr| - 1], self, target, k, held, held');
    SameIdsWithNews(held, held', news);
  }

  lemma HeldAndNews<V>(seeds: seq<NodeContact>, tr: Transcript<V>, self: NodeId, target: NodeId, k: nat,
                       candidates: seq<NodeContact>)
    returns (held: seq<NodeContact>, news: seq<NodeContact>)
    requires Interrupted(seeds, tr, self, target, k, candidates)
    ensures tr != [] && news == NewOf(tr[|tr| - 1].answers, self, AskedIds(tr) + {self})
    ensures Held(seeds, tr[..|tr| - 1], self, target, k, held) && candidates == held + news
  {
    news := NewOf(tr[|tr| - 1].answers, self, AskedIds(tr) + {self});
    held := candidates[..|candidates| - |news|];
  }

  lemma SameIdsWithNews(held: seq<NodeContact>, held': seq<NodeContact>, news: seq<NodeContact>)
    requires IdsOf(held) == IdsOf(held')
    ensures HaveSameIds(held + news, held' + news)
  {
    forall id
      ensures HasId(held + news, id) <==> HasId(held' + news, id)
    {
      HasIdInEither(held, news, id);
      HasIdInEither(held', news, id);
      HasIdByIds(held, held', id);
    }
  }

  lemma HasIdByIds(a: seq<NodeContact>, b: seq<NodeContact>, id: NodeId)
    requires IdsOf(a) == IdsOf(b)
    ensures HasId(a, id) <==> HasId(b, id)
  {
    assert |a| == |IdsOf(a)| == |b|;
    assert forall j :: 0 <= j < |a| ==> a[j].id == IdsOf(a)[j] == b[j].id;
  }

  /**
   Two node lookups of one node in one state, answered alike, ask the same in every round, hear the same
   and return the same identifiers in the same order, whether or not the timeout cut them short.
   */
  lemma NodeLookupIsDetermined(t: Table, self: NodeId, k: nat, clock: int, alpha: nat, target: NodeId,
                               arrivals: (nat, nat) -> Arrival<DhtNode.Record>,
                               a: DhtNode.LookupRun, b: DhtNode.LookupRun)
    requires TableInv(self, k, t, clock)
    requires DhtNode.IsLookup(t, self, k, alpha, target, arrivals, a)
    requires DhtNode.IsLookup(t, self, k, alpha, target, arrivals, b)
    ensures a.seeds == b.seeds && a.transcript == b.transcript && IdsOf(a.found) == IdsOf(b.found)
  {
    ContactsDistinct(self, k, t, clock);
    ClosestIsUnique(Flatten(t), Flatten(t), target, alpha, a.seeds, b.seeds);
    TranscriptIsDetermined(a.seeds, self, target, k, alpha, arrivals, false, a.transcript, b.transcript);
    SameFound(t, self, k, alpha, target, arrivals, a, b);
    StrictlyAscendingIdsAgree(a.found, b.found, target);
  }

  lemma SameFound(t: Table, self: NodeId, k: nat, alpha: nat, target: NodeId,
                  arrivals: (nat, nat) -> Arrival<DhtNode.Record>, a: DhtNode.LookupRun, b: DhtNode.LookupRun)
    requires DhtNode.IsLookup(t, self, k, alpha, target, arrivals, a)
    requires DhtNode.IsLookup(t, self, k, alpha, target, arrivals, b)
    requires a.seeds == b.seeds && a.transcript == b.transcript
    ensures HaveSameIds(a.found, b.found)
  {
    if CutShort(a.transcript) {
      if a.seeds == [] {
        NobodyIsAsked(a.transcript, self, target, k, alpha);
      }
      InterruptedIds(a.seeds, a.transcript, self, target, k, a.candidates, b.candidates);
      NearestIsDetermined(a.candidates, b.candidates, target, k, a.found, b.found);
    } else {
      FoundExactlyAgree(Offers(a.seeds, a.transcript, self), target, k, a.found, b.found);
    }
  }

  lemma FoundExactlyAgree(offers: seq<NodeContact>, target: NodeId, k: nat, found: seq<NodeContact>,
                          found': seq<NodeContact>)
    requires FoundExactly(offers, target, k, found) && FoundExactly(offers, target, k, found')
    ensures HaveSameIds(found, found')
  {}

  // ---------------------------------------------------------------------------------------------
  // The answer of a value lookup
  // ---------------------------------------------------------------------------------------------

  /** What a value lookup promises of its value and transcript. */
  ghost predicate IsValueSearch<V>(seeds: seq<NodeContact>, self: NodeId, key: NodeId, k: nat, alpha: nat,
                                   arrivals: (nat, nat) -> Arrival<V>, value: Option<V>, tr: Transcript<V>) {
    && Records(tr, arrivals, true) && GoodRounds(tr, self, alpha)
    && AsksInOrder(seeds, tr, self, key, k, alpha) && AlwaysNews(tr, self)
    && (if value.None? then NoValueIn(tr) else EndsWithFirstValue(tr, value.value))
    && (seeds != [] && value.None? ==> Ended(seeds, tr, self, key, k, alpha))
  }

  /** Two value lookups of one node in one state, answered alike, ask the same, hear the same and return the same. */
  lemma ValueLookupIsDetermined(t: Table, self: NodeId, k: nat, clock: int, alpha: nat, key: NodeId,
                                arrivals: (nat, nat) -> Arrival<DhtNode.Record>,
                                seeds: seq<NodeContact>, tr: Transcript<DhtNode.Record>, r: Option<DhtNode.Record>,
                                seeds': seq<NodeContact>, tr': Transcript<DhtNode.Record>, r': Option<DhtNode.Record>)
    requires TableInv(self, k, t, clock)
    requires DhtNode.IsValueLookup(t, self, k, alpha, key, arrivals, seeds, tr, r)
    requires DhtNode.IsValueLookup(t, self, k, alpha, key, arrivals, seeds', tr', r')
    ensures seeds == seeds' && tr == tr' && r == r'
  {
    ContactsDistinct(self, k, t, clock);
    ClosestIsUnique(Flatten(t), Flatten(t), key, alpha, seeds, seeds');
    ValueSearchIsDetermined(seeds, self, key, k, alpha, arrivals, r, tr, r', tr');
  }

  lemma ValueSearchIsDetermined<V>(seeds: seq<NodeContact>, self: NodeId, key: NodeId, k: nat, alpha: nat,
                                   arrivals: (nat, nat) -> Arrival<V>, value: Option<V>, tr: Transcript<V>,
                                   value': Option<V>, tr': Transcript<V>)
    requires IsValueSearch(seeds, self, key, k, alpha, arrivals, value, tr)
    requires IsValueSearch(seeds, self, key, k, alpha, arrivals, value', tr')
    ensures value == value' && tr == tr'
  {
    ValueSearchIsSearch(seeds, self, key, k, alpha, arrivals, value, tr);
    ValueSearchIsSearch(seeds, self, key, k, alpha, arrivals, value', tr');
    TranscriptIsDetermined(seeds, self, key, k, alpha, arrivals, true, tr, tr');
    OneLastValue(tr, value, value');
  }

  /** The transcript says whether there is a value, and which. */
  lemma OneLastValue<V>(tr: Transcript<V>, value: Option<V>, value': Option<V>)
    requires if value.None? then NoValueIn(tr) else EndsWithFirstValue(tr, value.value)
    requires if value'.None? then NoValueIn(tr) else EndsWithFirstValue(tr, value'.value)
    ensures value == value'
  {
    ValueIsLast(tr, value);
    ValueIsLast(tr, value');
  }

  lemma ValueSearchIsSearch<V>(seeds: seq<NodeContact>, self: NodeId, key: NodeId, k: nat, alpha: nat,
                               arrivals: (nat, nat) -> Arrival<V>, value: Option<V>, tr: Transcript<V>)
    requires IsValueSearch(seeds, self, key, k, alpha, arrivals, value, tr)
    ensures IsSearch(seeds, self, key, k, alpha, arrivals, true, tr)
  {
    ValueIsLast(tr, value);
  }

  lemma ValueIsLast<V>(tr: Transcript<V>, value: Option<V>)
    requires if value.None? then NoValueIn(tr) else EndsWithFirstValue(tr, value.value)
    ensures ValueOnlyLast(tr) && (EndsWithValue(tr) <==> value.Some?)
  {
    assert value.Some? ==> forall r :: 0 <= r < |tr| - 1 ==> tr[..|tr| - 1][r] == tr[r];
  }
}
