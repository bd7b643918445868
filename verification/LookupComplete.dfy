/**
 When a node lookup is complete (`iterativeFindNode` in internal/dht/dht.go).

 Replies are appended with their duplicates before the candidates are cut, so the k closest contacts
 that a lookup learned need not all come back.  This module says exactly when they do, in terms of
 the replies alone, and gives a lookup that does not return them.
 */
module LookupComplete {
  import opened Common
  import opened NodeIds
  import opened Routing
  import opened Nearest
  import opened Lookup

  /** The identifiers strictly nearer to the target than this one. */
  function NearerIds(ids: set<NodeId>, target: NodeId, id: NodeId): set<NodeId> {
    set x | x in ids && Dist(x, target) < Dist(id, target)
  }

  /**
   Repetitions take the place of an identifier that is among the k nearest: fewer than k identifiers
   are nearer, but k offers are.
   */
  ghost predicate Crowded(ids: set<NodeId>, offers: seq<NodeContact>, target: NodeId, k: nat) {
    exists id :: id in ids && |NearerIds(ids, target, id)| < k <= Nearer(offers, target, Dist(id, target))
  }

  /** The min(k, |ids|) nearest of the identifiers, nearest first: every other one is strictly farther. */
  ghost predicate IsKNearestOf(ids: set<NodeId>, target: NodeId, k: nat, found: seq<NodeContact>) {
    && |found| == Min(k, |ids|)
    && StrictlyAscending(found, target)
    && (forall i :: 0 <= i < |found| ==> found[i].id in ids)
    && forall id, i :: id in ids && !HasId(found, id) && 0 <= i < |found| ==>
          Dist(found[i].id, target) < Dist(id, target)
  }

  function FoundIds(found: seq<NodeContact>): (r: set<NodeId>)
    ensures forall i :: 0 <= i < |found| ==> found[i].id in r
    ensures forall id :: id in r ==> HasId(found, id)
  {
    IdSet(set c | c in found)
  }

  lemma {:induction false} FoundIdsCount(found: seq<NodeContact>)
    requires DistinctIds(found)
    ensures |FoundIds(found)| == |found|
  {
    if found != [] {
      var n := |found| - 1;
      FoundIdsCount(found[..n]);
      LastId(found);
      assert !HasId(found[..n], found[n].id);
    }
  }

  lemma LastId(found: seq<NodeContact>)
    requires found != []
    ensures FoundIds(found) == FoundIds(found[..|found| - 1]) + {found[|found| - 1].id}
  {
    var n := |found| - 1;
    var contacts, before := set c | c in found, set c | c in found[..n];
    assert found == found[..n] + [found[n]];
    assert contacts == before + {found[n]};
    assert IdSet(contacts) == IdSet(before) + {found[n].id};
  }

  lemma {:induction false} NearerGrows(s: seq<NodeContact>, target: NodeId, d: nat, e: nat)
    requires d <= e
    ensures Nearer(s, target, d) <= Nearer(s, target, e)
  {
    if s != [] {
      NearerGrows(s[..|s| - 1], target, d, e);
    }
  }

  /** What is left out is strictly farther than everything returned. */
  lemma LeftOutIsFarther(offers: seq<NodeContact>, target: NodeId, k: nat, found: seq<NodeContact>, id: NodeId, i: nat)
    requires FoundExactly(offers, target, k, found) && HasId(offers, id) && !HasId(found, id) && i < |found|
    ensures Dist(found[i].id, target) < Dist(id, target)
  {
    assert HasId(found, found[i].id);
    if Dist(id, target) <= Dist(found[i].id, target) {
      NearerGrows(offers, target, Dist(id, target), Dist(found[i].id, target));
    }
  }

  /** Some identifier is left out although everything nearer is returned. */
  lemma {:induction false} NearestLeftOut(ids: set<NodeId>, target: NodeId, found: seq<NodeContact>, id: NodeId)
    returns (x: NodeId)
    requires id in ids && !HasId(found, id)
    ensures x in ids && !HasId(found, x) && NearerIds(ids, target, x) <= FoundIds(found)
    decreases Dist(id, target)
  {
    if NearerIds(ids, target, id) <= FoundIds(found) {
      x := id;
    } else {
      var y :| y in NearerIds(ids, target, id) && y !in FoundIds(found);
      x := NearestLeftOut(ids, target, found, y);
    }
  }

  /**
   A lookup that was not cut short returns exactly the min(k, number of learned identifiers) nearest
   of the identifiers it learned if and only if no repetition in the replies crowds one of them out.
   */
  lemma CompleteIff<V>(seeds: seq<NodeContact>, tr: Transcript<V>, self: NodeId, target: NodeId, k: nat,
                       found: seq<NodeContact>)
    requires SameIds(Offers(seeds, tr, self), Learned(seeds, tr, self)) && |found| <= k
    requires FoundExactly(Offers(seeds, tr, self), target, k, found) && StrictlyAscending(found, target)
    ensures var ids := IdSet(Learned(seeds, tr, self));
            IsKNearestOf(ids, target, k, found) <==> !Crowded(ids, Offers(seeds, tr, self), target, k)
  {
    CompleteWhenNotCrowded(IdSet(Learned(seeds, tr, self)), Offers(seeds, tr, self), target, k, found);
    IncompleteWhenCrowded(IdSet(Learned(seeds, tr, self)), Offers(seeds, tr, self), target, k, found);
  }

  ghost predicate Answers(ids: set<NodeId>, offers: seq<NodeContact>, target: NodeId, k: nat, found: seq<NodeContact>) {
    && (forall id :: HasId(offers, id) <==> id in ids)
    && FoundExactly(offers, target, k, found) && StrictlyAscending(found, target) && |found| <= k
  }

  lemma CompleteWhenNotCrowded(ids: set<NodeId>, offers: seq<NodeContact>, target: NodeId, k: nat,
                               found: seq<NodeContact>)
    requires Answers(ids, offers, target, k, found)
    ensures !Crowded(ids, offers, target, k) ==> IsKNearestOf(ids, target, k, found)
  {
    FoundIdsCount(found);
    FoundAreOffered(ids, offers, target, k, found);
    SubsetSize(FoundIds(found), ids);
    forall id, i | id in ids && !HasId(found, id) && 0 <= i < |found|
      ensures Dist(found[i].id, target) < Dist(id, target)
    {
      LeftOutIsFarther(offers, target, k, found, id, i);
    }
    if !Crowded(ids, offers, target, k) && FoundIds(found) != ids {
      var id :| id in ids && id !in FoundIds(found);
      assert !HasId(found, id);
      var x := NearestLeftOut(ids, target, found, id);
      assert k <= Nearer(offers, target, Dist(x, target));
      assert k <= |NearerIds(ids, target, x)|;
      SubsetSize(NearerIds(ids, target, x), FoundIds(found));
    }
  }

  lemma FoundAreOffered(ids: set<NodeId>, offers: seq<NodeContact>, target: NodeId, k: nat, found: seq<NodeContact>)
    requires Answers(ids, offers, target, k, found)
    ensures FoundIds(found) <= ids && forall i :: 0 <= i < |found| ==> found[i].id in ids
  {
    forall i | 0 <= i < |found|
      ensures found[i].id in ids
    {
      assert HasId(found, found[i].id);
    }
  }

  lemma IncompleteWhenCrowded(ids: set<NodeId>, offers: seq<NodeContact>, target: NodeId, k: nat,
                              found: seq<NodeContact>)
    requires Answers(ids, offers, target, k, found)
    ensures Crowded(ids, offers, target, k) ==> !IsKNearestOf(ids, target, k, found)
  {
    if Crowded(ids, offers, target, k) && IsKNearestOf(ids, target, k, found) {
      var id :| id in ids && |NearerIds(ids, target, id)| < k <= Nearer(offers, target, Dist(id, target));
      FoundIdsCount(found);
      FoundAreOffered(ids, offers, target, k, found);
      assert !HasId(found, id);
      SubsetSize(FoundIds(found) + {id}, ids);
      forall x | x in FoundIds(found)
        ensures x in NearerIds(ids, target, id)
      {
        var i :| 0 <= i < |found| && found[i].id == x;
        LeftOutIsFarther(offers, target, k, found, id, i);
      }
      SubsetSize(FoundIds(found), NearerIds(ids, target, id));
      assert false;
    }
  }

  /** If no identifier is offered twice, nothing is crowded out. */
  lemma DistinctOffersNeverCrowd(ids: set<NodeId>, offers: seq<NodeContact>, target: NodeId, k: nat)
    requires DistinctIds(offers) && forall id :: HasId(offers, id) ==> id in ids
    ensures !Crowded(ids, offers, target, k)
  {
    forall id
      ensures Nearer(offers, target, Dist(id, target)) <= |NearerIds(ids, target, id)|
    {
      NearerOffers(ids, offers, target, id);
    }
  }

  lemma {:induction false} NearerOffers(ids: set<NodeId>, offers: seq<NodeContact>, target: NodeId, id: NodeId)
    requires DistinctIds(offers) && forall x :: HasId(offers, x) ==> x in ids
    ensures Nearer(offers, target, Dist(id, target)) <= |NearerIds(ids, target, id)|
  {
    if offers != [] {
      var n := |offers| - 1;
      var last := offers[n].id;
      assert HasId(offers, last);
      forall x | HasId(offers[..n], x)
        ensures x in ids - {last}
      {
        var j :| 0 <= j < n && offers[..n][j].id == x;
        assert offers[j].id == x;
      }
      NearerOffers(ids - {last}, offers[..n], target, id);
      NearerWithoutOne(ids, last, target, id);
    }
  }

  lemma NearerWithoutOne(ids: set<NodeId>, x: NodeId, target: NodeId, id: NodeId)
    requires x in ids
    ensures |NearerIds(ids, target, id)|
            == |NearerIds(ids - {x}, target, id)| + if Dist(x, target) < Dist(id, target) then 1 else 0
  {
    var nearer := NearerIds(ids - {x}, target, id);
    assert NearerIds(ids, target, id) == if Dist(x, target) < Dist(id, target) then nearer + {x} else nearer;
  }

  // ---------------------------------------------------------------------------------------------
  // A lookup that loses a contact
  // ---------------------------------------------------------------------------------------------

  function Repeated(c: NodeContact, n: nat): (s: seq<NodeContact>)
    ensures |s| == n && forall i :: 0 <= i < n ==> s[i] == c
  {
    if n == 0 then [] else Repeated(c, n - 1) + [c]
  }

  /** The first answer names one contact n times, every later one nobody. */
  function RepeatingNetwork<V>(c: NodeContact, n: nat): (nat, nat) -> Arrival<V> {
    (r, j) => Reply(Answer(if r == 0 && j == 0 then Repeated(c, n) else [], None))
  }

  ghost predicate NamesNobody<V>(round: Round<V>) {
    forall j :: 0 <= j < |round.answers| ==> round.answers[j].nodes == []
  }

  lemma {:induction false} NewOfRepeated(c: NodeContact, n: nat, self: NodeId, queried: set<NodeId>)
    requires c.id != self && c.id !in queried
    ensures New(Repeated(c, n), self, queried) == Repeated(c, n)
  {
    if n > 0 {
      NewOfRepeated(c, n - 1, self, queried);
      NewSnoc(Repeated(c, n - 1), c, self, queried);
    }
  }

  /** A round whose first answer repeats one contact and whose other answers name nobody. */
  lemma OneRepeats<V>(answers: seq<Answer<V>>, c: NodeContact, n: nat, self: NodeId, queried: set<NodeId>)
    requires c.id != self && c.id !in queried && n >= 1
    requires answers != [] && answers[0].nodes == Repeated(c, n)
    requires forall j :: 1 <= j < |answers| ==> answers[j].nodes == []
    ensures NewOf(answers, self, queried) == Repeated(c, n) && Named(answers, self) == {c}
  {
    NewOfRepeated(c, n, self, queried);
    OneThenNobody(answers, self, queried);
    NamedByOne(answers[0].nodes, c, self);
  }

  lemma NamedByOne(nodes: seq<NodeContact>, c: NodeContact, self: NodeId)
    requires c.id != self && nodes != [] && forall i :: 0 <= i < |nodes| ==> nodes[i] == c
    ensures (set x | x in nodes && x.id != self) == {c}
  {
    assert nodes[0] in nodes;
  }

  /** Answers that name nobody add nothing to the first one. */
  lemma {:induction false} OneThenNobody<V>(answers: seq<Answer<V>>, self: NodeId, queried: set<NodeId>)
    requires answers != [] && forall j :: 1 <= j < |answers| ==> answers[j].nodes == []
    ensures NewOf(answers, self, queried) == New(answers[0].nodes, self, queried)
    ensures Named(answers, self) == set c | c in answers[0].nodes && c.id != self
  {
    var m := |answers| - 1;
    if m == 0 {
      assert answers[..0] == [];
    } else {
      OneThenNobody(answers[..m], self, queried);
    }
  }

  lemma {:induction false} NobodyOffers<V>(answers: seq<Answer<V>>, self: NodeId, queried: set<NodeId>)
    requires forall j :: 0 <= j < |answers| ==> answers[j].nodes == []
    ensures NewOf(answers, self, queried) == [] && Named(answers, self) == {}
  {
    if answers != [] {
      NobodyOffers(answers[..|answers| - 1], self, queried);
    }
  }

  lemma {:induction false} NothingAfterFirst<V>(seeds: seq<NodeContact>, tr: Transcript<V>, self: NodeId)
    requires tr != [] && forall r :: 1 <= r < |tr| ==> NamesNobody(tr[r])
    ensures Offers(seeds, tr, self) == Offers(seeds, tr[..1], self)
    ensures Learned(seeds, tr, self) == Learned(seeds, tr[..1], self)
  {
    var n := |tr| - 1;
    if n == 0 {
      assert tr[..1] == tr;
    } else {
      var before := tr[..n];
      assert before[..1] == tr[..1];
      NothingInLast(seeds, tr, self);
      NothingAfterFirst(seeds, before, self);
    }
  }

  lemma NothingInLast<V>(seeds: seq<NodeContact>, tr: Transcript<V>, self: NodeId)
    requires tr != [] && NamesNobody(tr[|tr| - 1])
    ensures Offers(seeds, tr, self) == Offers(seeds, tr[..|tr| - 1], self)
    ensures Learned(seeds, tr, self) == Learned(seeds, tr[..|tr| - 1], self)
  {
    var before, last := tr[..|tr| - 1], tr[|tr| - 1];
    NobodyHeard(seeds, before, last, self);
    assert tr == before + [last];
  }

  lemma NobodyHeard<V>(seeds: seq<NodeContact>, tr: Transcript<V>, round: Round<V>, self: NodeId)
    requires NamesNobody(round)
    ensures Offers(seeds, tr + [round], self) == Offers(seeds, tr, self)
    ensures Learned(seeds, tr + [round], self) == Learned(seeds, tr, self)
  {
    NobodyOffers(round.answers, self, AskedIds(tr + [round]) + {self});
    OffersGrow(seeds, tr, round, self);
    LearnedMore(seeds, tr, round, self);
    assert Offers(seeds, tr, self) + [] == Offers(seeds, tr, self);
  }

  lemma LaterNameNobody<V>(c: NodeContact, n: nat, arrivals: (nat, nat) -> Arrival<V>, tr: Transcript<V>)
    requires arrivals == RepeatingNetwork(c, n) && Records(tr, arrivals, false)
    ensures forall r :: 1 <= r < |tr| ==> NamesNobody(tr[r])
  {
    forall r | 1 <= r < |tr|
      ensures NamesNobody(tr[r])
    {
      assert RecordsRound(tr[r], r, r == |tr| - 1, arrivals, false);
    }
  }

  /** What a lookup from one seed hears from such a network. */
  lemma HeardRepeated<V>(a: NodeContact, b: NodeContact, self: NodeId, target: NodeId, n: nat, alpha: nat,
                         arrivals: (nat, nat) -> Arrival<V>, tr: Transcript<V>)
    requires arrivals == RepeatingNetwork(b, n) && Records(tr, arrivals, false) && GoodRounds(tr, self, alpha)
    requires Greedy([a], tr, self, target) && tr != []
    requires a.id != b.id && b.id != self && n >= 1
    ensures Offers([a], tr, self) == [a] + Repeated(b, n) && Learned([a], tr, self) == {a, b}
  {
    LaterNameNobody(b, n, arrivals, tr);
    NothingAfterFirst([a], tr, self);
    assert GreedyAt([a], tr, self, target, 0) && RecordsRound(tr[0], 0, 0 == |tr| - 1, arrivals, false);
    assert tr[..0] == [] && Learned([a], tr[..0], self) == {a};
    assert 1 <= |tr[0].asked|;
    assert |tr[0].answers| == |tr[0].asked|;
    HeardFirst(a, b, self, n, arrivals, tr[0]);
    assert tr[..1] == [tr[0]];
  }

  lemma HeardFirst<V>(a: NodeContact, b: NodeContact, self: NodeId, n: nat, arrivals: (nat, nat) -> Arrival<V>,
                      round: Round<V>)
    requires arrivals == RepeatingNetwork(b, n) && a.id != b.id && b.id != self && n >= 1
    requires round.answers != [] && IdsIn(round.asked) <= {a.id}
    requires forall j :: 0 <= j < |round.answers| ==> arrivals(0, j) == Reply(round.answers[j])
    ensures Offers([a], [round], self) == [a] + Repeated(b, n) && Learned([a], [round], self) == {a, b}
  {
    var tr := [round];
    assert tr[..0] == [];
    assert AskedIds(tr) == IdsIn(round.asked);
    OneRepeats(round.answers, b, n, self, AskedIds(tr) + {self});
  }

  /**
   Duplicates crowd out, for every k >= 2: a lookup that starts from one contact and is told k times
   of one that is nearer learns two identifiers and returns one.
   */
  method DuplicatesCrowdOut<V>(a: NodeContact, b: NodeContact, self: NodeId, target: NodeId, k: nat, alpha: nat)
    returns (found: seq<NodeContact>, tr: Transcript<V>)
    requires k >= 2 && alpha >= 1 && a.id != self && b.id != self && Dist(b.id, target) < Dist(a.id, target)
    ensures Records(tr, RepeatingNetwork(b, k), false) && !CutShort(tr)
    ensures IdSet(Learned([a], tr, self)) == {a.id, b.id}
    ensures found == [b]
  {
    var network: (nat, nat) -> Arrival<V> := RepeatingNetwork(b, k);
    var candidates;
    found, tr, candidates := FindNode([a], self, target, k, alpha, network);
    NeverExpires(b, k, network, tr);
    SomebodyIsAsked(a, self, target, k, alpha, tr);
    HeardRepeated(a, b, self, target, k, alpha, network, tr);
    CrowdedOut(a, b, target, k, Offers([a], tr, self), Learned([a], tr, self), found);
  }

  lemma CrowdedOut(a: NodeContact, b: NodeContact, target: NodeId, k: nat, offers: seq<NodeContact>,
                   learned: set<NodeContact>, found: seq<NodeContact>)
    requires k >= 1 && Dist(b.id, target) < Dist(a.id, target)
    requires offers == [a] + Repeated(b, k) && learned == {a, b}
    requires FoundExactly(offers, target, k, found) && StrictlyAscending(found, target)
    requires forall c :: c in found ==> c in learned
    ensures IdSet(learned) == {a.id, b.id} && found == [b]
  {
    OnlyTheRepeated(a, b, target, k, found);
  }

  lemma SomebodyIsAsked<V>(a: NodeContact, self: NodeId, target: NodeId, k: nat, alpha: nat, tr: Transcript<V>)
    requires Ended([a], tr, self, target, k, alpha) && !CutShort(tr)
    ensures tr != []
  {}

  lemma NeverExpires<V>(c: NodeContact, n: nat, arrivals: (nat, nat) -> Arrival<V>, tr: Transcript<V>)
    requires arrivals == RepeatingNetwork(c, n) && Records(tr, arrivals, false)
    ensures !CutShort(tr)
  {
    if tr != [] {
      var r := |tr| - 1;
      assert RecordsRound(tr[r], r, true, arrivals, false);
    }
  }

  lemma OnlyTheRepeated(a: NodeContact, b: NodeContact, target: NodeId, k: nat, found: seq<NodeContact>)
    requires k >= 1 && Dist(b.id, target) < Dist(a.id, target)
    requires FoundExactly([a] + Repeated(b, k), target, k, found) && StrictlyAscending(found, target)
    requires forall c :: c in found ==> c in {a, b}
    ensures found == [b]
  {
    CountsOfRepeated(a, b, target, k);
    assert ([a] + Repeated(b, k))[1].id == b.id;
    assert HasId(found, b.id) && !HasId(found, a.id);
    OnlyOneLeft(a, b, target, found);
  }

  lemma CountsOfRepeated(a: NodeContact, b: NodeContact, target: NodeId, k: nat)
    requires Dist(b.id, target) < Dist(a.id, target)
    ensures Nearer([a] + Repeated(b, k), target, Dist(a.id, target)) == k
    ensures Nearer([a] + Repeated(b, k), target, Dist(b.id, target)) == 0
  {
    NearerSplit([a], Repeated(b, k), target, Dist(a.id, target));
    NearerAtMostAll(Repeated(b, k), target, Dist(a.id, target));
    NearerSplit([a], Repeated(b, k), target, Dist(b.id, target));
    NoneNearerThanItself(b, k, target);
  }

  lemma OnlyOneLeft(a: NodeContact, b: NodeContact, target: NodeId, found: seq<NodeContact>)
    requires StrictlyAscending(found, target) && HasId(found, b.id) && !HasId(found, a.id)
    requires forall c :: c in found ==> c in {a, b}
    ensures found == [b]
  {
    forall c
      ensures c in found <==> c in [b]
    {
      if c in found {
        var i :| 0 <= i < |found| && found[i] == c;
      }
      var j :| 0 <= j < |found| && found[j].id == b.id;
      assert found[j] in found;
    }
    AscendingListsOfOneSetAgree(found, [b], target);
  }

  lemma {:induction false} NoneNearerThanItself(c: NodeContact, n: nat, target: NodeId)
    ensures Nearer(Repeated(c, n), target, Dist(c.id, target)) == 0
  {
    if n > 0 {
      NoneNearerThanItself(c, n - 1, target);
      NearerSnoc(Repeated(c, n - 1), c, target, Dist(c.id, target));
    }
  }
}
