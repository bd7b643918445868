/**
 The iterative lookups (`iterativeFindNode` and `iterativeFindValue` in internal/dht/dht.go).

 The network is an arbitrary function: the j-th answer received in round r is `arrivals(r, j)`,
 which is a reply with any contents (an error or an empty reply is one without contacts) or the
 expiry of the lookup timeout.  Nothing is assumed about it, so every order of arrival and every
 behaviour of the other nodes is covered.  A lookup returns its transcript: whom it asked in every
 round and which replies it collected.
 */
module Lookup {
  import opened Common
  import opened NodeIds
  import opened Routing
  import opened Nearest

  datatype Answer<V> = Answer(nodes: seq<NodeContact>, value: Option<V>)

  datatype Arrival<V> = TimedOut | Reply(answer: Answer<V>)

  datatype Round<V> = Round(asked: seq<NodeId>, answers: seq<Answer<V>>)

  type Transcript<V> = seq<Round<V>>

  /** Every round asks at least one and at most alpha times, and no identifier is asked in two rounds. */
  ghost predicate GoodRounds<V>(tr: Transcript<V>, self: NodeId, alpha: nat) {
    && (forall r :: 0 <= r < |tr| ==> 1 <= |tr[r].asked| <= alpha && self !in tr[r].asked)
    && (forall r, q, x :: 0 <= r < q < |tr| && x in tr[r].asked ==> x !in tr[q].asked)
  }

  /**
   The transcript records the arrivals, in order and without gaps.  A round has fewer answers than
   requests only if it is the last one and the timeout expired or a wanted value had come.
   */
  ghost predicate Records<V>(tr: Transcript<V>, arrivals: (nat, nat) -> Arrival<V>, wantValue: bool) {
    forall r :: 0 <= r < |tr| ==> RecordsRound(tr[r], r, r == |tr| - 1, arrivals, wantValue)
  }

  ghost predicate RecordsRound<V>(round: Round<V>, r: nat, last: bool, arrivals: (nat, nat) -> Arrival<V>,
                                  wantValue: bool) {
    && |round.answers| <= |round.asked|
    && (forall j :: 0 <= j < |round.answers| ==> arrivals(r, j) == Reply(round.answers[j]))
    && (|round.answers| < |round.asked| ==>
          last && (arrivals(r, |round.answers|).TimedOut? || (wantValue && LastHasValue(round.answers))))
  }

  predicate LastHasValue<V>(answers: seq<Answer<V>>) {
    answers != [] && answers[|answers| - 1].value.Some?
  }

  /** The contacts, other than self, named in the answers. */
  function Named<V>(answers: seq<Answer<V>>, self: NodeId): set<NodeContact> {
    if answers == [] then {}
    else Named(answers[..|answers| - 1], self) + (set c | c in answers[|answers| - 1].nodes && c.id != self)
  }

  /** The seeds and all contacts, other than self, named in collected replies. */
  function Learned<V>(seeds: seq<NodeContact>, tr: Transcript<V>, self: NodeId): set<NodeContact> {
    if tr == [] then set c | c in seeds
    else Learned(seeds, tr[..|tr| - 1], self) + Named(tr[|tr| - 1].answers, self)
  }

  function IdSet(s: set<NodeContact>): set<NodeId> {
    set c | c in s :: c.id
  }

  /** Some entry of s is at least as near to the target as the identifier. */
  ghost predicate Covers(s: seq<NodeContact>, target: NodeId, id: NodeId) {
    exists i :: 0 <= i < |s| && Dist(s[i].id, target) <= Dist(id, target)
  }

  // ---------------------------------------------------------------------------------------------
  // Counting: lookups end, and after how many rounds
  // ---------------------------------------------------------------------------------------------

  lemma {:induction false} AtMostAllIds(s: set<NodeId>, bound: nat)
    requires forall id :: id in s ==> Value(id) < bound
    ensures |s| <= bound
  {
    if bound > 0 {
      var top := set id | id in s && Value(id) == bound - 1;
      var rest := s - top;
      forall id | id in rest
        ensures Value(id) < bound - 1
      {
        assert id in s && id !in top;
      }
      AtMostAllIds(rest, bound - 1);
      AtMostOne(top, bound - 1);
      assert s == rest + top;
    } else {
      assert forall id :: id in s ==> Value(id) < 0;
      assert s == {};
    }
  }

  lemma AtMostOne(s: set<NodeId>, v: nat)
    requires forall id :: id in s ==> Value(id) == v
    ensures |s| <= 1
  {
    if s != {} {
      var id :| id in s;
      forall x | x in s
        ensures x == id
      {
        ValueInjective(x, id);
      }
      assert s == {id};
    }
  }

  /** Identifiers have 256 bits, so whatever the replies name, only finitely many can be asked. */
  lemma QueriedIsBounded(queried: set<NodeId>)
    ensures |queried| <= Pow2(ID_BITS)
  {
    forall id | id in queried
      ensures Value(id) < Pow2(ID_BITS)
    {
      ValueBelowPow2(id);
    }
    AtMostAllIds(queried, Pow2(ID_BITS));
  }

  /** There are at most as many rounds as identifiers that can be learned. */
  lemma {:induction false} RoundsAtMostIds<V>(tr: Transcript<V>, self: NodeId, alpha: nat, ids: set<NodeId>)
    requires GoodRounds(tr, self, alpha)
    requires forall r, x :: 0 <= r < |tr| && x in tr[r].asked ==> x in ids
    ensures |tr| <= |ids|
  {
    if tr != [] {
      var n := |tr| - 1;
      var x := tr[n].asked[0];
      assert x in tr[n].asked;
      assert forall r :: 0 <= r < n ==> tr[..n][r] == tr[r];
      RoundsAtMostIds(tr[..n], self, alpha, ids - {x});
    }
  }

  // ---------------------------------------------------------------------------------------------
  // The pieces of a round
  // ---------------------------------------------------------------------------------------------

  /** The contacts whose identifier is not in the set, in order and with repetitions. */
  function NotIn(s: seq<NodeContact>, ids: set<NodeId>): seq<NodeContact> {
    if s == [] then []
    else NotIn(s[..|s| - 1], ids) + if s[|s| - 1].id in ids then [] else [s[|s| - 1]]
  }

  /** At most the first n. */
  function FirstOf<T>(s: seq<T>, n: nat): seq<T> {
    if |s| > n then s[..n] else s
  }

  lemma {:induction false} NotInMembers(s: seq<NodeContact>, ids: set<NodeId>)
    ensures forall c :: c in NotIn(s, ids) <==> c in s && c.id !in ids
  {
    if s != [] {
      assert s == s[..|s| - 1] + [s[|s| - 1]];
      NotInMembers(s[..|s| - 1], ids);
    }
  }

  lemma {:induction false} NotInAscending(s: seq<NodeContact>, ids: set<NodeId>, target: NodeId)
    requires Ascending(s, target)
    ensures Ascending(NotIn(s, ids), target)
  {
    if s != [] {
      var front := s[..|s| - 1];
      NotInAscending(front, ids, target);
      NotInMembers(front, ids);
      forall c | c in NotIn(front, ids)
        ensures Dist(c.id, target) <= Dist(s[|s| - 1].id, target)
      {
        var i :| 0 <= i < |front| && front[i] == c;
      }
    }
  }

  /** The first alpha candidates that were not asked; of candidates in ascending order, the nearest. */
  method PickUnqueried(result: seq<NodeContact>, queried: set<NodeId>, alpha: nat, ghost target: NodeId)
    returns (toQuery: seq<NodeContact>)
    requires alpha >= 1
    ensures toQuery == FirstOf(NotIn(result, queried), alpha)
    ensures |toQuery| == alpha || forall c :: c in result && c.id !in queried ==> c in toQuery
    ensures forall i :: 0 <= i < |toQuery| ==> toQuery[i] in result && toQuery[i].id !in queried
    ensures toQuery == [] ==> forall i :: 0 <= i < |result| ==> result[i].id in queried
    ensures Ascending(result, target) ==> PickedNearest(result, queried, toQuery, target)
  {
    toQuery := [];
    for i := 0 to |result|
      invariant toQuery == NotIn(result[..i], queried)
    {
      assert result[..i + 1][..i] == result[..i];
      if result[i].id !in queried {
        toQuery := toQuery + [result[i]];
      }
    }
    assert result[..|result|] == result;
    NotInMembers(result, queried);
    if Ascending(result, target) {
      NotInAscending(result, queried, target);
    }
    if |toQuery| > alpha {
      toQuery := toQuery[..alpha];
    }
    if toQuery == [] {
      NothingUnqueried(result, queried);
    }
  }

  lemma NothingUnqueried(s: seq<NodeContact>, ids: set<NodeId>)
    requires NotIn(s, ids) == []
    ensures forall i :: 0 <= i < |s| ==> s[i].id in ids
  {
    NotInMembers(s, ids);
    forall i | 0 <= i < |s|
      ensures s[i].id in ids
    {
      assert s[i] in s && s[i] !in NotIn(s, ids);
    }
  }

  /** The contacts picked are at least as near as every other candidate that was not asked. */
  ghost predicate PickedNearest(result: seq<NodeContact>, queried: set<NodeId>, toQuery: seq<NodeContact>,
                                target: NodeId) {
    forall i, c :: 0 <= i < |toQuery| && c in result && c.id !in queried && c !in toQuery ==>
      Dist(toQuery[i].id, target) <= Dist(c.id, target)
  }

  function IdsOf(s: seq<NodeContact>): (ids: seq<NodeId>)
    ensures |ids| == |s| && forall i :: 0 <= i < |s| ==> ids[i] == s[i].id
  {
    seq(|s|, i requires 0 <= i < |s| => s[i].id)
  }

  /** Appends the contacts of one reply that are neither self nor already asked. */
  method Append(result: seq<NodeContact>, nodes: seq<NodeContact>, self: NodeId, queried: set<NodeId>)
    returns (extended: seq<NodeContact>)
    ensures extended == result + New(nodes, self, queried)
  {
    extended := result;
    for i := 0 to |nodes|
      invariant extended == result + New(nodes[..i], self, queried)
    {
      assert nodes[..i + 1][..i] == nodes[..i];
      if nodes[i].id != self && nodes[i].id !in queried {
        extended := extended + [nodes[i]];
      }
    }
    assert nodes[..|nodes|] == nodes;
  }

  /** The contacts that are neither self nor asked, in order and with repetitions. */
  function New(nodes: seq<NodeContact>, self: NodeId, queried: set<NodeId>): seq<NodeContact> {
    if nodes == [] then []
    else
      var last := nodes[|nodes| - 1];
      New(nodes[..|nodes| - 1], self, queried) + if last.id == self || last.id in queried then [] else [last]
  }

  lemma NewSnoc(nodes: seq<NodeContact>, c: NodeContact, self: NodeId, queried: set<NodeId>)
    ensures New(nodes + [c], self, queried)
            == New(nodes, self, queried) + if c.id == self || c.id in queried then [] else [c]
  {
    assert (nodes + [c])[..|nodes|] == nodes;
  }

  lemma {:induction false} NewMembers(nodes: seq<NodeContact>, self: NodeId, queried: set<NodeId>)
    ensures forall c :: c in New(nodes, self, queried) <==> c in nodes && c.id != self && c.id !in queried
  {
    if nodes != [] {
      assert nodes == nodes[..|nodes| - 1] + [nodes[|nodes| - 1]];
      NewMembers(nodes[..|nodes| - 1], self, queried);
    }
  }

  /** The contacts of all answers that are neither self nor asked, in order and with repetitions. */
  function NewOf<V>(answers: seq<Answer<V>>, self: NodeId, queried: set<NodeId>): seq<NodeContact> {
    if answers == [] then []
    else NewOf(answers[..|answers| - 1], self, queried) + New(answers[|answers| - 1].nodes, self, queried)
  }

  lemma {:induction false} NewOfMembers<V>(answers: seq<Answer<V>>, self: NodeId, queried: set<NodeId>)
    ensures forall c :: c in NewOf(answers, self, queried) <==> c in Named(answers, self) && c.id !in queried
  {
    if answers != [] {
      NewOfMembers(answers[..|answers| - 1], self, queried);
      NewMembers(answers[|answers| - 1].nodes, self, queried);
    }
  }

  lemma NewOfGrows<V>(result: seq<NodeContact>, answers: seq<Answer<V>>, answer: Answer<V>, self: NodeId,
                      queried: set<NodeId>)
    ensures result + NewOf(answers + [answer], self, queried)
            == result + NewOf(answers, self, queried) + New(answer.nodes, self, queried)
  {
    assert (answers + [answer])[..|answers|] == answers;
  }

  datatype Stop<V> = Continue | Expired | Answered(value: V)

  /** Only the answer that stopped the round carries a value. */
  ghost predicate ValueOnlyAtStop<V>(answers: seq<Answer<V>>, stop: Stop<V>) {
    if stop.Answered? then
      && answers != [] && answers[|answers| - 1].value == Some(stop.value)
      && forall j :: 0 <= j < |answers| - 1 ==> answers[j].value.None?
    else forall j :: 0 <= j < |answers| ==> answers[j].value.None?
  }

  /**
   Collects the answers of one round, until all have come, the timeout expires or, when a value is
   wanted, an answer carries one.
   */
  method Collect<V>(result: seq<NodeContact>, self: NodeId, queried: set<NodeId>, r: nat, asked: seq<NodeId>,
                    arrivals: (nat, nat) -> Arrival<V>, wantValue: bool)
    returns (extended: seq<NodeContact>, stop: Stop<V>, answers: seq<Answer<V>>)
    ensures RecordsRound(Round(asked, answers), r, true, arrivals, wantValue)
    ensures stop.Continue? ==> |answers| == |asked|
    ensures stop.Answered? ==> wantValue
    ensures wantValue ==> ValueOnlyAtStop(answers, stop)
    ensures !stop.Answered? ==> extended == result + NewOf(answers, self, queried)
    ensures !stop.Answered? ==> Gathered(result, extended, Named(answers, self), queried)
    ensures stop.Expired? ==> |answers| < |asked|
  {
    extended := result;
    answers := [];
    stop := Continue;
    while |answers| < |asked| && stop.Continue?
      invariant Progress(answers, stop, r, |asked|, arrivals, wantValue)
      invariant !stop.Answered? ==> extended == result + NewOf(answers, self, queried)
      decreases |asked| - |answers|, stop.Continue?
    {
      var arrival := arrivals(r, |answers|);
      if arrival.TimedOut? {
        stop := Expired;
      } else {
        var answer := arrival.answer;
        if wantValue && answer.value.Some? {
          stop := Answered(answer.value.value);
        } else {
          extended := Append(extended, answer.nodes, self, queried);
          NewOfGrows(result, answers, answer, self, queried);
        }
        AnswerTaken(answers, answer, stop, r, |asked|, arrivals, wantValue);
        answers := answers + [answer];
      }
    }
    if !stop.Answered? {
      GatheredIs(result, answers, self, queried);
    }
  }

  /** How far the collection of a round has come and why it stopped, if it has. */
  ghost predicate Progress<V>(answers: seq<Answer<V>>, stop: Stop<V>, r: nat, asked: nat,
                              arrivals: (nat, nat) -> Arrival<V>, wantValue: bool) {
    && RecordsSoFar(answers, r, asked, arrivals)
    && (stop.Expired? ==> |answers| < asked && arrivals(r, |answers|).TimedOut?)
    && (stop.Answered? ==> wantValue)
    && (wantValue ==> ValueOnlyAtStop(answers, stop))
  }

  lemma AnswerTaken<V>(answers: seq<Answer<V>>, answer: Answer<V>, stop: Stop<V>, r: nat, asked: nat,
                       arrivals: (nat, nat) -> Arrival<V>, wantValue: bool)
    requires Progress(answers, Continue, r, asked, arrivals, wantValue)
    requires |answers| < asked && arrivals(r, |answers|) == Reply(answer)
    requires stop == if wantValue && answer.value.Some? then Answered(answer.value.value) else Continue
    ensures Progress(answers + [answer], stop, r, asked, arrivals, wantValue)
  {}

  ghost predicate RecordsSoFar<V>(answers: seq<Answer<V>>, r: nat, asked: nat, arrivals: (nat, nat) -> Arrival<V>) {
    |answers| <= asked && forall j :: 0 <= j < |answers| ==> arrivals(r, j) == Reply(answers[j])
  }

  /** Every named contact that was not asked before is among the candidates. */
  ghost predicate AllNew(extended: seq<NodeContact>, named: set<NodeContact>, queried: set<NodeId>) {
    forall c :: c in named && c.id !in queried ==> c in extended
  }

  /** The candidates grew by exactly the named contacts not asked before, and grew if there are any. */
  ghost predicate Gathered(result: seq<NodeContact>, extended: seq<NodeContact>, named: set<NodeContact>,
                           queried: set<NodeId>) {
    && result <= extended
    && AllNew(extended, named, queried)
    && OnlyNew(result, extended, named, queried)
    && (|extended| == |result| ==> NoneNew(named, queried))
  }

  ghost predicate NoneNew(named: set<NodeContact>, queried: set<NodeId>) {
    forall c :: c in named ==> c.id in queried
  }

  /** Only such contacts were added. */
  ghost predicate OnlyNew(result: seq<NodeContact>, extended: seq<NodeContact>, named: set<NodeContact>,
                          queried: set<NodeId>) {
    forall c :: c in extended ==> c in result || (c in named && c.id !in queried)
  }

  lemma GatheredIs<V>(result: seq<NodeContact>, answers: seq<Answer<V>>, self: NodeId, queried: set<NodeId>)
    ensures Gathered(result, result + NewOf(answers, self, queried), Named(answers, self), queried)
  {
    var news := NewOf(answers, self, queried);
    NewOfMembers(answers, self, queried);
    if |news| == 0 {
      forall c | c in Named(answers, self)
        ensures c.id in queried
      {
        assert c !in news;
      }
    }
  }

  /** Sort by distance and keep the k closest: contacts may be lost, but never the nearest one. */
  method SortAndCut(s: seq<NodeContact>, target: NodeId, k: nat) returns (r: seq<NodeContact>)
    requires k >= 1
    ensures IsNearest(s, target, k, r)
    ensures forall c :: c in r ==> c in s
    ensures forall id :: Covers(s, target, id) ==> Covers(r, target, id)
    ensures DistinctIds(s) ==> DistinctIds(r)
    ensures KNearest(s, target, k, r)
  {
    var sorted := SortByDistance(s, target);
    SameLength(s, sorted);
    assert sorted[..|sorted|] == sorted;
    var n := if |sorted| > k then k else |sorted|;
    r := sorted[..n];
    SortedPrefixIsNearest(s, sorted, target, k, n);
    CutCovers(s, sorted, target, n);
    SortedPrefixIsKNearest(s, sorted, target, k, n);
  }

  lemma SameLength<T>(s: seq<T>, t: seq<T>)
    requires multiset(s) == multiset(t)
    ensures |s| == |t|
  {
    assert |multiset(s)| == |multiset(t)|;
  }

  lemma CutCovers(s: seq<NodeContact>, sorted: seq<NodeContact>, target: NodeId, n: nat)
    requires multiset(s) == multiset(sorted) && Ascending(sorted, target)
    requires n <= |sorted| && (sorted != [] ==> n >= 1)
    ensures forall c :: c in sorted[..n] ==> c in s
    ensures forall id :: Covers(s, target, id) ==> Covers(sorted[..n], target, id)
    ensures DistinctIds(s) ==> DistinctIds(sorted[..n])
  {
    forall c | c in sorted
      ensures c in s
    {
      assert c in multiset(sorted);
    }
    forall id | Covers(s, target, id)
      ensures Covers(sorted[..n], target, id)
    {
      var i :| 0 <= i < |s| && Dist(s[i].id, target) <= Dist(id, target);
      assert s[i] in multiset(sorted);
      var j :| 0 <= j < |sorted| && sorted[j] == s[i];
      assert Dist(sorted[..n][0].id, target) <= Dist(id, target);
    }
    if DistinctIds(s) {
      PermutationKeepsDistinct(s, sorted);
    }
  }

  /** The contact is listed and no earlier one has its identifier. */
  ghost predicate FirstOfItsId(s: seq<NodeContact>, c: NodeContact) {
    exists l :: 0 <= l < |s| && s[l] == c && forall m :: 0 <= m < l ==> s[m].id != c.id
  }

  /** Keeps the first contact of every identifier. */
  method Deduplicate(s: seq<NodeContact>) returns (r: seq<NodeContact>)
    ensures DistinctIds(r)
    ensures forall c :: c in r ==> c in s && FirstOfItsId(s, c)
    ensures forall i :: 0 <= i < |s| ==> HasId(r, s[i].id)
    ensures |r| <= |s| && (DistinctIds(s) ==> r == s)
  {
    r := [];
    var seen: set<NodeId> := {};
    for i := 0 to |s|
      invariant DistinctIds(r)
      invariant forall c :: c in r ==> c in s && FirstOfItsId(s, c)
      invariant forall id :: id in seen <==> HasId(r, id)
      invariant forall l :: 0 <= l < i ==> s[l].id in seen
      invariant |r| <= i && (DistinctIds(s) ==> r == s[..i])
    {
      if s[i].id !in seen {
        ghost var before := r;
        assert FirstOfItsId(s, s[i]);
        seen := seen + {s[i].id};
        r := r + [s[i]];
        assert forall j :: 0 <= j < |before| ==> r[j] == before[j];
        assert r[|before|].id == s[i].id;
      }
    }
  }

  lemma CoversExtends(s: seq<NodeContact>, e: seq<NodeContact>, target: NodeId, id: NodeId)
    requires Covers(s, target, id) && s <= e
    ensures Covers(e, target, id)
  {}

  lemma MemberCovers(s: seq<NodeContact>, target: NodeId, c: NodeContact)
    requires c in s
    ensures Covers(s, target, c.id)
  {}

  // ---------------------------------------------------------------------------------------------
  // What holds between rounds
  // ---------------------------------------------------------------------------------------------

  ghost predicate AskedWithin<V>(tr: Transcript<V>, ids: set<NodeId>) {
    forall r, x :: 0 <= r < |tr| && x in tr[r].asked ==> x in ids
  }

  ghost predicate AllCovered(result: seq<NodeContact>, target: NodeId, ids: set<NodeId>) {
    forall id :: id in ids ==> Covers(result, target, id)
  }

  /** The candidates are learned contacts, and one of them is as near as anything learned or asked. */
  ghost predicate RoundInv<V>(seeds: seq<NodeContact>, self: NodeId, target: NodeId, alpha: nat,
                              tr: Transcript<V>, queried: set<NodeId>, result: seq<NodeContact>) {
    var learned := Learned(seeds, tr, self);
    && GoodRounds(tr, self, alpha)
    && AskedWithin(tr, queried - {self})
    && self in queried
    && queried <= IdSet(learned) + {self}
    && (forall c :: c in result ==> c.id != self && c in learned)
    && AllCovered(result, target, IdSet(learned))
  }

  lemma StartInv<V>(seeds: seq<NodeContact>, self: NodeId, target: NodeId, alpha: nat, tr: Transcript<V>)
    requires tr == [] && forall c :: c in seeds ==> c.id != self
    ensures RoundInv(seeds, self, target, alpha, tr, {self}, seeds)
  {}

  /** The contacts picked for a round and what came of it. */
  ghost predicate RoundDone(self: NodeId, alpha: nat, queried: set<NodeId>, result: seq<NodeContact>,
                               toQuery: seq<NodeContact>, queried': set<NodeId>) {
    && 1 <= |toQuery| <= alpha
    && (forall i :: 0 <= i < |toQuery| ==> toQuery[i] in result && toQuery[i].id !in queried)
    && queried' == queried + IdsIn(IdsOf(toQuery))
  }

  lemma AskedInstance<V>(tr: Transcript<V>, ids: set<NodeId>, r: nat, x: NodeId)
    requires AskedWithin(tr, ids) && r < |tr| && x in tr[r].asked
    ensures x in ids
  {}

  lemma PickedAreAskedOnce<V>(seeds: seq<NodeContact>, self: NodeId, target: NodeId, alpha: nat, tr: Transcript<V>,
                              queried: set<NodeId>, result: seq<NodeContact>, toQuery: seq<NodeContact>,
                              queried': set<NodeId>, answers: seq<Answer<V>>)
    requires RoundInv(seeds, self, target, alpha, tr, queried, result)
    requires RoundDone(self, alpha, queried, result, toQuery, queried')
    ensures GoodRounds(tr + [Round(IdsOf(toQuery), answers)], self, alpha)
    ensures AskedWithin(tr + [Round(IdsOf(toQuery), answers)], queried' - {self})
    ensures queried' <= IdSet(Learned(seeds, tr, self)) + {self}
  {
    var round := Round(IdsOf(toQuery), answers);
    var tr' := tr + [round];
    forall x | x in round.asked
      ensures x !in queried && x in IdSet(Learned(seeds, tr, self))
    {
      var i :| 0 <= i < |toQuery| && round.asked[i] == x;
      assert toQuery[i] in Learned(seeds, tr, self);
    }
    forall r, q, x | 0 <= r < q < |tr'| && x in tr'[r].asked
      ensures x !in tr'[q].asked
    {
      assert tr'[r] == tr[r] && x in tr[r].asked;
      if q < |tr| {
        assert tr'[q] == tr[q];
      } else {
        AskedInstance(tr, queried - {self}, r, x);
        assert tr'[q] == round;
      }
    }
    forall r, x | 0 <= r < |tr'| && x in tr'[r].asked
      ensures x in queried' - {self}
    {
      if r == |tr| {
        assert tr'[r] == round;
      } else {
        assert tr'[r] == tr[r];
        AskedInstance(tr, queried - {self}, r, x);
      }
    }
  }

  /** A round that no value cut short keeps the invariant, also when the timeout cut it short. */
  lemma RoundKeeps<V>(seeds: seq<NodeContact>, self: NodeId, target: NodeId, alpha: nat, tr: Transcript<V>,
                      queried: set<NodeId>, result: seq<NodeContact>, toQuery: seq<NodeContact>,
                      queried': set<NodeId>, answers: seq<Answer<V>>, extended: seq<NodeContact>)
    requires RoundInv(seeds, self, target, alpha, tr, queried, result)
    requires RoundDone(self, alpha, queried, result, toQuery, queried')
    requires result <= extended
    requires AllNew(extended, Named(answers, self), queried')
    requires OnlyNew(result, extended, Named(answers, self), queried')
    ensures RoundInv(seeds, self, target, alpha, tr + [Round(IdsOf(toQuery), answers)], queried', extended)
  {
    var tr' := tr + [Round(IdsOf(toQuery), answers)];
    PickedAreAskedOnce(seeds, self, target, alpha, tr, queried, result, toQuery, queried', answers);
    assert tr'[..|tr|] == tr;
    var learned, learned' := Learned(seeds, tr, self), Learned(seeds, tr', self);
    assert learned' == learned + Named(answers, self);
    NamedIsNotSelf(answers, self);
    forall id | id in IdSet(learned')
      ensures Covers(extended, target, id)
    {
      if id in IdSet(learned) {
        CoversExtends(result, extended, target, id);
      } else {
        var c :| c in Named(answers, self) && c.id == id;
        assert id !in queried';
        MemberCovers(extended, target, c);
      }
    }
  }

  lemma {:induction false} NamedIsNotSelf<V>(answers: seq<Answer<V>>, self: NodeId)
    ensures forall c :: c in Named(answers, self) ==> c.id != self
  {
    if answers != [] {
      NamedIsNotSelf(answers[..|answers| - 1], self);
    }
  }

  lemma CutKeeps<V>(seeds: seq<NodeContact>, self: NodeId, target: NodeId, alpha: nat, tr: Transcript<V>,
                    queried: set<NodeId>, result: seq<NodeContact>, cut: seq<NodeContact>)
    requires RoundInv(seeds, self, target, alpha, tr, queried, result)
    requires forall c :: c in cut ==> c in result
    requires forall id :: Covers(result, target, id) ==> Covers(cut, target, id)
    ensures RoundInv(seeds, self, target, alpha, tr, queried, cut)
  {}

  ghost predicate Full<V>(tr: Transcript<V>) {
    forall r :: 0 <= r < |tr| ==> |tr[r].answers| == |tr[r].asked|
  }

  lemma RecordsGrows<V>(tr: Transcript<V>, arrivals: (nat, nat) -> Arrival<V>, wantValue: bool, round: Round<V>)
    requires Records(tr, arrivals, wantValue) && Full(tr)
    requires RecordsRound(round, |tr|, true, arrivals, wantValue)
    ensures Records(tr + [round], arrivals, wantValue)
  {}

  /** Asking at least one new identifier leaves fewer to ask: the termination measure. */
  lemma MoreQueried(self: NodeId, alpha: nat, queried: set<NodeId>, result: seq<NodeContact>,
                    toQuery: seq<NodeContact>, queried': set<NodeId>)
    requires RoundDone(self, alpha, queried, result, toQuery, queried')
    ensures |queried| < |queried'| <= Pow2(ID_BITS)
  {
    QueriedIsBounded(queried');
    var x := IdsOf(toQuery)[0];
    assert x in queried' && x !in queried;
    SubsetSize(queried + {x}, queried');
  }

  /** One round of either lookup: ask the picked contacts and collect the answers. */
  method AskRound<V>(ghost seeds: seq<NodeContact>, self: NodeId, ghost target: NodeId, ghost alpha: nat,
                     arrivals: (nat, nat) -> Arrival<V>, wantValue: bool,
                     tr: Transcript<V>, queried: set<NodeId>, result: seq<NodeContact>, toQuery: seq<NodeContact>)
    returns (round: Round<V>, queried': set<NodeId>, extended: seq<NodeContact>, stop: Stop<V>)
    requires RoundInv(seeds, self, target, alpha, tr, queried, result)
    requires Records(tr, arrivals, wantValue) && Full(tr)
    requires 1 <= |toQuery| <= alpha
    requires forall i :: 0 <= i < |toQuery| ==> toQuery[i] in result && toQuery[i].id !in queried
    ensures |queried| < |queried'| <= Pow2(ID_BITS)
    ensures Records(tr + [round], arrivals, wantValue)
    ensures stop.Continue? ==> Full(tr + [round])
    ensures GoodRounds(tr + [round], self, alpha) && AskedWithin(tr + [round], IdSet(Learned(seeds, tr, self)))
    ensures !stop.Answered? ==> RoundInv(seeds, self, target, alpha, tr + [round], queried', extended)
    ensures stop.Answered? ==> wantValue
    ensures wantValue ==> ValueOnlyAtStop(round.answers, stop)
    ensures round.asked == IdsOf(toQuery) && queried' == queried + IdsIn(round.asked)
    ensures queried' <= IdSet(Learned(seeds, tr, self)) + {self}
    ensures !stop.Answered? ==> extended == result + NewOf(round.answers, self, queried')
    ensures !stop.Answered? ==> Gathered(result, extended, Named(round.answers, self), queried')
    ensures stop.Expired? ==> |round.answers| < |round.asked|
  {
    queried' := queried + IdsIn(IdsOf(toQuery));
    var answers;
    extended, stop, answers := Collect(result, self, queried', |tr|, IdsOf(toQuery), arrivals, wantValue);
    round := Round(IdsOf(toQuery), answers);
    assert RoundDone(self, alpha, queried, result, toQuery, queried');
    MoreQueried(self, alpha, queried, result, toQuery, queried');
    RecordsGrows(tr, arrivals, wantValue, round);
    PickedAreLearned(seeds, self, target, alpha, tr, queried, result, toQuery, queried', answers);
    if !stop.Answered? {
      RoundKeeps(seeds, self, target, alpha, tr, queried, result, toQuery, queried', answers, extended);
    }
  }

  lemma PickedAreLearned<V>(seeds: seq<NodeContact>, self: NodeId, target: NodeId, alpha: nat, tr: Transcript<V>,
                            queried: set<NodeId>, result: seq<NodeContact>, toQuery: seq<NodeContact>,
                            queried': set<NodeId>, answers: seq<Answer<V>>)
    requires RoundInv(seeds, self, target, alpha, tr, queried, result)
    requires RoundDone(self, alpha, queried, result, toQuery, queried')
    ensures GoodRounds(tr + [Round(IdsOf(toQuery), answers)], self, alpha)
    ensures AskedWithin(tr + [Round(IdsOf(toQuery), answers)], IdSet(Learned(seeds, tr, self)))
    ensures queried' <= IdSet(Learned(seeds, tr, self)) + {self}
  {
    PickedAreAskedOnce(seeds, self, target, alpha, tr, queried, result, toQuery, queried', answers);
    AskedAreLearned(tr + [Round(IdsOf(toQuery), answers)], queried' - {self}, IdSet(Learned(seeds, tr, self)));
  }

  lemma AskedAreLearned<V>(tr: Transcript<V>, ids: set<NodeId>, more: set<NodeId>)
    requires AskedWithin(tr, ids) && ids <= more
    ensures AskedWithin(tr, more)
  {}

  // ---------------------------------------------------------------------------------------------
  // The search is greedy, and ends only for a reason
  // ---------------------------------------------------------------------------------------------

  function IdsIn(s: seq<NodeId>): set<NodeId> {
    set x | x in s
  }

  /** The identifiers asked in some round. */
  function AskedIds<V>(tr: Transcript<V>): set<NodeId> {
    if tr == [] then {} else AskedIds(tr[..|tr| - 1]) + IdsIn(tr[|tr| - 1].asked)
  }

  ghost predicate AsksNearest(asked: seq<NodeId>, known: set<NodeContact>, askedSoFar: set<NodeId>, target: NodeId) {
    forall x, c :: x in asked && c in known && c.id !in askedSoFar ==> Dist(x, target) <= Dist(c.id, target)
  }

  ghost predicate GreedyAt<V>(seeds: seq<NodeContact>, tr: Transcript<V>, self: NodeId, target: NodeId, r: nat)
    requires r < |tr|
  {
    && IdsIn(tr[r].asked) <= IdSet(Learned(seeds, tr[..r], self))
    && AsksNearest(tr[r].asked, Learned(seeds, tr[..r], self), AskedIds(tr[..r + 1]), target)
  }

  /**
   Every round asks identifiers learned before it, at least as near as everything else learned and not
   asked, although duplicates may crowd known contacts out of the candidates.
   */
  ghost predicate Greedy<V>(seeds: seq<NodeContact>, tr: Transcript<V>, self: NodeId, target: NodeId) {
    forall r :: 0 <= r < |tr| ==> GreedyAt(seeds, tr, self, target, r)
  }

  /** The last round was cut short. */
  predicate CutShort<V>(tr: Transcript<V>) {
    tr != [] && |tr[|tr| - 1].answers| < |tr[|tr| - 1].asked|
  }

  /** The last round named nobody who had not been asked. */
  ghost predicate NoNews<V>(tr: Transcript<V>, self: NodeId) {
    tr != [] && NoneNew(Named(tr[|tr| - 1].answers, self), AskedIds(tr))
  }

  ghost predicate AskedAsNear<V>(tr: Transcript<V>, target: NodeId, id: NodeId) {
    exists x :: x in AskedIds(tr) && Dist(x, target) <= Dist(id, target)
  }

  /** Somebody as near as anything learned has been asked. */
  ghost predicate NearestAsked<V>(seeds: seq<NodeContact>, tr: Transcript<V>, self: NodeId, target: NodeId) {
    tr != [] && forall c :: c in Learned(seeds, tr, self) ==> AskedAsNear(tr, target, c.id)
  }

  /** Why a lookup that found no value may end: expiry, no news, or nobody left to ask and the nearest asked. */
  ghost predicate Ended<V>(seeds: seq<NodeContact>, tr: Transcript<V>, self: NodeId, target: NodeId, k: nat,
                           alpha: nat) {
    || CutShort(tr) || NoNews(tr, self)
    || (AsksNext(seeds, tr, self, target, k, alpha, []) && NearestAsked(seeds, tr, self, target))
  }

  /** Every learned identifier is that of a candidate, or k candidates are at least as near. */
  ghost predicate NothingNearerLost(learned: set<NodeContact>, result: seq<NodeContact>, target: NodeId, k: nat) {
    forall c :: c in learned ==> HasId(result, c.id) || Beyond(result, target, k, c.id)
  }

  /** Everything ever put among the candidates: the seeds, and of every reply what was neither self nor asked. */
  function Offers<V>(seeds: seq<NodeContact>, tr: Transcript<V>, self: NodeId): seq<NodeContact> {
    if tr == [] then seeds
    else Offers(seeds, tr[..|tr| - 1], self) + NewOf(tr[|tr| - 1].answers, self, AskedIds(tr) + {self})
  }

  /** The candidates are the k nearest offers, repetitions included; before the first cut, all of them. */
  ghost predicate Kept(seeds: seq<NodeContact>, offers: seq<NodeContact>, target: NodeId, k: nat,
                       result: seq<NodeContact>) {
    result == offers == seeds || KNearest(offers, target, k, result)
  }

  ghost predicate SameIds(offers: seq<NodeContact>, learned: set<NodeContact>) {
    forall id :: HasId(offers, id) <==> id in IdSet(learned)
  }

  ghost predicate Accounted<V>(seeds: seq<NodeContact>, tr: Transcript<V>, self: NodeId, target: NodeId, k: nat,
                               result: seq<NodeContact>) {
    && Kept(seeds, Offers(seeds, tr, self), target, k, result)
    && SameIds(Offers(seeds, tr, self), Learned(seeds, tr, self))
  }

  lemma AccountedLosesNothing<V>(seeds: seq<NodeContact>, tr: Transcript<V>, self: NodeId, target: NodeId, k: nat,
                                 result: seq<NodeContact>)
    requires Accounted(seeds, tr, self, target, k, result)
    ensures NothingNearerLost(Learned(seeds, tr, self), result, target, k)
  {
    var offers := Offers(seeds, tr, self);
    forall c | c in Learned(seeds, tr, self)
      ensures HasId(result, c.id) || Beyond(result, target, k, c.id)
    {
      assert c.id in IdSet(Learned(seeds, tr, self));
      assert HasId(offers, c.id);
      if result != offers {
        KeptOrBeyond(offers, target, k, result, c.id);
      }
    }
  }

  lemma StartAccounted<V>(seeds: seq<NodeContact>, tr: Transcript<V>, self: NodeId, target: NodeId, k: nat)
    requires tr == []
    ensures Accounted(seeds, tr, self, target, k, seeds)
  {
    forall id
      ensures HasId(seeds, id) <==> id in IdSet(Learned(seeds, tr, self))
    {
      if HasId(seeds, id) {
        var j :| 0 <= j < |seeds| && seeds[j].id == id;
        assert seeds[j] in Learned(seeds, tr, self);
      }
    }
  }

  lemma OffersGrow<V>(seeds: seq<NodeContact>, tr: Transcript<V>, round: Round<V>, self: NodeId)
    ensures Offers(seeds, tr + [round], self)
            == Offers(seeds, tr, self) + NewOf(round.answers, self, AskedIds(tr + [round]) + {self})
  {
    assert (tr + [round])[..|tr|] == tr;
  }

  /** What a round names is offered, unless it was asked and so offered before. */
  lemma SameIdsGrow<V>(offers: seq<NodeContact>, learned: set<NodeContact>, answers: seq<Answer<V>>, self: NodeId,
                       queried: set<NodeId>)
    requires SameIds(offers, learned) && queried <= IdSet(learned) + {self}
    ensures SameIds(offers + NewOf(answers, self, queried), learned + Named(answers, self))
  {
    var news, named := NewOf(answers, self, queried), Named(answers, self);
    NewOfMembers(answers, self, queried);
    NamedIsNotSelf(answers, self);
    forall id
      ensures HasId(offers + news, id) <==> id in IdSet(learned + named)
    {
      HasIdInEither(offers, news, id);
      if HasId(news, id) {
        var j :| 0 <= j < |news| && news[j].id == id;
        assert news[j] in named;
      }
      if id in IdSet(named) && id !in IdSet(learned) {
        var c :| c in named && c.id == id;
        assert c in news;
      }
      assert IdSet(learned + named) == IdSet(learned) + IdSet(named);
    }
  }

  lemma HasIdInEither(a: seq<NodeContact>, b: seq<NodeContact>, id: NodeId)
    ensures HasId(a + b, id) <==> HasId(a, id) || HasId(b, id)
  {
    if HasId(a, id) {
      var j :| 0 <= j < |a| && a[j].id == id;
      assert (a + b)[j].id == id;
    }
    if HasId(b, id) {
      var j :| 0 <= j < |b| && b[j].id == id;
      assert (a + b)[|a| + j].id == id;
    }
  }

  ghost predicate SearchInv<V>(seeds: seq<NodeContact>, self: NodeId, target: NodeId, k: nat,
                               tr: Transcript<V>, queried: set<NodeId>, result: seq<NodeContact>) {
    && queried == AskedIds(tr) + {self}
    && Held(seeds, tr, self, target, k, result)
    && Accounted(seeds, tr, self, target, k, result)
    && Greedy(seeds, tr, self, target)
  }

  /** The candidates when a round begins: at first the seeds, then the k nearest offers, in ascending order. */
  ghost predicate Held<V>(seeds: seq<NodeContact>, tr: Transcript<V>, self: NodeId, target: NodeId, k: nat,
                          result: seq<NodeContact>) {
    && Ascending(result, target)
    && if tr == [] then result == seeds else KNearest(Offers(seeds, tr, self), target, k, result)
  }

  /** Next asked are the first alpha candidates that were not asked before, in order and with repetitions. */
  ghost predicate AsksNext<V>(seeds: seq<NodeContact>, tr: Transcript<V>, self: NodeId, target: NodeId, k: nat,
                              alpha: nat, asked: seq<NodeId>) {
    exists held :: && Held(seeds, tr, self, target, k, held)
                   && asked == IdsOf(FirstOf(NotIn(held, AskedIds(tr) + {self}), alpha))
  }

  ghost predicate AsksInOrder<V>(seeds: seq<NodeContact>, tr: Transcript<V>, self: NodeId, target: NodeId, k: nat,
                                 alpha: nat) {
    forall r :: 0 <= r < |tr| ==> AsksNext(seeds, tr[..r], self, target, k, alpha, tr[r].asked)
  }

  /** A round asks alpha times, or leaves no unasked identifier to which fewer than k offers are nearer. */
  ghost predicate WideAt<V>(seeds: seq<NodeContact>, tr: Transcript<V>, self: NodeId, target: NodeId, k: nat,
                            alpha: nat, asked: seq<NodeId>) {
    var offers := Offers(seeds, tr, self);
    || |asked| == alpha
    || forall id :: HasId(offers, id) && Nearer(offers, target, Dist(id, target)) < k && id !in AskedIds(tr) ==>
         id in asked
  }

  ghost predicate Wide<V>(seeds: seq<NodeContact>, tr: Transcript<V>, self: NodeId, target: NodeId, k: nat,
                          alpha: nat) {
    forall r :: 0 <= r < |tr| ==> WideAt(seeds, tr[..r], self, target, k, alpha, tr[r].asked)
  }

  lemma {:induction false} OffersAreNotSelf<V>(seeds: seq<NodeContact>, tr: Transcript<V>, self: NodeId)
    requires forall c :: c in seeds ==> c.id != self
    ensures !HasId(Offers(seeds, tr, self), self)
  {
    if tr == [] {
      assert forall j :: 0 <= j < |seeds| ==> seeds[j] in seeds;
    } else {
      var n := |tr| - 1;
      var news := NewOf(tr[n].answers, self, AskedIds(tr) + {self});
      OffersAreNotSelf(seeds, tr[..n], self);
      HasIdInEither(Offers(seeds, tr[..n], self), news, self);
      NewOfMembers(tr[n].answers, self, AskedIds(tr) + {self});
      assert forall j :: 0 <= j < |news| ==> news[j] in news;
    }
  }

  lemma AsksWidely<V>(seeds: seq<NodeContact>, tr: Transcript<V>, self: NodeId, target: NodeId, k: nat, alpha: nat,
                      asked: seq<NodeId>)
    requires forall c :: c in seeds ==> c.id != self
    requires AsksNext(seeds, tr, self, target, k, alpha, asked)
    ensures WideAt(seeds, tr, self, target, k, alpha, asked)
  {
    var held: seq<NodeContact> :| && Held(seeds, tr, self, target, k, held)
                                  && asked == IdsOf(FirstOf(NotIn(held, AskedIds(tr) + {self}), alpha));
    var offers, left := Offers(seeds, tr, self), NotIn(held, AskedIds(tr) + {self});
    if |asked| != alpha {
      assert asked == IdsOf(left);
      forall id | HasId(offers, id) && Nearer(offers, target, Dist(id, target)) < k && id !in AskedIds(tr)
        ensures id in asked
      {
        OffersAreNotSelf(seeds, tr, self);
        NearIsHeld(seeds, tr, self, target, k, held, id);
        HeldIsLeft(held, AskedIds(tr) + {self}, id);
      }
    }
  }

  lemma NearIsHeld<V>(seeds: seq<NodeContact>, tr: Transcript<V>, self: NodeId, target: NodeId, k: nat,
                      held: seq<NodeContact>, id: NodeId)
    requires Held(seeds, tr, self, target, k, held)
    requires HasId(Offers(seeds, tr, self), id)
    requires Nearer(Offers(seeds, tr, self), target, Dist(id, target)) < k
    ensures HasId(held, id)
  {
    if tr != [] {
      KeptIff(Offers(seeds, tr, self), target, k, held, id);
    }
  }

  lemma HeldIsLeft(held: seq<NodeContact>, ids: set<NodeId>, id: NodeId)
    requires HasId(held, id) && id !in ids
    ensures id in IdsOf(NotIn(held, ids))
  {
    NotInMembers(held, ids);
    var left := NotIn(held, ids);
    var j :| 0 <= j < |held| && held[j].id == id;
    assert held[j] in left;
    var i :| 0 <= i < |left| && left[i] == held[j];
    assert IdsOf(left)[i] == id;
  }

  lemma RoundsAreWide<V>(seeds: seq<NodeContact>, tr: Transcript<V>, self: NodeId, target: NodeId, k: nat, alpha: nat)
    requires forall c :: c in seeds ==> c.id != self
    requires AsksInOrder(seeds, tr, self, target, k, alpha)
    ensures Wide(seeds, tr, self, target, k, alpha)
  {
    forall r | 0 <= r < |tr|
      ensures WideAt(seeds, tr[..r], self, target, k, alpha, tr[r].asked)
    {
      AsksWidely(seeds, tr[..r], self, target, k, alpha, tr[r].asked);
    }
  }

  lemma AsksInOrderGrows<V>(seeds: seq<NodeContact>, tr: Transcript<V>, self: NodeId, target: NodeId, k: nat,
                            alpha: nat, round: Round<V>)
    requires AsksInOrder(seeds, tr, self, target, k, alpha)
    requires AsksNext(seeds, tr, self, target, k, alpha, round.asked)
    ensures AsksInOrder(seeds, tr + [round], self, target, k, alpha)
  {
    var more := tr + [round];
    forall r | 0 <= r < |more|
      ensures AsksNext(seeds, more[..r], self, target, k, alpha, more[r].asked)
    {
      assert more[..r] == tr[..r];
      if r == |tr| {
        assert tr[..r] == tr;
      }
    }
  }

  /** Every round before the last brought somebody new. */
  ghost predicate AlwaysNews<V>(tr: Transcript<V>, self: NodeId) {
    forall r :: 0 < r < |tr| ==> !NoNews(tr[..r], self)
  }

  lemma AlwaysNewsGrows<V>(tr: Transcript<V>, self: NodeId, round: Round<V>)
    requires AlwaysNews(tr, self) && (tr != [] ==> !NoNews(tr, self))
    ensures AlwaysNews(tr + [round], self)
  {
    var more := tr + [round];
    forall r | 0 < r < |more|
      ensures !NoNews(more[..r], self)
    {
      assert more[..r] == tr[..r];
      if r == |tr| {
        assert tr[..r] == tr;
      }
    }
  }

  lemma AskedGrows<V>(tr: Transcript<V>, round: Round<V>)
    ensures AskedIds(tr + [round]) == AskedIds(tr) + IdsIn(round.asked)
  {
    assert (tr + [round])[..|tr|] == tr;
  }

  lemma LearnedMore<V>(seeds: seq<NodeContact>, tr: Transcript<V>, round: Round<V>, self: NodeId)
    ensures Learned(seeds, tr + [round], self) == Learned(seeds, tr, self) + Named(round.answers, self)
  {
    assert (tr + [round])[..|tr|] == tr;
  }

  lemma PicksNearest<V>(seeds: seq<NodeContact>, self: NodeId, target: NodeId, k: nat, tr: Transcript<V>,
                        queried: set<NodeId>, result: seq<NodeContact>, toQuery: seq<NodeContact>,
                        queried': set<NodeId>)
    requires NothingNearerLost(Learned(seeds, tr, self), result, target, k)
    requires PickedNearest(result, queried, toQuery, target)
    requires forall i :: 0 <= i < |toQuery| ==> toQuery[i] in result
    requires queried' == queried + IdsIn(IdsOf(toQuery))
    ensures AsksNearest(IdsOf(toQuery), Learned(seeds, tr, self), queried', target)
  {
    forall x, c | x in IdsOf(toQuery) && c in Learned(seeds, tr, self) && c.id !in queried'
      ensures Dist(x, target) <= Dist(c.id, target)
    {
      var i :| 0 <= i < |toQuery| && toQuery[i].id == x;
      assert forall j :: 0 <= j < |toQuery| ==> IdsOf(toQuery)[j] in queried';
      if HasId(result, c.id) {
        var j :| 0 <= j < |result| && result[j].id == c.id;
        assert result[j] in result && result[j] !in toQuery;
      } else {
        assert Beyond(result, target, k, c.id);
        var j :| 0 <= j < |result| && result[j] == toQuery[i];
      }
    }
  }

  lemma GreedyBefore<V>(seeds: seq<NodeContact>, self: NodeId, target: NodeId, tr: Transcript<V>, round: Round<V>,
                        r: nat)
    requires r < |tr| && GreedyAt(seeds, tr, self, target, r)
    ensures GreedyAt(seeds, tr + [round], self, target, r)
  {
    var more := tr + [round];
    assert more[..r] == tr[..r] && more[..r + 1] == tr[..r + 1] && more[r] == tr[r];
  }

  lemma GreedyLast<V>(seeds: seq<NodeContact>, self: NodeId, target: NodeId, tr: Transcript<V>, round: Round<V>)
    requires forall c :: c in Learned(seeds, tr, self) ==> c.id != self
    requires AsksNearest(round.asked, Learned(seeds, tr, self), AskedIds(tr) + {self} + IdsIn(round.asked), target)
    requires IdsIn(round.asked) <= IdSet(Learned(seeds, tr, self))
    ensures GreedyAt(seeds, tr + [round], self, target, |tr|)
  {
    var more := tr + [round];
    AskedGrows(tr, round);
    assert more[..|tr|] == tr && more[..|tr| + 1] == more;
  }

  /** Asking the picked contacts is a greedy round. */
  lemma GreedyGrows<V>(seeds: seq<NodeContact>, self: NodeId, target: NodeId, tr: Transcript<V>, round: Round<V>)
    requires Greedy(seeds, tr, self, target) && (forall c :: c in Learned(seeds, tr, self) ==> c.id != self)
    requires AsksNearest(round.asked, Learned(seeds, tr, self), AskedIds(tr) + {self} + IdsIn(round.asked), target)
    requires IdsIn(round.asked) <= IdSet(Learned(seeds, tr, self))
    ensures Greedy(seeds, tr + [round], self, target)
  {
    forall r | 0 <= r < |tr|
      ensures GreedyAt(seeds, tr + [round], self, target, r)
    {
      assert GreedyAt(seeds, tr, self, target, r);
      GreedyBefore(seeds, self, target, tr, round, r);
    }
    GreedyLast(seeds, self, target, tr, round);
  }

  lemma RoundIsGreedy<V>(seeds: seq<NodeContact>, self: NodeId, target: NodeId, alpha: nat, k: nat, tr: Transcript<V>,
                         queried: set<NodeId>, result: seq<NodeContact>, toQuery: seq<NodeContact>, round: Round<V>,
                         queried': set<NodeId>)
    requires RoundInv(seeds, self, target, alpha, tr, queried, result)
    requires SearchInv(seeds, self, target, k, tr, queried, result)
    requires PickedNearest(result, queried, toQuery, target)
    requires forall i :: 0 <= i < |toQuery| ==> toQuery[i] in result
    requires round.asked == IdsOf(toQuery) && queried' == queried + IdsIn(round.asked)
    requires forall c :: c in seeds ==> c.id != self
    requires queried' <= IdSet(Learned(seeds, tr, self)) + {self} && self !in round.asked
    ensures Greedy(seeds, tr + [round], self, target)
    ensures queried' == AskedIds(tr + [round]) + {self}
  {
    AccountedLosesNothing(seeds, tr, self, target, k, result);
    PicksNearest(seeds, self, target, k, tr, queried, result, toQuery, queried');
    LearnedIsNotSelf(seeds, tr, self);
    GreedyGrows(seeds, self, target, tr, round);
    AskedGrows(tr, round);
  }

  lemma {:induction false} LearnedIsNotSelf<V>(seeds: seq<NodeContact>, tr: Transcript<V>, self: NodeId)
    requires forall c :: c in seeds ==> c.id != self
    ensures forall c :: c in Learned(seeds, tr, self) ==> c.id != self
  {
    if tr != [] {
      LearnedIsNotSelf(seeds, tr[..|tr| - 1], self);
      NamedIsNotSelf(tr[|tr| - 1].answers, self);
    }
  }

  /** Nothing is left to ask: the nearest was asked, and at least one round took place. */
  lemma NothingLeft<V>(seeds: seq<NodeContact>, self: NodeId, target: NodeId, alpha: nat, k: nat, tr: Transcript<V>,
                       queried: set<NodeId>, result: seq<NodeContact>)
    requires RoundInv(seeds, self, target, alpha, tr, queried, result)
    requires SearchInv(seeds, self, target, k, tr, queried, result)
    requires seeds != [] && NotIn(result, queried) == []
    ensures NearestAsked(seeds, tr, self, target)
    ensures AsksNext(seeds, tr, self, target, k, alpha, [])
    ensures forall i :: 0 <= i < |result| ==> result[i].id in queried
  {
    NothingUnqueried(result, queried);
    assert IdsOf(FirstOf(NotIn(result, AskedIds(tr) + {self}), alpha)) == [];
    forall i | 0 <= i < |result|
      ensures result[i].id in AskedIds(tr)
    {
      assert result[i] in result && result[i].id in queried;
    }
    NearestWasAsked(seeds, self, target, tr, result);
  }

  lemma NearestWasAsked<V>(seeds: seq<NodeContact>, self: NodeId, target: NodeId, tr: Transcript<V>,
                           result: seq<NodeContact>)
    requires AllCovered(result, target, IdSet(Learned(seeds, tr, self)))
    requires seeds != [] && forall i :: 0 <= i < |result| ==> result[i].id in AskedIds(tr)
    ensures NearestAsked(seeds, tr, self, target)
  {
    forall c | c in Learned(seeds, tr, self)
      ensures AskedAsNear(tr, target, c.id)
    {
      assert c.id in IdSet(Learned(seeds, tr, self));
      assert Covers(result, target, c.id);
      var i :| 0 <= i < |result| && Dist(result[i].id, target) <= Dist(c.id, target);
      assert result[i].id in AskedIds(tr);
    }
    SeedsAreLearned(seeds, tr, self);
    assert seeds[0] in Learned(seeds, tr, self);
    assert AskedAsNear(tr, target, seeds[0].id);
  }

  lemma SearchKept<V>(seeds: seq<NodeContact>, self: NodeId, target: NodeId, k: nat, tr: Transcript<V>,
                      queried: set<NodeId>, result: seq<NodeContact>, round: Round<V>, queried': set<NodeId>,
                      cut: seq<NodeContact>)
    requires SearchInv(seeds, self, target, k, tr, queried, result)
    requires queried' <= IdSet(Learned(seeds, tr, self)) + {self}
    requires Greedy(seeds, tr + [round], self, target) && queried' == AskedIds(tr + [round]) + {self}
    requires Ascending(cut, target) && KNearest(result + NewOf(round.answers, self, queried'), target, k, cut)
    ensures SearchInv(seeds, self, target, k, tr + [round], queried', cut)
  {
    LearnedMore(seeds, tr, round, self);
    OffersGrow(seeds, tr, round, self);
    var offers, news := Offers(seeds, tr, self), NewOf(round.answers, self, queried');
    SameIdsGrow(offers, Learned(seeds, tr, self), round.answers, self, queried');
    CutsCompose(offers, result, news, target, k, cut);
  }

  /** A round without news leaves the candidates as they are, and everything it named was known. */
  lemma NoNewsIs<V>(seeds: seq<NodeContact>, self: NodeId, target: NodeId, k: nat, tr: Transcript<V>,
                    result: seq<NodeContact>, round: Round<V>, queried': set<NodeId>)
    requires Accounted(seeds, tr, self, target, k, result) && NewOf(round.answers, self, queried') == []
    requires NoneNew(Named(round.answers, self), queried') && queried' == AskedIds(tr + [round]) + {self}
    requires queried' <= IdSet(Learned(seeds, tr, self)) + {self}
    ensures NoNews(tr + [round], self)
    ensures Accounted(seeds, tr + [round], self, target, k, result)
  {
    NamedIsNotSelf(round.answers, self);
    LearnedMore(seeds, tr, round, self);
    OffersGrow(seeds, tr, round, self);
    var offers := Offers(seeds, tr, self);
    SameIdsGrow(offers, Learned(seeds, tr, self), round.answers, self, queried');
    assert offers + [] == offers;
  }

  /**
   The last round was cut short, and the candidates are those before it, followed by what it offered
   until then, in order and not cut.
   */
  ghost predicate Interrupted<V>(seeds: seq<NodeContact>, tr: Transcript<V>, self: NodeId, target: NodeId, k: nat,
                                 candidates: seq<NodeContact>) {
    && CutShort(tr)
    && var n := |tr| - 1;
    var news := NewOf(tr[n].answers, self, AskedIds(tr) + {self});
    && |news| <= |candidates|
    && var m := |candidates| - |news|;
    && Held(seeds, tr[..n], self, target, k, candidates[..m])
    && Accounted(seeds, tr[..n], self, target, k, candidates[..m])
    && candidates[m..] == news
  }

  /** What the candidates are when a round is over, whatever ended it. */
  ghost predicate CandidatesAre<V>(seeds: seq<NodeContact>, tr: Transcript<V>, self: NodeId, target: NodeId, k: nat,
                                   candidates: seq<NodeContact>) {
    if CutShort(tr) then Interrupted(seeds, tr, self, target, k, candidates)
    else Accounted(seeds, tr, self, target, k, candidates)
  }

  lemma InterruptedIs<V>(seeds: seq<NodeContact>, self: NodeId, target: NodeId, k: nat, tr: Transcript<V>,
                         result: seq<NodeContact>, round: Round<V>, queried': set<NodeId>)
    requires Held(seeds, tr, self, target, k, result) && Accounted(seeds, tr, self, target, k, result)
    requires |round.answers| < |round.asked|
    requires queried' == AskedIds(tr + [round]) + {self}
    ensures Interrupted(seeds, tr + [round], self, target, k, result + NewOf(round.answers, self, queried'))
  {
    var more, news := tr + [round], NewOf(round.answers, self, queried');
    assert more[|tr|] == round && more[..|tr|] == tr;
    assert (result + news)[..|result|] == result && (result + news)[|result|..] == news;
  }

  lemma BroughtNews<V>(tr: Transcript<V>, round: Round<V>, self: NodeId, queried': set<NodeId>)
    requires NewOf(round.answers, self, queried') != [] && queried' == AskedIds(tr + [round]) + {self}
    ensures !NoNews(tr + [round], self)
  {
    var c := NewOf(round.answers, self, queried')[0];
    NewOfMembers(round.answers, self, queried');
    assert c in Named(round.answers, self) && c.id !in queried';
  }

  /**
   One pass of the loop of either lookup: ask, collect and, if the round brought anybody new, sort
   and cut.  `more` says whether the loop goes on.
   */
  method AskAndCut<V>(ghost seeds: seq<NodeContact>, self: NodeId, target: NodeId, k: nat, ghost alpha: nat,
                      arrivals: (nat, nat) -> Arrival<V>, wantValue: bool,
                      tr: Transcript<V>, queried: set<NodeId>, result: seq<NodeContact>, toQuery: seq<NodeContact>)
    returns (round: Round<V>, queried': set<NodeId>, candidates: seq<NodeContact>, stop: Stop<V>, more: bool)
    requires k >= 1 && forall c :: c in seeds ==> c.id != self
    requires RoundInv(seeds, self, target, alpha, tr, queried, result)
    requires SearchInv(seeds, self, target, k, tr, queried, result)
    requires Records(tr, arrivals, wantValue) && Full(tr)
    requires 1 <= |toQuery| <= alpha && PickedNearest(result, queried, toQuery, target)
    requires forall i :: 0 <= i < |toQuery| ==> toQuery[i] in result && toQuery[i].id !in queried
    requires toQuery == FirstOf(NotIn(result, queried), alpha)
    ensures AsksNext(seeds, tr, self, target, k, alpha, round.asked)
    ensures more ==> !NoNews(tr + [round], self)
    ensures |queried| < |queried'| <= Pow2(ID_BITS)
    ensures Records(tr + [round], arrivals, wantValue)
    ensures GoodRounds(tr + [round], self, alpha) && AskedWithin(tr + [round], IdSet(Learned(seeds, tr, self)))
    ensures Greedy(seeds, tr + [round], self, target)
    ensures stop.Answered? ==> wantValue && !more
    ensures wantValue ==> ValueOnlyAtStop(round.answers, stop)
    ensures !stop.Answered? ==> RoundInv(seeds, self, target, alpha, tr + [round], queried', candidates)
    ensures more ==> Full(tr + [round]) && SearchInv(seeds, self, target, k, tr + [round], queried', candidates)
    ensures !more && !stop.Answered? ==>
              CutShort(tr + [round]) || NoNews(tr + [round], self)
    ensures !stop.Answered? ==> CandidatesAre(seeds, tr + [round], self, target, k, candidates)
  {
    round, queried', candidates, stop := AskRound(seeds, self, target, alpha, arrivals, wantValue, tr, queried, result,
                                                  toQuery);
    RoundIsGreedy(seeds, self, target, alpha, k, tr, queried, result, toQuery, round, queried');
    more := stop.Continue? && |candidates| > |result|;
    if more {
      ghost var extended := candidates;
      candidates := SortAndCut(candidates, target, k);
      BroughtNews(tr, round, self, queried');
      CutKeeps(seeds, self, target, alpha, tr + [round], queried', extended, candidates);
      SearchKept(seeds, self, target, k, tr, queried, result, round, queried', candidates);
    } else if stop.Continue? {
      assert candidates == result;
      NoNewsIs(seeds, self, target, k, tr, result, round, queried');
    } else if stop.Expired? {
      InterruptedIs(seeds, self, target, k, tr, result, round, queried');
    }
  }

  // ---------------------------------------------------------------------------------------------
  // iterativeFindNode
  // ---------------------------------------------------------------------------------------------

  /**
   For arbitrary replies the lookup ends; it returns at most k contacts, strictly ascending in
   distance to the target (so all distinct), none of them self and all of them learned; and the
   first is nearest among everything learned: all seeds and all contacts in collected replies.
   Unless the timeout cut the last round short, no learned identifier that is left out is nearer than
   one that is returned, and the identifiers returned are exactly those to which fewer than k offers are
   nearer.  In any case they are the k nearest of the candidates, which the transcript determines.
   */
  method FindNode<V>(seeds: seq<NodeContact>, self: NodeId, target: NodeId, k: nat, alpha: nat,
                     arrivals: (nat, nat) -> Arrival<V>)
    returns (found: seq<NodeContact>, tr: Transcript<V>, candidates: seq<NodeContact>)
    requires k >= 1 && alpha >= 1
    requires Ascending(seeds, target) && forall c :: c in seeds ==> c.id != self
    ensures Records(tr, arrivals, false)
    ensures GoodRounds(tr, self, alpha) && AskedWithin(tr, IdSet(Learned(seeds, tr, self)))
    ensures |found| <= k
    ensures StrictlyAscending(found, target)
    ensures forall c :: c in found ==> c.id != self && c in Learned(seeds, tr, self)
    ensures seeds == [] <==> found == []
    ensures forall c :: c in Learned(seeds, tr, self) ==>
              found != [] && Dist(found[0].id, target) <= Dist(c.id, target)
    ensures Greedy(seeds, tr, self, target)
    ensures AsksInOrder(seeds, tr, self, target, k, alpha) && Wide(seeds, tr, self, target, k, alpha)
    ensures AlwaysNews(tr, self)
    ensures seeds != [] ==> Ended(seeds, tr, self, target, k, alpha)
    ensures CutShort(tr) || NoNews(tr, self) || AllAsked(tr, found)
    ensures seeds != [] ==> CandidatesAre(seeds, tr, self, target, k, candidates)
    ensures NearestOf(candidates, target, k, found)
    ensures !CutShort(tr) ==> NothingNearerLost(Learned(seeds, tr, self), candidates, target, k)
    ensures !CutShort(tr) ==> NoneNearerLeftOut(Learned(seeds, tr, self), target, found)
    ensures !CutShort(tr) ==> SameIds(Offers(seeds, tr, self), Learned(seeds, tr, self))
    ensures !CutShort(tr) && DistinctIds(seeds) ==> FoundExactly(Offers(seeds, tr, self), target, k, found)
  {
    tr, candidates := [], [];
    if seeds == [] {
      found := [];
      return;
    }
    var queried := {self};
    var result := seeds;
    var done := false;
    StartInv(seeds, self, target, alpha, tr);
    StartAccounted(seeds, tr, self, target, k);
    while !done
      invariant RoundInv(seeds, self, target, alpha, tr, queried, result)
      invariant Records(tr, arrivals, false) && (Full(tr) || done)
      invariant Greedy(seeds, tr, self, target) && AsksInOrder(seeds, tr, self, target, k, alpha)
      invariant AlwaysNews(tr, self) && (!done && tr != [] ==> !NoNews(tr, self))
      invariant if done then CutShort(tr) || NoNews(tr, self)
                else SearchInv(seeds, self, target, k, tr, queried, result)
      invariant CandidatesAre(seeds, tr, self, target, k, result)
      decreases !done, Pow2(ID_BITS) - |queried|
    {
      var toQuery := PickUnqueried(result, queried, alpha, target);
      if toQuery == [] {
        NothingLeft(seeds, self, target, alpha, k, tr, queried, result);
        break;
      }
      var round, queried', result', stop, more :=
        AskAndCut(seeds, self, target, k, alpha, arrivals, false, tr, queried, result, toQuery);
      AsksInOrderGrows(seeds, tr, self, target, k, alpha, round);
      AlwaysNewsGrows(tr, self, round);
      tr, queried, result, done := tr + [round], queried', result', !more;
    }
    RoundsAreWide(seeds, tr, self, target, k, alpha);
    AskedAreLearned(tr, queried - {self}, IdSet(Learned(seeds, tr, self)));
    candidates := result;
    found := Finish(seeds, self, target, k, alpha, tr, queried, result);
    if !CutShort(tr) {
      AccountedLosesNothing(seeds, tr, self, target, k, result);
      if DistinctIds(seeds) {
        FoundIs(seeds, tr, self, target, k, result, found);
      }
      LeftOutAreFarther(Learned(seeds, tr, self), candidates, target, k, found);
    }
  }

  /** One contact of each identifier among the candidates, but at most k, the nearest ones. */
  ghost predicate NearestOf(candidates: seq<NodeContact>, target: NodeId, k: nat, found: seq<NodeContact>) {
    && (forall c :: c in found ==> c in candidates)
    && (forall i :: 0 <= i < |candidates| ==>
          HasId(found, candidates[i].id) || Beyond(found, target, k, candidates[i].id))
  }

  /** Everybody who is returned was asked: Kademlia's own rule for stopping. */
  ghost predicate AllAsked<V>(tr: Transcript<V>, found: seq<NodeContact>) {
    forall c :: c in found ==> c.id in AskedIds(tr)
  }

  /** Returned are exactly the identifiers to which fewer than k offers, with repetitions, are nearer. */
  ghost predicate FoundExactly(offers: seq<NodeContact>, target: NodeId, k: nat, found: seq<NodeContact>) {
    forall id :: HasId(found, id) <==> HasId(offers, id) && Nearer(offers, target, Dist(id, target)) < k
  }

  ghost predicate NoneNearerLeftOut(learned: set<NodeContact>, target: NodeId, found: seq<NodeContact>) {
    forall c, i :: c in learned && !HasId(found, c.id) && 0 <= i < |found| ==>
      Dist(found[i].id, target) <= Dist(c.id, target)
  }

  lemma LeftOutAreFarther(learned: set<NodeContact>, candidates: seq<NodeContact>, target: NodeId, k: nat,
                          found: seq<NodeContact>)
    requires NothingNearerLost(learned, candidates, target, k) && NearestOf(candidates, target, k, found)
    ensures NoneNearerLeftOut(learned, target, found)
  {
    forall c, i | c in learned && !HasId(found, c.id) && 0 <= i < |found|
      ensures Dist(found[i].id, target) <= Dist(c.id, target)
    {
      if HasId(candidates, c.id) {
        var j :| 0 <= j < |candidates| && candidates[j].id == c.id;
      } else {
        assert found[i] in found;
        var j :| 0 <= j < |candidates| && candidates[j] == found[i];
      }
    }
  }

  /** The end of the lookup: drop duplicates, sort, keep the k closest. */
  method Finish<V>(ghost seeds: seq<NodeContact>, ghost self: NodeId, target: NodeId, k: nat, ghost alpha: nat,
                   ghost tr: Transcript<V>, ghost queried: set<NodeId>, result: seq<NodeContact>)
    returns (found: seq<NodeContact>)
    requires k >= 1 && seeds != []
    requires RoundInv(seeds, self, target, alpha, tr, queried, result)
    ensures |found| <= k && found != []
    ensures StrictlyAscending(found, target)
    ensures forall c :: c in found ==> c.id != self && c in Learned(seeds, tr, self)
    ensures forall c :: c in Learned(seeds, tr, self) ==> Dist(found[0].id, target) <= Dist(c.id, target)
    ensures NearestOf(result, target, k, found)
    ensures |result| <= k ==> forall i :: 0 <= i < |result| ==> HasId(found, result[i].id)
    ensures DistinctIds(result) ==> KNearest(result, target, k, found)
  {
    var deduped := Deduplicate(result);
    found := SortAndCut(deduped, target, k);
    CutIsNearest(result, deduped, target, k, found);
    if |result| <= k {
      NothingCut(result, deduped, target, k, found);
    }
    DistinctMakesStrict(found, target);
    NearestIsFirst(seeds, self, target, alpha, tr, queried, result, deduped, found);
  }

  lemma NearestIsFirst<V>(seeds: seq<NodeContact>, self: NodeId, target: NodeId, alpha: nat, tr: Transcript<V>,
                          queried: set<NodeId>,
                          result: seq<NodeContact>, deduped: seq<NodeContact>, found: seq<NodeContact>)
    requires seeds != [] && RoundInv(seeds, self, target, alpha, tr, queried, result) && Ascending(found, target)
    requires forall i :: 0 <= i < |result| ==> HasId(deduped, result[i].id)
    requires forall x :: Covers(deduped, target, x) ==> Covers(found, target, x)
    ensures found != [] && forall c :: c in Learned(seeds, tr, self) ==> Dist(found[0].id, target) <= Dist(c.id, target)
  {
    forall c | c in Learned(seeds, tr, self)
      ensures found != [] && Dist(found[0].id, target) <= Dist(c.id, target)
    {
      assert c.id in IdSet(Learned(seeds, tr, self));
      FirstIsNearest(result, deduped, found, target, c.id);
    }
    SeedsAreLearned(seeds, tr, self);
    assert seeds[0] in Learned(seeds, tr, self);
  }

  lemma FirstIsNearest(result: seq<NodeContact>, deduped: seq<NodeContact>, found: seq<NodeContact>, target: NodeId,
                       id: NodeId)
    requires Covers(result, target, id) && Ascending(found, target)
    requires forall i :: 0 <= i < |result| ==> HasId(deduped, result[i].id)
    requires forall x :: Covers(deduped, target, x) ==> Covers(found, target, x)
    ensures found != [] && Dist(found[0].id, target) <= Dist(id, target)
  {
    var i :| 0 <= i < |result| && Dist(result[i].id, target) <= Dist(id, target);
    assert HasId(deduped, result[i].id);
    var j :| 0 <= j < |deduped| && deduped[j].id == result[i].id;
    assert Covers(deduped, target, id);
    assert Covers(found, target, id);
  }

  lemma CutIsNearest(result: seq<NodeContact>, deduped: seq<NodeContact>, target: NodeId, k: nat,
                     found: seq<NodeContact>)
    requires forall c :: c in deduped ==> c in result
    requires forall i :: 0 <= i < |result| ==> HasId(deduped, result[i].id)
    requires forall c :: c in found ==> c in deduped
    requires KNearest(deduped, target, k, found)
    ensures NearestOf(result, target, k, found)
  {
    forall i | 0 <= i < |result|
      ensures HasId(found, result[i].id) || Beyond(found, target, k, result[i].id)
    {
      KeptOrBeyond(deduped, target, k, found, result[i].id);
    }
  }

  lemma NothingCut(result: seq<NodeContact>, deduped: seq<NodeContact>, target: NodeId, k: nat, found: seq<NodeContact>)
    requires forall i :: 0 <= i < |result| ==> HasId(deduped, result[i].id)
    requires IsNearest(deduped, target, k, found) && |deduped| <= k
    ensures forall i :: 0 <= i < |result| ==> HasId(found, result[i].id)
  {
    forall i | 0 <= i < |result|
      ensures HasId(found, result[i].id)
    {
      var j :| 0 <= j < |deduped| && deduped[j].id == result[i].id;
      AllKept(deduped, found);
      assert deduped[j] in multiset(found);
      var l :| 0 <= l < |found| && found[l] == deduped[j];
    }
  }

  lemma AllKept<T>(s: seq<T>, r: seq<T>)
    requires multiset(r) <= multiset(s) && |r| == |s|
    ensures multiset(r) == multiset(s)
  {
    assert multiset(s) == multiset(r) + (multiset(s) - multiset(r));
    assert |multiset(s)| == |multiset(r)| + |multiset(s) - multiset(r)|;
  }

  /** The answer is determined, identifier by identifier, by what was offered. */
  lemma FoundIs<V>(seeds: seq<NodeContact>, tr: Transcript<V>, self: NodeId, target: NodeId, k: nat,
                   result: seq<NodeContact>, found: seq<NodeContact>)
    requires Accounted(seeds, tr, self, target, k, result)
    requires forall c :: c in found ==> c in result
    requires |result| <= k ==> forall i :: 0 <= i < |result| ==> HasId(found, result[i].id)
    requires DistinctIds(result) ==> KNearest(result, target, k, found)
    requires DistinctIds(seeds)
    ensures FoundExactly(Offers(seeds, tr, self), target, k, found)
  {
    var offers := Offers(seeds, tr, self);
    forall id
      ensures HasId(found, id) <==> HasId(offers, id) && Nearer(offers, target, Dist(id, target)) < k
    {
      if result == offers == seeds {
        KeptIff(offers, target, k, found, id);
      } else {
        KeptIff(offers, target, k, result, id);
        if HasId(found, id) {
          var j :| 0 <= j < |found| && found[j].id == id;
          assert found[j] in result;
        }
      }
    }
  }

  lemma {:induction false} SeedsAreLearned<V>(seeds: seq<NodeContact>, tr: Transcript<V>, self: NodeId)
    ensures forall c :: c in seeds ==> c in Learned(seeds, tr, self)
  {
    if tr != [] {
      SeedsAreLearned(seeds, tr[..|tr| - 1], self);
    }
  }

  // ---------------------------------------------------------------------------------------------
  // iterativeFindValue
  // ---------------------------------------------------------------------------------------------

  predicate NoValueIn<V>(tr: Transcript<V>) {
    forall r, j :: 0 <= r < |tr| && 0 <= j < |tr[r].answers| ==> tr[r].answers[j].value.None?
  }

  /** The last answer of the transcript carries the value and no answer before it carries any. */
  predicate EndsWithFirstValue<V(==)>(tr: Transcript<V>, v: V) {
    && tr != [] && NoValueIn(tr[..|tr| - 1])
    && var answers := tr[|tr| - 1].answers;
    && answers != [] && answers[|answers| - 1].value == Some(v)
    && forall j :: 0 <= j < |answers| - 1 ==> answers[j].value.None?
  }

  /**
   For arbitrary replies the value lookup ends.  It returns a value exactly when a collected answer
   carries one: that of the first such answer, with which the transcript ends.
   */
  method FindValue<V>(seeds: seq<NodeContact>, self: NodeId, key: NodeId, k: nat, alpha: nat,
                      arrivals: (nat, nat) -> Arrival<V>)
    returns (value: Option<V>, tr: Transcript<V>)
    requires k >= 1 && alpha >= 1
    requires Ascending(seeds, key) && forall c :: c in seeds ==> c.id != self
    ensures Records(tr, arrivals, true)
    ensures GoodRounds(tr, self, alpha) && AskedWithin(tr, IdSet(Learned(seeds, tr, self)))
    ensures value.None? ==> NoValueIn(tr)
    ensures value.Some? ==> EndsWithFirstValue(tr, value.value)
    ensures Greedy(seeds, tr, self, key)
    ensures AsksInOrder(seeds, tr, self, key, k, alpha) && Wide(seeds, tr, self, key, k, alpha)
    ensures AlwaysNews(tr, self)
    ensures seeds != [] && value.None? ==> Ended(seeds, tr, self, key, k, alpha)
  {
    tr, value := [], None;
    if seeds == [] {
      return;
    }
    var queried := {self};
    var candidates := seeds;
    var done := false;
    StartInv(seeds, self, key, alpha, tr);
    StartAccounted(seeds, tr, self, key, k);
    while !done
      invariant Records(tr, arrivals, true)
      invariant GoodRounds(tr, self, alpha) && AskedWithin(tr, IdSet(Learned(seeds, tr, self)))
      invariant if value.None? then NoValueIn(tr) else EndsWithFirstValue(tr, value.value)
      invariant !done ==> value.None? && Full(tr) && RoundInv(seeds, self, key, alpha, tr, queried, candidates)
      invariant Greedy(seeds, tr, self, key) && AsksInOrder(seeds, tr, self, key, k, alpha)
      invariant AlwaysNews(tr, self) && (!done && tr != [] ==> !NoNews(tr, self))
      invariant !done ==> SearchInv(seeds, self, key, k, tr, queried, candidates)
      invariant done ==> value.Some? || CutShort(tr) || NoNews(tr, self)
      decreases !done, Pow2(ID_BITS) - |queried|
    {
      var toQuery := PickUnqueried(candidates, queried, alpha, key);
      if toQuery == [] {
        NothingLeft(seeds, self, key, alpha, k, tr, queried, candidates);
        break;
      }
      var round, queried', candidates', stop, more :=
        AskAndCut(seeds, self, key, k, alpha, arrivals, true, tr, queried, candidates, toQuery);
      AsksInOrderGrows(seeds, tr, self, key, k, alpha, round);
      AlwaysNewsGrows(tr, self, round);
      LearnedGrows(seeds, tr, round, self);
      ValueOfRound(tr, round, stop);
      AskedAreLearned(tr + [round], IdSet(Learned(seeds, tr, self)), IdSet(Learned(seeds, tr + [round], self)));
      tr, queried, candidates, done := tr + [round], queried', candidates', !more;
      if stop.Answered? {
        value := Some(stop.value);
      }
    }
    RoundsAreWide(seeds, tr, self, key, k, alpha);
  }

  lemma ValueOfRound<V>(tr: Transcript<V>, round: Round<V>, stop: Stop<V>)
    requires NoValueIn(tr) && ValueOnlyAtStop(round.answers, stop)
    ensures if stop.Answered? then EndsWithFirstValue(tr + [round], stop.value) else NoValueIn(tr + [round])
  {}

  lemma LearnedGrows<V>(seeds: seq<NodeContact>, tr: Transcript<V>, round: Round<V>, self: NodeId)
    ensures IdSet(Learned(seeds, tr, self)) <= IdSet(Learned(seeds, tr + [round], self))
  {}
}
