/**
 The LRU cache of agent cards with expiry (internal/card/cache.go).

 Run sequentially, the map and the linked list refine a list of entries, most recently used first.
 What survives concurrency is in LruInterleaved.dfy.
 */
module LruCache {
  import opened Common

  /** The entity identifier of a card. */
  datatype Key = Key(id: string)

  datatype Entry<V> = Entry(key: Key, card: V, expiresAt: int)

  type Recency<V> = seq<Entry<V>>

  // ---------------------------------------------------------------------------------------------
  // The specification: a list, most recently used first
  // ---------------------------------------------------------------------------------------------

  function Position<V>(l: Recency<V>, key: Key): (i: nat)
    ensures i <= |l|
    ensures i < |l| ==> l[i].key == key
    ensures forall j :: 0 <= j < i ==> l[j].key != key
  {
    if l == [] then 0 else if l[0].key == key then 0 else 1 + Position(l[1..], key)
  }

  function Without<T>(l: seq<T>, i: nat): seq<T>
    requires i < |l|
  {
    l[..i] + l[i + 1..]
  }

  predicate Hit<V>(l: Recency<V>, key: Key, now: int) {
    var i := Position(l, key);
    i < |l| && now <= l[i].expiresAt
  }

  function Got<V>(l: Recency<V>, key: Key, now: int): Option<V> {
    if Hit(l, key, now) then Some(l[Position(l, key)].card) else None
  }

  /** A hit comes to the front, an expired entry goes, a miss changes nothing. */
  function AfterGet<V>(l: Recency<V>, key: Key, now: int): Recency<V> {
    var i := Position(l, key);
    if i == |l| then l
    else if now <= l[i].expiresAt then [l[i]] + Without(l, i)
    else Without(l, i)
  }

  /** The least recently used entry makes room when a new key finds the cache full. */
  function AfterPut<V>(l: Recency<V>, maxSize: int, e: Entry<V>): Recency<V> {
    var i := Position(l, e.key);
    if i < |l| then [e] + Without(l, i)
    else if |l| >= maxSize && |l| > 0 then [e] + l[..|l| - 1]
    else [e] + l
  }

  function AfterRemove<V>(l: Recency<V>, key: Key): Recency<V> {
    var i := Position(l, key);
    if i < |l| then Without(l, i) else l
  }

  ghost predicate DistinctKeys<V>(l: Recency<V>) {
    forall i, j :: 0 <= i < j < |l| ==> l[i].key != l[j].key
  }

  // ---------------------------------------------------------------------------------------------
  // The code: a map to the elements of a list
  // ---------------------------------------------------------------------------------------------

  class Element<V> {
    const key: Key
    var card: V
    var expiresAt: int

    constructor (key: Key, card: V, expiresAt: int)
      ensures this.key == key && this.card == card && this.expiresAt == expiresAt
    {
      this.key := key;
      this.card := card;
      this.expiresAt := expiresAt;
    }

    function AsEntry(): Entry<V>
      reads this
    {
      Entry(key, card, expiresAt)
    }
  }

  /** Map and list are in bijection: every element is mapped from its own key and only from it. */
  ghost predicate Bijection<V>(items: map<Key, Element<V>>, list: seq<Element<V>>) {
    && (forall i :: 0 <= i < |list| ==> list[i].key in items && items[list[i].key] == list[i])
    && (forall k :: k in items ==> items[k].key == k && items[k] in list)
    && (forall i, j :: 0 <= i < j < |list| ==> list[i].key != list[j].key)
  }

  lemma BijectionWithout<V>(items: map<Key, Element<V>>, list: seq<Element<V>>, i: nat)
    requires Bijection(items, list) && i < |list|
    ensures Bijection(items - {list[i].key}, Without(list, i))
  {}

  lemma BijectionPush<V>(items: map<Key, Element<V>>, list: seq<Element<V>>, e: Element<V>)
    requires Bijection(items, list) && e.key !in items
    ensures Bijection(items[e.key := e], [e] + list)
  {}

  lemma BijectionFront<V>(items: map<Key, Element<V>>, list: seq<Element<V>>, i: nat)
    requires Bijection(items, list) && i < |list|
    ensures Bijection(items, [list[i]] + Without(list, i))
  {
    var e := list[i];
    BijectionWithout(items, list, i);
    BijectionPush(items - {e.key}, Without(list, i), e);
    assert (items - {e.key})[e.key := e] == items;
  }

  /** The elements hold these entries. */
  ghost predicate Holds<V>(list: seq<Element<V>>, l: Recency<V>)
    reads list
  {
    |l| == |list| && forall i :: 0 <= i < |list| ==> l[i] == list[i].AsEntry()
  }

  lemma HoldsWithout<V>(list: seq<Element<V>>, l: Recency<V>, i: nat)
    requires Holds(list, l) && i < |list|
    ensures Holds(Without(list, i), Without(l, i))
  {}

  lemma HoldsPush<V>(list: seq<Element<V>>, l: Recency<V>, e: Element<V>)
    requires Holds(list, l)
    ensures Holds([e] + list, [e.AsEntry()] + l)
  {}

  ghost predicate SameKeys<V>(list: seq<Element<V>>, l: Recency<V>) {
    |l| == |list| && forall i :: 0 <= i < |l| ==> l[i].key == list[i].key
  }

  lemma KeyPosition<V>(items: map<Key, Element<V>>, list: seq<Element<V>>, l: Recency<V>, key: Key)
    requires Bijection(items, list) && SameKeys(list, l)
    ensures var p := Position(l, key);
            (key in items <==> p < |list|) && (key in items ==> list[p] == items[key])
  {}

  class Cache<V> {
    const maxSize: int
    const ttl: int
    var items: map<Key, Element<V>>
    var eviction: seq<Element<V>>
    /** The abstract value: what the elements hold, most recently used first. */
    ghost var contents: Recency<V>

    ghost predicate Valid()
      reads this, eviction
    {
      Bijection(items, eviction) && Holds(eviction, contents)
    }

    constructor (maxSize: int, ttl: int)
      ensures Valid() && contents == [] && this.maxSize == maxSize && this.ttl == ttl
    {
      this.maxSize := maxSize;
      this.ttl := ttl;
      items, eviction, contents := map[], [], [];
    }

    /** Where an element sits in the list. */
    method Locate(elem: Element<V>) returns (i: nat)
      requires Valid() && elem in eviction
      ensures i < |eviction| && eviction[i] == elem && i == Position(contents, elem.key)
    {
      KeyPosition(items, eviction, contents, elem.key);
      ghost var p := Position(contents, elem.key);
      i := 0;
      while eviction[i] != elem
        invariant i <= p < |eviction| && eviction[p] == elem
        decreases p - i
      {
        i := i + 1;
      }
    }

    method RemoveElement(elem: Element<V>)
      requires Valid() && elem in eviction
      modifies this
      ensures Valid()
      ensures contents == AfterRemove(old(contents), elem.key)
    {
      var i := Locate(elem);
      BijectionWithout(items, eviction, i);
      HoldsWithout(eviction, contents, i);
      eviction := Without(eviction, i);
      items := items - {elem.key};
      contents := Without(contents, i);
    }

    method MoveToFront(elem: Element<V>)
      requires Valid() && elem in eviction
      modifies this`eviction, this`contents
      ensures Valid()
      ensures eviction != [] && eviction[0] == elem
      ensures var l := old(contents); var i := Position(l, elem.key);
              i < |l| && l[i] == elem.AsEntry() && contents == [l[i]] + Without(l, i)
    {
      var i := Locate(elem);
      BijectionFront(items, eviction, i);
      HoldsWithout(eviction, contents, i);
      HoldsPush(Without(eviction, i), Without(contents, i), elem);
      eviction := [elem] + Without(eviction, i);
      contents := [contents[i]] + Without(contents, i);
    }

    method Get(key: Key, now: int) returns (card: Option<V>)
      requires Valid()
      modifies this
      ensures Valid()
      ensures card == Got(old(contents), key, now)
      ensures contents == AfterGet(old(contents), key, now)
    {
      KeyPosition(items, eviction, contents, key);
      if key !in items {
        return None;
      }
      var elem := items[key];
      if now > elem.expiresAt {
        RemoveElement(elem);
        return None;
      }
      MoveToFront(elem);
      return Some(elem.card);
    }

    method Put(key: Key, card: V, now: int)
      requires Valid()
      modifies this, eviction
      ensures Valid()
      ensures contents == AfterPut(old(contents), maxSize, Entry(key, card, now + ttl))
    {
      KeyPosition(items, eviction, contents, key);
      if key in items {
        var elem := items[key];
        MoveToFront(elem);
        Overwrite(card, now);
        return;
      }
      if |eviction| >= maxSize {
        EvictOldest();
      }
      PushFront(key, card, now);
    }

    method PushFront(key: Key, card: V, now: int)
      requires Valid() && key !in items
      modifies this
      ensures Valid()
      ensures contents == [Entry(key, card, now + ttl)] + old(contents)
    {
      var elem := new Element(key, card, now + ttl);
      BijectionPush(items, eviction, elem);
      HoldsPush(eviction, contents, elem);
      eviction := [elem] + eviction;
      items := items[key := elem];
      contents := [elem.AsEntry()] + contents;
    }

    /** The new card and expiry go into the element at the front. */
    method Overwrite(card: V, now: int)
      requires Valid() && eviction != []
      modifies this`contents, eviction[0]
      ensures Valid()
      ensures contents == [Entry(old(contents)[0].key, card, now + ttl)] + old(contents)[1..]
    {
      eviction[0].card := card;
      eviction[0].expiresAt := now + ttl;
      contents := [eviction[0].AsEntry()] + contents[1..];
    }

    method EvictOldest()
      requires Valid()
      modifies this
      ensures Valid()
      ensures contents == if old(contents) == [] then [] else old(contents)[..|old(contents)| - 1]
      ensures forall e :: e in eviction ==> e in old(eviction)
      ensures forall k :: k in items ==> k in old(items)
    {
      if eviction != [] {
        var n := |eviction| - 1;
        BijectionWithout(items, eviction, n);
        assert Without(eviction, n) == eviction[..n];
        items := items - {eviction[n].key};
        eviction := eviction[..n];
        contents := contents[..n];
      }
    }

    method Remove(key: Key)
      requires Valid()
      modifies this
      ensures Valid()
      ensures contents == AfterRemove(old(contents), key)
    {
      KeyPosition(items, eviction, contents, key);
      if key in items {
        RemoveElement(items[key]);
      }
    }

    method Clear()
      modifies this
      ensures Valid() && contents == []
    {
      items, eviction, contents := map[], [], [];
    }
  }

  // ---------------------------------------------------------------------------------------------
  // Histories of the specification
  // ---------------------------------------------------------------------------------------------

  datatype Op<V> =
    | GetOp(key: Key, now: int)
    | PutOp(entry: Entry<V>)
    | RemoveOp(key: Key)
    | ClearOp

  function After<V>(l: Recency<V>, maxSize: int, op: Op<V>): Recency<V> {
    match op
    case GetOp(key, now) => AfterGet(l, key, now)
    case PutOp(e) => AfterPut(l, maxSize, e)
    case RemoveOp(key) => AfterRemove(l, key)
    case ClearOp => []
  }

  function Run<V>(l: Recency<V>, maxSize: int, ops: seq<Op<V>>): Recency<V>
    decreases ops
  {
    if ops == [] then l else Run(After(l, maxSize, ops[0]), maxSize, ops[1..])
  }

  /** The keys put or hit by a history. */
  function Used<V>(l: Recency<V>, maxSize: int, ops: seq<Op<V>>): set<Key>
    decreases ops
  {
    if ops == [] then {} else UsedBy(l, ops[0]) + Used(After(l, maxSize, ops[0]), maxSize, ops[1..])
  }

  function UsedBy<V>(l: Recency<V>, op: Op<V>): set<Key> {
    match op
    case GetOp(key, now) => if Hit(l, key, now) then {key} else {}
    case PutOp(e) => {e.key}
    case _ => {}
  }

  ghost predicate SpecInv<V>(l: Recency<V>, maxSize: int) {
    DistinctKeys(l) && |l| <= maxSize
  }

  lemma StepKeepsSpecInv<V>(l: Recency<V>, maxSize: int, op: Op<V>)
    requires SpecInv(l, maxSize) && maxSize >= 1
    ensures SpecInv(After(l, maxSize, op), maxSize)
  {
    match op
    case GetOp(key, now) => WithoutDistinct(l, Position(l, key));
    case PutOp(e) =>
      WithoutDistinct(l, Position(l, e.key));
      var i := Position(l, e.key);
      if i < |l| {
        FrontDistinct(Without(l, i), e);
      } else if |l| >= maxSize {
        FrontDistinct(l[..|l| - 1], e);
      } else {
        FrontDistinct(l, e);
      }
    case RemoveOp(key) => WithoutDistinct(l, Position(l, key));
    case ClearOp =>
  }

  lemma WithoutDistinct<V>(l: Recency<V>, i: nat)
    requires DistinctKeys(l)
    ensures i < |l| ==>
              && DistinctKeys(Without(l, i))
              && forall j :: 0 <= j < |Without(l, i)| ==> Without(l, i)[j].key != l[i].key
    ensures i < |l| ==> DistinctKeys([l[i]] + Without(l, i))
  {}

  lemma FrontDistinct<V>(l: Recency<V>, e: Entry<V>)
    requires DistinctKeys(l) && forall j :: 0 <= j < |l| ==> l[j].key != e.key
    ensures DistinctKeys([e] + l)
  {}

  /** Never more than maxSize entries and never two of one key. */
  lemma {:induction false} EveryHistoryKeepsSpecInv<V>(l: Recency<V>, maxSize: int, ops: seq<Op<V>>)
    requires SpecInv(l, maxSize) && maxSize >= 1
    ensures SpecInv(Run(l, maxSize, ops), maxSize)
    decreases ops
  {
    if ops != [] {
      StepKeepsSpecInv(l, maxSize, ops[0]);
      EveryHistoryKeepsSpecInv(After(l, maxSize, ops[0]), maxSize, ops[1..]);
    }
  }

  predicate Spares<V>(op: Op<V>, key: Key) {
    match op
    case GetOp(k, _) => k != key
    case PutOp(e) => e.key != key
    case RemoveOp(k) => k != key
    case ClearOp => false
  }

  /** Distinct keys of a set: there are at most as many as the set has. */
  lemma {:induction false} AtMostUsed<V>(l: Recency<V>, n: nat, used: set<Key>)
    requires DistinctKeys(l) && n <= |l| && UsedBefore(l, n, used)
    ensures n <= |used|
  {
    if n > 0 {
      AtMostUsed(l, n - 1, used - {l[n - 1].key});
    }
  }

  ghost predicate UsedBefore<V>(l: Recency<V>, n: nat, used: set<Key>)
    requires n <= |l|
  {
    forall j :: 0 <= j < n ==> l[j].key in used
  }

  /** The entry is in the list and only keys of the given set were used more recently. */
  ghost predicate Behind<V>(l: Recency<V>, e: Entry<V>, used: set<Key>) {
    var p := Position(l, e.key);
    p < |l| && l[p] == e && UsedBefore(l, p, used)
  }

  lemma BehindAt<V>(l: Recency<V>, e: Entry<V>, used: set<Key>, p: nat)
    requires p < |l| && l[p] == e && UsedBefore(l, p, used)
    requires forall j :: 0 <= j < p ==> l[j].key != e.key
    ensures Behind(l, e, used)
  {}

  /** Dropping another entry leaves this one behind the same keys. */
  lemma BehindAfterWithout<V>(l: Recency<V>, e: Entry<V>, used: set<Key>, i: nat)
    requires Behind(l, e, used) && i < |l| && l[i].key != e.key
    ensures Behind(Without(l, i), e, used)
  {
    var p := Position(l, e.key);
    var w := Without(l, i);
    assert forall j :: 0 <= j < |w| ==> w[j] == l[if j < i then j else j + 1];
    BehindAt(w, e, used, if i < p then p - 1 else p);
  }

  /** A new front entry moves this one behind its key. */
  lemma BehindAfterFront<V>(l: Recency<V>, e: Entry<V>, used: set<Key>, f: Entry<V>)
    requires Behind(l, e, used) && f.key != e.key
    ensures Behind([f] + l, e, used + {f.key})
  {}

  /** Eviction takes the last entry, and this one is not last while few other keys were used. */
  lemma BehindAfterEviction<V>(l: Recency<V>, maxSize: int, e: Entry<V>, used: set<Key>, newKey: Key)
    requires DistinctKeys(l) && Behind(l, e, used) && |l| >= maxSize
    requires Position(l, newKey) == |l| && |used + {newKey}| < maxSize
    ensures Behind(l[..|l| - 1], e, used)
  {
    var p := Position(l, e.key);
    AtMostUsed(l, p, (used + {newKey}) - {newKey});
    BehindAt(l[..|l| - 1], e, used, p);
  }

  lemma StepKeepsBehind<V>(l: Recency<V>, maxSize: int, op: Op<V>, e: Entry<V>, used: set<Key>)
    requires SpecInv(l, maxSize) && Behind(l, e, used) && Spares(op, e.key)
    requires |used + UsedBy(l, op)| < maxSize
    ensures Behind(After(l, maxSize, op), e, used + UsedBy(l, op))
  {
    match op
    case GetOp(key, now) =>
      var i := Position(l, key);
      if i < |l| {
        BehindAfterWithout(l, e, used, i);
        if Hit(l, key, now) {
          BehindAfterFront(Without(l, i), e, used, l[i]);
        }
      }
    case PutOp(f) =>
      var i := Position(l, f.key);
      assert used + UsedBy(l, op) == used + {f.key};
      if i < |l| {
        BehindAfterWithout(l, e, used, i);
        BehindAfterFront(Without(l, i), e, used, f);
      } else if |l| >= maxSize {
        BehindAfterEviction(l, maxSize, e, used, f.key);
        BehindAfterFront(l[..|l| - 1], e, used, f);
      } else {
        BehindAfterFront(l, e, used, f);
      }
    case RemoveOp(key) =>
      var i := Position(l, key);
      if i < |l| {
        BehindAfterWithout(l, e, used, i);
      }
    case ClearOp =>
  }

  lemma {:induction false} RunKeepsBehind<V>(l: Recency<V>, maxSize: int, ops: seq<Op<V>>, e: Entry<V>, used: set<Key>)
    requires SpecInv(l, maxSize) && maxSize >= 1 && Behind(l, e, used)
    requires forall i :: 0 <= i < |ops| ==> Spares(ops[i], e.key)
    requires |used + Used(l, maxSize, ops)| < maxSize
    ensures Behind(Run(l, maxSize, ops), e, used + Used(l, maxSize, ops))
    decreases ops
  {
    if ops == [] {
      assert used + Used(l, maxSize, ops) == used;
    } else {
      var l' := After(l, maxSize, ops[0]);
      var first, rest := UsedBy(l, ops[0]), Used(l', maxSize, ops[1..]);
      assert used + Used(l, maxSize, ops) == (used + first) + rest;
      SubsetSize(used + first, used + Used(l, maxSize, ops));
      StepKeepsBehind(l, maxSize, ops[0], e, used);
      StepKeepsSpecInv(l, maxSize, ops[0]);
      RunKeepsBehind(l', maxSize, ops[1..], e, used + first);
    }
  }

  /** The entry that an operation puts or hits. */
  function UsedEntry<V>(l: Recency<V>, op: Op<V>): Option<Entry<V>> {
    match op
    case GetOp(key, now) => if Hit(l, key, now) then Some(l[Position(l, key)]) else None
    case PutOp(e) => Some(e)
    case _ => None
  }

  /** A put or a hit makes its entry the most recent one. */
  lemma UseComesToFront<V>(l: Recency<V>, maxSize: int, op: Op<V>)
    requires UsedEntry(l, op).Some?
    ensures var l' := After(l, maxSize, op); l' != [] && l'[0] == UsedEntry(l, op).value
    ensures op.GetOp? ==> Got(l, op.key, op.now) == Some(UsedEntry(l, op).value.card)
  {}

  /**
   After its last use, a put or a hit, a key stays retrievable with its card until it expires, unless it
   is removed or the cache is cleared, while fewer than maxSize distinct other keys are put or hit.
   */
  lemma StaysRetrievable<V>(l: Recency<V>, maxSize: int, use: Op<V>, ops: seq<Op<V>>, now: int)
    requires SpecInv(l, maxSize) && maxSize >= 1 && UsedEntry(l, use).Some?
    requires forall i :: 0 <= i < |ops| ==> Spares(ops[i], UsedEntry(l, use).value.key)
    requires |Used(After(l, maxSize, use), maxSize, ops)| < maxSize
    requires now <= UsedEntry(l, use).value.expiresAt
    ensures var e := UsedEntry(l, use).value; Got(Run(l, maxSize, [use] + ops), e.key, now) == Some(e.card)
  {
    var l', e := After(l, maxSize, use), UsedEntry(l, use).value;
    StepKeepsSpecInv(l, maxSize, use);
    UseComesToFront(l, maxSize, use);
    assert {} + Used(l', maxSize, ops) == Used(l', maxSize, ops);
    RunKeepsBehind(l', maxSize, ops, e, {});
    assert ([use] + ops)[1..] == ops;
  }

  // ---------------------------------------------------------------------------------------------
  // Without removals: exactly when a key is still there
  // ---------------------------------------------------------------------------------------------

  /** The operation drops nothing but by eviction: a put, a hit or a miss on a key that is not there. */
  predicate DropsNothing<V>(l: Recency<V>, op: Op<V>) {
    op.PutOp? || (op.GetOp? && (Hit(l, op.key, op.now) || Position(l, op.key) == |l|))
  }

  predicate DropNothing<V>(l: Recency<V>, maxSize: int, ops: seq<Op<V>>)
    decreases ops
  {
    ops == [] || (DropsNothing(l, ops[0]) && DropNothing(After(l, maxSize, ops[0]), maxSize, ops[1..]))
  }

  /** If the key is still there, all the used keys are there and were used more recently. */
  ghost predicate BehindAll<V>(l: Recency<V>, key: Key, used: set<Key>) {
    var p := Position(l, key);
    p < |l| ==> forall u :: u in used ==> Position(l, u) < p
  }

  lemma PositionAt<V>(l: Recency<V>, key: Key, p: nat)
    requires DistinctKeys(l) && p < |l| && l[p].key == key
    ensures Position(l, key) == p
  {}

  lemma PositionAfterFront<V>(l: Recency<V>, f: Entry<V>, key: Key)
    ensures Position([f] + l, key) == if f.key == key then 0 else 1 + Position(l, key)
  {
    assert ([f] + l)[1..] == l;
  }

  lemma PositionAfterWithout<V>(l: Recency<V>, i: nat, key: Key)
    requires DistinctKeys(l) && i < |l| && l[i].key != key
    ensures Position(Without(l, i), key) == var p := Position(l, key); if p < i then p else p - 1
  {
    var p, w := Position(l, key), Without(l, i);
    assert forall j :: 0 <= j < |w| ==> w[j] == l[if j < i then j else j + 1];
    WithoutDistinct(l, i);
    if p < |l| {
      PositionAt(w, key, if p < i then p else p - 1);
    }
  }

  lemma {:induction false} PositionAfterEviction<V>(l: Recency<V>, key: Key)
    requires l != []
    ensures Position(l[..|l| - 1], key) == var p := Position(l, key); if p < |l| then p else |l| - 1
  {
    var w, p := l[..|l| - 1], Position(l, key);
    var i := Position(w, key);
    assert i < |w| ==> l[i].key == key;
    assert p < |w| ==> w[p].key == key;
  }

  lemma FrontBehindAll<V>(l: Recency<V>, f: Entry<V>, key: Key, used: set<Key>)
    requires BehindAll(l, key, used - {f.key}) && f.key != key
    ensures BehindAll([f] + l, key, used + {f.key})
  {
    PositionAfterFront(l, f, key);
    forall u | u in used + {f.key} && Position(l, key) < |l|
      ensures Position([f] + l, u) < Position([f] + l, key)
    {
      PositionAfterFront(l, f, u);
      assert u != f.key ==> u in used - {f.key};
    }
  }

  lemma WithoutBehindAll<V>(l: Recency<V>, i: nat, key: Key, used: set<Key>)
    requires DistinctKeys(l) && BehindAll(l, key, used) && i < |l| && l[i].key != key
    ensures BehindAll(Without(l, i), key, used - {l[i].key})
  {
    PositionAfterWithout(l, i, key);
    forall u | u in used - {l[i].key} && Position(l, key) < |l|
      ensures Position(Without(l, i), u) < Position(Without(l, i), key)
    {
      PositionAfterWithout(l, i, u);
    }
  }

  lemma EvictionBehindAll<V>(l: Recency<V>, key: Key, used: set<Key>)
    requires BehindAll(l, key, used) && l != []
    ensures BehindAll(l[..|l| - 1], key, used)
  {
    PositionAfterEviction(l, key);
    forall u | u in used && Position(l[..|l| - 1], key) < |l| - 1
      ensures Position(l[..|l| - 1], u) < Position(l[..|l| - 1], key)
    {
      PositionAfterEviction(l, u);
    }
  }

  lemma FewerBehindAll<V>(l: Recency<V>, key: Key, used: set<Key>, fewer: set<Key>)
    requires BehindAll(l, key, used) && fewer <= used
    ensures BehindAll(l, key, fewer)
  {}

  lemma PutBehindAll<V>(l: Recency<V>, maxSize: int, f: Entry<V>, key: Key, used: set<Key>)
    requires DistinctKeys(l) && BehindAll(l, key, used) && f.key != key
    ensures BehindAll(AfterPut(l, maxSize, f), key, used + {f.key})
  {
    var i := Position(l, f.key);
    if i < |l| {
      WithoutBehindAll(l, i, key, used);
      FrontBehindAll(Without(l, i), f, key, used);
    } else {
      FewerBehindAll(l, key, used, used - {f.key});
      if |l| >= maxSize && |l| > 0 {
        EvictionBehindAll(l, key, used - {f.key});
        FrontBehindAll(l[..|l| - 1], f, key, used);
      } else {
        FrontBehindAll(l, f, key, used);
      }
    }
  }

  lemma StepBehindAll<V>(l: Recency<V>, maxSize: int, op: Op<V>, key: Key, used: set<Key>)
    requires DistinctKeys(l) && BehindAll(l, key, used) && Spares(op, key) && DropsNothing(l, op)
    ensures BehindAll(After(l, maxSize, op), key, used + UsedBy(l, op))
  {
    if op.PutOp? {
      PutBehindAll(l, maxSize, op.entry, key, used);
    } else if Hit(l, op.key, op.now) {
      var i := Position(l, op.key);
      PutBehindAll(l, maxSize, l[i], key, used);
      assert AfterPut(l, maxSize, l[i]) == AfterGet(l, op.key, op.now);
    } else {
      assert used + UsedBy(l, op) == used;
    }
  }

  lemma {:induction false} RunBehindAll<V>(l: Recency<V>, maxSize: int, ops: seq<Op<V>>, key: Key, used: set<Key>)
    requires SpecInv(l, maxSize) && maxSize >= 1 && BehindAll(l, key, used)
    requires (forall i :: 0 <= i < |ops| ==> Spares(ops[i], key)) && DropNothing(l, maxSize, ops)
    ensures BehindAll(Run(l, maxSize, ops), key, used + Used(l, maxSize, ops))
    decreases ops
  {
    if ops == [] {
      assert used + Used(l, maxSize, ops) == used;
    } else {
      var l' := After(l, maxSize, ops[0]);
      StepBehindAll(l, maxSize, ops[0], key, used);
      StepKeepsSpecInv(l, maxSize, ops[0]);
      RunBehindAll(l', maxSize, ops[1..], key, used + UsedBy(l, ops[0]));
      assert used + Used(l, maxSize, ops) == used + UsedBy(l, ops[0]) + Used(l', maxSize, ops[1..]);
    }
  }

  /** Different keys stand at different places. */
  lemma {:induction false} AtMostPlaces<V>(l: Recency<V>, used: set<Key>, p: nat)
    requires p <= |l| && forall u :: u in used ==> Position(l, u) < p
    ensures |used| <= p
  {
    if used != {} {
      var u :| u in used;
      if p == 0 {
        assert false;
      } else {
        AtMostPlaces(l, used - {l[p - 1].key}, p - 1);
        SubsetSize(used, used - {l[p - 1].key} + {l[p - 1].key});
      }
    }
  }

  /**
   Least recently used goes first, exactly: if nothing is removed, a key that was put or hit is retrievable
   afterwards if and only if it has not expired and fewer than maxSize distinct other keys were put or hit.
   */
  lemma RetrievableIff<V>(l: Recency<V>, maxSize: int, use: Op<V>, ops: seq<Op<V>>, now: int)
    requires SpecInv(l, maxSize) && maxSize >= 1 && UsedEntry(l, use).Some?
    requires forall i :: 0 <= i < |ops| ==> Spares(ops[i], UsedEntry(l, use).value.key)
    requires DropNothing(After(l, maxSize, use), maxSize, ops)
    ensures var e := UsedEntry(l, use).value;
            Got(Run(l, maxSize, [use] + ops), e.key, now)
            == if now <= e.expiresAt && |Used(After(l, maxSize, use), maxSize, ops)| < maxSize then Some(e.card)
               else None
  {
    var l', e := After(l, maxSize, use), UsedEntry(l, use).value;
    assert ([use] + ops)[1..] == ops;
    var used, end := Used(l', maxSize, ops), Run(l', maxSize, ops);
    StepKeepsSpecInv(l, maxSize, use);
    UseComesToFront(l, maxSize, use);
    if |used| < maxSize {
      assert {} + used == used;
      RunKeepsBehind(l', maxSize, ops, e, {});
    } else {
      assert {} + used == used;
      RunBehindAll(l', maxSize, ops, e.key, {});
      EveryHistoryKeepsSpecInv(l', maxSize, ops);
      if Position(end, e.key) < |end| {
        AtMostPlaces(end, used, Position(end, e.key));
        assert false;
      }
    }
  }
}
