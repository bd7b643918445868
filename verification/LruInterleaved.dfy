/**
 The LRU cache (internal/card/cache.go) with `Get` split at its lock boundaries: it looks an element
 up under one lock and moves or removes that element under another, so that other operations may
 come between.  `Clear` is not called.
 */
module LruInterleaved {
  import opened LruCache

  /** A list element: its identity and the key of the entry it holds. */
  datatype Elem = Elem(id: nat, key: Key)

  /** `held` are the elements that some `Get` has looked up. */
  datatype Shared = Shared(list: seq<Elem>, items: map<Key, Elem>, held: set<Elem>, next: nat)

  datatype Section =
    | LookUp(key: Key)
    | MoveHeld(elem: Elem)
    | RemoveHeld(elem: Elem)
    | PutNow(key: Key)
    | RemoveNow(key: Key)

  function IndexOf(l: seq<Elem>, e: Elem): (i: nat)
    requires e in l
    ensures i < |l| && l[i] == e
  {
    if l[0] == e then 0 else 1 + IndexOf(l[1..], e)
  }

  /** list.Remove and list.MoveToFront do nothing to an element that has left the list. */
  function ListRemove(l: seq<Elem>, e: Elem): seq<Elem> {
    if e in l then Without(l, IndexOf(l, e)) else l
  }

  function ListFront(l: seq<Elem>, e: Elem): seq<Elem> {
    if e in l then [e] + Without(l, IndexOf(l, e)) else l
  }

  /** `removeElement`: the map entry of the element's key goes, whichever element it leads to. */
  function Drop(s: Shared, e: Elem): Shared {
    s.(list := ListRemove(s.list, e), items := s.items - {e.key})
  }

  function Push(s: Shared, key: Key): Shared {
    var e := Elem(s.next, key);
    s.(list := [e] + s.list, items := s.items[key := e], next := s.next + 1)
  }

  function Do(s: Shared, maxSize: int, x: Section): Shared {
    match x
    case LookUp(key) => if key in s.items then s.(held := s.held + {s.items[key]}) else s
    case MoveHeld(e) => if e in s.held then s.(list := ListFront(s.list, e)) else s
    case RemoveHeld(e) => if e in s.held then Drop(s, e) else s
    case PutNow(key) =>
      if key in s.items then s.(list := ListFront(s.list, s.items[key]))
      else if |s.list| >= maxSize && s.list != [] then Push(Drop(s, s.list[|s.list| - 1]), key)
      else Push(s, key)
    case RemoveNow(key) => if key in s.items then Drop(s, s.items[key]) else s
  }

  /** Every map value is a live list element with its own key; no element is listed twice. */
  ghost predicate MapIntoList(s: Shared) {
    && (forall k :: k in s.items ==> s.items[k].key == k && s.items[k] in s.list)
    && (forall i, j :: 0 <= i < j < |s.list| ==> s.list[i] != s.list[j])
    && (forall e :: e in s.list ==> e.id < s.next)
  }

  /** ... and every list element is the map's element for its key. */
  ghost predicate Bijective(s: Shared) {
    MapIntoList(s) && forall e :: e in s.list ==> e.key in s.items && s.items[e.key] == e
  }

  lemma RemoveMembers(l: seq<Elem>, e: Elem)
    requires forall i, j :: 0 <= i < j < |l| ==> l[i] != l[j]
    ensures var r := ListRemove(l, e);
            && (forall x :: x in r <==> x in l && x != e)
            && (forall i, j :: 0 <= i < j < |r| ==> r[i] != r[j])
            && |r| == if e in l then |l| - 1 else |l|
  {}

  lemma FrontMembers(l: seq<Elem>, e: Elem)
    requires forall i, j :: 0 <= i < j < |l| ==> l[i] != l[j]
    ensures var r := ListFront(l, e);
            && (forall x :: x in r <==> x in l)
            && (forall i, j :: 0 <= i < j < |r| ==> r[i] != r[j])
            && |r| == |l|
  {}

  lemma DropKeeps(s: Shared, e: Elem)
    requires MapIntoList(s)
    ensures MapIntoList(Drop(s, e)) && |Drop(s, e).list| <= |s.list|
  {}

  lemma PushKeeps(s: Shared, key: Key)
    requires MapIntoList(s)
    ensures MapIntoList(Push(s, key))
  {}

  lemma SectionKeeps(s: Shared, maxSize: int, x: Section)
    requires MapIntoList(s) && |s.list| <= maxSize && maxSize >= 1
    ensures MapIntoList(Do(s, maxSize, x)) && |Do(s, maxSize, x).list| <= maxSize
  {
    match x
    case LookUp(_) =>
    case MoveHeld(e) => FrontMembers(s.list, e);
    case RemoveHeld(e) => DropKeeps(s, e);
    case PutNow(key) =>
      if key in s.items {
        FrontMembers(s.list, s.items[key]);
      } else if |s.list| >= maxSize {
        var last := s.list[|s.list| - 1];
        RemoveMembers(s.list, last);
        DropKeeps(s, last);
        PushKeeps(Drop(s, last), key);
      } else {
        PushKeeps(s, key);
      }
    case RemoveNow(key) =>
      if key in s.items {
        DropKeeps(s, s.items[key]);
      }
  }

  /** The list holds elements with the keys of these entries, in order. */
  ghost predicate HasKeysOf<V>(list: seq<Elem>, l: Recency<V>) {
    |list| == |l| && forall i :: 0 <= i < |l| ==> list[i].key == l[i].key
  }

  lemma ElementOfKey<V>(s: Shared, l: Recency<V>, key: Key)
    requires Bijective(s) && HasKeysOf(s.list, l)
    ensures key in s.items <==> Position(l, key) < |l|
    ensures key in s.items ==> s.items[key] in s.list && IndexOf(s.list, s.items[key]) == Position(l, key)
  {
    if Position(l, key) < |l| {
      assert s.list[Position(l, key)] in s.list;
    }
  }

  lemma WithoutHasKeys<V>(list: seq<Elem>, l: Recency<V>, i: nat)
    requires HasKeysOf(list, l) && i < |l|
    ensures HasKeysOf(Without(list, i), Without(l, i))
  {}

  /** With nothing in between, the two sections of a `Get` do to the order of the keys what `Get` does. */
  lemma UninterruptedGet<V>(s: Shared, l: Recency<V>, maxSize: int, key: Key, now: int)
    requires Bijective(s) && HasKeysOf(s.list, l) && Position(l, key) < |l|
    ensures key in s.items
    ensures var looked, e := Do(s, maxSize, LookUp(key)), s.items[key];
            HasKeysOf(Do(looked, maxSize, if Hit(l, key, now) then MoveHeld(e) else RemoveHeld(e)).list,
                      AfterGet(l, key, now))
  {
    ElementOfKey(s, l, key);
    WithoutHasKeys(s.list, l, Position(l, key));
  }

  /** So do a put and a removal, each of which is one section. */
  lemma PutAndRemove<V>(s: Shared, l: Recency<V>, maxSize: int, e: Entry<V>)
    requires Bijective(s) && HasKeysOf(s.list, l) && maxSize >= 1
    ensures HasKeysOf(Do(s, maxSize, PutNow(e.key)).list, AfterPut(l, maxSize, e))
    ensures HasKeysOf(Do(s, maxSize, RemoveNow(e.key)).list, AfterRemove(l, e.key))
  {
    ElementOfKey(s, l, e.key);
    if e.key in s.items {
      WithoutHasKeys(s.list, l, Position(l, e.key));
    } else if |l| >= maxSize {
      var n := |l| - 1;
      var last := s.list[n];
      assert last in s.list && IndexOf(s.list, last) == n;
      assert Without(s.list, n) == s.list[..n];
    }
  }

  function Run(maxSize: int, xs: seq<Section>): Shared {
    if xs == [] then Shared([], map[], {}, 0) else Do(Run(maxSize, xs[..|xs| - 1]), maxSize, xs[|xs| - 1])
  }

  lemma {:induction false} MapNoLargerThanList(items: map<Key, Elem>, list: seq<Elem>)
    requires forall k :: k in items ==> items[k].key == k && items[k] in list
    ensures |items| <= |list|
  {
    if list != [] {
      var e, rest := list[0], list[1..];
      forall k | k in items - {e.key}
        ensures items[k] in rest
      {
        var i :| 0 <= i < |list| && list[i] == items[k];
        assert rest[i - 1] == items[k];
      }
      MapNoLargerThanList(items - {e.key}, rest);
      assert (items - {e.key}).Keys == items.Keys - {e.key};
      assert |items| == |items.Keys| && |items - {e.key}| == |(items - {e.key}).Keys|;
    } else {
      assert items.Keys == {};
      assert |items| == |items.Keys|;
    }
  }

  /** In every interleaving, map values are live list elements of their key, and both sizes are bounded. */
  lemma {:induction false} EveryInterleavingKeepsMapIntoList(maxSize: int, xs: seq<Section>)
    requires maxSize >= 1
    ensures MapIntoList(Run(maxSize, xs))
    ensures |Run(maxSize, xs).items| <= |Run(maxSize, xs).list| <= maxSize
  {
    if xs != [] {
      EveryInterleavingKeepsMapIntoList(maxSize, xs[..|xs| - 1]);
      SectionKeeps(Run(maxSize, xs[..|xs| - 1]), maxSize, xs[|xs| - 1]);
    }
    MapNoLargerThanList(Run(maxSize, xs).items, Run(maxSize, xs).list);
  }

  /**
   Removing an element keeps map and list in bijection exactly when the map has no other element
   for its key.
   */
  lemma DropKeepsBijectionIff(s: Shared, e: Elem)
    requires Bijective(s)
    ensures Bijective(Drop(s, e)) <==> (e.key in s.items ==> s.items[e.key] == e)
  {
    RemoveMembers(s.list, e);
    DropKeeps(s, e);
    if e.key in s.items && s.items[e.key] != e {
      var other := s.items[e.key];
      assert other in Drop(s, e).list && other.key !in Drop(s, e).items;
    }
  }

  /** The section removes an element that it holds and that the map has replaced by another meanwhile. */
  predicate RemovesSuperseded(s: Shared, x: Section) {
    x.RemoveHeld? && x.elem in s.held && x.elem.key in s.items && s.items[x.elem.key] != x.elem
  }

  lemma FrontKeepsBijection(s: Shared, e: Elem)
    requires Bijective(s)
    ensures Bijective(s.(list := ListFront(s.list, e)))
  {
    FrontMembers(s.list, e);
  }

  lemma PushKeepsBijection(s: Shared, key: Key)
    requires Bijective(s) && key !in s.items
    ensures Bijective(Push(s, key))
  {
    PushKeeps(s, key);
  }

  /** A section keeps the bijection exactly when it does not remove a superseded element. */
  lemma SectionKeepsBijectionIff(s: Shared, maxSize: int, x: Section)
    requires Bijective(s) && |s.list| <= maxSize && maxSize >= 1
    ensures Bijective(Do(s, maxSize, x)) <==> !RemovesSuperseded(s, x)
  {
    match x
    case LookUp(_) =>
    case MoveHeld(e) => FrontKeepsBijection(s, e);
    case RemoveHeld(e) => DropKeepsBijectionIff(s, e);
    case PutNow(key) =>
      if key in s.items {
        FrontKeepsBijection(s, s.items[key]);
      } else if |s.list| >= maxSize {
        var last := s.list[|s.list| - 1];
        DropKeepsBijectionIff(s, last);
        PushKeepsBijection(Drop(s, last), key);
      } else {
        PushKeepsBijection(s, key);
      }
    case RemoveNow(key) =>
      if key in s.items {
        DropKeepsBijectionIff(s, s.items[key]);
      }
  }

  ghost predicate AlwaysBijective(maxSize: int, xs: seq<Section>) {
    forall n :: 0 <= n <= |xs| ==> Bijective(Run(maxSize, xs[..n]))
  }

  predicate NeverRemovesSuperseded(maxSize: int, xs: seq<Section>) {
    forall n :: 0 <= n < |xs| ==> !RemovesSuperseded(Run(maxSize, xs[..n]), xs[n])
  }

  lemma {:induction false} BijectiveUpTo(maxSize: int, xs: seq<Section>, n: nat)
    requires maxSize >= 1 && n <= |xs| && NeverRemovesSuperseded(maxSize, xs)
    ensures Bijective(Run(maxSize, xs[..n]))
  {
    if n > 0 {
      BijectiveUpTo(maxSize, xs, n - 1);
      RunStep(maxSize, xs, n - 1);
      EveryInterleavingKeepsMapIntoList(maxSize, xs[..n - 1]);
      SectionKeepsBijectionIff(Run(maxSize, xs[..n - 1]), maxSize, xs[n - 1]);
    }
  }

  /**
   Map and list stay in bijection throughout an interleaving exactly when no section in it removes a
   superseded element.
   */
  lemma InterleavingBijectiveIff(maxSize: int, xs: seq<Section>)
    requires maxSize >= 1
    ensures AlwaysBijective(maxSize, xs) <==> NeverRemovesSuperseded(maxSize, xs)
  {
    if NeverRemovesSuperseded(maxSize, xs) {
      forall n | 0 <= n <= |xs|
        ensures Bijective(Run(maxSize, xs[..n]))
      {
        BijectiveUpTo(maxSize, xs, n);
      }
    }
    if AlwaysBijective(maxSize, xs) {
      forall n | 0 <= n < |xs|
        ensures !RemovesSuperseded(Run(maxSize, xs[..n]), xs[n])
      {
        RunStep(maxSize, xs, n);
        EveryInterleavingKeepsMapIntoList(maxSize, xs[..n]);
        SectionKeepsBijectionIff(Run(maxSize, xs[..n]), maxSize, xs[n]);
      }
    }
  }

  /**
   The bijection can be lost: two `Get`s hold the same expired element, one removes it, the key is
   put again, and the other removes the new map entry but not the new list element.
   */
  lemma BijectionCanBeLost(key: Key)
    ensures var e := Elem(0, key);
            var s := Run(1, [PutNow(key), LookUp(key), RemoveHeld(e), PutNow(key), RemoveHeld(e)]);
            s.list == [Elem(1, key)] && s.items == map[] && !Bijective(s)
  {
    var e := Elem(0, key);
    var xs := [PutNow(key), LookUp(key), RemoveHeld(e), PutNow(key), RemoveHeld(e)];
    RunStep(1, xs, 0);
    assert Run(1, xs[..1]) == Shared([e], map[key := e], {}, 1);
    RunStep(1, xs, 1);
    assert Run(1, xs[..2]) == Shared([e], map[key := e], {e}, 1);
    RunStep(1, xs, 2);
    assert Run(1, xs[..3]) == Shared([], map[], {e}, 1);
    RunStep(1, xs, 3);
    assert Run(1, xs[..4]) == Shared([Elem(1, key)], map[key := Elem(1, key)], {e}, 2);
    RunStep(1, xs, 4);
    assert xs[..5] == xs;
    var s := Run(1, xs);
    assert s == Shared([Elem(1, key)], map[], {e}, 2);
    assert s.list[0] in s.list;
  }

  lemma RunStep(maxSize: int, xs: seq<Section>, n: nat)
    requires n < |xs|
    ensures Run(maxSize, xs[..n + 1]) == Do(Run(maxSize, xs[..n]), maxSize, xs[n])
  {
    assert xs[..n + 1][..n] == xs[..n];
  }
}
