/**
 Counting contacts by distance: what sorting and truncating with repetitions keeps.

 A list that is sorted and cut to its k nearest entries, duplicates included, is described by how
 many of its entries lie within each distance.  Unlike the list itself, these counts compose over
 any number of additions and cuts (the loops of the iterative lookups in internal/dht/dht.go).
 */
module Nearest {
  import opened Common
  import opened NodeIds
  import opened Routing

  function Min(a: nat, b: nat): nat {
    if a < b then a else b
  }

  ghost predicate HasId(s: seq<NodeContact>, id: NodeId) {
    exists j :: 0 <= j < |s| && s[j].id == id
  }

  /** How many entries, repetitions included, are strictly nearer to the target than d. */
  function Nearer(s: seq<NodeContact>, target: NodeId, d: nat): nat {
    if s == [] then 0
    else Nearer(s[..|s| - 1], target, d) + if Dist(s[|s| - 1].id, target) < d then 1 else 0
  }

  /** r holds the k nearest entries of a list, or all if there are fewer: the same count within every distance. */
  ghost predicate KNearest(all: seq<NodeContact>, target: NodeId, k: nat, r: seq<NodeContact>) {
    |r| <= k && forall d: nat :: Nearer(r, target, d) == Min(k, Nearer(all, target, d))
  }

  /** There are k entries and all of them are at least as near as the identifier. */
  ghost predicate Beyond(s: seq<NodeContact>, target: NodeId, k: nat, id: NodeId) {
    |s| == k && forall i :: 0 <= i < |s| ==> Dist(s[i].id, target) <= Dist(id, target)
  }

  lemma {:induction false} NearerSplit(a: seq<NodeContact>, b: seq<NodeContact>, target: NodeId, d: nat)
    ensures Nearer(a + b, target, d) == Nearer(a, target, d) + Nearer(b, target, d)
  {
    if b == [] {
      assert a + b == a;
    } else {
      assert (a + b)[..|a + b| - 1] == a + b[..|b| - 1];
      NearerSplit(a, b[..|b| - 1], target, d);
    }
  }

  /** Counts do not depend on the order. */
  lemma {:induction false} NearerOfPermutation(a: seq<NodeContact>, b: seq<NodeContact>, target: NodeId, d: nat)
    requires multiset(a) == multiset(b)
    ensures Nearer(a, target, d) == Nearer(b, target, d)
    decreases |a|
  {
    if a == [] {
      assert |multiset(b)| == 0;
    } else {
      var i := PlaceOfLast(a, b);
      NearerOfPermutation(a[..|a| - 1], Without(b, i), target, d);
      NearerWithout(b, i, target, d);
    }
  }

  lemma PlaceOfLast(a: seq<NodeContact>, b: seq<NodeContact>) returns (i: nat)
    requires multiset(a) == multiset(b) && a != []
    ensures i < |b| && b[i] == a[|a| - 1] && multiset(a[..|a| - 1]) == multiset(Without(b, i))
  {
    var n := |a| - 1;
    TakeAt(a, n);
    assert a[..n] + a[n + 1..] == a[..n];
    assert a[n] in multiset(b);
    i :| 0 <= i < |b| && b[i] == a[n];
    TakeAt(b, i);
    SameWithoutOne(multiset(a[..n]), multiset(Without(b, i)), a[n]);
  }

  lemma NearerWithout(s: seq<NodeContact>, i: nat, target: NodeId, d: nat)
    requires i < |s|
    ensures Nearer(s, target, d) == Nearer(Without(s, i), target, d) + if Dist(s[i].id, target) < d then 1 else 0
  {
    assert s == s[..i] + [s[i]] + s[i + 1..];
    NearerSplit(s[..i] + [s[i]], s[i + 1..], target, d);
    NearerSplit(s[..i], [s[i]], target, d);
    NearerSplit(s[..i], s[i + 1..], target, d);
  }

  lemma {:induction false} NearerAtMostAll(s: seq<NodeContact>, target: NodeId, d: nat)
    ensures Nearer(s, target, d) <= |s|
    ensures Nearer(s, target, d) == |s| <==> forall i :: 0 <= i < |s| ==> Dist(s[i].id, target) < d
  {
    if s != [] {
      NearerAtMostAll(s[..|s| - 1], target, d);
    }
  }

  /** The next distance counts exactly the entries at this one, which all have one identifier. */
  lemma {:induction false} NearerAt(s: seq<NodeContact>, target: NodeId, id: NodeId)
    ensures Nearer(s, target, Dist(id, target)) <= Nearer(s, target, Dist(id, target) + 1)
    ensures HasId(s, id) <==> Nearer(s, target, Dist(id, target)) < Nearer(s, target, Dist(id, target) + 1)
  {
    if s != [] {
      var n := |s| - 1;
      NearerAt(s[..n], target, id);
      DistInjective(s[n].id, id, target);
      assert HasId(s, id) <==> HasId(s[..n], id) || s[n].id == id by {
        if s[n].id != id && HasId(s, id) {
          var j :| 0 <= j < |s| && s[j].id == id;
          assert s[..n][j].id == id;
        }
        if HasId(s[..n], id) {
          var j :| 0 <= j < n && s[..n][j].id == id;
          assert s[j].id == id;
        }
      }
    }
  }

  lemma NearerSnoc(s: seq<NodeContact>, c: NodeContact, target: NodeId, d: nat)
    ensures Nearer(s + [c], target, d) == Nearer(s, target, d) + if Dist(c.id, target) < d then 1 else 0
  {
    assert (s + [c])[..|s|] == s;
  }

  lemma {:induction false} NearerOfPrefix(s: seq<NodeContact>, n: nat, target: NodeId, d: nat)
    requires Ascending(s, target) && n <= |s|
    ensures Nearer(s[..n], target, d) == Min(n, Nearer(s, target, d))
  {
    NearerAtMostAll(s, target, d);
    if n == |s| {
      assert s[..n] == s;
    } else {
      var m := |s| - 1;
      assert s[..m][..n] == s[..n];
      NearerOfPrefix(s[..m], n, target, d);
      if Dist(s[m].id, target) < d {
        LastIsFarthest(s, target, d);
      }
    }
  }

  lemma LastIsFarthest(s: seq<NodeContact>, target: NodeId, d: nat)
    requires Ascending(s, target) && s != [] && Dist(s[|s| - 1].id, target) < d
    ensures Nearer(s[..|s| - 1], target, d) == |s| - 1
  {
    NearerAtMostAll(s[..|s| - 1], target, d);
  }

  /** Sorting and keeping the first k keeps the k nearest. */
  lemma SortedPrefixIsKNearest(s: seq<NodeContact>, sorted: seq<NodeContact>, target: NodeId, k: nat, n: nat)
    requires multiset(s) == multiset(sorted) && Ascending(sorted, target) && n == Min(k, |sorted|)
    ensures KNearest(s, target, k, sorted[..n])
  {
    forall d: nat
      ensures Nearer(sorted[..n], target, d) == Min(k, Nearer(s, target, d))
    {
      NearerOfPermutation(s, sorted, target, d);
      NearerOfPrefix(sorted, n, target, d);
      NearerAtMostAll(sorted, target, d);
    }
  }

  /** Cutting in between loses nothing that a cut at the end would keep. */
  lemma CutsCompose(all: seq<NodeContact>, kept: seq<NodeContact>, more: seq<NodeContact>, target: NodeId, k: nat,
                    cut: seq<NodeContact>)
    requires kept == all || KNearest(all, target, k, kept)
    requires KNearest(kept + more, target, k, cut)
    ensures KNearest(all + more, target, k, cut)
  {
    forall d: nat
      ensures Nearer(cut, target, d) == Min(k, Nearer(all + more, target, d))
    {
      NearerSplit(kept, more, target, d);
      NearerSplit(all, more, target, d);
    }
  }

  /** An identifier is kept exactly when it is there and fewer than k entries, with repetitions, are nearer. */
  lemma KeptIff(all: seq<NodeContact>, target: NodeId, k: nat, r: seq<NodeContact>, id: NodeId)
    requires KNearest(all, target, k, r)
    ensures HasId(r, id) <==> HasId(all, id) && Nearer(all, target, Dist(id, target)) < k
  {
    NearerAt(r, target, id);
    NearerAt(all, target, id);
  }

  lemma KeptOrBeyond(all: seq<NodeContact>, target: NodeId, k: nat, r: seq<NodeContact>, id: NodeId)
    requires KNearest(all, target, k, r) && HasId(all, id)
    ensures HasId(r, id) || Beyond(r, target, k, id)
  {
    KeptIff(all, target, k, r, id);
    NearerAtMostAll(r, target, Dist(id, target));
  }
}
