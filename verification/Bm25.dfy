/**
 What the two keyword indexes (internal/search/keyword.go, internal/search/keyword_v2.go) share:
 document frequencies kept incrementally, the BM25 formula and the ranking of results.

 Floating-point numbers are modelled as reals, and the logarithm as any function that is positive
 above 1.
 */
module Bm25 {
  import opened Common

  datatype DocId = DocId(id: string)

  datatype Term = Term(text: string)

  /** What a document is indexed from. */
  datatype Card = Card(name: string, summary: string, category: string, tags: seq<string>)

  /** Lower-casing and tokenizing, left open. */
  datatype Analyzer = Analyzer(lower: string -> string, tokenize: string -> seq<Term>)

  // ---------------------------------------------------------------------------------------------
  // Document frequencies
  // ---------------------------------------------------------------------------------------------

  /** The documents that contain a term, given the set of terms of every document. */
  ghost function Holders(terms: map<DocId, set<Term>>, t: Term): set<DocId> {
    set d | d in terms && t in terms[d]
  }

  /** df counts, for every term, the documents that contain it, and has no entry for any other term. */
  ghost predicate ExactDf(df: map<Term, int>, terms: map<DocId, set<Term>>) {
    && (forall t :: t in df <==> Holders(terms, t) != {})
    && (forall t :: t in df ==> df[t] == |Holders(terms, t)|)
  }

  /** Only one map is exact: the one counted from scratch. */
  lemma ExactDfUnique(df: map<Term, int>, other: map<Term, int>, terms: map<DocId, set<Term>>)
    requires ExactDf(df, terms) && ExactDf(other, terms)
    ensures df == other
  {}

  lemma ExactDfBounds(df: map<Term, int>, terms: map<DocId, set<Term>>, t: Term)
    requires ExactDf(df, terms) && t in df
    ensures 1 <= df[t] <= |terms|
  {
    SubsetSize(Holders(terms, t), terms.Keys);
    assert Holders(terms, t) != {};
  }

  function CountOf(df: map<Term, int>, t: Term): int {
    if t in df then df[t] else 0
  }

  ghost predicate IsDecremented(df: map<Term, int>, ts: set<Term>, df': map<Term, int>) {
    && (forall t :: t in df' <==> if t in ts then CountOf(df, t) - 1 > 0 else t in df)
    && (forall t :: t in df' ==> df'[t] == if t in ts then df[t] - 1 else df[t])
  }

  ghost predicate IsIncremented(df: map<Term, int>, ts: set<Term>, df': map<Term, int>) {
    && (forall t :: t in df' <==> t in df || t in ts)
    && (forall t :: t in df' ==> df'[t] == CountOf(df, t) + if t in ts then 1 else 0)
  }

  /** Every term of a removed document counts one less; a count that reaches zero is deleted. */
  method Decrement(df: map<Term, int>, ts: set<Term>) returns (df': map<Term, int>)
    ensures IsDecremented(df, ts, df')
  {
    df' := df;
    var left := ts;
    while left != {}
      invariant left <= ts && IsDecremented(df, ts - left, df')
      decreases |left|
    {
      var t :| t in left;
      var n := CountOf(df', t) - 1;
      df' := if n <= 0 then df' - {t} else df'[t := n];
      left := left - {t};
    }
  }

  method Increment(df: map<Term, int>, ts: set<Term>) returns (df': map<Term, int>)
    ensures IsIncremented(df, ts, df')
  {
    df' := df;
    var left := ts;
    while left != {}
      invariant left <= ts && IsIncremented(df, ts - left, df')
      decreases |left|
    {
      var t :| t in left;
      df' := df'[t := CountOf(df', t) + 1];
      left := left - {t};
    }
  }

  lemma HoldersWithout(terms: map<DocId, set<Term>>, d: DocId, t: Term)
    requires d in terms
    ensures Holders(terms - {d}, t) == Holders(terms, t) - {d}
    ensures |Holders(terms, t)| == |Holders(terms - {d}, t)| + if t in terms[d] then 1 else 0
  {}

  lemma RemovalKeepsExact(df: map<Term, int>, terms: map<DocId, set<Term>>, d: DocId, df': map<Term, int>)
    requires ExactDf(df, terms) && d in terms && IsDecremented(df, terms[d], df')
    ensures ExactDf(df', terms - {d})
  {
    forall t
      ensures t in df' <==> Holders(terms - {d}, t) != {}
      ensures t in df' ==> df'[t] == |Holders(terms - {d}, t)|
    {
      HoldersWithout(terms, d, t);
      assert Holders(terms - {d}, t) == {} <==> |Holders(terms - {d}, t)| == 0;
      assert Holders(terms, t) == {} <==> |Holders(terms, t)| == 0;
    }
  }

  lemma AdditionKeepsExact(df: map<Term, int>, terms: map<DocId, set<Term>>, d: DocId, ts: set<Term>,
                           df': map<Term, int>)
    requires ExactDf(df, terms) && d !in terms && IsIncremented(df, ts, df')
    ensures ExactDf(df', terms[d := ts])
  {
    var more := terms[d := ts];
    assert more - {d} == terms;
    forall t
      ensures t in df' <==> Holders(more, t) != {}
      ensures t in df' ==> df'[t] == |Holders(more, t)|
    {
      HoldersWithout(more, d, t);
      assert Holders(terms, t) == {} <==> |Holders(terms, t)| == 0;
      assert Holders(more, t) == {} <==> |Holders(more, t)| == 0;
    }
  }

  // ---------------------------------------------------------------------------------------------
  // Term frequencies and lengths
  // ---------------------------------------------------------------------------------------------

  /** tf maps exactly the terms of the text to their number of occurrences. */
  ghost predicate IsTf(tf: map<Term, nat>, tokens: seq<Term>) {
    && (forall t :: t in tf <==> multiset(tokens)[t] > 0)
    && (forall t :: t in tf ==> tf[t] == multiset(tokens)[t])
  }

  lemma TfUnique(tf: map<Term, nat>, other: map<Term, nat>, tokens: seq<Term>)
    requires IsTf(tf, tokens) && IsTf(other, tokens)
    ensures tf == other
  {}

  method CountTerms(tokens: seq<Term>) returns (tf: map<Term, nat>)
    ensures IsTf(tf, tokens)
  {
    tf := map[];
    for i := 0 to |tokens|
      invariant IsTf(tf, tokens[..i])
    {
      var t := tokens[i];
      assert tokens[..i + 1] == tokens[..i] + [t];
      tf := tf[t := (if t in tf then tf[t] else 0) + 1];
    }
    assert tokens[..|tokens|] == tokens;
  }

  datatype Position = Position(doc: DocId, index: int)

  /** All token positions of all texts; one set, so that no order of summation is involved. */
  ghost function Positions(lengths: map<DocId, nat>): set<Position> {
    set d, i | d in lengths && 0 <= i < lengths[d] :: Position(d, i)
  }

  ghost function PositionsIn(d: DocId, n: nat): set<Position> {
    set i | 0 <= i < n :: Position(d, i)
  }

  lemma {:induction false} CountPositionsIn(d: DocId, n: nat)
    ensures |PositionsIn(d, n)| == n
  {
    if n > 0 {
      CountPositionsIn(d, n - 1);
      assert PositionsIn(d, n) == PositionsIn(d, n - 1) + {Position(d, n - 1)};
    }
  }

  /** The total length of all texts. */
  ghost function Total(lengths: map<DocId, nat>): nat {
    |Positions(lengths)|
  }

  lemma TotalWithout(lengths: map<DocId, nat>, d: DocId)
    requires d in lengths
    ensures Total(lengths) == lengths[d] + Total(lengths - {d})
  {
    assert Positions(lengths) == PositionsIn(d, lengths[d]) + Positions(lengths - {d});
    CountPositionsIn(d, lengths[d]);
  }

  lemma TotalAtLeast(lengths: map<DocId, nat>, d: DocId)
    requires d in lengths
    ensures Total(lengths) >= lengths[d]
  {
    TotalWithout(lengths, d);
  }

  /** The loop that sums the lengths of all documents. */
  method SumLengths(lengths: map<DocId, nat>) returns (total: nat)
    ensures total == Total(lengths)
  {
    total := 0;
    var left := lengths;
    while left != map[]
      invariant total + Total(left) == Total(lengths)
      decreases |left|
    {
      var d :| d in left;
      TotalWithout(left, d);
      total := total + left[d];
      left := left - {d};
    }
  }

  /** The average length, 0 for no documents. */
  ghost function Average(lengths: map<DocId, nat>): real {
    if |lengths| == 0 then 0.0 else Total(lengths) as real / |lengths| as real
  }

  lemma AveragePositive(lengths: map<DocId, nat>, d: DocId)
    requires d in lengths && lengths[d] > 0
    ensures Average(lengths) > 0.0
  {
    TotalAtLeast(lengths, d);
    assert |lengths| > 0;
    Positive(Total(lengths) as real, |lengths| as real);
  }

  lemma Positive(a: real, b: real)
    requires a > 0.0 && b > 0.0
    ensures a / b > 0.0 && a * b > 0.0
  {}

  // ---------------------------------------------------------------------------------------------
  // The formula
  // ---------------------------------------------------------------------------------------------

  const K1: real := 1.2
  const B: real := 0.75

  ghost predicate PositiveAboveOne(log: real -> real) {
    forall x :: x > 1.0 ==> log(x) > 0.0
  }

  function Idf(log: real -> real, docCount: int, docFreq: int): real
    requires docFreq >= 1
  {
    log((docCount as real - docFreq as real + 0.5) / (docFreq as real + 0.5) + 1.0)
  }

  lemma IdfPositive(log: real -> real, docCount: int, docFreq: int)
    requires PositiveAboveOne(log) && 1 <= docFreq <= docCount
    ensures Idf(log, docCount, docFreq) > 0.0
  {}

  ghost predicate StrictlyIncreasing(log: real -> real) {
    forall x, y :: 0.0 < x < y ==> log(x) < log(y)
  }

  /** In closed form: the rarer the term, the larger the argument of the logarithm. */
  lemma IdfIsLogOfRarity(log: real -> real, docCount: int, docFreq: int)
    requires 1 <= docFreq <= docCount
    ensures Idf(log, docCount, docFreq) == log((docCount as real + 1.0) / (docFreq as real + 0.5))
  {
    var n, f := docCount as real, docFreq as real;
    OneMoreThanQuotient(n - f + 0.5, f + 0.5);
  }

  lemma OneMoreThanQuotient(a: real, b: real)
    requires b > 0.0
    ensures a / b + 1.0 == (a + b) / b
  {
    var x := a / b;
    assert x * b == a;
    QuotientIs(a + b, b, x + 1.0);
  }

  lemma QuotientIs(a: real, b: real, q: real)
    requires b > 0.0 && q * b == a
    ensures a / b == q
  {
    var d := a / b - q;
    assert d * b == 0.0;
  }

  /** A rarer term weighs strictly more. */
  lemma RarerWeighsMore(log: real -> real, docCount: int, rare: int, common: int)
    requires StrictlyIncreasing(log) && 1 <= rare < common <= docCount
    ensures Idf(log, docCount, common) < Idf(log, docCount, rare)
  {
    IdfIsLogOfRarity(log, docCount, rare);
    IdfIsLogOfRarity(log, docCount, common);
    SmallerDenominator(docCount as real + 1.0, rare as real + 0.5, common as real + 0.5);
  }

  lemma SmallerDenominator(a: real, b: real, c: real)
    requires a > 0.0 && 0.0 < b < c
    ensures 0.0 < a / c < a / b
  {
    var x, y := a / b, a / c;
    assert x * b == a == y * c;
    assert (x - y) * b == y * (c - b) > 0.0;
  }

  /** k1 * (1 - b + b * length / average) */
  function Norm(length: nat, average: real): real
    requires average > 0.0
  {
    K1 * (1.0 - B + B * length as real / average)
  }

  lemma NormPositive(length: nat, average: real)
    requires average > 0.0
    ensures Norm(length, average) > 0.0
  {}

  /** The contribution of a term that occurs tf times in a text of the given length. */
  function Contribution(idf: real, tf: nat, length: nat, average: real): real
    requires average > 0.0
  {
    NormPositive(length, average);
    idf * (tf as real * (K1 + 1.0)) / (tf as real + Norm(length, average))
  }

  /** A term that occurs contributes something, and less than idf * (k1 + 1). */
  lemma ContributionBounds(idf: real, tf: nat, length: nat, average: real)
    requires idf > 0.0 && tf > 0 && average > 0.0
    ensures 0.0 < Contribution(idf, tf, length, average) < idf * (K1 + 1.0)
  {}

  /** In a text of average length, a term that occurs once contributes exactly its idf. */
  lemma OnceInAverageText(idf: real, length: nat, average: real)
    requires average > 0.0 && length as real == average
    ensures Contribution(idf, 1, length, average) == idf
  {
    assert B * average / average == B;
    assert Norm(length, average) == K1;
    assert idf * (1.0 * (K1 + 1.0)) / (1.0 + K1) == idf;
  }

  /** The share of idf * (k1 + 1) that a term gets. */
  function Saturation(tf: nat, length: nat, average: real): real
    requires average > 0.0
  {
    NormPositive(length, average);
    tf as real / (tf as real + Norm(length, average))
  }

  lemma ContributionIs(idf: real, tf: nat, length: nat, average: real)
    requires average > 0.0
    ensures Contribution(idf, tf, length, average) == idf * ((K1 + 1.0) * Saturation(tf, length, average))
  {
    NormPositive(length, average);
    var d := tf as real + Norm(length, average);
    assert idf * (tf as real * (K1 + 1.0)) / d == idf * ((K1 + 1.0) * (tf as real / d));
  }

  lemma LongerTextHasLargerNorm(shorter: nat, longer: nat, average: real)
    requires shorter < longer && average > 0.0
    ensures Norm(shorter, average) < Norm(longer, average)
  {
    assert B * shorter as real / average < B * longer as real / average;
  }

  lemma SaturationGrows(tf: nat, length: nat, tf': nat, length': nat, average: real)
    requires average > 0.0 && 1 <= tf <= tf' && length >= length' && (tf < tf' || length > length')
    ensures 0.0 < Saturation(tf, length, average) < Saturation(tf', length', average) < 1.0
  {
    NormPositive(length, average);
    NormPositive(length', average);
    if length > length' {
      LongerTextHasLargerNorm(length', length, average);
    }
    LargerShare(tf as real, Norm(length, average), tf' as real, Norm(length', average));
  }

  lemma LargerShare(a: real, n: real, b: real, m: real)
    requires 0.0 < a <= b && n >= m > 0.0 && (a < b || n > m)
    ensures 0.0 < a / (a + n) < b / (b + m) < 1.0
  {
    LargerProduct(a, m, b, n);
    CrossMultiplied(a, a + n, b, b + m);
    CrossMultiplied(b, b + m, 1.0, 1.0);
    Positive(a, a + n);
  }

  lemma CrossMultiplied(a: real, c: real, b: real, d: real)
    requires c > 0.0 && d > 0.0 && a * d < b * c
    ensures a / c < b / d
  {
    var x, y := a / c, b / d;
    assert x * c == a && y * d == b;
    assert (y - x) * (c * d) == y * d * c - x * c * d > 0.0;
    assert c * d > 0.0;
  }

  /** More occurrences, a shorter text or a larger idf: none of them lowers the contribution, any of them raises it. */
  lemma ContributionGrows(idf: real, tf: nat, length: nat, idf': real, tf': nat, length': nat, average: real)
    requires average > 0.0 && tf >= 1 && idf > 0.0
    requires idf <= idf' && tf <= tf' && length >= length' && (idf < idf' || tf < tf' || length > length')
    ensures Contribution(idf, tf, length, average) < Contribution(idf', tf', length', average)
  {
    ContributionIs(idf, tf, length, average);
    ContributionIs(idf', tf', length', average);
    var x, y := (K1 + 1.0) * Saturation(tf, length, average), (K1 + 1.0) * Saturation(tf', length', average);
    if tf < tf' || length > length' {
      SaturationGrows(tf, length, tf', length', average);
    } else {
      SaturationGrows(tf, length, tf + 1, length, average);
    }
    LargerProduct(idf, x, idf', y);
  }

  lemma ContributionNoLess(idf: real, tf: nat, length: nat, idf': real, tf': nat, length': nat, average: real)
    requires average > 0.0 && tf >= 1 && idf > 0.0
    requires idf <= idf' && tf <= tf' && length >= length'
    ensures Contribution(idf, tf, length, average) <= Contribution(idf', tf', length', average)
    ensures idf < idf' || tf < tf' || length > length' ==>
              Contribution(idf, tf, length, average) < Contribution(idf', tf', length', average)
  {
    if idf < idf' || tf < tf' || length > length' {
      ContributionGrows(idf, tf, length, idf', tf', length', average);
    }
  }

  lemma LargerProduct(a: real, x: real, b: real, y: real)
    requires 0.0 < a <= b && 0.0 < x <= y && (a < b || x < y)
    ensures a * x < b * y
  {
    assert a * x <= a * y <= b * y;
    assert a < b ==> a * y < b * y;
    assert x < y ==> a * x < a * y;
  }

  // ---------------------------------------------------------------------------------------------
  // Ranking
  // ---------------------------------------------------------------------------------------------

  datatype Ranked = Ranked(doc: DocId, score: real)

  ghost predicate Descending(r: seq<Ranked>) {
    forall i, j :: 0 <= i < j < |r| ==> r[i].score >= r[j].score
  }

  ghost predicate DistinctDocs(r: seq<Ranked>) {
    forall i, j :: 0 <= i < j < |r| ==> r[i].doc != r[j].doc
  }

  predicate Listed(r: seq<Ranked>, d: DocId) {
    exists i :: 0 <= i < |r| && r[i].doc == d
  }

  /** The results are the best `max` of the scored documents (all of them if max is not positive), best first. */
  ghost predicate IsTop(scores: map<DocId, real>, max: int, r: seq<Ranked>) {
    && |r| == (if max > 0 && |scores| > max then max else |scores|)
    && Descending(r) && DistinctDocs(r)
    && (forall i :: 0 <= i < |r| ==> r[i].doc in scores && r[i].score == scores[r[i].doc])
    && (forall d, i :: d in scores && !Listed(r, d) && 0 <= i < |r| ==> r[i].score >= scores[d])
  }

  /** Of two scored documents the one with the higher score comes first, and is cut off last. */
  lemma HigherScoreComesFirst(scores: map<DocId, real>, max: int, r: seq<Ranked>, d: DocId, better: DocId, j: nat)
    returns (i: nat)
    requires IsTop(scores, max, r) && d in scores && better in scores && scores[d] < scores[better]
    requires j < |r| && r[j].doc == d
    ensures i < j && r[i].doc == better
  {
    assert Listed(r, better);
    i :| 0 <= i < |r| && r[i].doc == better;
  }

  /** The loop over the score map, in any order. */
  method Entries(scores: map<DocId, real>) returns (r: seq<Ranked>)
    ensures |r| == |scores| && DistinctDocs(r)
    ensures forall i :: 0 <= i < |r| ==> r[i].doc in scores && r[i].score == scores[r[i].doc]
    ensures forall d :: d in scores ==> Listed(r, d)
  {
    r := [];
    var left := scores.Keys;
    assert |scores| == |scores.Keys|;
    while left != {}
      invariant left <= scores.Keys && |r| + |left| == |scores|
      invariant DistinctDocs(r)
      invariant forall i :: 0 <= i < |r| ==> r[i].doc in scores && r[i].doc !in left && r[i].score == scores[r[i].doc]
      invariant forall d :: d in scores && d !in left ==> Listed(r, d)
      decreases |left|
    {
      var d :| d in left;
      ghost var before := r;
      r := r + [Ranked(d, scores[d])];
      left := left - {d};
      forall c | c in scores && c !in left
        ensures Listed(r, c)
      {
        if c == d {
          assert r[|before|].doc == d;
        } else {
          assert Listed(before, c);
          var i :| 0 <= i < |before| && before[i].doc == c;
          assert r[i].doc == c;
        }
      }
    }
  }

  function Insert(r: seq<Ranked>, x: Ranked): (s: seq<Ranked>)
    ensures multiset(s) == multiset(r) + multiset{x}
  {
    if r == [] || x.score > r[0].score then [x] + r
    else
      assert r == [r[0]] + r[1..];
      [r[0]] + Insert(r[1..], x)
  }

  lemma {:induction false} InsertKeepsDescending(r: seq<Ranked>, x: Ranked)
    requires Descending(r)
    ensures Descending(Insert(r, x))
  {
    if r != [] && x.score <= r[0].score {
      InsertKeepsDescending(r[1..], x);
      var rest := Insert(r[1..], x);
      forall i | 0 <= i < |rest|
        ensures r[0].score >= rest[i].score
      {
        assert rest[i] in multiset(rest);
        assert rest[i] == x || rest[i] in r[1..];
      }
    }
  }

  /** The outcome promised by `sort.Slice`: some descending permutation; the order of ties is open. */
  method SortByScore(r: seq<Ranked>) returns (s: seq<Ranked>)
    ensures multiset(s) == multiset(r) && Descending(s)
  {
    s := [];
    for i := 0 to |r|
      invariant multiset(s) == multiset(r[..i]) && Descending(s)
    {
      InsertKeepsDescending(s, r[i]);
      s := Insert(s, r[i]);
      assert r[..i + 1] == r[..i] + [r[i]];
    }
    assert r[..|r|] == r;
  }

  /** Collect, sort, cut. */
  method Rank(scores: map<DocId, real>, max: int) returns (r: seq<Ranked>)
    ensures IsTop(scores, max, r)
  {
    var all := Entries(scores);
    var sorted := SortByScore(all);
    SortedEntries(scores, all, sorted);
    r := if max > 0 && |sorted| > max then sorted[..max] else sorted;
    CutIsTop(scores, max, sorted, |r|);
  }

  lemma SortedEntries(scores: map<DocId, real>, all: seq<Ranked>, sorted: seq<Ranked>)
    requires multiset(all) == multiset(sorted) && DistinctDocs(all) && |all| == |scores|
    requires forall i :: 0 <= i < |all| ==> all[i].doc in scores && all[i].score == scores[all[i].doc]
    requires forall d :: d in scores ==> Listed(all, d)
    ensures |sorted| == |scores| && DistinctDocs(sorted)
    ensures forall i :: 0 <= i < |sorted| ==> sorted[i].doc in scores && sorted[i].score == scores[sorted[i].doc]
    ensures forall d :: d in scores ==> Listed(sorted, d)
  {
    assert |multiset(all)| == |multiset(sorted)|;
    forall i | 0 <= i < |sorted|
      ensures sorted[i].doc in scores && sorted[i].score == scores[sorted[i].doc]
    {
      assert sorted[i] in multiset(all);
    }
    forall d | d in scores
      ensures Listed(sorted, d)
    {
      assert Listed(all, d);
      var i :| 0 <= i < |all| && all[i].doc == d;
      assert all[i] in multiset(sorted);
      var j :| 0 <= j < |sorted| && sorted[j] == all[i];
      assert sorted[j].doc == d;
    }
    forall i, j | 0 <= i < j < |sorted|
      ensures sorted[i].doc != sorted[j].doc
    {
      if sorted[i].doc == sorted[j].doc {
        assert sorted[i] == sorted[j];
        TwoPlacesCountTwice(sorted, i, j);
        OnceInSeq(all, sorted[i]);
        assert false;
      }
    }
  }

  lemma {:induction false} OnceInSeq(s: seq<Ranked>, x: Ranked)
    requires DistinctDocs(s)
    ensures multiset(s)[x] <= 1
  {
    if s != [] {
      OnceInSeq(s[1..], x);
      assert s == [s[0]] + s[1..];
      if s[0] == x {
        assert x !in s[1..];
      }
    }
  }

  lemma CutIsTop(scores: map<DocId, real>, max: int, sorted: seq<Ranked>, n: nat)
    requires Descending(sorted) && DistinctDocs(sorted) && |sorted| == |scores|
    requires n == if max > 0 && |sorted| > max then max else |sorted|
    requires forall i :: 0 <= i < |sorted| ==> sorted[i].doc in scores && sorted[i].score == scores[sorted[i].doc]
    requires forall d :: d in scores ==> Listed(sorted, d)
    ensures IsTop(scores, max, sorted[..n])
    ensures n == |sorted| ==> sorted[..n] == sorted
  {
    var r := sorted[..n];
    forall d, i | d in scores && !Listed(r, d) && 0 <= i < n
      ensures r[i].score >= scores[d]
    {
      var j := ListedBeyond(sorted, n, d);
    }
  }

  lemma ListedBeyond(s: seq<Ranked>, n: nat, d: DocId) returns (j: nat)
    requires n <= |s| && Listed(s, d) && !Listed(s[..n], d)
    ensures n <= j < |s| && s[j].doc == d
  {
    ListedSplit(s, n, d);
    j :| n <= j < |s| && s[j].doc == d;
  }

  lemma ListedSplit(s: seq<Ranked>, n: nat, d: DocId)
    requires n <= |s| && Listed(s, d)
    ensures Listed(s[..n], d) || exists j :: n <= j < |s| && s[j].doc == d
  {}

  // ---------------------------------------------------------------------------------------------
  // Accumulated scores
  // ---------------------------------------------------------------------------------------------

  /** What one query term (or phrase) adds to the score of each document that matches it. */
  type Gains = map<DocId, real>

  ghost predicate Hit(gains: seq<Gains>, d: DocId) {
    exists i :: 0 <= i < |gains| && d in gains[i]
  }

  ghost function SumFor(gains: seq<Gains>, d: DocId): real {
    if gains == [] then 0.0
    else
      var last := |gains| - 1;
      SumFor(gains[..last], d) + if d in gains[last] then gains[last][d] else 0.0
  }

  /** The naive score: every document that is hit, with the sum of all it gains. */
  ghost function Scores(gains: seq<Gains>, docs: set<DocId>): map<DocId, real> {
    map d | d in docs && Hit(gains, d) :: SumFor(gains, d)
  }

  ghost predicate ScoredAt(scores: map<DocId, real>, gains: seq<Gains>, d: DocId) {
    && (d in scores <==> Hit(gains, d))
    && (d in scores ==> scores[d] == SumFor(gains, d))
  }

  ghost predicate ScoredIn(scores: map<DocId, real>, gains: seq<Gains>, docs: set<DocId>) {
    forall d :: d in docs ==> ScoredAt(scores, gains, d)
  }

  ghost predicate AllScored(scores: map<DocId, real>, gains: seq<Gains>, docs: set<DocId>) {
    scores.Keys <= docs && ScoredIn(scores, gains, docs)
  }

  lemma AllScoredIsScores(scores: map<DocId, real>, gains: seq<Gains>, docs: set<DocId>)
    requires AllScored(scores, gains, docs)
    ensures scores == Scores(gains, docs)
  {}

  /** Nothing but the entry of d changes. */
  ghost predicate SameElsewhere(scores: map<DocId, real>, scores': map<DocId, real>, d: DocId) {
    && (forall c :: c != d ==> (c in scores' <==> c in scores))
    && (forall c :: c != d && c in scores ==> scores'[c] == scores[c])
  }

  lemma ScoredElsewhere(scores: map<DocId, real>, scores': map<DocId, real>, d: DocId, gains: seq<Gains>,
                        docs: set<DocId>)
    requires SameElsewhere(scores, scores', d) && ScoredIn(scores, gains, docs) && d !in docs
    ensures ScoredIn(scores', gains, docs)
  {}

  /** The part of the score of d that is settled moves from the old sum to the new one. */
  lemma SettleOne(scores: map<DocId, real>, scores': map<DocId, real>, d: DocId,
                  gains: seq<Gains>, more: seq<Gains>, docs: set<DocId>, left: set<DocId>)
    requires d in left && left <= docs
    requires SameElsewhere(scores, scores', d) && ScoredAt(scores', more, d)
    requires ScoredIn(scores, gains, left) && ScoredIn(scores, more, docs - left)
    ensures ScoredIn(scores', gains, left - {d}) && ScoredIn(scores', more, docs - (left - {d}))
  {
    ScoredElsewhere(scores, scores', d, gains, left - {d});
    ScoredElsewhere(scores, scores', d, more, docs - left);
  }

  /** `scores[id] += x`: a missing entry counts as 0. */
  function Plus(scores: map<DocId, real>, d: DocId, x: real): map<DocId, real> {
    scores[d := (if d in scores then scores[d] else 0.0) + x]
  }

  lemma HitStep(gains: seq<Gains>, g: Gains, d: DocId)
    ensures Hit(gains + [g], d) <==> Hit(gains, d) || d in g
    ensures SumFor(gains + [g], d) == SumFor(gains, d) + if d in g then g[d] else 0.0
  {}

  lemma {:induction false} UnhitSumsToZero(gains: seq<Gains>, d: DocId)
    requires !Hit(gains, d)
    ensures SumFor(gains, d) == 0.0
  {
    if gains != [] {
      var last := |gains| - 1;
      assert gains == gains[..last] + [gains[last]];
      HitStep(gains[..last], gains[last], d);
      UnhitSumsToZero(gains[..last], d);
    }
  }

  /** Adding to the score of d what d gains, and nothing if it gains nothing, is one step of the sum. */
  lemma PlusStep(scores: map<DocId, real>, gains: seq<Gains>, g: Gains, d: DocId)
    requires ScoredAt(scores, gains, d)
    ensures ScoredAt(if d in g then Plus(scores, d, g[d]) else scores, gains + [g], d)
  {
    HitStep(gains, g, d);
    if !Hit(gains, d) {
      UnhitSumsToZero(gains, d);
    }
  }

  lemma {:induction false} SumForSplit(a: seq<Gains>, b: seq<Gains>, d: DocId)
    ensures SumFor(a + b, d) == SumFor(a, d) + SumFor(b, d)
  {
    if b == [] {
      assert a + b == a;
    } else {
      var last := |b| - 1;
      assert (a + b)[..|a + b| - 1] == a + b[..last];
      SumForSplit(a, b[..last], d);
    }
  }

  /** A document that one term of the query matches, and no other, gains the same for every occurrence of it. */
  lemma {:induction false} SumOfOnlyMatch(gains: seq<Gains>, q: seq<Term>, t: Term, d: DocId, x: real)
    requires |gains| == |q|
    requires forall i :: 0 <= i < |q| ==> if q[i] == t then d in gains[i] && gains[i][d] == x else d !in gains[i]
    ensures SumFor(gains, d) == Times(Count(q, t), x)
  {
    if q != [] {
      SumOfOnlyMatch(gains[..|q| - 1], q[..|q| - 1], t, d, x);
    }
  }

  /** How often a term occurs in a query. */
  function Count(q: seq<Term>, t: Term): nat {
    if q == [] then 0 else Count(q[..|q| - 1], t) + if q[|q| - 1] == t then 1 else 0
  }

  lemma {:induction false} CountedIsIn(q: seq<Term>, t: Term)
    requires Count(q, t) >= 1
    ensures t in q
  {
    if q[|q| - 1] != t {
      CountedIsIn(q[..|q| - 1], t);
    }
  }

  /** n times x, by addition. */
  ghost function Times(n: nat, x: real): real {
    if n == 0 then 0.0 else Times(n - 1, x) + x
  }

  lemma {:induction false} TimesGrows(n: nat, x: real, m: nat, y: real)
    requires 1 <= n <= m && 0.0 < x < y
    ensures 0.0 < Times(n, x) < Times(m, y)
  {
    if n > 1 {
      TimesGrows(n - 1, x, m - 1, y);
    } else {
      TimesPositive(m - 1, y);
    }
  }

  lemma {:induction false} TimesPositive(n: nat, x: real)
    requires 0.0 < x
    ensures 0.0 <= Times(n, x)
  {
    if n > 0 {
      TimesPositive(n - 1, x);
    }
  }

  /** Documents are scored above zero when every gain is positive. */
  lemma {:induction false} HitScoresPositive(gains: seq<Gains>, d: DocId)
    requires Hit(gains, d)
    requires forall i :: 0 <= i < |gains| && d in gains[i] ==> gains[i][d] > 0.0
    ensures SumFor(gains, d) > 0.0
  {
    var last := |gains| - 1;
    var front := gains[..last];
    assert gains == front + [gains[last]];
    HitStep(front, gains[last], d);
    if Hit(front, d) {
      HitScoresPositive(front, d);
    } else {
      UnhitSumsToZero(front, d);
    }
  }
}
