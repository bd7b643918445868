/**
 The first keyword index (internal/search/keyword.go): one bag of terms per document.

 The index keeps document frequencies, a document count and an average length up to date by
 increments; every method is proved to leave exactly what counting the live documents from scratch
 would give. The tokenizer and the lower-casing of text are arbitrary functions.
 */
module Keyword {
  import opened Common
  import opened Bm25

  datatype Document = Document(id: DocId, card: Card, text: string, terms: map<Term, nat>, length: nat)

  function Joined(parts: seq<string>): string {
    if parts == [] then ""
    else if |parts| == 1 then parts[0]
    else parts[0] + " " + Joined(parts[1..])
  }

  function Lowered(lower: string -> string, tags: seq<string>): seq<string> {
    seq(|tags|, i requires 0 <= i < |tags| => lower(tags[i]))
  }

  function TextOf(an: Analyzer, c: Card): string {
    Joined([an.lower(c.name), an.lower(c.summary), an.lower(c.category)] + Lowered(an.lower, c.tags))
  }

  // ---------------------------------------------------------------------------------------------
  // Counting from scratch
  // ---------------------------------------------------------------------------------------------

  function TermsOf(docs: map<DocId, Document>): map<DocId, set<Term>> {
    map d | d in docs :: docs[d].terms.Keys
  }

  function LengthsOf(docs: map<DocId, Document>): map<DocId, nat> {
    map d | d in docs :: docs[d].length
  }

  function CardsOf(docs: map<DocId, Document>): map<DocId, Card> {
    map d | d in docs :: docs[d].card
  }

  ghost predicate Faithful(an: Analyzer, d: DocId, doc: Document) {
    && doc.id == d
    && doc.text == TextOf(an, doc.card)
    && IsTf(doc.terms, an.tokenize(doc.text))
    && doc.length == |an.tokenize(doc.text)|
  }

  ghost predicate WellFormed(an: Analyzer, docs: map<DocId, Document>) {
    forall d {:trigger Faithful(an, d, docs[d])} :: d in docs ==> Faithful(an, d, docs[d])
  }

  /** The statistics are those of the documents. */
  ghost predicate Exact(an: Analyzer, docs: map<DocId, Document>, df: map<Term, int>, docCount: int, avgDocLen: real) {
    && WellFormed(an, docs)
    && ExactDf(df, TermsOf(docs))
    && docCount == |docs|
    && avgDocLen == Average(LengthsOf(docs))
  }

  /** Two exact indexes of the same cards are the same, however each of them came about. */
  lemma ExactIsFromScratch(an: Analyzer,
                           docs: map<DocId, Document>, df: map<Term, int>, n: int, avg: real,
                           docs': map<DocId, Document>, df': map<Term, int>, n': int, avg': real)
    requires Exact(an, docs, df, n, avg) && Exact(an, docs', df', n', avg')
    requires CardsOf(docs) == CardsOf(docs')
    ensures docs == docs' && df == df' && n == n' && avg == avg'
  {
    SameDocuments(an, docs, docs');
    ExactDfUnique(df, df', TermsOf(docs));
  }

  lemma SameDocuments(an: Analyzer, docs: map<DocId, Document>, docs': map<DocId, Document>)
    requires WellFormed(an, docs) && WellFormed(an, docs') && CardsOf(docs) == CardsOf(docs')
    ensures docs == docs'
  {
    assert docs.Keys == CardsOf(docs).Keys == docs'.Keys;
    forall d | d in docs
      ensures docs[d] == docs'[d]
    {
      assert docs[d].card == CardsOf(docs)[d] == docs'[d].card;
      SameDocument(an, d, docs[d], docs'[d]);
    }
  }

  lemma SameDocument(an: Analyzer, d: DocId, doc: Document, doc': Document)
    requires Faithful(an, d, doc) && Faithful(an, d, doc') && doc.card == doc'.card
    ensures doc == doc'
  {}

  lemma RemovalStep(docs: map<DocId, Document>, df: map<Term, int>, d: DocId, df': map<Term, int>)
    requires ExactDf(df, TermsOf(docs)) && d in docs && IsDecremented(df, docs[d].terms.Keys, df')
    ensures ExactDf(df', TermsOf(docs - {d})) && |docs - {d}| == |docs| - 1
  {
    RemovalKeepsExact(df, TermsOf(docs), d, df');
    assert TermsOf(docs - {d}) == TermsOf(docs) - {d};
    assert docs == (docs - {d})[d := docs[d]];
  }

  lemma AdditionStep(docs: map<DocId, Document>, df: map<Term, int>, d: DocId, doc: Document, df': map<Term, int>)
    requires ExactDf(df, TermsOf(docs)) && d !in docs && IsIncremented(df, doc.terms.Keys, df')
    ensures ExactDf(df', TermsOf(docs[d := doc])) && |docs[d := doc]| == |docs| + 1
  {
    AdditionKeepsExact(df, TermsOf(docs), d, doc.terms.Keys, df');
    assert TermsOf(docs[d := doc]) == TermsOf(docs)[d := doc.terms.Keys];
  }

  lemma StaysWellFormed(an: Analyzer, docs: map<DocId, Document>, d: DocId, doc: Document)
    requires WellFormed(an, docs) && Faithful(an, d, doc)
    ensures WellFormed(an, docs[d := doc])
  {}

  lemma Overwritten(docs: map<DocId, Document>, d: DocId, doc: Document)
    ensures docs[d := doc] == (docs - {d})[d := doc]
    ensures CardsOf(docs[d := doc]) == CardsOf(docs)[d := doc.card]
  {}

  lemma ReplacementStep(an: Analyzer, docs: map<DocId, Document>, df: map<Term, int>, d: DocId, doc: Document,
                        df': map<Term, int>)
    requires WellFormed(an, docs) && Faithful(an, d, doc)
    requires ExactDf(df, TermsOf(docs - {d})) && IsIncremented(df, doc.terms.Keys, df')
    ensures WellFormed(an, docs[d := doc])
    ensures CardsOf(docs[d := doc]) == CardsOf(docs)[d := doc.card]
    ensures ExactDf(df', TermsOf(docs[d := doc])) && |docs[d := doc]| == |docs - {d}| + 1
  {
    StaysWellFormed(an, docs, d, doc);
    Overwritten(docs, d, doc);
    AdditionStep(docs - {d}, df, d, doc, df');
  }

  lemma LengthsMatch(docs: map<DocId, Document>)
    ensures |LengthsOf(docs)| == |docs|
  {
    assert LengthsOf(docs).Keys == docs.Keys;
    assert |LengthsOf(docs).Keys| == |docs.Keys|;
  }

  // ---------------------------------------------------------------------------------------------
  // The naive score
  // ---------------------------------------------------------------------------------------------

  lemma MatchIsMeasured(an: Analyzer, docs: map<DocId, Document>, t: Term, d: DocId)
    requires WellFormed(an, docs) && d in docs && t in docs[d].terms
    ensures docs[d].terms[t] > 0 && Average(LengthsOf(docs)) > 0.0
    ensures 1 <= |Holders(TermsOf(docs), t)| <= |docs|
  {
    assert Faithful(an, d, docs[d]);
    AveragePositive(LengthsOf(docs), d);
    assert d in Holders(TermsOf(docs), t);
    assert Holders(TermsOf(docs), t) != {};
    SubsetSize(Holders(TermsOf(docs), t), docs.Keys);
  }

  /** The BM25 contribution of a term to a document that contains it, from the documents alone. */
  ghost function Gain(an: Analyzer, log: real -> real, docs: map<DocId, Document>, t: Term, d: DocId): real
    requires WellFormed(an, docs) && d in docs && t in docs[d].terms
  {
    MatchIsMeasured(an, docs, t, d);
    Contribution(Idf(log, |docs|, |Holders(TermsOf(docs), t)|), docs[d].terms[t], docs[d].length,
                 Average(LengthsOf(docs)))
  }

  ghost function TermGains(an: Analyzer, log: real -> real, docs: map<DocId, Document>, t: Term): Gains
    requires WellFormed(an, docs)
  {
    map d | d in docs && t in docs[d].terms :: Gain(an, log, docs, t, d)
  }

  ghost function QueryGains(an: Analyzer, log: real -> real, docs: map<DocId, Document>, q: seq<Term>): (g: seq<Gains>)
    requires WellFormed(an, docs)
    ensures |g| == |q| && forall i :: 0 <= i < |q| ==> g[i] == TermGains(an, log, docs, q[i])
  {
    seq(|q|, i requires 0 <= i < |q| => TermGains(an, log, docs, q[i]))
  }

  /** A matching term gains more than nothing and less than its idf times k1 + 1. */
  lemma GainBounds(an: Analyzer, log: real -> real, docs: map<DocId, Document>, t: Term, d: DocId)
    requires WellFormed(an, docs) && d in docs && t in docs[d].terms && PositiveAboveOne(log)
    ensures |Holders(TermsOf(docs), t)| >= 1
    ensures Idf(log, |docs|, |Holders(TermsOf(docs), t)|) > 0.0
    ensures 0.0 < Gain(an, log, docs, t, d) < Idf(log, |docs|, |Holders(TermsOf(docs), t)|) * (K1 + 1.0)
  {
    MatchIsMeasured(an, docs, t, d);
    IdfPositive(log, |docs|, |Holders(TermsOf(docs), t)|);
    ContributionBounds(Idf(log, |docs|, |Holders(TermsOf(docs), t)|), docs[d].terms[t], docs[d].length,
                       Average(LengthsOf(docs)));
  }

  ghost predicate Matches(docs: map<DocId, Document>, q: seq<Term>, d: DocId) {
    d in docs && exists t :: t in q && t in docs[d].terms
  }

  /** Exactly the documents with a query term are scored, each above zero. */
  lemma ScoredIffMatching(an: Analyzer, log: real -> real, docs: map<DocId, Document>, q: seq<Term>, d: DocId)
    requires WellFormed(an, docs) && PositiveAboveOne(log)
    ensures d in Scores(QueryGains(an, log, docs, q), docs.Keys) <==> Matches(docs, q, d)
    ensures Matches(docs, q, d) ==> Scores(QueryGains(an, log, docs, q), docs.Keys)[d] > 0.0
  {
    var gains := QueryGains(an, log, docs, q);
    if Matches(docs, q, d) {
      var t :| t in q && t in docs[d].terms;
      var i :| 0 <= i < |q| && q[i] == t;
      assert d in gains[i];
      forall j | 0 <= j < |gains| && d in gains[j]
        ensures gains[j][d] > 0.0
      {
        GainBounds(an, log, docs, q[j], d);
      }
      HitScoresPositive(gains, d);
    }
    if d in Scores(gains, docs.Keys) {
      var i :| 0 <= i < |gains| && d in gains[i];
      assert q[i] in q && q[i] in docs[d].terms;
    }
  }

  /** The tokenizer treats what is before and after a space separately. */
  ghost predicate CutsAtSpaces(tokenize: string -> seq<Term>) {
    forall a, b :: CutsBetween(tokenize, a, b)
  }

  ghost predicate CutsBetween(tokenize: string -> seq<Term>, a: string, b: string) {
    tokenize(a + " " + b) == tokenize(a) + tokenize(b)
  }

  function TokensOfEach(tokenize: string -> seq<Term>, parts: seq<string>): (r: seq<Term>)
    ensures forall t :: t in r <==> exists i :: 0 <= i < |parts| && t in tokenize(parts[i])
  {
    if parts == [] then [] else tokenize(parts[0]) + TokensOfEach(tokenize, parts[1..])
  }

  /** The parts of a text do not run into each other. */
  lemma {:induction false} TokensOfJoined(tokenize: string -> seq<Term>, parts: seq<string>)
    requires CutsAtSpaces(tokenize) && parts != []
    ensures tokenize(Joined(parts)) == TokensOfEach(tokenize, parts)
  {
    if |parts| == 1 {
      assert TokensOfEach(tokenize, parts) == tokenize(parts[0]) + [];
    } else {
      TokensOfJoined(tokenize, parts[1..]);
      assert CutsBetween(tokenize, parts[0], Joined(parts[1..]));
    }
  }

  /** What a card is searched by. */
  function TextsOf(c: Card): seq<string> {
    [c.name, c.summary, c.category] + c.tags
  }

  /** The term is a word of one of the texts of the card, in lower case. */
  ghost predicate HasWord(an: Analyzer, c: Card, t: Term) {
    exists text :: text in TextsOf(c) && t in an.tokenize(an.lower(text))
  }

  lemma IndexedByItsWords(an: Analyzer, d: DocId, doc: Document, t: Term)
    requires Faithful(an, d, doc) && CutsAtSpaces(an.tokenize)
    ensures t in doc.terms <==> HasWord(an, doc.card, t)
  {
    var c := doc.card;
    var parts := [an.lower(c.name), an.lower(c.summary), an.lower(c.category)] + Lowered(an.lower, c.tags);
    assert |parts| == |TextsOf(c)| && forall i :: 0 <= i < |parts| ==> parts[i] == an.lower(TextsOf(c)[i]);
    TokensOfJoined(an.tokenize, parts);
    WordOfSomePart(an, c, parts, t);
  }

  lemma WordOfSomePart(an: Analyzer, c: Card, parts: seq<string>, t: Term)
    requires |parts| == |TextsOf(c)| && forall i :: 0 <= i < |parts| ==> parts[i] == an.lower(TextsOf(c)[i])
    ensures t in TokensOfEach(an.tokenize, parts) <==> HasWord(an, c, t)
  {
    if HasWord(an, c, t) {
      var text :| text in TextsOf(c) && t in an.tokenize(an.lower(text));
      var i :| 0 <= i < |TextsOf(c)| && TextsOf(c)[i] == text;
      assert t in an.tokenize(parts[i]);
    }
  }

  /** A document is found by the words of its name, summary, category and tags, and by nothing else. */
  lemma FoundByItsWords(an: Analyzer, log: real -> real, docs: map<DocId, Document>, q: seq<Term>, d: DocId)
    requires WellFormed(an, docs) && PositiveAboveOne(log) && CutsAtSpaces(an.tokenize) && d in docs
    ensures d in Scores(QueryGains(an, log, docs, q), docs.Keys) <==> exists t :: t in q && HasWord(an, docs[d].card, t)
  {
    ScoredIffMatching(an, log, docs, q, d);
    forall t
      ensures t in docs[d].terms <==> HasWord(an, docs[d].card, t)
    {
      assert Faithful(an, d, docs[d]);
      IndexedByItsWords(an, d, docs[d], t);
    }
  }

  /** The match of a term in a document is at least as good as another, and better in some respect. */
  ghost predicate BetterMatch(docs: map<DocId, Document>, t: Term, d: DocId, t': Term, d': DocId)
    requires d in docs && t in docs[d].terms && d' in docs && t' in docs[d'].terms
  {
    var f, f' := |Holders(TermsOf(docs), t)|, |Holders(TermsOf(docs), t')|;
    var n, n' := docs[d].terms[t], docs[d'].terms[t'];
    var l, l' := docs[d].length, docs[d'].length;
    f' <= f && n <= n' && l' <= l && (f' < f || n < n' || l' < l)
  }

  /** A rarer term, more occurrences or a shorter text gain more. */
  lemma BetterMatchGainsMore(an: Analyzer, log: real -> real, docs: map<DocId, Document>, t: Term, d: DocId,
                             t': Term, d': DocId)
    requires WellFormed(an, docs) && PositiveAboveOne(log) && StrictlyIncreasing(log)
    requires d in docs && t in docs[d].terms && d' in docs && t' in docs[d'].terms
    requires BetterMatch(docs, t, d, t', d')
    ensures Gain(an, log, docs, t, d) < Gain(an, log, docs, t', d')
  {
    MatchIsMeasured(an, docs, t, d);
    MatchIsMeasured(an, docs, t', d');
    var f, f' := |Holders(TermsOf(docs), t)|, |Holders(TermsOf(docs), t')|;
    IdfPositive(log, |docs|, f);
    if f' < f {
      RarerWeighsMore(log, |docs|, f', f);
    }
    ContributionGrows(Idf(log, |docs|, f), docs[d].terms[t], docs[d].length,
                      Idf(log, |docs|, f'), docs[d'].terms[t'], docs[d'].length, Average(LengthsOf(docs)));
  }

  /** Of the query, the document matches this term and no other. */
  ghost predicate OnlyMatch(docs: map<DocId, Document>, q: seq<Term>, t: Term, d: DocId) {
    d in docs && t in docs[d].terms && forall i :: 0 <= i < |q| && q[i] in docs[d].terms ==> q[i] == t
  }

  lemma OnlyMatchScore(an: Analyzer, log: real -> real, docs: map<DocId, Document>, q: seq<Term>, t: Term, d: DocId)
    requires WellFormed(an, docs) && OnlyMatch(docs, q, t, d)
    ensures SumFor(QueryGains(an, log, docs, q), d) == Times(Count(q, t), Gain(an, log, docs, t, d))
  {
    SumOfOnlyMatch(QueryGains(an, log, docs, q), q, t, d, Gain(an, log, docs, t, d));
  }

  lemma BetterMatchScoresMore(an: Analyzer, log: real -> real, docs: map<DocId, Document>, q: seq<Term>,
                              t: Term, d: DocId, t': Term, d': DocId)
    requires WellFormed(an, docs) && PositiveAboveOne(log) && StrictlyIncreasing(log)
    requires OnlyMatch(docs, q, t, d) && OnlyMatch(docs, q, t', d') && BetterMatch(docs, t, d, t', d')
    requires 1 <= Count(q, t) <= Count(q, t')
    ensures SumFor(QueryGains(an, log, docs, q), d) < SumFor(QueryGains(an, log, docs, q), d')
  {
    OnlyMatchScore(an, log, docs, q, t, d);
    OnlyMatchScore(an, log, docs, q, t', d');
    GainBounds(an, log, docs, t, d);
    BetterMatchGainsMore(an, log, docs, t, d, t', d');
    TimesGrows(Count(q, t), Gain(an, log, docs, t, d), Count(q, t'), Gain(an, log, docs, t', d'));
  }

  /**
   What a ranking of search results is for: of two documents that each match one term of the query, the
   better match comes first, and is never cut off while the other one stays.
   */
  lemma BetterMatchComesFirst(an: Analyzer, log: real -> real, docs: map<DocId, Document>, q: seq<Term>, max: int,
                              r: seq<Ranked>, t: Term, d: DocId, t': Term, d': DocId, j: nat)
    returns (i: nat)
    requires WellFormed(an, docs) && PositiveAboveOne(log) && StrictlyIncreasing(log)
    requires IsTop(Scores(QueryGains(an, log, docs, q), docs.Keys), max, r)
    requires OnlyMatch(docs, q, t, d) && OnlyMatch(docs, q, t', d') && BetterMatch(docs, t, d, t', d')
    requires 1 <= Count(q, t) <= Count(q, t')
    requires j < |r| && r[j].doc == d
    ensures i < j && r[i].doc == d'
  {
    BetterMatchScoresMore(an, log, docs, q, t, d, t', d');
    CountedIsIn(q, t);
    CountedIsIn(q, t');
    ScoredIffMatching(an, log, docs, q, d);
    ScoredIffMatching(an, log, docs, q, d');
    i := HigherScoreComesFirst(Scores(QueryGains(an, log, docs, q), docs.Keys), max, r, d, d', j);
  }

  // ---------------------------------------------------------------------------------------------
  // The index
  // ---------------------------------------------------------------------------------------------

  /** Build the combined text, tokenize it, count term frequencies. */
  method Analyze(an: Analyzer, id: DocId, card: Card) returns (doc: Document)
    ensures Faithful(an, id, doc) && doc.card == card
  {
    var text := TextOf(an, card);
    var tokens := an.tokenize(text);
    var tf := CountTerms(tokens);
    doc := Document(id, card, text, tf, |tokens|);
  }

  /** Take the terms of the document out of the counts, if it is there. */
  method ForgetTerms(docs: map<DocId, Document>, df: map<Term, int>, docCount: int, id: DocId)
    returns (df': map<Term, int>, docCount': int)
    requires ExactDf(df, TermsOf(docs)) && docCount == |docs|
    ensures ExactDf(df', TermsOf(docs - {id})) && docCount' == |docs - {id}|
  {
    df', docCount' := df, docCount;
    if id in docs {
      df' := Decrement(df, docs[id].terms.Keys);
      docCount' := docCount - 1;
      RemovalStep(docs, df, id, df');
    } else {
      assert docs - {id} == docs;
    }
  }

  /** The work of IndexDocument on the fields of an index. */
  method Reindexed(an: Analyzer, docs: map<DocId, Document>, df: map<Term, int>, docCount: int, avgDocLen: real,
                   id: DocId, card: Card)
    returns (docs': map<DocId, Document>, df': map<Term, int>, docCount': int, avgDocLen': real)
    requires Exact(an, docs, df, docCount, avgDocLen)
    ensures Exact(an, docs', df', docCount', avgDocLen')
    ensures CardsOf(docs') == CardsOf(docs)[id := card]
  {
    df', docCount' := ForgetTerms(docs, df, docCount, id);
    var doc := Analyze(an, id, card);
    docs' := docs[id := doc];
    docCount' := docCount' + 1;
    ghost var without := df';
    df' := Increment(df', doc.terms.Keys);
    ReplacementStep(an, docs, without, id, doc, df');
    avgDocLen' := Mean(docs', docCount');
  }

  /** The work of RemoveDocument on the fields of an index. */
  method Removed(an: Analyzer, docs: map<DocId, Document>, df: map<Term, int>, docCount: int, avgDocLen: real,
                 id: DocId)
    returns (docs': map<DocId, Document>, df': map<Term, int>, docCount': int, avgDocLen': real)
    requires Exact(an, docs, df, docCount, avgDocLen)
    ensures Exact(an, docs', df', docCount', avgDocLen')
    ensures docs' == docs - {id}
  {
    if id !in docs {
      return docs, df, docCount, avgDocLen;
    }
    df', docCount' := ForgetTerms(docs, df, docCount, id);
    docs' := docs - {id};
    avgDocLen' := Mean(docs', docCount');
  }

  /** Recalculate the average document length, 0 when no document is left. */
  method Mean(docs: map<DocId, Document>, docCount: int) returns (avgDocLen: real)
    requires docCount == |docs|
    ensures avgDocLen == Average(LengthsOf(docs))
  {
    var total := SumLengths(LengthsOf(docs));
    LengthsMatch(docs);
    avgDocLen := if docCount > 0 then total as real / docCount as real else 0.0;
  }

  /** The loop over the documents for one query term with its idf. */
  method AddTerm(docs: map<DocId, Document>, avgDocLen: real, idf: real, t: Term,
                 before: map<DocId, real>, ghost gains: seq<Gains>, ghost g: Gains)
    returns (scores: map<DocId, real>)
    requires forall d :: d in docs ==> GainAt(docs, avgDocLen, idf, t, g, d)
    requires AllScored(before, gains, docs.Keys)
    ensures AllScored(scores, gains + [g], docs.Keys)
  {
    scores := before;
    var left := docs.Keys;
    while left != {}
      invariant left <= docs.Keys && scores.Keys <= docs.Keys
      invariant forall d :: d in left ==> ScoredAt(scores, gains, d)
      invariant forall d :: d in docs && d !in left ==> ScoredAt(scores, gains + [g], d)
      decreases |left|
    {
      var d :| d in left;
      left := left - {d};
      PlusStep(scores, gains, g, d);
      assert GainAt(docs, avgDocLen, idf, t, g, d);
      var doc := docs[d];
      if t in doc.terms {
        scores := Plus(scores, d, Contribution(idf, doc.terms[t], doc.length, avgDocLen));
      }
    }
  }

  /** The loop over the query terms. */
  method ScoreAll(an: Analyzer, log: real -> real, docs: map<DocId, Document>, df: map<Term, int>, docCount: int,
                  avgDocLen: real, queryTerms: seq<Term>)
    returns (scores: map<DocId, real>)
    requires Exact(an, docs, df, docCount, avgDocLen)
    ensures scores == Scores(QueryGains(an, log, docs, queryTerms), docs.Keys)
  {
    ghost var gains := QueryGains(an, log, docs, queryTerms);
    scores := map[];
    for i := 0 to |queryTerms|
      invariant AllScored(scores, gains[..i], docs.Keys)
    {
      var t := queryTerms[i];
      assert gains[..i + 1] == gains[..i] + [gains[i]];
      if t in df {
        TermGainsAre(an, log, docs, df, t);
        var idf := Idf(log, docCount, df[t]);
        scores := AddTerm(docs, avgDocLen, idf, t, scores, gains[..i], gains[i]);
      } else {
        UnknownTermGainsNothing(an, log, docs, df, t, scores, gains[..i]);
      }
    }
    assert gains[..|queryTerms|] == gains;
    AllScoredIsScores(scores, gains, docs.Keys);
  }

  ghost predicate GainAt(docs: map<DocId, Document>, avgDocLen: real, idf: real, t: Term, g: Gains, d: DocId)
    requires d in docs
  {
    && (d in g <==> t in docs[d].terms)
    && (d in g ==> avgDocLen > 0.0 && g[d] == Contribution(idf, docs[d].terms[t], docs[d].length, avgDocLen))
  }

  lemma TermGainsAre(an: Analyzer, log: real -> real, docs: map<DocId, Document>, df: map<Term, int>, t: Term)
    requires WellFormed(an, docs) && ExactDf(df, TermsOf(docs)) && t in df
    ensures df[t] >= 1
    ensures forall d :: d in docs ==>
      GainAt(docs, Average(LengthsOf(docs)), Idf(log, |docs|, df[t]), t, TermGains(an, log, docs, t), d)
  {
    ExactDfBounds(df, TermsOf(docs), t);
    forall d | d in docs
      ensures GainAt(docs, Average(LengthsOf(docs)), Idf(log, |docs|, df[t]), t, TermGains(an, log, docs, t), d)
    {
      if t in docs[d].terms {
        MatchIsMeasured(an, docs, t, d);
      }
    }
  }

  lemma UnknownTermGainsNothing(an: Analyzer, log: real -> real, docs: map<DocId, Document>, df: map<Term, int>,
                                t: Term, scores: map<DocId, real>, gains: seq<Gains>)
    requires WellFormed(an, docs) && ExactDf(df, TermsOf(docs)) && t !in df
    requires AllScored(scores, gains, docs.Keys)
    ensures AllScored(scores, gains + [TermGains(an, log, docs, t)], docs.Keys)
  {
    forall d | d in docs
      ensures ScoredAt(scores, gains + [TermGains(an, log, docs, t)], d)
    {
      assert d !in Holders(TermsOf(docs), t);
      PlusStep(scores, gains, TermGains(an, log, docs, t), d);
    }
  }

  class KeywordIndex {
    const an: Analyzer
    const log: real -> real
    var docs: map<DocId, Document>
    var df: map<Term, int>
    var avgDocLen: real
    var docCount: int

    ghost predicate Valid()
      reads this
    {
      Exact(an, docs, df, docCount, avgDocLen)
    }

    constructor (an: Analyzer, log: real -> real)
      ensures Valid() && this.an == an && this.log == log && docs == map[]
    {
      this.an, this.log := an, log;
      docs, df, avgDocLen, docCount := map[], map[], 0.0, 0;
    }

    method IndexDocument(id: DocId, name: string, summary: string, category: string, tags: seq<string>)
      requires Valid()
      modifies this
      ensures Valid()
      ensures CardsOf(docs) == CardsOf(old(docs))[id := Card(name, summary, category, tags)]
    {
      var card := Card(name, summary, category, tags);
      docs, df, docCount, avgDocLen := Reindexed(an, docs, df, docCount, avgDocLen, id, card);
    }

    method RemoveDocument(id: DocId)
      requires Valid()
      modifies this
      ensures Valid()
      ensures docs == old(docs) - {id}
    {
      docs, df, docCount, avgDocLen := Removed(an, docs, df, docCount, avgDocLen, id);
    }

    /** The best maxResults documents under the naive score, whatever the history of the index. */
    method Search(query: string, maxResults: int) returns (results: seq<Ranked>)
      requires Valid()
      ensures IsTop(Scores(QueryGains(an, log, docs, an.tokenize(an.lower(query))), docs.Keys), maxResults, results)
    {
      var scores: map<DocId, real> := map[];
      if docCount > 0 {
        scores := ScoreAll(an, log, docs, df, docCount, avgDocLen, an.tokenize(an.lower(query)));
      }
      results := Rank(scores, maxResults);
    }

    method Count() returns (n: int)
      requires Valid()
      ensures n == |docs|
    {
      n := docCount;
    }
  }
}
