/**
 The improved keyword index (internal/search/keyword_v2.go): four boosted fields per document and a
 bonus for quoted phrases.

 As in the first index, what the methods keep by increments is exactly what counting the live
 documents from scratch gives, now with one average length per field.
 */
module KeywordV2 {
  import opened Common
  import opened Bm25

  datatype FieldName = Name | Tags | Summary | Category

  datatype Field = Field(terms: map<Term, nat>, length: nat)

  datatype FieldedDocument = FieldedDocument(id: DocId, card: Card, name: Field, tags: Field, summary: Field,
                                             category: Field)

  function FieldOf(doc: FieldedDocument, f: FieldName): Field {
    match f
    case Name => doc.name
    case Tags => doc.tags
    case Summary => doc.summary
    case Category => doc.category
  }

  function Boosted(name: real, tags: real, summary: real, category: real): real {
    name * 3.0 + tags * 2.0 + summary * 1.0 + category * 1.5
  }

  // ---------------------------------------------------------------------------------------------
  // Counting from scratch
  // ---------------------------------------------------------------------------------------------

  function TagTokens(an: Analyzer, tags: seq<string>): seq<Term> {
    if tags == [] then [] else TagTokens(an, tags[..|tags| - 1]) + an.tokenize(tags[|tags| - 1])
  }

  function TokensOf(an: Analyzer, c: Card, f: FieldName): seq<Term> {
    match f
    case Name => an.tokenize(c.name)
    case Tags => TagTokens(an, c.tags)
    case Summary => an.tokenize(c.summary)
    case Category => an.tokenize(c.category)
  }

  function AllTerms(doc: FieldedDocument): set<Term> {
    doc.name.terms.Keys + doc.tags.terms.Keys + doc.summary.terms.Keys + doc.category.terms.Keys
  }

  function TermsOf(docs: map<DocId, FieldedDocument>): map<DocId, set<Term>> {
    map d | d in docs :: AllTerms(docs[d])
  }

  function LengthsOf(docs: map<DocId, FieldedDocument>, f: FieldName): map<DocId, nat> {
    map d | d in docs :: FieldOf(docs[d], f).length
  }

  function CardsOf(docs: map<DocId, FieldedDocument>): map<DocId, Card> {
    map d | d in docs :: docs[d].card
  }

  ghost predicate IsField(field: Field, tokens: seq<Term>) {
    IsTf(field.terms, tokens) && field.length == |tokens|
  }

  ghost predicate Faithful(an: Analyzer, d: DocId, doc: FieldedDocument) {
    doc.id == d && forall f :: IsField(FieldOf(doc, f), TokensOf(an, doc.card, f))
  }

  ghost predicate WellFormed(an: Analyzer, docs: map<DocId, FieldedDocument>) {
    forall d {:trigger Faithful(an, d, docs[d])} :: d in docs ==> Faithful(an, d, docs[d])
  }

  ghost predicate ExactAverages(docs: map<DocId, FieldedDocument>, avgDocLen: map<FieldName, real>) {
    forall f :: f in avgDocLen && avgDocLen[f] == Average(LengthsOf(docs, f))
  }

  /** The statistics are those of the documents. */
  ghost predicate Exact(an: Analyzer, docs: map<DocId, FieldedDocument>, df: map<Term, int>, docCount: int,
                        avgDocLen: map<FieldName, real>) {
    && WellFormed(an, docs)
    && ExactDf(df, TermsOf(docs))
    && docCount == |docs|
    && ExactAverages(docs, avgDocLen)
  }

  /** Two exact indexes of the same cards are the same, however each of them came about. */
  lemma ExactIsFromScratch(an: Analyzer,
                           docs: map<DocId, FieldedDocument>, df: map<Term, int>, n: int, avg: map<FieldName, real>,
                           docs': map<DocId, FieldedDocument>, df': map<Term, int>, n': int, avg': map<FieldName, real>)
    requires Exact(an, docs, df, n, avg) && Exact(an, docs', df', n', avg')
    requires CardsOf(docs) == CardsOf(docs')
    ensures docs == docs' && df == df' && n == n' && avg == avg'
  {
    SameDocuments(an, docs, docs');
    ExactDfUnique(df, df', TermsOf(docs));
    SameAverages(docs, avg, avg');
  }

  lemma SameAverages(docs: map<DocId, FieldedDocument>, avg: map<FieldName, real>, avg': map<FieldName, real>)
    requires ExactAverages(docs, avg) && ExactAverages(docs, avg')
    ensures avg == avg'
  {}

  lemma SameDocuments(an: Analyzer, docs: map<DocId, FieldedDocument>, docs': map<DocId, FieldedDocument>)
    requires WellFormed(an, docs) && WellFormed(an, docs') && CardsOf(docs) == CardsOf(docs')
    ensures docs == docs'
  {
    assert docs.Keys == CardsOf(docs).Keys == docs'.Keys;
    forall d | d in docs
      ensures docs[d] == docs'[d]
    {
      assert docs[d].card == CardsOf(docs)[d] == docs'[d].card;
      SameDocument(an, d, docs[d], docs'[d]);
    }
  }

  lemma SameDocument(an: Analyzer, d: DocId, doc: FieldedDocument, doc': FieldedDocument)
    requires Faithful(an, d, doc) && Faithful(an, d, doc') && doc.card == doc'.card
    ensures doc == doc'
  {
    forall f: FieldName
      ensures FieldOf(doc, f) == FieldOf(doc', f)
    {
      assert IsField(FieldOf(doc, f), TokensOf(an, doc.card, f))
          && IsField(FieldOf(doc', f), TokensOf(an, doc.card, f));
      TfUnique(FieldOf(doc, f).terms, FieldOf(doc', f).terms, TokensOf(an, doc.card, f));
    }
    assert FieldOf(doc, Name) == FieldOf(doc', Name) && FieldOf(doc, Tags) == FieldOf(doc', Tags);
    assert FieldOf(doc, Summary) == FieldOf(doc', Summary) && FieldOf(doc, Category) == FieldOf(doc', Category);
  }

  lemma RemovalStep(docs: map<DocId, FieldedDocument>, df: map<Term, int>, d: DocId, df': map<Term, int>)
    requires ExactDf(df, TermsOf(docs)) && d in docs && IsDecremented(df, AllTerms(docs[d]), df')
    ensures ExactDf(df', TermsOf(docs - {d})) && |docs - {d}| == |docs| - 1
  {
    RemovalKeepsExact(df, TermsOf(docs), d, df');
    TermsWithout(docs, d);
    OneFewer(docs, d);
  }

  lemma TermsWithout(docs: map<DocId, FieldedDocument>, d: DocId)
    ensures TermsOf(docs - {d}) == TermsOf(docs) - {d}
  {}

  lemma TermsWith(docs: map<DocId, FieldedDocument>, d: DocId, doc: FieldedDocument)
    ensures TermsOf(docs[d := doc]) == TermsOf(docs)[d := AllTerms(doc)]
  {}

  lemma AdditionStep(docs: map<DocId, FieldedDocument>, df: map<Term, int>, d: DocId, doc: FieldedDocument,
                     df': map<Term, int>)
    requires ExactDf(df, TermsOf(docs)) && d !in docs && IsIncremented(df, AllTerms(doc), df')
    ensures ExactDf(df', TermsOf(docs[d := doc])) && |docs[d := doc]| == |docs| + 1
  {
    AdditionKeepsExact(df, TermsOf(docs), d, AllTerms(doc), df');
    TermsWith(docs, d, doc);
    OneMore(docs, d, doc);
  }

  lemma StaysWellFormed(an: Analyzer, docs: map<DocId, FieldedDocument>, d: DocId, doc: FieldedDocument)
    requires WellFormed(an, docs) && Faithful(an, d, doc)
    ensures WellFormed(an, docs[d := doc])
  {}

  lemma WellFormedWithout(an: Analyzer, docs: map<DocId, FieldedDocument>, d: DocId)
    requires WellFormed(an, docs)
    ensures WellFormed(an, docs - {d})
  {}

  lemma Overwritten(docs: map<DocId, FieldedDocument>, d: DocId, doc: FieldedDocument)
    ensures docs[d := doc] == (docs - {d})[d := doc]
    ensures CardsOf(docs[d := doc]) == CardsOf(docs)[d := doc.card]
  {}

  lemma ReplacementStep(an: Analyzer, docs: map<DocId, FieldedDocument>, df: map<Term, int>, d: DocId,
                        doc: FieldedDocument, df': map<Term, int>)
    requires WellFormed(an, docs) && Faithful(an, d, doc)
    requires ExactDf(df, TermsOf(docs - {d})) && IsIncremented(df, AllTerms(doc), df')
    ensures WellFormed(an, docs[d := doc])
    ensures CardsOf(docs[d := doc]) == CardsOf(docs)[d := doc.card]
    ensures ExactDf(df', TermsOf(docs[d := doc])) && |docs[d := doc]| == |docs - {d}| + 1
  {
    StaysWellFormed(an, docs, d, doc);
    Overwritten(docs, d, doc);
    AdditionStep(docs - {d}, df, d, doc, df');
  }

  lemma LengthsMatch(docs: map<DocId, FieldedDocument>, f: FieldName)
    ensures |LengthsOf(docs, f)| == |docs|
  {
    assert LengthsOf(docs, f).Keys == docs.Keys;
    assert |LengthsOf(docs, f).Keys| == |docs.Keys|;
  }

  // ---------------------------------------------------------------------------------------------
  // The naive score
  // ---------------------------------------------------------------------------------------------

  lemma MatchIsMeasured(an: Analyzer, docs: map<DocId, FieldedDocument>, t: Term, d: DocId, f: FieldName)
    requires WellFormed(an, docs) && d in docs && t in FieldOf(docs[d], f).terms
    ensures FieldOf(docs[d], f).terms[t] > 0 && Average(LengthsOf(docs, f)) > 0.0
  {
    assert Faithful(an, d, docs[d]);
    assert IsField(FieldOf(docs[d], f), TokensOf(an, docs[d].card, f));
    AveragePositive(LengthsOf(docs, f), d);
  }

  lemma MatchIsCounted(docs: map<DocId, FieldedDocument>, t: Term, d: DocId)
    requires d in docs && t in AllTerms(docs[d])
    ensures 1 <= |Holders(TermsOf(docs), t)| <= |docs|
  {
    assert d in Holders(TermsOf(docs), t);
    assert Holders(TermsOf(docs), t) != {};
    SubsetSize(Holders(TermsOf(docs), t), docs.Keys);
  }

  lemma InSomeField(doc: FieldedDocument, t: Term)
    ensures t in AllTerms(doc) <==> exists f :: t in FieldOf(doc, f).terms
  {
    assert t in doc.name.terms ==> t in FieldOf(doc, Name).terms;
    assert t in doc.tags.terms ==> t in FieldOf(doc, Tags).terms;
    assert t in doc.summary.terms ==> t in FieldOf(doc, Summary).terms;
    assert t in doc.category.terms ==> t in FieldOf(doc, Category).terms;
  }

  ghost function TermIdf(log: real -> real, docs: map<DocId, FieldedDocument>, t: Term, d: DocId): real
    requires d in docs && t in AllTerms(docs[d])
  {
    MatchIsCounted(docs, t, d);
    Idf(log, |docs|, |Holders(TermsOf(docs), t)|)
  }

  /** The BM25 contribution of a term to one field, before the boost; 0 where it does not occur. */
  ghost function FieldGain(an: Analyzer, log: real -> real, docs: map<DocId, FieldedDocument>, t: Term, d: DocId,
                           f: FieldName): real
    requires WellFormed(an, docs) && d in docs && t in AllTerms(docs[d])
  {
    if t !in FieldOf(docs[d], f).terms then 0.0
    else
      MatchIsMeasured(an, docs, t, d, f);
      Contribution(TermIdf(log, docs, t, d), FieldOf(docs[d], f).terms[t], FieldOf(docs[d], f).length,
                   Average(LengthsOf(docs, f)))
  }

  ghost function Gain(an: Analyzer, log: real -> real, docs: map<DocId, FieldedDocument>, t: Term, d: DocId): real
    requires WellFormed(an, docs) && d in docs && t in AllTerms(docs[d])
  {
    Boosted(FieldGain(an, log, docs, t, d, Name), FieldGain(an, log, docs, t, d, Tags),
            FieldGain(an, log, docs, t, d, Summary), FieldGain(an, log, docs, t, d, Category))
  }

  /** Before the boost a field with the term gains more than nothing and less than idf times k1 + 1. */
  lemma FieldGainBounds(an: Analyzer, log: real -> real, docs: map<DocId, FieldedDocument>, t: Term, d: DocId,
                        f: FieldName)
    requires WellFormed(an, docs) && d in docs && t in AllTerms(docs[d]) && PositiveAboveOne(log)
    ensures TermIdf(log, docs, t, d) > 0.0
    ensures FieldGain(an, log, docs, t, d, f) >= 0.0
    ensures FieldGain(an, log, docs, t, d, f) > 0.0 <==> t in FieldOf(docs[d], f).terms
    ensures FieldGain(an, log, docs, t, d, f) < TermIdf(log, docs, t, d) * (K1 + 1.0)
  {
    MatchIsCounted(docs, t, d);
    IdfPositive(log, |docs|, |Holders(TermsOf(docs), t)|);
    Positive(TermIdf(log, docs, t, d), K1 + 1.0);
    if t in FieldOf(docs[d], f).terms {
      MatchIsMeasured(an, docs, t, d, f);
      ContributionBounds(TermIdf(log, docs, t, d), FieldOf(docs[d], f).terms[t], FieldOf(docs[d], f).length,
                         Average(LengthsOf(docs, f)));
    }
  }

  lemma GainPositive(an: Analyzer, log: real -> real, docs: map<DocId, FieldedDocument>, t: Term, d: DocId)
    requires WellFormed(an, docs) && d in docs && t in AllTerms(docs[d]) && PositiveAboveOne(log)
    ensures Gain(an, log, docs, t, d) > 0.0
  {
    FieldGainBounds(an, log, docs, t, d, Name);
    FieldGainBounds(an, log, docs, t, d, Tags);
    FieldGainBounds(an, log, docs, t, d, Summary);
    FieldGainBounds(an, log, docs, t, d, Category);
  }

  ghost function TermGains(an: Analyzer, log: real -> real, docs: map<DocId, FieldedDocument>, t: Term): Gains
    requires WellFormed(an, docs)
  {
    map d | d in docs && t in AllTerms(docs[d]) :: Gain(an, log, docs, t, d)
  }

  predicate OccursAt(s: string, sub: string, i: nat) {
    i + |sub| <= |s| && s[i..i + |sub|] == sub
  }

  predicate Contains(s: string, sub: string) {
    exists i :: 0 <= i <= |s| && OccursAt(s, sub, i)
  }

  /** The phrase occurs in one of the texts; it is lower-cased once more before it is looked up in the tags. */
  predicate ContainsPhrase(an: Analyzer, c: Card, phrase: string) {
    var p := an.lower(phrase);
    || Contains(an.lower(c.name), p)
    || Contains(an.lower(c.summary), p)
    || Contains(an.lower(c.category), p)
    || exists i :: 0 <= i < |c.tags| && Contains(an.lower(c.tags[i]), an.lower(p))
  }

  const PhraseBonus: real := 5.0

  ghost function PhraseGains(an: Analyzer, docs: map<DocId, FieldedDocument>, phrase: string): Gains {
    map d | d in docs && ContainsPhrase(an, docs[d].card, phrase) :: PhraseBonus
  }

  ghost function AllTermGains(an: Analyzer, log: real -> real, docs: map<DocId, FieldedDocument>,
                              q: seq<Term>): (g: seq<Gains>)
    requires WellFormed(an, docs)
    ensures |g| == |q| && forall i :: 0 <= i < |q| ==> g[i] == TermGains(an, log, docs, q[i])
  {
    seq(|q|, i requires 0 <= i < |q| => TermGains(an, log, docs, q[i]))
  }

  ghost function AllPhraseGains(an: Analyzer, docs: map<DocId, FieldedDocument>, phrases: seq<string>): (g: seq<Gains>)
    ensures |g| == |phrases| && forall i :: 0 <= i < |phrases| ==> g[i] == PhraseGains(an, docs, phrases[i])
  {
    seq(|phrases|, i requires 0 <= i < |phrases| => PhraseGains(an, docs, phrases[i]))
  }

  /** Every query term and every phrase; a query without terms finds nothing, not even by phrase. */
  ghost function QueryGains(an: Analyzer, log: real -> real, docs: map<DocId, FieldedDocument>, q: seq<Term>,
                            phrases: seq<string>): seq<Gains>
    requires WellFormed(an, docs)
  {
    if q == [] then [] else AllTermGains(an, log, docs, q) + AllPhraseGains(an, docs, phrases)
  }

  ghost predicate HasTerm(doc: FieldedDocument, q: seq<Term>) {
    exists i, f :: 0 <= i < |q| && q[i] in FieldOf(doc, f).terms
  }

  ghost predicate HasPhrase(an: Analyzer, doc: FieldedDocument, phrases: seq<string>) {
    exists i :: 0 <= i < |phrases| && ContainsPhrase(an, doc.card, phrases[i])
  }

  ghost predicate Matches(an: Analyzer, docs: map<DocId, FieldedDocument>, q: seq<Term>, phrases: seq<string>,
                          d: DocId) {
    d in docs && q != [] && (HasTerm(docs[d], q) || HasPhrase(an, docs[d], phrases))
  }

  /** Exactly the documents with a query term or, if the query has terms, a phrase are scored, each above zero. */
  lemma ScoredIffMatching(an: Analyzer, log: real -> real, docs: map<DocId, FieldedDocument>, q: seq<Term>,
                          phrases: seq<string>, d: DocId)
    requires WellFormed(an, docs) && PositiveAboveOne(log)
    ensures d in Scores(QueryGains(an, log, docs, q, phrases), docs.Keys) <==> Matches(an, docs, q, phrases, d)
    ensures Matches(an, docs, q, phrases, d) ==> Scores(QueryGains(an, log, docs, q, phrases), docs.Keys)[d] > 0.0
  {
    if d in docs && q != [] {
      var gains := QueryGains(an, log, docs, q, phrases);
      HitIffMatching(an, log, docs, q, phrases, d);
      forall j | 0 <= j < |gains| && d in gains[j]
        ensures gains[j][d] > 0.0
      {
        if j < |q| {
          GainPositive(an, log, docs, q[j], d);
        }
      }
      if Hit(gains, d) {
        HitScoresPositive(gains, d);
      }
    }
  }

  /** The term is a token of one of the texts of the card. */
  ghost predicate HasWord(an: Analyzer, c: Card, t: Term) {
    exists text :: text in [c.name, c.summary, c.category] + c.tags && t in an.tokenize(text)
  }

  lemma {:induction false} TagTokensAre(an: Analyzer, tags: seq<string>, t: Term)
    ensures t in TagTokens(an, tags) <==> exists tag :: tag in tags && t in an.tokenize(tag)
  {
    if tags != [] {
      TagTokensAre(an, tags[..|tags| - 1], t);
      assert tags == tags[..|tags| - 1] + [tags[|tags| - 1]];
    }
  }

  lemma IndexedByItsWords(an: Analyzer, d: DocId, doc: FieldedDocument, t: Term)
    requires Faithful(an, d, doc)
    ensures t in AllTerms(doc) <==> HasWord(an, doc.card, t)
  {
    var c := doc.card;
    var texts := [c.name, c.summary, c.category] + c.tags;
    TagTokensAre(an, c.tags, t);
    assert IsField(doc.name, an.tokenize(c.name)) by { assert IsField(FieldOf(doc, Name), TokensOf(an, c, Name)); }
    assert IsField(doc.summary, an.tokenize(c.summary)) by {
      assert IsField(FieldOf(doc, Summary), TokensOf(an, c, Summary));
    }
    assert IsField(doc.category, an.tokenize(c.category)) by {
      assert IsField(FieldOf(doc, Category), TokensOf(an, c, Category));
    }
    assert IsField(doc.tags, TagTokens(an, c.tags)) by { assert IsField(FieldOf(doc, Tags), TokensOf(an, c, Tags)); }
    assert texts[0] == c.name && texts[1] == c.summary && texts[2] == c.category;
  }

  /** A document is found by the words of its name, summary, category and tags, by phrases, and by nothing else. */
  lemma FoundByItsWords(an: Analyzer, log: real -> real, docs: map<DocId, FieldedDocument>, q: seq<Term>,
                        phrases: seq<string>, d: DocId)
    requires WellFormed(an, docs) && PositiveAboveOne(log) && d in docs
    ensures d in Scores(QueryGains(an, log, docs, q, phrases), docs.Keys)
            <==> || (exists t :: t in q && HasWord(an, docs[d].card, t))
                 || (q != [] && HasPhrase(an, docs[d], phrases))
  {
    ScoredIffMatching(an, log, docs, q, phrases, d);
    forall t
      ensures t in AllTerms(docs[d]) <==> HasWord(an, docs[d].card, t)
    {
      assert Faithful(an, d, docs[d]);
      IndexedByItsWords(an, d, docs[d], t);
    }
    TermsInQuery(docs[d], q);
  }

  lemma TermsInQuery(doc: FieldedDocument, q: seq<Term>)
    ensures HasTerm(doc, q) <==> exists t :: t in q && t in AllTerms(doc)
  {
    if HasTerm(doc, q) {
      var i, f :| 0 <= i < |q| && q[i] in FieldOf(doc, f).terms;
      InSomeField(doc, q[i]);
    }
    if t :| t in q && t in AllTerms(doc) {
      InSomeField(doc, t);
      var f :| t in FieldOf(doc, f).terms;
      var i :| 0 <= i < |q| && q[i] == t;
    }
  }

  lemma HitIffMatching(an: Analyzer, log: real -> real, docs: map<DocId, FieldedDocument>, q: seq<Term>,
                       phrases: seq<string>, d: DocId)
    requires WellFormed(an, docs) && d in docs && q != []
    ensures Hit(QueryGains(an, log, docs, q, phrases), d) <==> HasTerm(docs[d], q) || HasPhrase(an, docs[d], phrases)
  {
    var terms, phraseGains := AllTermGains(an, log, docs, q), AllPhraseGains(an, docs, phrases);
    HitEither(terms, phraseGains, d);
    HitByTerm(an, log, docs, q, d);
    HitByPhrase(an, docs, phrases, d);
  }

  lemma HitEither(a: seq<Gains>, b: seq<Gains>, d: DocId)
    ensures Hit(a + b, d) <==> Hit(a, d) || Hit(b, d)
  {
    if Hit(a, d) {
      var i :| 0 <= i < |a| && d in a[i];
      assert d in (a + b)[i];
    }
    if Hit(b, d) {
      var i :| 0 <= i < |b| && d in b[i];
      assert d in (a + b)[|a| + i];
    }
  }

  lemma HitByTerm(an: Analyzer, log: real -> real, docs: map<DocId, FieldedDocument>, q: seq<Term>, d: DocId)
    requires WellFormed(an, docs) && d in docs
    ensures Hit(AllTermGains(an, log, docs, q), d) <==> HasTerm(docs[d], q)
  {
    var gains := AllTermGains(an, log, docs, q);
    if Hit(gains, d) {
      var i :| 0 <= i < |gains| && d in gains[i];
      InSomeField(docs[d], q[i]);
    }
    if HasTerm(docs[d], q) {
      var i, f :| 0 <= i < |q| && q[i] in FieldOf(docs[d], f).terms;
      InSomeField(docs[d], q[i]);
      assert d in gains[i];
    }
  }

  lemma HitByPhrase(an: Analyzer, docs: map<DocId, FieldedDocument>, phrases: seq<string>, d: DocId)
    requires d in docs
    ensures Hit(AllPhraseGains(an, docs, phrases), d) <==> HasPhrase(an, docs[d], phrases)
  {}

  // ---------------------------------------------------------------------------------------------
  // What the score prefers
  // ---------------------------------------------------------------------------------------------

  /** How often a term occurs in a field. */
  function Occurrences(doc: FieldedDocument, t: Term, f: FieldName): nat {
    if t in FieldOf(doc, f).terms then FieldOf(doc, f).terms[t] else 0
  }

  /** The term occurs in this field and in no other. */
  ghost predicate OnlyIn(doc: FieldedDocument, t: Term, f: FieldName) {
    forall g :: t in FieldOf(doc, g).terms <==> g == f
  }

  function TwiceBoosted(f: FieldName, x: real): real {
    match f
    case Summary => x + x
    case Category => x + x + x
    case Tags => x + x + x + x
    case Name => x + x + x + x + x + x
  }

  /** A match counts once in the summary, 1.5 times in the category, twice in the tags, thrice in the name. */
  lemma BoostOfField(an: Analyzer, log: real -> real, docs: map<DocId, FieldedDocument>, t: Term, d: DocId,
                     f: FieldName)
    requires WellFormed(an, docs) && d in docs && t in AllTerms(docs[d]) && OnlyIn(docs[d], t, f)
    ensures 2.0 * Gain(an, log, docs, t, d) == TwiceBoosted(f, FieldGain(an, log, docs, t, d, f))
  {
    forall g | g != f
      ensures FieldGain(an, log, docs, t, d, g) == 0.0
    {
      assert t !in FieldOf(docs[d], g).terms;
    }
  }

  predicate Outranks(f: FieldName, g: FieldName) {
    || (f == Name && g != Name)
    || (f == Tags && (g == Category || g == Summary))
    || (f == Category && g == Summary)
  }

  /** For equal gains of the fields, the name outscores the tags, these the category, this the summary. */
  lemma HigherFieldScoresMore(an: Analyzer, log: real -> real, docs: map<DocId, FieldedDocument>,
                              t: Term, d: DocId, f: FieldName, t': Term, d': DocId, f': FieldName)
    requires WellFormed(an, docs) && PositiveAboveOne(log)
    requires d in docs && t in AllTerms(docs[d]) && OnlyIn(docs[d], t, f)
    requires d' in docs && t' in AllTerms(docs[d']) && OnlyIn(docs[d'], t', f')
    requires FieldGain(an, log, docs, t, d, f) == FieldGain(an, log, docs, t', d', f')
    ensures Gain(an, log, docs, t, d) < Gain(an, log, docs, t', d') <==> Outranks(f', f)
  {
    var x := FieldGain(an, log, docs, t, d, f);
    assert x > 0.0 by {
      assert t in FieldOf(docs[d], f).terms;
      FieldGainBounds(an, log, docs, t, d, f);
    }
    BoostOfField(an, log, docs, t, d, f);
    BoostOfField(an, log, docs, t', d', f');
    BoostsAreOrdered(f, x, Gain(an, log, docs, t, d), f', Gain(an, log, docs, t', d'));
  }

  lemma BoostsAreOrdered(f: FieldName, x: real, y: real, f': FieldName, y': real)
    requires x > 0.0 && 2.0 * y == TwiceBoosted(f, x) && 2.0 * y' == TwiceBoosted(f', x)
    ensures y < y' <==> Outranks(f', f)
  {}

  /** A field matches at least as well: as many occurrences or more, in a text that is not longer. */
  ghost predicate FieldAsGood(doc: FieldedDocument, t: Term, doc': FieldedDocument, t': Term, f: FieldName) {
    || t !in FieldOf(doc, f).terms
    || (Occurrences(doc, t, f) <= Occurrences(doc', t', f) && FieldOf(doc', f).length <= FieldOf(doc, f).length)
  }

  ghost predicate FieldBetter(doc: FieldedDocument, t: Term, doc': FieldedDocument, t': Term, f: FieldName) {
    && FieldAsGood(doc, t, doc', t', f)
    && (|| Occurrences(doc, t, f) < Occurrences(doc', t', f)
        || (t in FieldOf(doc, f).terms && FieldOf(doc', f).length < FieldOf(doc, f).length))
  }

  /** The match is at least as good in every field, the term is no more frequent, and something is better. */
  ghost predicate BetterMatch(docs: map<DocId, FieldedDocument>, t: Term, d: DocId, t': Term, d': DocId)
    requires d in docs && d' in docs
  {
    var n, n' := |Holders(TermsOf(docs), t)|, |Holders(TermsOf(docs), t')|;
    && n' <= n && (forall f :: FieldAsGood(docs[d], t, docs[d'], t', f))
    && (n' < n || exists f :: FieldBetter(docs[d], t, docs[d'], t', f))
  }

  lemma FieldGainGrows(an: Analyzer, log: real -> real, docs: map<DocId, FieldedDocument>, t: Term, d: DocId,
                       t': Term, d': DocId, f: FieldName)
    requires WellFormed(an, docs) && PositiveAboveOne(log) && StrictlyIncreasing(log)
    requires d in docs && t in AllTerms(docs[d]) && d' in docs && t' in AllTerms(docs[d'])
    requires |Holders(TermsOf(docs), t')| <= |Holders(TermsOf(docs), t)|
    requires FieldAsGood(docs[d], t, docs[d'], t', f)
    ensures FieldGain(an, log, docs, t, d, f) <= FieldGain(an, log, docs, t', d', f)
    ensures FieldBetter(docs[d], t, docs[d'], t', f)
            || (t in FieldOf(docs[d], f).terms && |Holders(TermsOf(docs), t')| < |Holders(TermsOf(docs), t)|) ==>
              FieldGain(an, log, docs, t, d, f) < FieldGain(an, log, docs, t', d', f)
  {
    if t !in FieldOf(docs[d], f).terms {
      FieldGainBounds(an, log, docs, t', d', f);
    } else {
      IdfGrows(log, docs, t, d, t', d');
      FieldGainIs(an, log, docs, t, d, f);
      FieldGainIs(an, log, docs, t', d', f);
      var l, l' := FieldOf(docs[d], f).length, FieldOf(docs[d'], f).length;
      var n, n' := FieldOf(docs[d], f).terms[t], FieldOf(docs[d'], f).terms[t'];
      var x, x' := TermIdf(log, docs, t, d), TermIdf(log, docs, t', d');
      ContributionNoLess(x, n, l, x', n', l', Average(LengthsOf(docs, f)));
    }
  }

  lemma FieldGainIs(an: Analyzer, log: real -> real, docs: map<DocId, FieldedDocument>, t: Term, d: DocId, f: FieldName)
    requires WellFormed(an, docs) && PositiveAboveOne(log) && d in docs && t in AllTerms(docs[d])
    requires t in FieldOf(docs[d], f).terms
    ensures FieldOf(docs[d], f).terms[t] > 0 && Average(LengthsOf(docs, f)) > 0.0 && TermIdf(log, docs, t, d) > 0.0
    ensures FieldGain(an, log, docs, t, d, f)
            == Contribution(TermIdf(log, docs, t, d), FieldOf(docs[d], f).terms[t], FieldOf(docs[d], f).length,
                            Average(LengthsOf(docs, f)))
  {
    MatchIsMeasured(an, docs, t, d, f);
    FieldGainBounds(an, log, docs, t, d, f);
  }

  lemma IdfGrows(log: real -> real, docs: map<DocId, FieldedDocument>, t: Term, d: DocId, t': Term, d': DocId)
    requires d in docs && t in AllTerms(docs[d]) && d' in docs && t' in AllTerms(docs[d'])
    requires StrictlyIncreasing(log) && |Holders(TermsOf(docs), t')| <= |Holders(TermsOf(docs), t)|
    ensures TermIdf(log, docs, t, d) <= TermIdf(log, docs, t', d')
    ensures |Holders(TermsOf(docs), t')| < |Holders(TermsOf(docs), t)| ==>
              TermIdf(log, docs, t, d) < TermIdf(log, docs, t', d')
  {
    MatchIsCounted(docs, t, d);
    MatchIsCounted(docs, t', d');
    if |Holders(TermsOf(docs), t')| < |Holders(TermsOf(docs), t)| {
      RarerWeighsMore(log, |docs|, |Holders(TermsOf(docs), t')|, |Holders(TermsOf(docs), t)|);
    }
  }

  lemma BoostedGrows(a: real, b: real, c: real, d: real, a': real, b': real, c': real, d': real)
    requires a <= a' && b <= b' && c <= c' && d <= d' && (a < a' || b < b' || c < c' || d < d')
    ensures Boosted(a, b, c, d) < Boosted(a', b', c', d')
  {}

  /** A rarer term, more occurrences in a field or a shorter field gain more. */
  lemma BetterMatchGainsMore(an: Analyzer, log: real -> real, docs: map<DocId, FieldedDocument>, t: Term, d: DocId,
                             t': Term, d': DocId)
    requires WellFormed(an, docs) && PositiveAboveOne(log) && StrictlyIncreasing(log)
    requires d in docs && t in AllTerms(docs[d]) && d' in docs && t' in AllTerms(docs[d'])
    requires BetterMatch(docs, t, d, t', d')
    ensures Gain(an, log, docs, t, d) < Gain(an, log, docs, t', d')
  {
    NoFieldGainsLess(an, log, docs, t, d, t', d');
    var f := BetterField(docs, t, d, t', d');
    FieldGainGrows(an, log, docs, t, d, t', d', f);
    match f { case Name => case Tags => case Summary => case Category => }
    BoostedGrows(FieldGain(an, log, docs, t, d, Name), FieldGain(an, log, docs, t, d, Tags),
                 FieldGain(an, log, docs, t, d, Summary), FieldGain(an, log, docs, t, d, Category),
                 FieldGain(an, log, docs, t', d', Name), FieldGain(an, log, docs, t', d', Tags),
                 FieldGain(an, log, docs, t', d', Summary), FieldGain(an, log, docs, t', d', Category));
  }

  lemma NoFieldGainsLess(an: Analyzer, log: real -> real, docs: map<DocId, FieldedDocument>, t: Term, d: DocId,
                         t': Term, d': DocId)
    requires WellFormed(an, docs) && PositiveAboveOne(log) && StrictlyIncreasing(log)
    requires d in docs && t in AllTerms(docs[d]) && d' in docs && t' in AllTerms(docs[d'])
    requires BetterMatch(docs, t, d, t', d')
    ensures FieldGain(an, log, docs, t, d, Name) <= FieldGain(an, log, docs, t', d', Name)
    ensures FieldGain(an, log, docs, t, d, Tags) <= FieldGain(an, log, docs, t', d', Tags)
    ensures FieldGain(an, log, docs, t, d, Summary) <= FieldGain(an, log, docs, t', d', Summary)
    ensures FieldGain(an, log, docs, t, d, Category) <= FieldGain(an, log, docs, t', d', Category)
  {
    FieldGainGrows(an, log, docs, t, d, t', d', Name);
    FieldGainGrows(an, log, docs, t, d, t', d', Tags);
    FieldGainGrows(an, log, docs, t, d, t', d', Summary);
    FieldGainGrows(an, log, docs, t, d, t', d', Category);
  }

  lemma BetterField(docs: map<DocId, FieldedDocument>, t: Term, d: DocId, t': Term, d': DocId) returns (f: FieldName)
    requires d in docs && t in AllTerms(docs[d]) && d' in docs && BetterMatch(docs, t, d, t', d')
    ensures FieldBetter(docs[d], t, docs[d'], t', f)
            || (t in FieldOf(docs[d], f).terms && |Holders(TermsOf(docs), t')| < |Holders(TermsOf(docs), t)|)
  {
    if |Holders(TermsOf(docs), t')| < |Holders(TermsOf(docs), t)| {
      InSomeField(docs[d], t);
      f :| t in FieldOf(docs[d], f).terms;
    } else {
      f :| FieldBetter(docs[d], t, docs[d'], t', f);
    }
  }

  /** How many of the phrases the document contains. */
  ghost function PhraseCount(an: Analyzer, c: Card, phrases: seq<string>): nat {
    if phrases == [] then 0
    else PhraseCount(an, c, phrases[..|phrases| - 1])
         + if ContainsPhrase(an, c, phrases[|phrases| - 1]) then 1 else 0
  }

  /** Every phrase that a document contains is worth 5 points, whatever else matches. */
  lemma {:induction false} PhrasesAreWorthFive(an: Analyzer, docs: map<DocId, FieldedDocument>, phrases: seq<string>,
                                               d: DocId)
    requires d in docs
    ensures SumFor(AllPhraseGains(an, docs, phrases), d) == 5.0 * PhraseCount(an, docs[d].card, phrases) as real
  {
    if phrases != [] {
      var front, p := phrases[..|phrases| - 1], phrases[|phrases| - 1];
      PhrasesAreWorthFive(an, docs, front, d);
      assert AllPhraseGains(an, docs, phrases) == AllPhraseGains(an, docs, front) + [PhraseGains(an, docs, p)];
      HitStep(AllPhraseGains(an, docs, front), PhraseGains(an, docs, p), d);
    }
  }

  /** Of the query, the document matches this term and no other. */
  ghost predicate OnlyMatch(docs: map<DocId, FieldedDocument>, q: seq<Term>, t: Term, d: DocId) {
    && d in docs && t in AllTerms(docs[d])
    && forall i :: 0 <= i < |q| && q[i] in AllTerms(docs[d]) ==> q[i] == t
  }

  lemma OnlyMatchScore(an: Analyzer, log: real -> real, docs: map<DocId, FieldedDocument>, q: seq<Term>, t: Term,
                       d: DocId)
    requires WellFormed(an, docs) && OnlyMatch(docs, q, t, d)
    ensures SumFor(AllTermGains(an, log, docs, q), d) == Times(Count(q, t), Gain(an, log, docs, t, d))
  {
    SumOfOnlyMatch(AllTermGains(an, log, docs, q), q, t, d, Gain(an, log, docs, t, d));
  }

  lemma ScoreOfOnlyMatch(an: Analyzer, log: real -> real, docs: map<DocId, FieldedDocument>, q: seq<Term>,
                         phrases: seq<string>, t: Term, d: DocId)
    requires WellFormed(an, docs) && PositiveAboveOne(log) && OnlyMatch(docs, q, t, d) && Count(q, t) >= 1
    ensures d in Scores(QueryGains(an, log, docs, q, phrases), docs.Keys)
    ensures Scores(QueryGains(an, log, docs, q, phrases), docs.Keys)[d]
            == Times(Count(q, t), Gain(an, log, docs, t, d)) + 5.0 * PhraseCount(an, docs[d].card, phrases) as real
  {
    CountedIsIn(q, t);
    HitByTerm(an, log, docs, q, d);
    var i :| 0 <= i < |q| && q[i] == t;
    InSomeField(docs[d], q[i]);
    HitEither(AllTermGains(an, log, docs, q), AllPhraseGains(an, docs, phrases), d);
    OnlyMatchScore(an, log, docs, q, t, d);
    PhrasesAreWorthFive(an, docs, phrases, d);
    SumForSplit(AllTermGains(an, log, docs, q), AllPhraseGains(an, docs, phrases), d);
  }

  lemma BetterMatchProduct(an: Analyzer, log: real -> real, docs: map<DocId, FieldedDocument>, q: seq<Term>,
                           t: Term, d: DocId, t': Term, d': DocId)
    requires WellFormed(an, docs) && PositiveAboveOne(log) && StrictlyIncreasing(log)
    requires d in docs && t in AllTerms(docs[d]) && d' in docs && t' in AllTerms(docs[d'])
    requires BetterMatch(docs, t, d, t', d') && 1 <= Count(q, t) <= Count(q, t')
    ensures Times(Count(q, t), Gain(an, log, docs, t, d)) < Times(Count(q, t'), Gain(an, log, docs, t', d'))
  {
    GainPositive(an, log, docs, t, d);
    BetterMatchGainsMore(an, log, docs, t, d, t', d');
    TimesGrows(Count(q, t), Gain(an, log, docs, t, d), Count(q, t'), Gain(an, log, docs, t', d'));
  }

  /**
   What a ranking of search results is for: of two documents that each match one term of the query, the
   better match, with no fewer phrases, comes first and is never cut off while the other one stays.
   */
  lemma BetterMatchComesFirst(an: Analyzer, log: real -> real, docs: map<DocId, FieldedDocument>, q: seq<Term>,
                              phrases: seq<string>, max: int, r: seq<Ranked>,
                              t: Term, d: DocId, t': Term, d': DocId, j: nat)
    returns (i: nat)
    requires WellFormed(an, docs) && PositiveAboveOne(log) && StrictlyIncreasing(log)
    requires IsTop(Scores(QueryGains(an, log, docs, q, phrases), docs.Keys), max, r)
    requires OnlyMatch(docs, q, t, d) && OnlyMatch(docs, q, t', d') && BetterMatch(docs, t, d, t', d')
    requires 1 <= Count(q, t) <= Count(q, t')
    requires PhraseCount(an, docs[d].card, phrases) <= PhraseCount(an, docs[d'].card, phrases)
    requires j < |r| && r[j].doc == d
    ensures i < j && r[i].doc == d'
  {
    ScoreOfOnlyMatch(an, log, docs, q, phrases, t, d);
    ScoreOfOnlyMatch(an, log, docs, q, phrases, t', d');
    BetterMatchProduct(an, log, docs, q, t, d, t', d');
    i := HigherScoreComesFirst(Scores(QueryGains(an, log, docs, q, phrases), docs.Keys), max, r, d, d', j);
  }

  /** A phrase is found exactly where one of the texts, in lower case, has it in one piece. */
  lemma PhraseFoundIff(an: Analyzer, c: Card, phrase: string)
    requires an.lower(an.lower(phrase)) == an.lower(phrase)
    ensures ContainsPhrase(an, c, phrase)
            <==> exists text, a, b :: text in [c.name, c.summary, c.category] + c.tags
                                      && an.lower(text) == a + an.lower(phrase) + b
  {
    var p := an.lower(phrase);
    var texts := [c.name, c.summary, c.category] + c.tags;
    forall text | text in texts
      ensures Contains(an.lower(text), p) <==> exists a, b :: an.lower(text) == a + p + b
    {
      ContainsIff(an.lower(text), p);
    }
    assert texts[0] == c.name && texts[1] == c.summary && texts[2] == c.category;
    assert forall i :: 0 <= i < |c.tags| ==> texts[3 + i] == c.tags[i];
    assert ContainsPhrase(an, c, phrase) <==> exists text :: text in texts && Contains(an.lower(text), p);
  }

  lemma ContainsIff(s: string, sub: string)
    ensures Contains(s, sub) <==> exists a, b :: s == a + sub + b
  {
    if Contains(s, sub) {
      var i :| 0 <= i <= |s| && OccursAt(s, sub, i);
      assert s == s[..i] + sub + s[i + |sub|..];
    }
    if a, b :| s == a + sub + b {
      assert OccursAt(s, sub, |a|);
    }
  }

  // ---------------------------------------------------------------------------------------------
  // Quoted phrases
  // ---------------------------------------------------------------------------------------------

  function Outside(q: string): seq<string>
    decreases |q|
  {
    if q == "" then []
    else if q[0] == '"' then Inside("", q[1..])
    else Outside(q[1..])
  }

  function Inside(current: string, q: string): seq<string>
    decreases |q|
  {
    if q == "" then []
    else if q[0] == '"' then [current] + Outside(q[1..])
    else Inside(current + [q[0]], q[1..])
  }

  method ExtractPhrases(query: string) returns (phrases: seq<string>)
    ensures phrases == Outside(query)
  {
    phrases := [];
    var inQuote, current := false, "";
    for i := 0 to |query|
      invariant !inQuote ==> current == ""
      invariant phrases + (if inQuote then Inside(current, query[i..]) else Outside(query[i..])) == Outside(query)
    {
      var r := query[i];
      assert query[i..][0] == r && query[i..][1..] == query[i + 1..];
      if r == '"' {
        if inQuote {
          phrases := phrases + [current];
          current := "";
        }
        inQuote := !inQuote;
      } else if inQuote {
        current := current + [r];
      }
    }
  }

  datatype Quoted = Quoted(before: string, phrase: string)

  predicate Unquoted(s: string) {
    forall i :: 0 <= i < |s| ==> s[i] != '"'
  }

  function Written(qs: seq<Quoted>, after: string): string {
    if qs == [] then after
    else qs[0].before + "\"" + qs[0].phrase + "\"" + Written(qs[1..], after)
  }

  lemma {:induction false} OutsideSkips(s: string, rest: string)
    requires Unquoted(s)
    ensures Outside(s + rest) == Outside(rest)
  {
    if s == "" {
      assert s + rest == rest;
    } else {
      assert (s + rest)[1..] == s[1..] + rest;
      OutsideSkips(s[1..], rest);
    }
  }

  lemma {:induction false} InsideCollects(current: string, s: string, rest: string)
    requires Unquoted(s)
    ensures Inside(current, s + rest) == Inside(current + s, rest)
    decreases |s|
  {
    if s == "" {
      assert s + rest == rest && current + s == current;
    } else {
      assert (s + rest)[1..] == s[1..] + rest;
      InsideCollects(current + [s[0]], s[1..], rest);
      assert current + [s[0]] + s[1..] == current + s;
    }
  }

  /** The phrases written between quotes are the ones found; a last unclosed quote is ignored. */
  lemma {:induction false} QuotedPhrasesAreFound(qs: seq<Quoted>, after: string, unclosed: string)
    requires forall i :: 0 <= i < |qs| ==> Unquoted(qs[i].before) && Unquoted(qs[i].phrase)
    requires Unquoted(after) && Unquoted(unclosed)
    ensures |Outside(Written(qs, after))| == |Outside(Written(qs, after + "\"" + unclosed))| == |qs|
    ensures forall i :: 0 <= i < |qs| ==> Outside(Written(qs, after))[i] == qs[i].phrase
    ensures Outside(Written(qs, after)) == Outside(Written(qs, after + "\"" + unclosed))
  {
    if qs == [] {
      OutsideSkips(after, "");
      assert after + "" == after;
      OutsideSkips(after, "\"" + unclosed);
      assert after + "\"" + unclosed == after + ("\"" + unclosed);
      assert ("\"" + unclosed)[1..] == unclosed;
      InsideCollects("", unclosed, "");
      assert unclosed + "" == unclosed;
    } else {
      QuotedPhrasesAreFound(qs[1..], after, unclosed);
      FirstPhrase(qs[0].before, qs[0].phrase, Written(qs[1..], after));
      FirstPhrase(qs[0].before, qs[0].phrase, Written(qs[1..], after + "\"" + unclosed));
    }
  }

  lemma FirstPhrase(before: string, phrase: string, rest: string)
    requires Unquoted(before) && Unquoted(phrase)
    ensures Outside(before + "\"" + phrase + "\"" + rest) == [phrase] + Outside(rest)
  {
    var tail := "\"" + rest;
    assert tail[1..] == rest;
    var quoted := "\"" + (phrase + tail);
    assert before + "\"" + phrase + "\"" + rest == before + quoted;
    OutsideSkips(before, quoted);
    assert quoted[1..] == phrase + tail;
    InsideCollects("", phrase, tail);
    assert "" + phrase == phrase;
  }

  // ---------------------------------------------------------------------------------------------
  // The index
  // ---------------------------------------------------------------------------------------------

  method BuildField(tokens: seq<Term>) returns (field: Field)
    ensures IsField(field, tokens)
  {
    var tf := CountTerms(tokens);
    field := Field(tf, |tokens|);
  }

  /** Tokenize each field separately and count its terms. */
  method Analyze(an: Analyzer, id: DocId, card: Card) returns (doc: FieldedDocument)
    ensures Faithful(an, id, doc) && doc.card == card
  {
    var tagsTerms: seq<Term> := [];
    for i := 0 to |card.tags|
      invariant tagsTerms == TagTokens(an, card.tags[..i])
    {
      assert card.tags[..i + 1][..i] == card.tags[..i];
      tagsTerms := tagsTerms + an.tokenize(card.tags[i]);
    }
    assert card.tags[..|card.tags|] == card.tags;
    var name := BuildField(an.tokenize(card.name));
    var tags := BuildField(tagsTerms);
    var summary := BuildField(an.tokenize(card.summary));
    var category := BuildField(an.tokenize(card.category));
    doc := FieldedDocument(id, card, name, tags, summary, category);
    forall f: FieldName
      ensures IsField(FieldOf(doc, f), TokensOf(an, doc.card, f))
    {
      match f case Name => case Tags => case Summary => case Category =>
    }
  }

  /** Take the terms of the document out of the counts, if it is there. */
  method RemoveTerms(docs: map<DocId, FieldedDocument>, df: map<Term, int>, docCount: int, id: DocId)
    returns (df': map<Term, int>, docCount': int)
    requires ExactDf(df, TermsOf(docs)) && docCount == |docs|
    ensures ExactDf(df', TermsOf(docs - {id})) && docCount' == |docs - {id}|
  {
    df', docCount' := df, docCount;
    if id in docs {
      df' := Decrement(df, AllTerms(docs[id]));
      docCount' := docCount - 1;
      RemovalStep(docs, df, id, df');
    } else {
      assert docs - {id} == docs;
    }
  }

  method MeanOf(docs: map<DocId, FieldedDocument>, docCount: int, f: FieldName) returns (mean: real)
    requires docCount == |docs|
    ensures mean == Average(LengthsOf(docs, f))
  {
    var total := SumLengths(LengthsOf(docs, f));
    LengthsMatch(docs, f);
    mean := if docCount == 0 then 0.0 else total as real / docCount as real;
  }

  method RecalculateAvgLengths(docs: map<DocId, FieldedDocument>, docCount: int)
    returns (avgDocLen: map<FieldName, real>)
    requires docCount == |docs|
    ensures ExactAverages(docs, avgDocLen)
  {
    var name := MeanOf(docs, docCount, Name);
    var tags := MeanOf(docs, docCount, Tags);
    var summary := MeanOf(docs, docCount, Summary);
    var category := MeanOf(docs, docCount, Category);
    avgDocLen := map[Name := name, Tags := tags, Summary := summary, Category := category];
    forall f: FieldName
      ensures f in avgDocLen && avgDocLen[f] == Average(LengthsOf(docs, f))
    {
      match f case Name => case Tags => case Summary => case Category =>
    }
  }

  /** The work of IndexDocument on the fields of an index. */
  method Reindexed(an: Analyzer, docs: map<DocId, FieldedDocument>, df: map<Term, int>, docCount: int, id: DocId,
                   card: Card)
    returns (docs': map<DocId, FieldedDocument>, df': map<Term, int>, docCount': int, avgDocLen': map<FieldName, real>)
    requires WellFormed(an, docs) && ExactDf(df, TermsOf(docs)) && docCount == |docs|
    ensures Exact(an, docs', df', docCount', avgDocLen')
    ensures CardsOf(docs') == CardsOf(docs)[id := card]
  {
    df', docCount' := RemoveTerms(docs, df, docCount, id);
    var doc := Analyze(an, id, card);
    docs' := docs[id := doc];
    docCount' := docCount' + 1;
    ghost var without := df';
    df' := Increment(df', AllTerms(doc));
    ReplacementStep(an, docs, without, id, doc, df');
    avgDocLen' := RecalculateAvgLengths(docs', docCount');
  }

  /** The work of RemoveDocument on the fields of an index. */
  method Removed(an: Analyzer, docs: map<DocId, FieldedDocument>, df: map<Term, int>, docCount: int,
                 avgDocLen: map<FieldName, real>, id: DocId)
    returns (docs': map<DocId, FieldedDocument>, df': map<Term, int>, docCount': int, avgDocLen': map<FieldName, real>)
    requires Exact(an, docs, df, docCount, avgDocLen)
    ensures Exact(an, docs', df', docCount', avgDocLen')
    ensures docs' == docs - {id}
  {
    if id !in docs {
      return docs, df, docCount, avgDocLen;
    }
    df', docCount' := RemoveTerms(docs, df, docCount, id);
    docs' := docs - {id};
    WellFormedWithout(an, docs, id);
    avgDocLen' := RecalculateAvgLengths(docs', docCount');
  }

  /** bm25FieldScore: 0 without looking at the average when the term does not occur. */
  function Bm25FieldScore(t: Term, field: Field, avgDocLen: real, idf: real): real
    requires t in field.terms ==> avgDocLen > 0.0
  {
    if t !in field.terms then 0.0 else Contribution(idf, field.terms[t], field.length, avgDocLen)
  }

  ghost predicate Measured(docs: map<DocId, FieldedDocument>, avgDocLen: map<FieldName, real>, t: Term, d: DocId)
    requires d in docs
  {
    forall f :: f in avgDocLen && (t in FieldOf(docs[d], f).terms ==> avgDocLen[f] > 0.0)
  }

  function FieldScore(doc: FieldedDocument, avgDocLen: map<FieldName, real>, idf: real, t: Term): real
    requires forall f :: f in avgDocLen && (t in FieldOf(doc, f).terms ==> avgDocLen[f] > 0.0)
  {
    Boosted(Bm25FieldScore(t, FieldOf(doc, Name), avgDocLen[Name], idf),
            Bm25FieldScore(t, FieldOf(doc, Tags), avgDocLen[Tags], idf),
            Bm25FieldScore(t, FieldOf(doc, Summary), avgDocLen[Summary], idf),
            Bm25FieldScore(t, FieldOf(doc, Category), avgDocLen[Category], idf))
  }

  /** The guard `fieldScore > 0` lets through exactly the documents with the term. */
  ghost predicate GainAt(docs: map<DocId, FieldedDocument>, avgDocLen: map<FieldName, real>, idf: real, t: Term,
                         g: Gains, d: DocId)
    requires d in docs
  {
    && Measured(docs, avgDocLen, t, d)
    && (d in g <==> FieldScore(docs[d], avgDocLen, idf, t) > 0.0)
    && (d in g ==> g[d] == FieldScore(docs[d], avgDocLen, idf, t))
  }

  lemma AllMeasured(an: Analyzer, docs: map<DocId, FieldedDocument>, avgDocLen: map<FieldName, real>, t: Term, d: DocId)
    requires WellFormed(an, docs) && ExactAverages(docs, avgDocLen) && d in docs
    ensures Measured(docs, avgDocLen, t, d)
  {
    forall f
      ensures f in avgDocLen && (t in FieldOf(docs[d], f).terms ==> avgDocLen[f] > 0.0)
    {
      if t in FieldOf(docs[d], f).terms {
        MatchIsMeasured(an, docs, t, d, f);
      }
    }
  }

  lemma FieldScoreIsGain(an: Analyzer, log: real -> real, docs: map<DocId, FieldedDocument>,
                         avgDocLen: map<FieldName, real>, t: Term, d: DocId)
    requires WellFormed(an, docs) && ExactAverages(docs, avgDocLen) && d in docs && t in AllTerms(docs[d])
    requires Measured(docs, avgDocLen, t, d)
    ensures FieldScore(docs[d], avgDocLen, TermIdf(log, docs, t, d), t) == Gain(an, log, docs, t, d)
  {
    OneFieldIsGain(an, log, docs, avgDocLen, t, d, Name);
    OneFieldIsGain(an, log, docs, avgDocLen, t, d, Tags);
    OneFieldIsGain(an, log, docs, avgDocLen, t, d, Summary);
    OneFieldIsGain(an, log, docs, avgDocLen, t, d, Category);
  }

  lemma OneFieldIsGain(an: Analyzer, log: real -> real, docs: map<DocId, FieldedDocument>,
                       avgDocLen: map<FieldName, real>,
                       t: Term, d: DocId, f: FieldName)
    requires WellFormed(an, docs) && d in docs && t in AllTerms(docs[d])
    requires f in avgDocLen && avgDocLen[f] == Average(LengthsOf(docs, f))
    requires t in FieldOf(docs[d], f).terms ==> avgDocLen[f] > 0.0
    ensures Bm25FieldScore(t, FieldOf(docs[d], f), avgDocLen[f], TermIdf(log, docs, t, d))
            == FieldGain(an, log, docs, t, d, f)
  {}

  lemma NoTermNoScore(doc: FieldedDocument, avgDocLen: map<FieldName, real>, idf: real, t: Term)
    requires t !in AllTerms(doc) && forall f :: f in avgDocLen && (t in FieldOf(doc, f).terms ==> avgDocLen[f] > 0.0)
    ensures FieldScore(doc, avgDocLen, idf, t) == 0.0
  {}

  lemma IdfIs(log: real -> real, docs: map<DocId, FieldedDocument>, df: map<Term, int>, t: Term, d: DocId)
    requires ExactDf(df, TermsOf(docs)) && d in docs && t in AllTerms(docs[d]) && t in df && df[t] >= 1
    ensures TermIdf(log, docs, t, d) == Idf(log, |docs|, df[t])
  {}

  lemma TermGainAt(an: Analyzer, log: real -> real, docs: map<DocId, FieldedDocument>, df: map<Term, int>,
                   avgDocLen: map<FieldName, real>, t: Term, d: DocId)
    requires WellFormed(an, docs) && ExactDf(df, TermsOf(docs)) && ExactAverages(docs, avgDocLen)
    requires PositiveAboveOne(log) && t in df && df[t] >= 1 && d in docs
    ensures GainAt(docs, avgDocLen, Idf(log, |docs|, df[t]), t, TermGains(an, log, docs, t), d)
  {
    AllMeasured(an, docs, avgDocLen, t, d);
    if t in AllTerms(docs[d]) {
      IdfIs(log, docs, df, t, d);
      FieldScoreIsGain(an, log, docs, avgDocLen, t, d);
      GainPositive(an, log, docs, t, d);
    } else {
      NoTermNoScore(docs[d], avgDocLen, Idf(log, |docs|, df[t]), t);
    }
  }

  /** The loop over the documents for one query term with its idf. */
  method AddTerm(docs: map<DocId, FieldedDocument>, avgDocLen: map<FieldName, real>, idf: real, t: Term,
                 before: map<DocId, real>, ghost gains: seq<Gains>, ghost g: Gains)
    returns (scores: map<DocId, real>)
    requires forall d {:trigger GainAt(docs, avgDocLen, idf, t, g, d)} ::
               d in docs ==> GainAt(docs, avgDocLen, idf, t, g, d)
    requires AllScored(before, gains, docs.Keys)
    ensures AllScored(scores, gains + [g], docs.Keys)
  {
    scores := before;
    var left := docs.Keys;
    while left != {}
      invariant left <= docs.Keys && scores.Keys <= docs.Keys
      invariant forall d :: d in left ==> ScoredAt(scores, gains, d)
      invariant forall d :: d in docs && d !in left ==> ScoredAt(scores, gains + [g], d)
      decreases |left|
    {
      var d :| d in left;
      left := left - {d};
      PlusStep(scores, gains, g, d);
      assert GainAt(docs, avgDocLen, idf, t, g, d);
      var fieldScore := FieldScore(docs[d], avgDocLen, idf, t);
      if fieldScore > 0.0 {
        scores := Plus(scores, d, fieldScore);
      }
    }
  }

  lemma UnknownTermGainsNothing(an: Analyzer, log: real -> real, docs: map<DocId, FieldedDocument>, df: map<Term, int>,
                                t: Term, scores: map<DocId, real>, gains: seq<Gains>)
    requires WellFormed(an, docs) && ExactDf(df, TermsOf(docs)) && t !in df
    requires AllScored(scores, gains, docs.Keys)
    ensures AllScored(scores, gains + [TermGains(an, log, docs, t)], docs.Keys)
  {
    forall d | d in docs
      ensures ScoredAt(scores, gains + [TermGains(an, log, docs, t)], d)
    {
      assert d !in Holders(TermsOf(docs), t);
      PlusStep(scores, gains, TermGains(an, log, docs, t), d);
    }
  }

  /** The loop over the query terms. */
  method ScoreTerms(an: Analyzer, log: real -> real, docs: map<DocId, FieldedDocument>, df: map<Term, int>,
                    docCount: int, avgDocLen: map<FieldName, real>, queryTerms: seq<Term>)
    returns (scores: map<DocId, real>)
    requires Exact(an, docs, df, docCount, avgDocLen) && PositiveAboveOne(log)
    ensures AllScored(scores, AllTermGains(an, log, docs, queryTerms), docs.Keys)
  {
    ghost var gains := AllTermGains(an, log, docs, queryTerms);
    scores := map[];
    for i := 0 to |queryTerms|
      invariant AllScored(scores, gains[..i], docs.Keys)
    {
      GainsSoFar(an, log, docs, queryTerms, i);
      scores := ScoreTerm(an, log, docs, df, docCount, avgDocLen, queryTerms[i], scores, gains[..i]);
    }
    assert gains[..|queryTerms|] == gains;
  }

  lemma GainsSoFar(an: Analyzer, log: real -> real, docs: map<DocId, FieldedDocument>, q: seq<Term>, i: nat)
    requires WellFormed(an, docs) && i < |q|
    ensures var gains := AllTermGains(an, log, docs, q);
            gains[..i + 1] == gains[..i] + [TermGains(an, log, docs, q[i])]
  {}

  /** One query term: a term that no document has is skipped. */
  method ScoreTerm(an: Analyzer, log: real -> real, docs: map<DocId, FieldedDocument>, df: map<Term, int>,
                   docCount: int,
                   avgDocLen: map<FieldName, real>, t: Term, before: map<DocId, real>, ghost gains: seq<Gains>)
    returns (scores: map<DocId, real>)
    requires Exact(an, docs, df, docCount, avgDocLen) && PositiveAboveOne(log)
    requires AllScored(before, gains, docs.Keys)
    ensures AllScored(scores, gains + [TermGains(an, log, docs, t)], docs.Keys)
  {
    if t in df {
      ExactDfBounds(df, TermsOf(docs), t);
      var idf := Idf(log, docCount, df[t]);
      forall d | d in docs
        ensures GainAt(docs, avgDocLen, idf, t, TermGains(an, log, docs, t), d)
      {
        TermGainAt(an, log, docs, df, avgDocLen, t, d);
      }
      scores := AddTerm(docs, avgDocLen, idf, t, before, gains, TermGains(an, log, docs, t));
    } else {
      scores := before;
      UnknownTermGainsNothing(an, log, docs, df, t, scores, gains);
    }
  }

  /** The inner loop over the phrases for one document. */
  method AddPhrasesTo(an: Analyzer, docs: map<DocId, FieldedDocument>, phrases: seq<string>, d: DocId,
                      before: map<DocId, real>, ghost gains: seq<Gains>)
    returns (scores: map<DocId, real>)
    requires d in docs && ScoredAt(before, gains, d)
    ensures ScoredAt(scores, gains + AllPhraseGains(an, docs, phrases), d)
    ensures SameElsewhere(before, scores, d)
  {
    scores := before;
    ghost var more := AllPhraseGains(an, docs, phrases);
    assert gains + more[..0] == gains;
    for j := 0 to |phrases|
      invariant ScoredAt(scores, gains + more[..j], d) && SameElsewhere(before, scores, d)
    {
      PlusStep(scores, gains + more[..j], more[j], d);
      assert gains + more[..j + 1] == gains + more[..j] + [more[j]];
      if ContainsPhrase(an, docs[d].card, phrases[j]) {
        scores := Plus(scores, d, PhraseBonus);
      }
    }
    assert more[..|phrases|] == more;
  }

  /** The loop that gives the phrase bonus. */
  method AddPhrases(an: Analyzer, docs: map<DocId, FieldedDocument>, phrases: seq<string>,
                    before: map<DocId, real>, ghost gains: seq<Gains>)
    returns (scores: map<DocId, real>)
    requires AllScored(before, gains, docs.Keys)
    ensures AllScored(scores, gains + AllPhraseGains(an, docs, phrases), docs.Keys)
  {
    scores := before;
    ghost var all := gains + AllPhraseGains(an, docs, phrases);
    var left := docs.Keys;
    while left != {}
      invariant left <= docs.Keys && scores.Keys <= docs.Keys
      invariant ScoredIn(scores, gains, left) && ScoredIn(scores, all, docs.Keys - left)
      decreases |left|
    {
      var d :| d in left;
      ghost var was := scores;
      scores := AddPhrasesTo(an, docs, phrases, d, scores, gains);
      SettleOne(was, scores, d, gains, all, docs.Keys, left);
      left := left - {d};
    }
    assert docs.Keys - left == docs.Keys;
  }

  /** The whole scoring of a query. */
  method ScoreAll(an: Analyzer, log: real -> real, docs: map<DocId, FieldedDocument>, df: map<Term, int>, docCount: int,
                  avgDocLen: map<FieldName, real>, queryTerms: seq<Term>, phrases: seq<string>)
    returns (scores: map<DocId, real>)
    requires Exact(an, docs, df, docCount, avgDocLen) && PositiveAboveOne(log)
    ensures scores == Scores(QueryGains(an, log, docs, queryTerms, phrases), docs.Keys)
  {
    if queryTerms == [] {
      scores := map[];
    } else {
      scores := ScoreTerms(an, log, docs, df, docCount, avgDocLen, queryTerms);
      scores := AddPhrases(an, docs, phrases, scores, AllTermGains(an, log, docs, queryTerms));
      AllScoredIsScores(scores, QueryGains(an, log, docs, queryTerms, phrases), docs.Keys);
    }
  }

  lemma NoDocuments(avgDocLen: map<FieldName, real>)
    requires avgDocLen == map[Name := 0.0, Tags := 0.0, Summary := 0.0, Category := 0.0]
    ensures ExactAverages(map[], avgDocLen)
  {
    forall f: FieldName
      ensures f in avgDocLen && avgDocLen[f] == Average(LengthsOf(map[], f))
    {
      match f case Name => case Tags => case Summary => case Category =>
    }
  }

  class ImprovedKeywordIndex {
    const an: Analyzer
    const log: real -> real
    var docs: map<DocId, FieldedDocument>
    var df: map<Term, int>
    var avgDocLen: map<FieldName, real>
    var docCount: int

    ghost predicate Valid()
      reads this
    {
      Exact(an, docs, df, docCount, avgDocLen)
    }

    constructor (an: Analyzer, log: real -> real)
      ensures Valid() && this.an == an && this.log == log && docs == map[]
    {
      this.an, this.log := an, log;
      docs, df, docCount := map[], map[], 0;
      avgDocLen := map[Name := 0.0, Tags := 0.0, Summary := 0.0, Category := 0.0];
      new;
      NoDocuments(avgDocLen);
    }

    method IndexDocument(id: DocId, name: string, summary: string, category: string, tags: seq<string>)
      requires Valid()
      modifies this
      ensures Valid()
      ensures CardsOf(docs) == CardsOf(old(docs))[id := Card(name, summary, category, tags)]
    {
      var card := Card(name, summary, category, tags);
      docs, df, docCount, avgDocLen := Reindexed(an, docs, df, docCount, id, card);
    }

    method RemoveDocument(id: DocId)
      requires Valid()
      modifies this
      ensures Valid()
      ensures docs == old(docs) - {id}
    {
      docs, df, docCount, avgDocLen := Removed(an, docs, df, docCount, avgDocLen, id);
    }

    /** The best maxResults documents under the naive score, whatever the history of the index. */
    method Search(query: string, maxResults: int) returns (results: seq<Ranked>)
      requires Valid() && PositiveAboveOne(log)
      ensures IsTop(Scores(QueryGains(an, log, docs, an.tokenize(an.lower(query)), Outside(query)), docs.Keys),
                    maxResults, results)
    {
      var scores: map<DocId, real> := map[];
      if docCount > 0 {
        var phrases := ExtractPhrases(query);
        scores := ScoreAll(an, log, docs, df, docCount, avgDocLen, an.tokenize(an.lower(query)), phrases);
      }
      results := Rank(scores, maxResults);
    }

    method Count() returns (n: int)
      requires Valid()
      ensures n == |docs|
    {
      n := docCount;
    }
  }
}
