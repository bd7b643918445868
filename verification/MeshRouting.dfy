/**
 Routing of federated queries by Bloom filters: the tokenizer and `rebuildBloom`
 (internal/mesh/heartbeat.go), `tokenizeQuery` (internal/mesh/federated.go) and `GetRelevantPeers`
 (internal/mesh/peers.go).
 */
module MeshRouting {
  import opened Common
  import opened Bloom

  // ---------------------------------------------------------------------------------------------
  // The mesh tokenizer
  // ---------------------------------------------------------------------------------------------

  predicate IsTokenChar(c: char) {
    'a' <= c <= 'z' || 'A' <= c <= 'Z' || '0' <= c <= '9' || c == '-' || c == '_'
  }

  function LowerChar(c: char): char {
    if 'A' <= c <= 'Z' then 'a' + (c - 'A') else c
  }

  function LowerAscii(s: string): (r: string)
    ensures |r| == |s|
  {
    seq(|s|, i requires 0 <= i < |s| => LowerChar(s[i]))
  }

  /** The length of the longest prefix of token characters. */
  function RunLength(s: string): (n: nat)
    ensures n <= |s|
    ensures forall i :: 0 <= i < n ==> IsTokenChar(s[i])
    ensures n < |s| ==> !IsTokenChar(s[n])
  {
    if s == "" || !IsTokenChar(s[0]) then 0 else 1 + RunLength(s[1..])
  }

  /** The lower-cased maximal runs of token characters that have at least two of them. */
  function Tokens(s: string): seq<string> {
    if s == "" then []
    else
      var n := RunLength(s);
      if n == 0 then Tokens(s[1..])
      else (if n >= 2 then [LowerAscii(s[..n])] else []) + Tokens(s[n..])
  }

  function Flush(run: string): seq<string> {
    if |run| >= 2 then [LowerAscii(run)] else []
  }

  predicate IsRun(s: string) {
    forall i :: 0 <= i < |s| ==> IsTokenChar(s[i])
  }

  lemma RunLengthOf(run: string, rest: string)
    requires IsRun(run) && (rest == "" || !IsTokenChar(rest[0]))
    ensures RunLength(run + rest) == |run|
  {
    var s := run + rest;
    assert forall i :: 0 <= i < |run| ==> s[i] == run[i];
    if rest != "" {
      assert s[|run|] == rest[0];
    }
  }

  /** A run ends at the next separator or at the end of the text. */
  lemma TokensAfterRun(run: string, rest: string)
    requires IsRun(run) && (rest == "" || !IsTokenChar(rest[0]))
    ensures Tokens(run + rest) == Flush(run) + if rest == "" then [] else Tokens(rest[1..])
  {
    SeparatorFirst(rest);
    var s := run + rest;
    if run == "" {
      assert s == rest;
    } else {
      RunLengthOf(run, rest);
      assert s[..|run|] == run;
      assert s[|run|..] == rest;
    }
  }

  lemma SeparatorFirst(rest: string)
    requires rest == "" || !IsTokenChar(rest[0])
    ensures Tokens(rest) == if rest == "" then [] else Tokens(rest[1..])
  {}

  lemma CharStep(run: string, rest: string)
    requires rest != ""
    ensures run + rest == (run + [rest[0]]) + rest[1..]
  {}

  lemma SeparatorStep(found: seq<string>, run: string, rest: string, all: seq<string>)
    requires IsRun(run) && rest != "" && !IsTokenChar(rest[0]) && found + Tokens(run + rest) == all
    ensures (found + Flush(run)) + Tokens("" + rest[1..]) == all
  {
    TokensAfterRun(run, rest);
    assert "" + rest[1..] == rest[1..];
    Regroup(found, Flush(run), Tokens(rest[1..]));
  }

  lemma Regroup<T>(a: seq<T>, b: seq<T>, c: seq<T>)
    ensures a + (b + c) == (a + b) + c
  {}

  /**
   What the tokens of a text are, piece by piece: a run of token characters gives itself in lower case if
   it has at least two, and a separator separates.
   */
  lemma TokensOfRun(run: string)
    requires IsRun(run)
    ensures Tokens(run) == if |run| >= 2 then [LowerAscii(run)] else []
  {
    TokensAfterRun(run, "");
    assert run + "" == run;
  }

  lemma {:induction false} TokensOfPieces(a: string, separator: char, b: string)
    requires !IsTokenChar(separator)
    ensures Tokens(a + [separator] + b) == Tokens(a) + Tokens(b)
    decreases |a|
  {
    var n := RunLength(a);
    if n == |a| {
      RunThenSeparator(a, separator, b);
      TokensOfRun(a);
    } else {
      var run, c, rest := a[..n], a[n], a[n + 1..];
      assert a == run + [c] + rest;
      assert a + [separator] + b == run + [c] + (rest + [separator] + b);
      RunThenSeparator(run, c, rest);
      RunThenSeparator(run, c, rest + [separator] + b);
      TokensOfPieces(rest, separator, b);
      Regroup(Flush(run), Tokens(rest), Tokens(b));
    }
  }

  lemma RunThenSeparator(run: string, separator: char, b: string)
    requires IsRun(run) && !IsTokenChar(separator)
    ensures Tokens(run + [separator] + b) == Flush(run) + Tokens(b)
  {
    var rest := [separator] + b;
    TokensAfterRun(run, rest);
    assert rest[1..] == b && run + rest == run + [separator] + b;
  }

  /** `tokenize`: one pass with a buffer. */
  method Tokenize(text: string) returns (tokens: seq<string>)
    ensures tokens == Tokens(text)
  {
    tokens := [];
    var current := "";
    var rest := text;
    assert current + rest == text;
    while rest != ""
      invariant IsRun(current)
      invariant tokens + Tokens(current + rest) == Tokens(text)
      decreases rest
    {
      if IsTokenChar(rest[0]) {
        CharStep(current, rest);
        current := current + [rest[0]];
      } else {
        SeparatorStep(tokens, current, rest, Tokens(text));
        tokens := tokens + Flush(current);
        current := "";
      }
      rest := rest[1..];
    }
    TokensAfterRun(current, rest);
    tokens := tokens + Flush(current);
  }

  // ---------------------------------------------------------------------------------------------
  // Filling a filter, asking a filter
  // ---------------------------------------------------------------------------------------------

  /** What an agent or a gossip entry contributes. */
  datatype Listing = Listing(name: string, category: string, tags: seq<string>, summary: string)

  function Lowered(ts: seq<string>, lower: string -> string): (r: seq<string>)
    ensures |r| == |ts|
    ensures forall i :: 0 <= i < |ts| ==> r[i] == lower(ts[i])
  {
    seq(|ts|, i requires 0 <= i < |ts| => lower(ts[i]))
  }

  /** Name tokens, category, tags and summary tokens, all in lower case. */
  function ItemsOf(l: Listing, lower: string -> string): seq<string> {
    Lowered(Tokens(l.name), lower) + [lower(l.category)] + Lowered(l.tags, lower) + Lowered(Tokens(l.summary), lower)
  }

  function SetOf(items: seq<string>): (r: set<string>)
    ensures forall x :: x in r <==> x in items
  {
    set x | x in items
  }

  function AllItems(ls: seq<Listing>, lower: string -> string): set<string> {
    if ls == [] then {}
    else AllItems(ls[..|ls| - 1], lower) + SetOf(ItemsOf(ls[|ls| - 1], lower))
  }

  method AddEach(bf: BloomFilter, items: seq<string>, ghost added: set<string>)
    requires bf.Valid() && HoldsExactly(bf.hashes, bf.bits[..], bf.hashNum, added)
    modifies bf.bits
    ensures HoldsExactly(bf.hashes, bf.bits[..], bf.hashNum, added + SetOf(items))
  {
    assert added + SetOf(items[..0]) == added;
    for i := 0 to |items|
      invariant HoldsExactly(bf.hashes, bf.bits[..], bf.hashNum, added + SetOf(items[..i]))
    {
      ghost var before := bf.bits[..];
      bf.Add(items[i]);
      AddKeepsExact(bf.hashes, before, bf.hashNum, items[i], bf.bits[..], added + SetOf(items[..i]));
      assert items[..i + 1] == items[..i] + [items[i]];
      assert added + SetOf(items[..i + 1]) == (added + SetOf(items[..i])) + {items[i]};
    }
    assert items[..|items|] == items;
  }

  method ListItems(l: Listing, lower: string -> string) returns (items: seq<string>)
    ensures items == ItemsOf(l, lower)
  {
    var nameTokens := Tokenize(l.name);
    var summaryTokens := Tokenize(l.summary);
    items := Lowered(nameTokens, lower) + [lower(l.category)] + Lowered(l.tags, lower) + Lowered(summaryTokens, lower);
  }

  lemma AllItemsStep(ls: seq<Listing>, i: nat, lower: string -> string)
    requires i < |ls|
    ensures AllItems(ls[..i + 1], lower) == AllItems(ls[..i], lower) + SetOf(ItemsOf(ls[i], lower))
  {
    assert ls[..i + 1][..i] == ls[..i];
  }

  /**
   `rebuildBloom`: a new filter into which everything that the local agents and the gossip entries
   list is added, and nothing else; so nothing that was added is missing.
   */
  method RebuildBloom(hashes: Hashes, size: nat, hashNum: nat, agents: seq<Listing>, entries: seq<Listing>,
                      lower: string -> string)
    returns (bf: BloomFilter)
    requires size > 0
    ensures bf.Valid() && fresh(bf) && bf.hashes == hashes && bf.size == size && bf.hashNum == hashNum
    ensures HoldsExactly(hashes, bf.bits[..], hashNum, AllItems(agents + entries, lower))
    ensures NoFalseNegatives(hashes, bf.bits[..], hashNum, AllItems(agents + entries, lower))
  {
    bf := new BloomFilter(hashes, size, hashNum);
    var all := agents + entries;
    for i := 0 to |all|
      invariant fresh(bf.bits)
      invariant HoldsExactly(hashes, bf.bits[..], hashNum, AllItems(all[..i], lower))
    {
      var items := ListItems(all[i], lower);
      AddEach(bf, items, AllItems(all[..i], lower));
      AllItemsStep(all, i, lower);
    }
    assert all[..|all|] == all;
    ReportedIff(hashes, bf.bits[..], hashNum, AllItems(all, lower), "");
  }

  function QueryTokens(query: string, category: string, tags: seq<string>, lower: string -> string): seq<string> {
    Lowered(Tokens(query), lower) + (if category != "" then [lower(category)] else []) + Lowered(tags, lower)
  }

  ghost predicate AnyLowered(x: string, ts: seq<string>, lower: string -> string) {
    exists t :: t in ts && x == lower(t)
  }

  lemma InLowered(x: string, ts: seq<string>, lower: string -> string)
    ensures x in Lowered(ts, lower) <==> AnyLowered(x, ts, lower)
  {
    if x in Lowered(ts, lower) {
      var i :| 0 <= i < |ts| && Lowered(ts, lower)[i] == x;
      assert ts[i] in ts;
    }
    if t :| t in ts && x == lower(t) {
      var i :| 0 <= i < |ts| && ts[i] == t;
      assert Lowered(ts, lower)[i] == x;
    }
  }

  /** Listed are the tokens of name and summary, the category and the tags, and nothing else. */
  lemma ItemsAre(l: Listing, lower: string -> string, x: string)
    ensures x in ItemsOf(l, lower)
            <==> || AnyLowered(x, Tokens(l.name), lower) || AnyLowered(x, Tokens(l.summary), lower)
                 || x == lower(l.category) || AnyLowered(x, l.tags, lower)
  {
    InLowered(x, Tokens(l.name), lower);
    InLowered(x, Tokens(l.summary), lower);
    InLowered(x, l.tags, lower);
  }

  /** Asked for are the tokens of the query text, the category if there is one, and the tags, all of them. */
  lemma QueryTokensAre(query: string, category: string, tags: seq<string>, lower: string -> string, x: string)
    ensures x in QueryTokens(query, category, tags, lower)
            <==> || AnyLowered(x, Tokens(query), lower) || (category != "" && x == lower(category))
                 || AnyLowered(x, tags, lower)
    ensures |QueryTokens(query, category, tags, lower)| == |Tokens(query)| + (if category != "" then 1 else 0) + |tags|
  {
    InLowered(x, Tokens(query), lower);
    InLowered(x, tags, lower);
  }

  /** The query asks for nothing but words of the listing's name and summary, its category and its tags. */
  ghost predicate AsksFor(l: Listing, query: string, category: string, tags: seq<string>) {
    && (forall t :: t in Tokens(query) ==> t in Tokens(l.name) || t in Tokens(l.summary))
    && (category == "" || category == l.category)
    && forall t :: t in tags ==> t in l.tags
  }

  /** A query for words of a listed agent's name and summary, its category and its tags counts in full. */
  lemma QueryForListedCounts(ls: seq<Listing>, l: Listing, query: string, category: string, tags: seq<string>,
                             lower: string -> string)
    requires l in ls && AsksFor(l, query, category, tags)
    ensures var q := QueryTokens(query, category, tags, lower);
            CountIn(q, AllItems(ls, lower)) == |q| == |Tokens(query)| + (if category != "" then 1 else 0) + |tags|
  {
    var q := QueryTokens(query, category, tags, lower);
    forall i | 0 <= i < |q|
      ensures q[i] in ItemsOf(l, lower)
    {
      assert q[i] in q;
      QueryTokensAre(query, category, tags, lower, q[i]);
      ItemsAre(l, lower, q[i]);
    }
    ListedTokensCount(q, ls, l, lower);
  }

  lemma {:induction false} ListedTokensCount(items: seq<string>, ls: seq<Listing>, l: Listing, lower: string -> string)
    requires l in ls && forall i :: 0 <= i < |items| ==> items[i] in ItemsOf(l, lower)
    ensures CountIn(items, AllItems(ls, lower)) == |items|
  {
    if items != [] {
      ListedTokensCount(items[..|items| - 1], ls, l, lower);
      ListedIsAdded(ls, l, lower, items[|items| - 1]);
    }
  }

  lemma {:induction false} ListedIsAdded(ls: seq<Listing>, l: Listing, lower: string -> string, item: string)
    requires l in ls && item in ItemsOf(l, lower)
    ensures item in AllItems(ls, lower)
  {
    if ls[|ls| - 1] != l {
      assert ls == ls[..|ls| - 1] + [ls[|ls| - 1]];
      ListedIsAdded(ls[..|ls| - 1], l, lower, item);
    }
  }

  // ---------------------------------------------------------------------------------------------
  // Choosing peers
  // ---------------------------------------------------------------------------------------------

  datatype PeerScore = PeerScore(peer: string, score: int)

  ghost predicate Descending(s: seq<PeerScore>) {
    forall i, j :: 0 <= i < j < |s| ==> s[i].score >= s[j].score
  }

  ghost predicate Settled(s: seq<PeerScore>, i: nat) {
    forall p, q :: 0 <= p < i && p < q < |s| ==> s[p].score >= s[q].score
  }

  /** The inner loop: exchanges bring the highest remaining score to position i. */
  method SettleNext(a: array<PeerScore>, i: nat)
    requires i < a.Length && Settled(a[..], i)
    modifies a
    ensures Settled(a[..], i + 1)
    ensures multiset(a[..]) == multiset(old(a[..]))
  {
    for j := i + 1 to a.Length
      invariant Settled(a[..], i)
      invariant forall q :: i < q < j ==> a[i].score >= a[q].score
      invariant multiset(a[..]) == multiset(old(a[..]))
    {
      if a[j].score > a[i].score {
        Exchange(a, i, j);
      }
    }
  }

  method Exchange(a: array<PeerScore>, i: nat, j: nat)
    requires i < j < a.Length && Settled(a[..], i)
    modifies a
    ensures a[i] == old(a[j]) && a[j] == old(a[i])
    ensures forall q :: 0 <= q < a.Length && q != i && q != j ==> a[q] == old(a[q])
    ensures Settled(a[..], i)
    ensures multiset(a[..]) == multiset(old(a[..]))
  {
    a[i], a[j] := a[j], a[i];
    assert a[..] == old(a[..])[i := old(a[j])][j := old(a[i])];
  }

  /** The exchange sort of `GetRelevantPeers`, in place. */
  method SortDescending(a: array<PeerScore>)
    modifies a
    ensures Descending(a[..])
    ensures multiset(a[..]) == multiset(old(a[..]))
  {
    for i := 0 to a.Length
      invariant Settled(a[..], i)
      invariant multiset(a[..]) == multiset(old(a[..]))
    {
      SettleNext(a, i);
    }
  }

  /** A peer is left out only if it scores less than 1 or maxPeers peers scoring as high were chosen. */
  ghost predicate WellChosen(scored: seq<PeerScore>, maxPeers: int, chosen: seq<PeerScore>) {
    && (forall i :: 0 <= i < |chosen| ==> chosen[i] in scored && chosen[i].score >= 1)
    && (maxPeers < 0 ==> chosen == []) && (maxPeers >= 0 ==> |chosen| <= maxPeers)
    && Descending(chosen)
    && forall s :: s in scored && s.score >= 1 && s !in chosen ==>
         maxPeers <= |chosen| && forall i :: 0 <= i < |chosen| ==> chosen[i].score >= s.score
  }

  method Choose(scored: array<PeerScore>, maxPeers: int) returns (chosen: seq<PeerScore>)
    modifies scored
    ensures WellChosen(old(scored[..]), maxPeers, chosen)
    ensures multiset(chosen) <= multiset(old(scored[..]))
  {
    SortDescending(scored);
    ghost var sorted := scored[..];
    chosen := [];
    var i := 0;
    while i < scored.Length && |chosen| < maxPeers
      invariant 0 <= i <= scored.Length && scored[..] == sorted
      invariant |chosen| <= i && chosen == sorted[..|chosen|] && (maxPeers >= 0 ==> |chosen| <= maxPeers)
      invariant maxPeers < 0 ==> chosen == []
      invariant forall j :: 0 <= j < |chosen| ==> sorted[j].score >= 1
      invariant forall j :: |chosen| <= j < i ==> sorted[j].score < 1
    {
      assert |chosen| < i ==> sorted[|chosen|].score >= sorted[i].score;
      if scored[i].score >= 1 {
        chosen := chosen + [scored[i]];
      }
      i := i + 1;
    }
    PrefixIsWellChosen(old(scored[..]), sorted, maxPeers, |chosen|, i);
  }

  lemma PrefixIsWellChosen(scored: seq<PeerScore>, sorted: seq<PeerScore>, maxPeers: int, n: nat, i: nat)
    requires multiset(scored) == multiset(sorted) && Descending(sorted) && n <= i <= |sorted|
    requires forall j :: 0 <= j < n ==> sorted[j].score >= 1
    requires forall j :: n <= j < i ==> sorted[j].score < 1
    requires (maxPeers < 0 ==> n == 0) && (maxPeers >= 0 ==> n <= maxPeers)
    requires i < |sorted| ==> n >= maxPeers
    ensures WellChosen(scored, maxPeers, sorted[..n])
    ensures multiset(sorted[..n]) <= multiset(scored)
  {
    PrefixOfPermutation(scored, sorted, n);
    forall s | s in scored && s.score >= 1 && s !in sorted[..n]
      ensures maxPeers <= n && forall j :: 0 <= j < n ==> sorted[j].score >= s.score
    {
      var j := PlaceOf(scored, sorted, s, n);
    }
  }

  lemma PrefixOfPermutation(scored: seq<PeerScore>, sorted: seq<PeerScore>, n: nat)
    requires multiset(scored) == multiset(sorted) && n <= |sorted|
    ensures multiset(sorted[..n]) <= multiset(scored)
    ensures forall i :: 0 <= i < n ==> sorted[..n][i] in scored
  {
    assert sorted == sorted[..n] + sorted[n..];
    assert multiset(sorted) == multiset(sorted[..n]) + multiset(sorted[n..]);
    forall i | 0 <= i < n
      ensures sorted[..n][i] in scored
    {
      assert sorted[i] in multiset(sorted);
    }
  }

  lemma PlaceOf(scored: seq<PeerScore>, sorted: seq<PeerScore>, s: PeerScore, n: nat) returns (j: nat)
    requires multiset(scored) == multiset(sorted) && s in scored && n <= |sorted| && s !in sorted[..n]
    ensures n <= j < |sorted| && sorted[j] == s
  {
    assert s in multiset(sorted);
    assert sorted == sorted[..n] + sorted[n..];
    j :| n <= j < |sorted| && sorted[j] == s;
  }

  /** A peer with a filter scores its matches; a peer without one scores a neutral 1. */
  ghost function ScoreOf(blooms: map<string, BloomFilter>, peer: string, query: seq<string>): nat
    requires peer in blooms ==> blooms[peer].Valid()
    reads if peer in blooms then {blooms[peer].bits} else {}
  {
    if peer in blooms then MatchCountOf(blooms[peer].hashes, blooms[peer].bits[..], blooms[peer].hashNum, query) else 1
  }

  /** Peers in descending order of their scores, which are at least 1; none left out without need. */
  ghost predicate BestPeers(peers: seq<string>, score: map<string, int>, maxPeers: int, result: seq<string>)
    requires forall p :: p in peers ==> p in score
  {
    && multiset(result) <= multiset(peers)
    && (maxPeers < 0 ==> result == []) && (maxPeers >= 0 ==> |result| <= maxPeers)
    && (forall i :: 0 <= i < |result| ==> result[i] in score && score[result[i]] >= 1)
    && (forall i, j :: 0 <= i < j < |result| ==> score[result[i]] >= score[result[j]])
    && (forall p, i :: p in peers && p !in result && score[p] >= 1 && 0 <= i < |result| ==>
          score[result[i]] >= score[p])
    && (forall p :: p in peers && p !in result && score[p] >= 1 ==> maxPeers <= |result|)
  }

  ghost predicate ScoredBy(peers: seq<string>, score: map<string, int>, scored: seq<PeerScore>) {
    && |scored| == |peers|
    && forall i :: 0 <= i < |peers| ==> peers[i] in score && scored[i] == PeerScore(peers[i], score[peers[i]])
  }

  function PeersOf(chosen: seq<PeerScore>): (r: seq<string>)
    ensures |r| == |chosen| && forall i :: 0 <= i < |r| ==> r[i] == chosen[i].peer
  {
    seq(|chosen|, i requires 0 <= i < |chosen| => chosen[i].peer)
  }

  lemma TakeOut(s: seq<PeerScore>, x: PeerScore) returns (rest: seq<PeerScore>)
    requires x in s
    ensures |rest| == |s| - 1
    ensures multiset(s) == multiset(rest) + multiset{x}
    ensures multiset(PeersOf(s)) == multiset(PeersOf(rest)) + multiset{x.peer}
  {
    var i :| 0 <= i < |s| && s[i] == x;
    rest := s[..i] + s[i + 1..];
    TakeAt(s, i);
    TakeAt(PeersOf(s), i);
    assert PeersOf(rest) == PeersOf(s)[..i] + PeersOf(s)[i + 1..];
  }

  lemma FewerOfMore<T>(a: multiset<T>, b: multiset<T>, a': multiset<T>, b': multiset<T>, x: T)
    requires a == a' + multiset{x} && b == b' + multiset{x}
    ensures a <= b <==> a' <= b'
  {
    assert forall y :: a[y] == a'[y] + multiset{x}[y] && b[y] == b'[y] + multiset{x}[y];
  }

  /** A part of a list of scored peers names a part of the peers. */
  lemma {:induction false} PeersOfPart(chosen: seq<PeerScore>, scored: seq<PeerScore>)
    requires multiset(chosen) <= multiset(scored)
    ensures multiset(PeersOf(chosen)) <= multiset(PeersOf(scored))
    decreases |chosen|
  {
    if chosen != [] {
      var x := chosen[0];
      assert multiset(scored)[x] >= multiset(chosen)[x] > 0;
      var fewer := TakeOut(chosen, x);
      var rest := TakeOut(scored, x);
      FewerOfMore(multiset(chosen), multiset(scored), multiset(fewer), multiset(rest), x);
      PeersOfPart(fewer, rest);
    }
  }

  lemma ChosenAreBest(peers: seq<string>, score: map<string, int>, scored: seq<PeerScore>, maxPeers: int,
                      chosen: seq<PeerScore>)
    requires ScoredBy(peers, score, scored)
    requires WellChosen(scored, maxPeers, chosen) && multiset(chosen) <= multiset(scored)
    ensures forall p :: p in peers ==> p in score
    ensures BestPeers(peers, score, maxPeers, PeersOf(chosen))
  {
    var result := PeersOf(chosen);
    PeersOfPart(chosen, scored);
    assert PeersOf(scored) == peers;
    forall i | 0 <= i < |chosen|
      ensures chosen[i].peer in score && chosen[i].score == score[chosen[i].peer]
    {
      assert chosen[i] in scored;
    }
    forall p | p in peers && p !in result && score[p] >= 1
      ensures maxPeers <= |result|
      ensures forall i :: 0 <= i < |result| ==> score[result[i]] >= score[p]
    {
      var j :| 0 <= j < |peers| && peers[j] == p;
      assert scored[j] in scored && scored[j] !in chosen;
    }
  }

  method ChooseFrom(scored: seq<PeerScore>, maxPeers: int) returns (chosen: seq<PeerScore>)
    ensures WellChosen(scored, maxPeers, chosen) && multiset(chosen) <= multiset(scored)
  {
    var a := new PeerScore[|scored|](i requires 0 <= i < |scored| => scored[i]);
    assert a[..] == scored;
    chosen := Choose(a, maxPeers);
  }

  /** `GetRelevantPeers`, over the peers in whatever order the map yields them. */
  method GetRelevantPeers(peers: seq<string>, blooms: map<string, BloomFilter>, query: seq<string>, maxPeers: int)
    returns (result: seq<string>)
    requires forall p :: p in blooms ==> blooms[p].Valid()
    ensures BestPeers(peers, AllScores(peers, blooms, query), maxPeers, result)
  {
    var scored := ScorePeers(peers, blooms, query);
    result := BestOf(peers, AllScores(peers, blooms, query), scored, maxPeers);
  }

  method BestOf(ghost peers: seq<string>, ghost score: map<string, int>, scored: seq<PeerScore>, maxPeers: int)
    returns (result: seq<string>)
    requires ScoredBy(peers, score, scored)
    ensures forall p :: p in peers ==> p in score
    ensures BestPeers(peers, score, maxPeers, result)
  {
    var chosen := ChooseFrom(scored, maxPeers);
    ChosenAreBest(peers, score, scored, maxPeers, chosen);
    result := PeersOf(chosen);
  }

  ghost function AllScores(peers: seq<string>, blooms: map<string, BloomFilter>,
                           query: seq<string>): (m: map<string, int>)
    requires forall p :: p in blooms ==> blooms[p].Valid()
    reads set p | p in blooms :: blooms[p].bits
    ensures forall p :: p in peers <==> p in m
  {
    map p | p in peers :: ScoreOf(blooms, p, query)
  }

  method ScorePeers(peers: seq<string>, blooms: map<string, BloomFilter>, query: seq<string>)
    returns (scored: seq<PeerScore>)
    requires forall p :: p in blooms ==> blooms[p].Valid()
    ensures ScoredBy(peers, AllScores(peers, blooms, query), scored)
  {
    scored := [];
    for i := 0 to |peers|
      invariant |scored| == i
      invariant forall j :: 0 <= j < i ==> scored[j] == PeerScore(peers[j], ScoreOf(blooms, peers[j], query))
    {
      var score := 1;
      if peers[i] in blooms {
        score := blooms[peers[i]].MatchCount(query);
      }
      scored := scored + [PeerScore(peers[i], score)];
    }
  }

  // ---------------------------------------------------------------------------------------------
  // End to end
  // ---------------------------------------------------------------------------------------------

  /** A registry rebuilds its filter, announces it in a heartbeat, and the receiver builds it again. */
  method AnnounceFilter(hashes: Hashes, size: nat, hashNum: nat, agents: seq<Listing>, entries: seq<Listing>,
                        lower: string -> string)
    returns (received: BloomFilter)
    requires size > 0
    ensures received.Valid() && fresh(received) && received.hashes == hashes && received.hashNum == hashNum
    ensures HoldsExactly(hashes, received.bits[..], hashNum, AllItems(agents + entries, lower))
    ensures NoFalseNegatives(hashes, received.bits[..], hashNum, AllItems(agents + entries, lower))
  {
    var bf := RebuildBloom(hashes, size, hashNum, agents, entries, lower);
    var hb := SendHeartbeat(bf);
    var rebuilt := ReceiveHeartbeat(hashes, hb);
    received := rebuilt;
    assert received.bits[..] == bf.bits[..];
  }

  /** The registry was chosen, or it lost its place to maxPeers others that score at least as high. */
  ghost predicate ChosenOrOutscored(registry: string, score: map<string, int>, maxPeers: int, result: seq<string>) {
    || registry in result
    || (registry in score && maxPeers <= |result|
        && forall i :: 0 <= i < |result| ==> result[i] in score && score[result[i]] >= score[registry])
  }

  /**
   No false negatives end to end: a registry that lists an agent, announces its filter and is asked
   about through a query for that agent scores every token of the query, and is left out of the answer
   only if maxPeers peers scoring at least as high were chosen.
   */
  method RouteQueryForListed(hashes: Hashes, size: nat, hashNum: nat, agents: seq<Listing>, entries: seq<Listing>,
                             l: Listing, query: string, category: string, tags: seq<string>,
                             lower: string -> string, registry: string, peers: seq<string>,
                             blooms: map<string, BloomFilter>, maxPeers: int)
    returns (result: seq<string>, known: map<string, BloomFilter>)
    requires size > 0 && l in agents + entries && AsksFor(l, query, category, tags) && registry in peers
    requires forall p :: p in blooms ==> blooms[p].Valid()
    ensures known.Keys == blooms.Keys + {registry} && forall p :: p in known ==> known[p].Valid()
    ensures forall p :: p in blooms && p != registry ==> known[p] == blooms[p]
    ensures var q := QueryTokens(query, category, tags, lower);
            var score := AllScores(peers, known, q);
            && BestPeers(peers, score, maxPeers, result)
            && score[registry] >= |q|
            && (q != [] ==> ChosenOrOutscored(registry, score, maxPeers, result))
  {
    var received := AnnounceFilter(hashes, size, hashNum, agents, entries, lower);
    known := blooms[registry := received];
    var q := QueryTokens(query, category, tags, lower);
    result := GetRelevantPeers(peers, known, q, maxPeers);
    QueryForListedCounts(agents + entries, l, query, category, tags, lower);
    MatchesAtLeastAdded(hashes, received.bits[..], hashNum, AllItems(agents + entries, lower), q);
  }
}
