/**
 Fully qualified agent names (internal/zns/validate.go): validation, printing and parsing.
 */
module Fqan {
  import opened Common

  datatype Error =
    | HandleRequired | HandleReserved | HandleMalformed | HandleEndsWithHyphen | HandleDoubleHyphen
    | EmptyFqan | EmptyCapability | EmptyVersion | EmptyBase | NotThreeParts | EmptyHost
    | BadHandle(cause: Error) | BadAgentName(cause: Error)

  datatype Result<T> = Ok(value: T) | Err(error: Error)

  datatype Qualified = Qualified(base: string, version: string, capability: string)

  datatype Parts = Parts(host: string, handle: string, agent: string)

  // ---------------------------------------------------------------------------------------------
  // Validation
  // ---------------------------------------------------------------------------------------------

  predicate IsLower(c: char) {
    'a' <= c <= 'z'
  }

  predicate IsNameChar(c: char) {
    IsLower(c) || '0' <= c <= '9' || c == '-'
  }

  /** ^[a-z][a-z0-9-]{2,39}$ */
  predicate MatchesHandleRegex(s: string) {
    && 3 <= |s| <= 40
    && IsLower(s[0])
    && forall i :: 0 <= i < |s| ==> IsNameChar(s[i])
  }

  const RESERVED: set<string> := {"zynd", "system", "admin", "test", "root", "registry", "anonymous", "unknown"}

  predicate HasDoubleHyphen(s: string) {
    exists i :: 0 <= i < |s| - 1 && s[i] == '-' && s[i + 1] == '-'
  }

  function ValidateName(s: string): Option<Error> {
    if s == "" then Some(HandleRequired)
    else if !MatchesHandleRegex(s) then Some(HandleMalformed)
    else if s[|s| - 1] == '-' then Some(HandleEndsWithHyphen)
    else if HasDoubleHyphen(s) then Some(HandleDoubleHyphen)
    else None
  }

  function ValidateHandle(s: string): Option<Error> {
    if s in RESERVED then Some(HandleReserved) else ValidateName(s)
  }

  function ValidateAgentName(s: string): Option<Error> {
    ValidateName(s)
  }

  predicate ValidHandle(s: string) {
    ValidateHandle(s).None?
  }

  predicate ValidAgentName(s: string) {
    ValidateAgentName(s).None?
  }

  /** A lower-case letter, a digit, or a hyphen between two of them. */
  ghost predicate GoodCharAt(s: string, i: int)
    requires 0 <= i < |s|
  {
    || 'a' <= s[i] <= 'z' || '0' <= s[i] <= '9'
    || (s[i] == '-' && 0 < i < |s| - 1 && s[i - 1] != '-' && s[i + 1] != '-')
  }

  /** Over the characters: 3 to 40 of them, every one good and the first a letter. */
  lemma ValidNameIff(s: string)
    ensures ValidAgentName(s)
            <==> 3 <= |s| <= 40 && 'a' <= s[0] <= 'z' && forall i :: 0 <= i < |s| ==> GoodCharAt(s, i)
  {
    if ValidAgentName(s) {
      forall i | 0 <= i < |s|
        ensures GoodCharAt(s, i)
      {
        assert IsNameChar(s[i]);
        assert i > 0 ==> !(s[i - 1] == '-' && s[i - 1 + 1] == '-');
      }
    }
    if 3 <= |s| <= 40 && 'a' <= s[0] <= 'z' && forall i :: 0 <= i < |s| ==> GoodCharAt(s, i) {
      GoodCharsAreValid(s);
    }
  }

  lemma GoodCharsAreValid(s: string)
    requires 3 <= |s| <= 40 && 'a' <= s[0] <= 'z' && forall i :: 0 <= i < |s| ==> GoodCharAt(s, i)
    ensures ValidAgentName(s)
  {
    forall i | 0 <= i < |s|
      ensures IsNameChar(s[i])
    {
      assert GoodCharAt(s, i);
    }
    assert GoodCharAt(s, |s| - 1);
    forall i | 0 <= i < |s| - 1
      ensures !(s[i] == '-' && s[i + 1] == '-')
    {
      assert GoodCharAt(s, i);
    }
  }

  /** A handle is a name that is none of eight words. */
  lemma ValidHandleIff(s: string)
    ensures ValidHandle(s)
            <==> && ValidAgentName(s)
                 && s !in ["zynd", "system", "admin", "test", "root", "registry", "anonymous", "unknown"]
  {}

  lemma ValidNameChars(s: string)
    requires ValidHandle(s) || ValidAgentName(s)
    ensures s != "" && Free(s, '/') && Free(s, '@') && Free(s, '#')
  {}

  // ---------------------------------------------------------------------------------------------
  // String operations of the standard library
  // ---------------------------------------------------------------------------------------------

  /** The character does not occur. */
  predicate Free(s: string, c: char) {
    forall i :: 0 <= i < |s| ==> s[i] != c
  }

  /** strings.LastIndex for one character: -1 if it does not occur. */
  function LastIndex(s: string, c: char): (i: int)
    ensures -1 <= i < |s|
    ensures i >= 0 ==> s[i] == c
    ensures forall j :: i < j < |s| ==> s[j] != c
  {
    if s == "" then -1 else if s[|s| - 1] == c then |s| - 1 else LastIndex(s[..|s| - 1], c)
  }

  /** The position of the first slash, or the length. */
  function FirstSlash(s: string): (i: nat)
    ensures i <= |s|
    ensures i < |s| ==> s[i] == '/'
    ensures forall j :: 0 <= j < i ==> s[j] != '/'
  {
    if s == "" || s[0] == '/' then 0 else 1 + FirstSlash(s[1..])
  }

  function TrimPrefix(s: string, p: string): string {
    if p <= s then s[|p|..] else s
  }

  lemma LastIndexUnique(s: string, c: char, i: int)
    requires -1 <= i < |s| && (i >= 0 ==> s[i] == c)
    requires forall j :: i < j < |s| ==> s[j] != c
    ensures LastIndex(s, c) == i
  {}

  // ---------------------------------------------------------------------------------------------
  // Printing and parsing
  // ---------------------------------------------------------------------------------------------

  function BuildFqan(host: string, handle: string, agent: string): string {
    host + "/" + handle + "/" + agent
  }

  function BuildZnsUri(fqan: string): string {
    "zns://" + fqan
  }

  function StripScheme(s: string): string {
    TrimPrefix(TrimPrefix(s, "zns://"), "agdns://")
  }

  /** The text before the last separator and the qualifier after it; without separator, no qualifier. */
  function SplitQualifier(s: string, c: char): (string, Option<string>) {
    var i := LastIndex(s, c);
    if i >= 0 then (s[..i], Some(s[i + 1..])) else (s, None)
  }

  function OrEmpty(o: Option<string>): string {
    if o.Some? then o.value else ""
  }

  function ParseQualified(fqan: string): Result<Qualified> {
    if fqan == "" then Err(EmptyFqan) else ParseStripped(StripScheme(fqan))
  }

  function ParseStripped(stripped: string): Result<Qualified> {
    var (s, capability) := SplitQualifier(stripped, '#');
    if capability == Some("") then Err(EmptyCapability)
    else
      var (base, version) := SplitQualifier(s, '@');
      if version == Some("") then Err(EmptyVersion)
      else if base == "" then Err(EmptyBase)
      else Ok(Qualified(base, OrEmpty(version), OrEmpty(capability)))
  }

  /** strings.SplitN(base, "/", 3), when it gives three parts. */
  function SplitThree(s: string): Option<Parts> {
    var i := FirstSlash(s);
    if i == |s| then None
    else
      var rest := s[i + 1..];
      var j := FirstSlash(rest);
      if j == |rest| then None else Some(Parts(s[..i], rest[..j], rest[j + 1..]))
  }

  function Parse(fqan: string): Result<Parts> {
    match ParseQualified(fqan)
    case Err(e) => Err(e)
    case Ok(q) => ParseBase(q.base)
  }

  function ParseBase(base: string): Result<Parts> {
    match SplitThree(base)
    case None => Err(NotThreeParts)
    case Some(p) =>
      if p.host == "" then Err(EmptyHost)
      else if ValidateHandle(p.handle).Some? then Err(BadHandle(ValidateHandle(p.handle).value))
      else if ValidateAgentName(p.agent).Some? then Err(BadAgentName(ValidateAgentName(p.agent).value))
      else Ok(p)
  }

  // ---------------------------------------------------------------------------------------------
  // Parsing undoes printing
  // ---------------------------------------------------------------------------------------------

  predicate PlainHost(s: string) {
    s != "" && Free(s, '/') && Free(s, '@') && Free(s, '#')
  }

  predicate GoodParts(p: Parts) {
    PlainHost(p.host) && ValidHandle(p.handle) && ValidAgentName(p.agent)
  }

  function Print(p: Parts): string {
    BuildFqan(p.host, p.handle, p.agent)
  }

  function Tagged(c: char, q: string): string {
    if q == "" then "" else [c] + q
  }

  /** "@version" and "#capability", each left out when empty. */
  function Qualifiers(version: string, capability: string): string {
    Tagged('@', version) + Tagged('#', capability)
  }

  lemma CutAfter(a: string, b: string)
    requires Free(a, '/')
    ensures var s := a + "/" + b; FirstSlash(s) == |a| < |s| && s[..|a|] == a && s[|a| + 1..] == b
  {
    var s := a + "/" + b;
    assert s[|a|] == '/';
    assert forall j :: 0 <= j < |a| ==> s[j] == a[j];
  }

  lemma CutHere(s: string)
    requires FirstSlash(s) < |s|
    ensures var i := FirstSlash(s); s == s[..i] + "/" + s[i + 1..] && Free(s[..i], '/')
  {
    CutAround(s, FirstSlash(s));
  }

  lemma CutAround(s: string, i: nat)
    requires i < |s| && s[i] == '/'
    ensures s == s[..i] + "/" + s[i + 1..]
  {}

  lemma PrintNested(p: Parts)
    ensures Print(p) == p.host + "/" + (p.handle + "/" + p.agent)
  {}

  lemma SplitThreeUndoesBuild(p: Parts)
    requires Free(p.host, '/') && Free(p.handle, '/')
    ensures SplitThree(Print(p)) == Some(p)
  {
    PrintNested(p);
    CutAfter(p.host, p.handle + "/" + p.agent);
    CutAfter(p.handle, p.agent);
  }

  lemma BuildUndoesSplitThree(s: string)
    requires SplitThree(s).Some?
    ensures Print(SplitThree(s).value) == s
    ensures Free(SplitThree(s).value.host, '/')
    ensures Free(SplitThree(s).value.handle, '/')
  {
    CutHere(s);
    CutHere(s[FirstSlash(s) + 1..]);
    PrintNested(SplitThree(s).value);
  }

  lemma {:induction false} LastIndexAt(s: string, c: char, q: string)
    requires Free(q, c)
    ensures LastIndex(s + [c] + q, c) == |s|
  {
    var t := s + [c] + q;
    if q == "" {
      assert t[|t| - 1] == c;
    } else {
      assert t[|t| - 1] == q[|q| - 1];
      assert t[..|t| - 1] == s + [c] + q[..|q| - 1];
      LastIndexAt(s, c, q[..|q| - 1]);
    }
  }

  lemma SplitQualifierAt(s: string, c: char, q: string)
    requires Free(s, c) && Free(q, c)
    ensures SplitQualifier(s + Tagged(c, q), c) == (s, if q == "" then None else Some(q))
  {
    if q == "" {
      assert s + Tagged(c, q) == s;
      LastIndexUnique(s, c, -1);
    } else {
      var t := s + [c] + q;
      assert s + Tagged(c, q) == t;
      LastIndexAt(s, c, q);
      assert t[..|s|] == s;
      assert t[|s| + 1..] == q;
    }
  }

  /** Qualifiers appended to a text without '@' and '#' are recovered exactly. */
  lemma ParseUndoesQualifiers(base: string, version: string, capability: string)
    requires base != "" && Free(base, '@') && Free(base, '#')
    requires Free(version, '@') && Free(version, '#') && Free(capability, '#')
    ensures ParseStripped(base + Qualifiers(version, capability)) == Ok(Qualified(base, version, capability))
  {
    var s := base + Tagged('@', version);
    QualifiersNested(base, version, capability);
    NoHashBefore(base, version);
    SplitQualifierAt(s, '#', capability);
    SplitQualifierAt(base, '@', version);
    ParseOfSplits(s + Tagged('#', capability), s, base, version, capability);
  }

  lemma ParseOfSplits(text: string, s: string, base: string, version: string, capability: string)
    requires SplitQualifier(text, '#') == (s, if capability == "" then None else Some(capability))
    requires SplitQualifier(s, '@') == (base, if version == "" then None else Some(version))
    requires base != ""
    ensures ParseStripped(text) == Ok(Qualified(base, version, capability))
  {}

  lemma QualifiersNested(base: string, version: string, capability: string)
    ensures base + Qualifiers(version, capability) == base + Tagged('@', version) + Tagged('#', capability)
  {}

  lemma NoHashBefore(base: string, version: string)
    requires Free(base, '#') && Free(version, '#')
    ensures Free(base + Tagged('@', version), '#')
  {}

  /** A printed name starts with no scheme: the second slash of a scheme would be in the handle. */
  lemma NoSchemeInPrinted(p: Parts, tail: string)
    requires GoodParts(p)
    ensures StripScheme(Print(p) + tail) == Print(p) + tail
    ensures StripScheme(BuildZnsUri(Print(p) + tail)) == Print(p) + tail
  {
    ValidNameChars(p.handle);
    var s := Print(p) + tail;
    NotAPrefix(p, tail, "zns://", 4);
    NotAPrefix(p, tail, "agdns://", 6);
    assert TrimPrefix(BuildZnsUri(s), "zns://") == s;
  }

  lemma NotAPrefix(p: Parts, tail: string, scheme: string, slash: nat)
    requires Free(p.host, '/') && p.handle != "" && Free(p.handle, '/')
    requires slash + 2 == |scheme| && scheme[slash] == '/' && scheme[slash + 1] == '/'
    requires forall i :: 0 <= i < slash ==> scheme[i] != '/'
    ensures !(scheme <= Print(p) + tail)
  {
    var s := Print(p) + tail;
    assert s[|p.host|] == '/' && s[|p.host| + 1] == p.handle[0];
  }

  /**
   Parsing undoes printing, with or without the zns:// scheme and with any qualifiers; and the
   qualifiers are recovered exactly.
   */
  lemma ParseUndoesPrint(p: Parts, version: string, capability: string)
    requires GoodParts(p) && Free(version, '@') && Free(version, '#') && Free(capability, '#')
    ensures var text := Print(p) + Qualifiers(version, capability);
            && Parse(text) == Ok(p)
            && Parse(BuildZnsUri(text)) == Ok(p)
            && ParseQualified(text) == Ok(Qualified(Print(p), version, capability))
            && ParseQualified(BuildZnsUri(text)) == Ok(Qualified(Print(p), version, capability))
  {
    ValidNameChars(p.handle);
    ValidNameChars(p.agent);
    var text := Print(p) + Qualifiers(version, capability);
    NoSchemeInPrinted(p, Qualifiers(version, capability));
    PrintedIsPlain(p);
    ParseUndoesQualifiers(Print(p), version, capability);
    SplitThreeUndoesBuild(p);
  }

  lemma PrintedIsPlain(p: Parts)
    requires GoodParts(p)
    ensures Print(p) != "" && Free(Print(p), '@') && Free(Print(p), '#')
  {}

  lemma PrintInjective(p: Parts, q: Parts)
    requires GoodParts(p) && GoodParts(q)
    ensures Print(p) == Print(q) <==> p == q
  {
    ParseUndoesPrint(p, "", "");
    ParseUndoesPrint(q, "", "");
    assert Print(p) + Qualifiers("", "") == Print(p);
    assert Print(q) + Qualifiers("", "") == Print(q);
  }

  // ---------------------------------------------------------------------------------------------
  // Printing undoes parsing, and the side conditions are exact
  // ---------------------------------------------------------------------------------------------

  lemma SplitQualifierShortens(s: string, c: char)
    ensures |SplitQualifier(s, c).0| <= |s|
    ensures |SplitQualifier(s, c).0| == |s| <==> Free(s, c)
    ensures |SplitQualifier(s, c).0| == |s| ==> SplitQualifier(s, c).0 == s
  {}

  lemma PrintUndoesParseBase(base: string)
    requires ParseBase(base).Ok?
    ensures Print(ParseBase(base).value) == base
    ensures ValidHandle(ParseBase(base).value.handle) && ValidAgentName(ParseBase(base).value.agent)
    ensures ParseBase(base).value.host != "" && Free(ParseBase(base).value.host, '/')
  {
    BuildUndoesSplitThree(base);
  }

  lemma RejoinQualifier(s: string, c: char)
    requires SplitQualifier(s, c).1 != Some("")
    ensures s == SplitQualifier(s, c).0 + Tagged(c, OrEmpty(SplitQualifier(s, c).1))
    ensures Free(OrEmpty(SplitQualifier(s, c).1), c)
  {}

  /** Whatever parses as a qualified name is its base with its qualifiers appended, up to the scheme. */
  lemma QualifiersUndoParse(text: string)
    requires ParseQualified(text).Ok?
    ensures var q := ParseQualified(text).value;
            && StripScheme(text) == q.base + Qualifiers(q.version, q.capability)
            && q.base != "" && Free(q.version, '@') && Free(q.capability, '#')
  {
    var s := StripScheme(text);
    RejoinQualifier(s, '#');
    RejoinQualifier(SplitQualifier(s, '#').0, '@');
    var q := ParseQualified(text).value;
    QualifiersNested(q.base, q.version, q.capability);
  }

  /** Whatever parses is, up to the scheme, printed from its parts with its qualifiers appended. */
  lemma PrintUndoesParse(text: string)
    ensures match Parse(text)
            case Err(_) => true
            case Ok(p) =>
              && ParseQualified(text).Ok?
              && var q := ParseQualified(text).value;
              && Print(p) == q.base && StripScheme(text) == Print(p) + Qualifiers(q.version, q.capability)
              && ValidHandle(p.handle) && ValidAgentName(p.agent) && p.host != "" && Free(p.host, '/')
  {
    if Parse(text).Ok? {
      PrintUndoesParseBase(ParseQualified(text).value.base);
      QualifiersUndoParse(text);
    }
  }

  lemma WholeTextIsBase(text: string)
    requires ParseQualified(text).Ok? && |ParseQualified(text).value.base| == |text|
    ensures Free(text, '#') && Free(text, '@')
  {
    var s := StripScheme(text);
    var t := SplitQualifier(s, '#').0;
    SplitQualifierShortens(s, '#');
    SplitQualifierShortens(t, '@');
  }

  lemma HostIsFree(p: Parts, c: char)
    requires Free(Print(p), c)
    ensures Free(p.host, c)
  {
    assert forall i :: 0 <= i < |p.host| ==> Print(p)[i] == p.host[i];
  }

  /** A printed name parses back to its parts exactly when the parts are good. */
  lemma ParseUndoesPrintIff(p: Parts)
    ensures Parse(Print(p)) == Ok(p) <==> GoodParts(p)
  {
    if GoodParts(p) {
      ParseUndoesPrint(p, "", "");
      assert Print(p) + Qualifiers("", "") == Print(p);
    } else if Parse(Print(p)) == Ok(p) {
      PrintUndoesParse(Print(p));
      WholeTextIsBase(Print(p));
      HostIsFree(p, '#');
      HostIsFree(p, '@');
    }
  }
}
