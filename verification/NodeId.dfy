/**
 256-bit identifiers of nodes and keys, the XOR metric on them and their hexadecimal form
 (internal/dht/types.go).

 An identifier is a sequence of 32 bytes.  Every claim about order and distance is stated on
 `Value`, the identifier read as a big-endian unsigned integer.
 */
module NodeIds {

  const ID_LENGTH: nat := 32
  const ID_BITS: nat := 256

  type Byte = b: int | 0 <= b < 256

  type NodeId = s: seq<Byte> | |s| == ID_LENGTH witness seq(ID_LENGTH, _ => 0)

  function Pow2(n: nat): (p: nat)
    ensures p >= 1
  {
    if n == 0 then 1 else 2 * Pow2(n - 1)
  }

  /** The number that a byte string denotes, most significant byte first. */
  function Value(s: seq<Byte>): nat {
    if |s| == 0 then 0 else 256 * Value(s[..|s| - 1]) + s[|s| - 1]
  }

  function Xor(a: seq<Byte>, b: seq<Byte>): (d: seq<Byte>)
    requires |a| == |b|
    ensures |d| == |a|
  {
    seq(|a|, i requires 0 <= i < |a| => ByteXor(a[i], b[i]))
  }

  /** The XOR metric as a number. */
  function Dist(a: NodeId, b: NodeId): nat {
    Value(Xor(a, b))
  }

  // ---------------------------------------------------------------------------------------------
  // Exclusive or, bit by bit
  // ---------------------------------------------------------------------------------------------

  /** Bitwise exclusive or: the lowest bits differ or not, the rest recursively. */
  function XorBits(x: nat, y: nat): nat {
    if x == 0 && y == 0 then 0 else 2 * XorBits(x / 2, y / 2) + (x + y) % 2
  }

  lemma {:induction false} XorBitsBelow(x: nat, y: nat, n: nat)
    requires x < Pow2(n) && y < Pow2(n)
    ensures XorBits(x, y) < Pow2(n)
  {
    if n > 0 {
      XorBitsBelow(x / 2, y / 2, n - 1);
    }
  }

  function ByteXor(x: Byte, y: Byte): Byte {
    assert Pow2(8) == 256 by { Pow2Plus8(0); }
    XorBitsBelow(x, y, 8);
    XorBits(x, y)
  }

  lemma {:induction false} XorBitsCommutes(x: nat, y: nat)
    ensures XorBits(x, y) == XorBits(y, x)
  {
    if x != 0 || y != 0 {
      XorBitsCommutes(x / 2, y / 2);
    }
  }

  lemma {:induction false} XorBitsZero(x: nat, y: nat)
    ensures XorBits(x, y) == 0 <==> x == y
  {
    if x != 0 || y != 0 {
      XorBitsZero(x / 2, y / 2);
    }
  }

  lemma {:induction false} XorBitsInjective(x: nat, y: nat, t: nat)
    requires XorBits(x, t) == XorBits(y, t)
    ensures x == y
    decreases x + y + t
  {
    if x + y + t != 0 {
      XorBitsHalf(x, t);
      XorBitsHalf(y, t);
      XorBitsInjective(x / 2, y / 2, t / 2);
    }
  }

  lemma XorBitsHalf(x: nat, y: nat)
    ensures XorBits(x, y) == 2 * XorBits(x / 2, y / 2) + (x + y) % 2
  {}

  lemma ParityTriangle(x: nat, y: nat, z: nat)
    ensures (x + z) % 2 <= (x + y) % 2 + (y + z) % 2
  {}

  lemma {:induction false} XorBitsTriangle(x: nat, y: nat, z: nat)
    ensures XorBits(x, z) <= XorBits(x, y) + XorBits(y, z)
    decreases x + y + z
  {
    if x + y + z != 0 {
      XorBitsHalf(x, z);
      XorBitsHalf(x, y);
      XorBitsHalf(y, z);
      ParityTriangle(x, y, z);
      XorBitsTriangle(x / 2, y / 2, z / 2);
    }
  }

  // ---------------------------------------------------------------------------------------------
  // Value is an order isomorphism from lexicographic order to numbers
  // ---------------------------------------------------------------------------------------------

  lemma {:induction false} ValueBelowPow2(s: seq<Byte>)
    ensures Value(s) < Pow2(8 * |s|)
  {
    if |s| > 0 {
      ValueBelowPow2(s[..|s| - 1]);
      Pow2Plus8(8 * (|s| - 1));
    }
  }

  lemma Pow2Plus8(n: nat)
    ensures Pow2(n + 8) == 256 * Pow2(n)
  {
    assert Pow2(n + 2) == 4 * Pow2(n);
    assert Pow2(n + 4) == 4 * Pow2(n + 2);
    assert Pow2(n + 6) == 4 * Pow2(n + 4);
    assert Pow2(n + 8) == 4 * Pow2(n + 6);
  }

  lemma {:induction false} ValueInjective(a: seq<Byte>, b: seq<Byte>)
    requires |a| == |b| && Value(a) == Value(b)
    ensures a == b
  {
    if |a| > 0 {
      var n := |a| - 1;
      ValueInjective(a[..n], b[..n]);
      assert a == a[..n] + [a[n]];
      assert b == b[..n] + [b[n]];
    }
  }

  lemma {:induction false} ValueZero(s: seq<Byte>)
    ensures Value(s) == 0 <==> forall i :: 0 <= i < |s| ==> s[i] == 0
  {
    if |s| > 0 {
      ValueZero(s[..|s| - 1]);
      assert s == s[..|s| - 1] + [s[|s| - 1]];
    }
  }

  /** The first differing byte decides the numeric order. */
  lemma {:induction false} FirstDifferenceDecides(a: seq<Byte>, b: seq<Byte>, i: nat)
    requires |a| == |b| && i < |a|
    requires a[..i] == b[..i] && a[i] < b[i]
    ensures Value(a) < Value(b)
  {
    var n := |a| - 1;
    if i == n {
      assert a[..n] == b[..n];
    } else {
      assert a[..n][..i] == a[..i] && b[..n][..i] == b[..i];
      FirstDifferenceDecides(a[..n], b[..n], i);
    }
  }

  /** `Less` (types.go) scans for the first differing byte; the answer is exactly numeric order. */
  method LessThan(a: NodeId, b: NodeId) returns (less: bool)
    ensures less <==> Value(a) < Value(b)
  {
    for i := 0 to ID_LENGTH
      invariant a[..i] == b[..i]
    {
      if a[i] < b[i] {
        FirstDifferenceDecides(a, b, i);
        return true;
      }
      if a[i] > b[i] {
        FirstDifferenceDecides(b, a, i);
        return false;
      }
      assert a[..i + 1] == a[..i] + [a[i]];
      assert b[..i + 1] == b[..i] + [b[i]];
    }
    assert a == a[..ID_LENGTH] == b[..ID_LENGTH] == b;
    return false;
  }

  // ---------------------------------------------------------------------------------------------
  // The XOR metric
  // ---------------------------------------------------------------------------------------------

  method Distance(a: NodeId, b: NodeId) returns (d: NodeId)
    ensures d == Xor(a, b)
    ensures Value(d) == Dist(a, b)
  {
    var bytes := seq(ID_LENGTH, _ => 0);
    for i := 0 to ID_LENGTH
      invariant |bytes| == ID_LENGTH
      invariant forall j :: 0 <= j < i ==> bytes[j] == ByteXor(a[j], b[j])
    {
      bytes := bytes[i := ByteXor(a[i], b[i])];
    }
    assert bytes == Xor(a, b);
    d := bytes;
  }

  /** The number with n binary zeros after it. */
  function Shifted(x: nat, n: nat): nat {
    if n == 0 then x else 2 * Shifted(x, n - 1)
  }

  /** The lowest n binary digits and those above do not interfere. */
  lemma {:induction false} XorBitsOfDigits(n: nat, x: nat, y: nat, p: nat, q: nat)
    requires p < Shifted(1, n) && q < Shifted(1, n)
    ensures XorBits(Shifted(x, n) + p, Shifted(y, n) + q) == Shifted(XorBits(x, y), n) + XorBits(p, q)
  {
    if n > 0 {
      var x', y' := Shifted(x, n - 1), Shifted(y, n - 1);
      LowestDigit(x', p);
      LowestDigit(y', q);
      XorBitsOfDigits(n - 1, x, y, p / 2, q / 2);
      XorBitsStep(x' + p / 2, y' + q / 2, p, q, Shifted(XorBits(x, y), n - 1));
    }
  }

  lemma LowestDigit(above: nat, p: nat)
    ensures 2 * above + p == 2 * (above + p / 2) + p % 2
  {}

  lemma {:induction false} XorBitsStep(x: nat, y: nat, p: nat, q: nat, above: nat)
    requires XorBits(x, y) == above + XorBits(p / 2, q / 2)
    ensures XorBits(2 * x + p % 2, 2 * y + q % 2) == 2 * above + XorBits(p, q)
  {
    var u, v := 2 * x + p % 2, 2 * y + q % 2;
    assert u / 2 == x && v / 2 == y;
    ParityOfDigits(x, y, p, q);
    XorBitsHalf(u, v);
    XorBitsHalf(p, q);
  }

  lemma ParityOfDigits(x: nat, y: nat, p: nat, q: nat)
    ensures (2 * x + p % 2 + (2 * y + q % 2)) % 2 == (p + q) % 2
  {
    assert 2 * x + p % 2 + (2 * y + q % 2) == 2 * (x + y) + (p % 2 + q % 2);
  }

  lemma ShiftedByByte(x: nat)
    ensures Shifted(x, 8) == 256 * x
  {
    assert Shifted(x, 1) == 2 * x;
    assert Shifted(x, 3) == 8 * x;
    assert Shifted(x, 5) == 32 * x;
    assert Shifted(x, 7) == 128 * x;
  }

  lemma {:induction false} ValueOfXor(a: seq<Byte>, b: seq<Byte>)
    requires |a| == |b|
    ensures Value(Xor(a, b)) == XorBits(Value(a), Value(b))
  {
    if |a| > 0 {
      var n := |a| - 1;
      assert Xor(a, b)[..n] == Xor(a[..n], b[..n]);
      ValueOfXor(a[..n], b[..n]);
      ShiftedByByte(1);
      ShiftedByByte(Value(a[..n]));
      ShiftedByByte(Value(b[..n]));
      ShiftedByByte(XorBits(Value(a[..n]), Value(b[..n])));
      XorBitsOfDigits(8, Value(a[..n]), Value(b[..n]), a[n], b[n]);
    }
  }

  /** The i-th binary digit, counted from the lowest. */
  function Bit(x: nat, i: nat): nat {
    if i == 0 then x % 2 else Bit(x / 2, i - 1)
  }

  lemma {:induction false} XorBitsAt(x: nat, y: nat, i: nat)
    ensures Bit(XorBits(x, y), i) == if Bit(x, i) == Bit(y, i) then 0 else 1
    decreases i
  {
    XorBitsHalf(x, y);
    var z := XorBits(x, y);
    if i > 0 {
      XorBitsAt(x / 2, y / 2, i - 1);
      assert z / 2 == XorBits(x / 2, y / 2);
    } else {
      assert z % 2 == (x + y) % 2;
      ParityOfSum(x, y);
    }
  }

  lemma ParityOfSum(x: nat, y: nat)
    ensures (x + y) % 2 == if x % 2 == y % 2 then 0 else 1
  {}

  /** The distance is the exclusive or of the two numbers: its binary digits are set where theirs differ. */
  lemma DistIsXor(a: NodeId, b: NodeId)
    ensures Dist(a, b) == XorBits(Value(a), Value(b))
    ensures forall i: nat :: Bit(Dist(a, b), i) == if Bit(Value(a), i) == Bit(Value(b), i) then 0 else 1
  {
    ValueOfXor(a, b);
    forall i: nat
      ensures Bit(Dist(a, b), i) == if Bit(Value(a), i) == Bit(Value(b), i) then 0 else 1
    {
      XorBitsAt(Value(a), Value(b), i);
    }
  }

  lemma DistSymmetric(a: NodeId, b: NodeId)
    ensures Dist(a, b) == Dist(b, a)
  {
    forall i | 0 <= i < ID_LENGTH
      ensures Xor(a, b)[i] == Xor(b, a)[i]
    {
      XorBitsCommutes(a[i], b[i]);
    }
    assert Xor(a, b) == Xor(b, a);
  }

  lemma DistZeroOnlyOnEqual(a: NodeId, b: NodeId)
    ensures Dist(a, b) == 0 <==> a == b
  {
    ValueZero(Xor(a, b));
    forall i | 0 <= i < ID_LENGTH
      ensures Xor(a, b)[i] == 0 <==> a[i] == b[i]
    {
      XorBitsZero(a[i], b[i]);
    }
    if Dist(a, b) == 0 {
      assert forall i :: 0 <= i < ID_LENGTH ==> Xor(a, b)[i] == 0;
      assert a == b;
    }
  }

  lemma XorInjective(a: seq<Byte>, b: seq<Byte>, t: seq<Byte>)
    requires |a| == |b| == |t|
    requires Xor(a, t) == Xor(b, t)
    ensures a == b
  {
    forall i | 0 <= i < |a|
      ensures a[i] == b[i]
    {
      assert Xor(a, t)[i] == Xor(b, t)[i];
      XorBitsInjective(a[i], b[i], t[i]);
    }
  }

  /** No two identifiers are equally far from a target: ties in distance are ties in identity. */
  lemma DistInjective(a: NodeId, b: NodeId, target: NodeId)
    ensures Dist(a, target) == Dist(b, target) <==> a == b
    ensures Dist(target, a) == Dist(target, b) <==> a == b
  {
    DistSymmetric(a, target);
    DistSymmetric(b, target);
    if Dist(a, target) == Dist(b, target) {
      ValueInjective(Xor(a, target), Xor(b, target));
      XorInjective(a, b, target);
    }
  }

  lemma {:induction false} BytewiseSumBound(d: seq<Byte>, x: seq<Byte>, y: seq<Byte>)
    requires |d| == |x| == |y|
    requires forall i :: 0 <= i < |d| ==> d[i] as int <= x[i] as int + y[i] as int
    ensures Value(d) <= Value(x) + Value(y)
  {
    if |x| > 0 {
      var n := |x| - 1;
      BytewiseSumBound(d[..n], x[..n], y[..n]);
      assert d[n] as int <= x[n] as int + y[n] as int;
    }
  }

  lemma TriangleInequality(a: NodeId, b: NodeId, c: NodeId)
    ensures Dist(a, c) <= Dist(a, b) + Dist(b, c)
  {
    forall i | 0 <= i < ID_LENGTH
      ensures Xor(a, c)[i] as int <= Xor(a, b)[i] as int + Xor(b, c)[i] as int
    {
      XorBitsTriangle(a[i], b[i], c[i]);
    }
    BytewiseSumBound(Xor(a, c), Xor(a, b), Xor(b, c));
  }

  // ---------------------------------------------------------------------------------------------
  // Leading zero bits
  // ---------------------------------------------------------------------------------------------

  function LeadingZeros8(b: Byte): nat {
    if b >= 128 then 0 else if b >= 64 then 1 else if b >= 32 then 2 else if b >= 16 then 3
    else if b >= 8 then 4 else if b >= 4 then 5 else if b >= 2 then 6 else if b >= 1 then 7 else 8
  }

  lemma LeadingZeros8Bounds(b: Byte)
    requires b != 0
    ensures LeadingZeros8(b) < 8
    ensures Pow2(7 - LeadingZeros8(b)) <= b < Pow2(8 - LeadingZeros8(b))
  {
    assert Pow2(1) == 2;
    assert Pow2(3) == 8;
    assert Pow2(5) == 32;
    assert Pow2(7) == 128;
  }

  /** The first non-zero byte, at position i, fixes the magnitude of the whole number. */
  lemma {:induction false} FirstNonZeroFixesMagnitude(s: seq<Byte>, i: nat, e: nat)
    requires i < |s| && s[i] != 0
    requires forall j :: 0 <= j < i ==> s[j] == 0
    requires e == 8 * (|s| - 1 - i) + 7 - LeadingZeros8(s[i])
    ensures Pow2(e) <= Value(s) < Pow2(e + 1)
  {
    LeadingZeros8Bounds(s[i]);
    var n := |s| - 1;
    if i == n {
      ValueZero(s[..n]);
    } else {
      FirstNonZeroFixesMagnitude(s[..n], i, e - 8);
      Pow2Plus8(e - 8);
      Pow2Plus8(e - 7);
    }
  }

  /** `LeadingZeros` (types.go), characterised by the magnitude of the number. */
  method LeadingZeros(id: NodeId) returns (lz: nat)
    ensures Value(id) == 0 <==> lz == ID_BITS
    ensures Value(id) > 0 ==> lz < ID_BITS && Pow2(ID_BITS - 1 - lz) <= Value(id) < Pow2(ID_BITS - lz)
  {
    for i := 0 to ID_LENGTH
      invariant forall j :: 0 <= j < i ==> id[j] == 0
    {
      if id[i] != 0 {
        LeadingZeros8Bounds(id[i]);
        lz := i * 8 + LeadingZeros8(id[i]);
        FirstNonZeroFixesMagnitude(id, i, ID_BITS - 1 - lz);
        return;
      }
    }
    ValueZero(id);
    lz := ID_BITS;
  }

  // ---------------------------------------------------------------------------------------------
  // Hexadecimal keys of the local store
  // ---------------------------------------------------------------------------------------------

  function HexDigit(n: nat): char
    requires n < 16
  {
    if n < 10 then '0' + n as char else 'a' + (n - 10) as char
  }

  /** The value of a hexadecimal digit, or -1 for any other character. */
  function DigitValue(c: char): (v: int)
    ensures -1 <= v < 16
  {
    if '0' <= c <= '9' then (c - '0') as int
    else if 'a' <= c <= 'f' then 10 + (c - 'a') as int
    else if 'A' <= c <= 'F' then 10 + (c - 'A') as int
    else -1
  }

  /** hex.EncodeToString */
  function HexEncode(bytes: seq<Byte>): (h: string)
    ensures |h| == 2 * |bytes|
  {
    if bytes == [] then ""
    else [HexDigit(bytes[0] / 16), HexDigit(bytes[0] % 16)] + HexEncode(bytes[1..])
  }

  /** The bytes hex.DecodeString has produced when it stops, at the end or at the first bad pair. */
  function HexDecodePrefix(h: string): seq<Byte> {
    if |h| < 2 || DigitValue(h[0]) < 0 || DigitValue(h[1]) < 0 then []
    else [DigitValue(h[0]) * 16 + DigitValue(h[1])] + HexDecodePrefix(h[2..])
  }

  function Hex(id: NodeId): string {
    HexEncode(id)
  }

  /** `copy(key[:], b)` into a zeroed identifier: longer input is cut, shorter input is padded. */
  function KeyFromHex(h: string): NodeId {
    var b := HexDecodePrefix(h);
    if |b| >= ID_LENGTH then b[..ID_LENGTH] else b + seq(ID_LENGTH - |b|, _ => 0)
  }

  lemma HexDigitRoundTrip(n: nat)
    requires n < 16
    ensures DigitValue(HexDigit(n)) == n
  {}

  lemma {:induction false} DecodeUndoesEncode(bytes: seq<Byte>)
    ensures HexDecodePrefix(HexEncode(bytes)) == bytes
  {
    if bytes != [] {
      var h := HexEncode(bytes);
      HexDigitRoundTrip(bytes[0] / 16);
      HexDigitRoundTrip(bytes[0] % 16);
      assert h[2..] == HexEncode(bytes[1..]);
      DecodeUndoesEncode(bytes[1..]);
      assert bytes == [bytes[0]] + bytes[1..];
    }
  }

  /** What republish relies on: the hexadecimal store key gives the identifier back. */
  lemma KeyFromHexUndoesHex(id: NodeId)
    ensures KeyFromHex(Hex(id)) == id
  {
    DecodeUndoesEncode(id);
  }

  lemma HexInjective(a: NodeId, b: NodeId)
    ensures Hex(a) == Hex(b) <==> a == b
  {
    KeyFromHexUndoesHex(a);
    KeyFromHexUndoesHex(b);
  }

  ghost predicate LowerHex(h: string) {
    forall i :: 0 <= i < |h| ==> '0' <= h[i] <= '9' || 'a' <= h[i] <= 'f'
  }

  lemma {:induction false} EncodesInLowerCase(bytes: seq<Byte>)
    ensures LowerHex(HexEncode(bytes))
  {
    if bytes != [] {
      EncodesInLowerCase(bytes[1..]);
    }
  }

  lemma {:induction false} EncodeUndoesDecode(h: string)
    requires LowerHex(h) && |h| % 2 == 0
    ensures HexEncode(HexDecodePrefix(h)) == h && 2 * |HexDecodePrefix(h)| == |h|
  {
    if h != "" {
      EncodeUndoesDecode(h[2..]);
      var b := HexDecodePrefix(h);
      DecodesPair(h);
      assert HexEncode(b) == [h[0], h[1]] + HexEncode(b[1..]);
      assert h == [h[0], h[1]] + h[2..];
    }
  }

  lemma DecodesPair(h: string)
    requires LowerHex(h) && |h| >= 2
    ensures var b := HexDecodePrefix(h);
            b != [] && b[1..] == HexDecodePrefix(h[2..]) && HexDigit(b[0] / 16) == h[0] && HexDigit(b[0] % 16) == h[1]
  {
    DigitRoundTrip(h[0]);
    DigitRoundTrip(h[1]);
    TwoDigits(DigitValue(h[0]), DigitValue(h[1]));
  }

  lemma TwoDigits(high: nat, low: nat)
    requires low < 16
    ensures (high * 16 + low) / 16 == high && (high * 16 + low) % 16 == low
  {}

  lemma DigitRoundTrip(c: char)
    requires '0' <= c <= '9' || 'a' <= c <= 'f'
    ensures 0 <= DigitValue(c) && HexDigit(DigitValue(c)) == c
  {}

  /** A store key is the one text of 64 lower-case hexadecimal digits that decodes to the identifier. */
  lemma StoreKeyIff(id: NodeId, h: string)
    ensures h == Hex(id) <==> |h| == 2 * ID_LENGTH && LowerHex(h) && KeyFromHex(h) == id
  {
    KeyFromHexUndoesHex(id);
    EncodesInLowerCase(id);
    if |h| == 2 * ID_LENGTH && LowerHex(h) {
      EncodeUndoesDecode(h);
      var b := HexDecodePrefix(h);
      assert b[..ID_LENGTH] == b;
    }
  }
}
