/**
 Bloom filters and their transport in heartbeats (internal/mesh/bloom.go; the filter fields of
 `sendHeartbeats` in internal/mesh/heartbeat.go; `handleHeartbeat` in internal/mesh/transport.go).

 The two FNV sums are parameters: any functions will do.  Unsigned integers have 64 bits.
 */
module Bloom {

  import NodeIds

  const UINT64: nat := 0x1_0000_0000_0000_0000

  datatype Hashes = Hashes(sum64a: string -> nat, sum64: string -> nat)

  // ---------------------------------------------------------------------------------------------
  // Filters as values
  // ---------------------------------------------------------------------------------------------

  /** Double hashing: h1 + i * h2, modulo the word size and the filter size. */
  function Index(h: Hashes, size: nat, item: string, i: nat): (idx: nat)
    requires size > 0
    ensures idx < size
  {
    Place(h.sum64a(item) % size, Stride(h, size, item), size, i)
  }

  /** The distance between consecutive positions of an item: never zero, unless all positions are one. */
  function Stride(h: Hashes, size: nat, item: string): (n: nat)
    requires size > 0
    ensures 0 < n && (size > 1 ==> n < size)
  {
    if h.sum64(item) % size == 0 then 1 else h.sum64(item) % size
  }

  function Place(h1: nat, h2: nat, size: nat, i: nat): (idx: nat)
    requires size > 0
    ensures idx < size
  {
    ((h1 + i * h2) % UINT64) % size
  }

  /**
   Where the positions of an item are: the first is its first hash, and each is one stride after the
   one before, around the filter, as long as the sum fits in a word.  So consecutive positions differ.
   */
  lemma PositionsGoAround(h: Hashes, size: nat, item: string, i: nat)
    requires 0 < size <= UINT64 && h.sum64a(item) % size + (i + 1) * Stride(h, size, item) < UINT64
    ensures Index(h, size, item, 0) == h.sum64a(item) % size
    ensures Index(h, size, item, i + 1) == (Index(h, size, item, i) + Stride(h, size, item)) % size
    ensures size > 1 ==> Index(h, size, item, i + 1) != Index(h, size, item, i)
  {
    FirstPlace(h.sum64a(item) % size, Stride(h, size, item), size);
    PlacesGoAround(h.sum64a(item) % size, Stride(h, size, item), size, i);
  }

  lemma FirstPlace(h1: nat, h2: nat, size: nat)
    requires h1 < size <= UINT64
    ensures Place(h1, h2, size, 0) == h1
  {
    assert h1 + 0 * h2 == h1 && h1 % UINT64 == h1;
    RemainderIs(h1, size, 0, h1);
  }

  lemma PlacesGoAround(h1: nat, h2: nat, size: nat, i: nat)
    requires 0 < h2 && (size > 1 ==> h2 < size) && 0 < size && h1 + (i + 1) * h2 < UINT64
    ensures Place(h1, h2, size, i + 1) == (Place(h1, h2, size, i) + h2) % size
    ensures size > 1 ==> Place(h1, h2, size, i + 1) != Place(h1, h2, size, i)
  {
    var x := h1 + i * h2;
    NextStep(h1, h2, i);
    assert x % UINT64 == x && (x + h2) % UINT64 == x + h2;
    if size > 1 {
      AroundOnce(x, h2, size);
    }
  }

  lemma NextStep(h1: nat, h2: nat, i: nat)
    ensures h1 + (i + 1) * h2 == h1 + i * h2 + h2
  {}

  /** A step of less than the size goes forward, past the end at most once, and never stays in place. */
  lemma AroundOnce(x: nat, stride: nat, size: nat)
    requires 0 < stride < size
    ensures (x + stride) % size == (x % size + stride) % size
    ensures (x + stride) % size != x % size
  {
    var q, r := x / size, x % size;
    assert size * q + r == x;
    if r + stride < size {
      RemainderIs(x + stride, size, q, r + stride);
      RemainderIs(r + stride, size, 0, r + stride);
    } else {
      assert size * (q + 1) == size * q + size;
      RemainderIs(x + stride, size, q + 1, r + stride - size);
      RemainderIs(r + stride, size, 1, r + stride - size);
    }
  }

  lemma RemainderIs(x: nat, size: nat, q: nat, r: nat)
    requires r < size && x == size * q + r
    ensures x % size == r
  {
    var q', r' := x / size, x % size;
    assert size * q' + r' == x;
    if q < q' {
      NextMultiple(size, q, q');
    } else if q' < q {
      NextMultiple(size, q', q);
    }
  }

  lemma {:induction false} NextMultiple(size: nat, p: nat, q: nat)
    requires p < q
    ensures size * p + size <= size * q
  {
    assert size * q == size * (q - 1) + size;
    if p < q - 1 {
      NextMultiple(size, p, q - 1);
    }
  }

  predicate IsIndex(h: Hashes, size: nat, hashNum: nat, item: string, j: nat)
    requires size > 0
  {
    exists i :: 0 <= i < hashNum && Index(h, size, item, i) == j
  }

  /** All positions of the item are set. */
  predicate Member(h: Hashes, bits: seq<bool>, hashNum: nat, item: string)
    requires |bits| > 0
  {
    forall i :: 0 <= i < hashNum ==> bits[Index(h, |bits|, item, i)]
  }

  /** Adding an item sets its positions and no others. */
  ghost predicate IsAdded(h: Hashes, bits: seq<bool>, hashNum: nat, item: string, bits': seq<bool>)
    requires |bits| > 0
  {
    && |bits'| == |bits|
    && forall j :: 0 <= j < |bits| ==> (bits'[j] <==> bits[j] || IsIndex(h, |bits|, hashNum, item, j))
  }

  function MatchCountOf(h: Hashes, bits: seq<bool>, hashNum: nat, items: seq<string>): nat
    requires |bits| > 0
  {
    if items == [] then 0
    else MatchCountOf(h, bits, hashNum, items[..|items| - 1])
         + if Member(h, bits, hashNum, items[|items| - 1]) then 1 else 0
  }

  function CountIn(items: seq<string>, added: set<string>): nat {
    if items == [] then 0
    else CountIn(items[..|items| - 1], added) + if items[|items| - 1] in added then 1 else 0
  }

  ghost predicate NoFalseNegatives(h: Hashes, bits: seq<bool>, hashNum: nat, added: set<string>)
    requires |bits| > 0
  {
    forall item :: item in added ==> Member(h, bits, hashNum, item)
  }

  /** An added item is a member, and stays one whatever is added later. */
  lemma AddKeepsMembers(h: Hashes, bits: seq<bool>, hashNum: nat, item: string, bits': seq<bool>, added: set<string>)
    requires |bits| > 0 && IsAdded(h, bits, hashNum, item, bits') && NoFalseNegatives(h, bits, hashNum, added)
    ensures NoFalseNegatives(h, bits', hashNum, added + {item})
  {}

  /** The set positions are those of added items and no others. */
  ghost predicate HoldsExactly(h: Hashes, bits: seq<bool>, hashNum: nat, added: set<string>)
    requires |bits| > 0
  {
    forall j :: 0 <= j < |bits| ==> (bits[j] <==> PositionOfAny(h, |bits|, hashNum, added, j))
  }

  ghost predicate PositionOfAny(h: Hashes, size: nat, hashNum: nat, added: set<string>, j: nat)
    requires size > 0
  {
    exists item :: item in added && IsIndex(h, size, hashNum, item, j)
  }

  lemma AddKeepsExact(h: Hashes, bits: seq<bool>, hashNum: nat, item: string, bits': seq<bool>, added: set<string>)
    requires |bits| > 0 && IsAdded(h, bits, hashNum, item, bits') && HoldsExactly(h, bits, hashNum, added)
    ensures HoldsExactly(h, bits', hashNum, added + {item})
  {
    forall j | 0 <= j < |bits|
      ensures bits'[j] <==> PositionOfAny(h, |bits|, hashNum, added + {item}, j)
    {
      if PositionOfAny(h, |bits|, hashNum, added, j) {
        var x :| x in added && IsIndex(h, |bits|, hashNum, x, j);
        assert x in added + {item};
      }
      if IsIndex(h, |bits|, hashNum, item, j) {
        assert item in added + {item};
      }
    }
  }

  /**
   An item is reported exactly if each of its positions is a position of some added item: always for
   added items, and for others only by collisions.
   */
  lemma ReportedIff(h: Hashes, bits: seq<bool>, hashNum: nat, added: set<string>, item: string)
    requires |bits| > 0 && HoldsExactly(h, bits, hashNum, added)
    ensures Member(h, bits, hashNum, item)
            <==> forall i :: 0 <= i < hashNum ==> PositionOfAny(h, |bits|, hashNum, added, Index(h, |bits|, item, i))
    ensures NoFalseNegatives(h, bits, hashNum, added)
    ensures added == {} && hashNum >= 1 ==> !Member(h, bits, hashNum, item)
  {
    forall x, i | x in added && 0 <= i < hashNum
      ensures bits[Index(h, |bits|, x, i)]
    {
      assert IsIndex(h, |bits|, hashNum, x, Index(h, |bits|, x, i));
    }
    if added == {} && hashNum >= 1 {
      assert !bits[Index(h, |bits|, item, 0)];
    }
  }

  /** Every query token that was added counts as a match. */
  lemma {:induction false} MatchesAtLeastAdded(h: Hashes, bits: seq<bool>, hashNum: nat, added: set<string>,
                                               items: seq<string>)
    requires |bits| > 0 && NoFalseNegatives(h, bits, hashNum, added)
    ensures CountIn(items, added) <= MatchCountOf(h, bits, hashNum, items) <= |items|
  {
    if items != [] {
      MatchesAtLeastAdded(h, bits, hashNum, added, items[..|items| - 1]);
    }
  }

  // ---------------------------------------------------------------------------------------------
  // Bits in bytes
  // ---------------------------------------------------------------------------------------------

  /** 1 << j */
  function Mask(j: nat): bv8
    requires j < 8
  {
    if j == 0 then 1 else if j == 1 then 2 else if j == 2 then 4 else if j == 3 then 8
    else if j == 4 then 16 else if j == 5 then 32 else if j == 6 then 64 else 128
  }

  predicate BitOf(b: bv8, j: nat)
    requires j < 8
  {
    b & Mask(j) != 0
  }

  /** The bits of a byte are the binary digits of its value, the lowest first. */
  lemma {:induction false} BitOfIsDigit(b: bv8, j: nat)
    requires j < 8
    ensures BitOf(b, j) <==> NodeIds.Bit(b as int, j) == 1
  {
    HalfOfByte(b);
    if j > 0 {
      BitOfHalf(b, j);
      BitOfIsDigit(b >> 1, j - 1);
    }
  }

  lemma HalfOfByte(b: bv8)
    ensures (b >> 1) as int == b as int / 2
    ensures b & 1 != 0 <==> b as int % 2 == 1
  {
    assert b >> 1 == b / 2 && b & 1 == b % 2;
    assert (b / 2) as int == b as int / 2 && (b % 2) as int == b as int % 2;
  }

  lemma BitOfHalf(b: bv8, j: nat)
    requires 1 <= j < 8
    ensures BitOf(b, j) <==> BitOf(b >> 1, j - 1)
  {}

  predicate Bit(data: seq<bv8>, j: nat) {
    j / 8 < |data| && BitOf(data[j / 8], j % 8)
  }

  lemma OrSetsOneBit(b: bv8, j: nat, l: nat)
    requires j < 8 && l < 8
    ensures BitOf(b | Mask(j), l) <==> j == l || BitOf(b, l)
  {}

  lemma ZeroHasNoBits(j: nat)
    requires j < 8
    ensures !BitOf(0, j)
  {}

  /** Setting bit i of the packed form changes that bit only. */
  lemma SetBitOnly(data: seq<bv8>, i: nat, j: nat)
    requires i / 8 < |data|
    ensures Bit(data[i / 8 := data[i / 8] | Mask(i % 8)], j) <==> j == i || Bit(data, j)
  {
    OrSetsOneBit(data[i / 8], i % 8, j % 8);
  }

  // ---------------------------------------------------------------------------------------------
  // The filter
  // ---------------------------------------------------------------------------------------------

  class BloomFilter {
    const hashes: Hashes
    const size: nat
    const hashNum: nat
    const bits: array<bool>

    ghost predicate Valid()
    {
      bits.Length == size > 0
    }

    constructor (hashes: Hashes, size: nat, hashNum: nat)
      requires size > 0
      ensures Valid() && this.hashes == hashes && this.size == size && this.hashNum == hashNum
      ensures fresh(bits) && forall i :: 0 <= i < size ==> !bits[i]
    {
      this.hashes := hashes;
      this.size := size;
      this.hashNum := hashNum;
      bits := new bool[size](_ => false);
    }

    method Add(item: string)
      requires Valid()
      modifies bits
      ensures IsAdded(hashes, old(bits[..]), hashNum, item, bits[..])
    {
      for i := 0 to hashNum
        invariant IsAdded(hashes, old(bits[..]), i, item, bits[..])
      {
        var idx := Index(hashes, size, item, i);
        bits[idx] := true;
        forall j | 0 <= j < size
          ensures bits[..][j] <==> old(bits[..])[j] || IsIndex(hashes, size, i + 1, item, j)
        {
          assert IsIndex(hashes, size, i + 1, item, j) <==> IsIndex(hashes, size, i, item, j) || j == idx;
        }
      }
    }

    method Contains(item: string) returns (r: bool)
      requires Valid()
      ensures r == Member(hashes, bits[..], hashNum, item)
    {
      for i := 0 to hashNum
        invariant forall j :: 0 <= j < i ==> bits[Index(hashes, size, item, j)]
      {
        if !bits[Index(hashes, size, item, i)] {
          assert !bits[..][Index(hashes, size, item, i)];
          return false;
        }
      }
      return true;
    }

    method MatchCount(items: seq<string>) returns (count: nat)
      requires Valid()
      ensures count == MatchCountOf(hashes, bits[..], hashNum, items)
    {
      count := 0;
      for i := 0 to |items|
        invariant count == MatchCountOf(hashes, bits[..], hashNum, items[..i])
      {
        var m := Contains(items[i]);
        assert items[..i + 1][..i] == items[..i];
        if m {
          count := count + 1;
        }
      }
      assert items[..|items|] == items;
    }

    /** The filter packed eight bits to a byte, lowest bit first. */
    method Bytes() returns (data: seq<bv8>)
      requires Valid()
      ensures |data| == (size + 7) / 8 > 0
      ensures forall j: nat :: Bit(data, j) <==> j < size && bits[j]
    {
      data := seq((size + 7) / 8, _ => 0 as bv8);
      forall j: nat
        ensures !Bit(data, j)
      {
        ZeroHasNoBits(j % 8);
      }
      for i := 0 to size
        invariant |data| == (size + 7) / 8
        invariant forall j: nat :: Bit(data, j) <==> j < i && bits[j]
      {
        if bits[i] {
          var next := data[i / 8 := data[i / 8] | Mask(i % 8)];
          forall j: nat
            ensures Bit(next, j) <==> j < i + 1 && bits[j]
          {
            SetBitOnly(data, i, j);
          }
          data := next;
        }
      }
    }

    method FromBytes(data: seq<bv8>)
      requires Valid()
      modifies bits
      ensures forall i :: 0 <= i < size ==> (bits[i] <==> Bit(data, i))
    {
      for i := 0 to size
        invariant forall j :: 0 <= j < i ==> !bits[j]
      {
        bits[i] := false;
      }
      var i := 0;
      while i < size && i / 8 < |data|
        invariant 0 <= i <= size
        invariant forall j :: 0 <= j < i ==> (bits[j] <==> Bit(data, j))
        invariant forall j :: i <= j < size ==> !bits[j]
      {
        if data[i / 8] & Mask(i % 8) != 0 {
          bits[i] := true;
        }
        i := i + 1;
      }
    }
  }

  /** The filter fields of a heartbeat. */
  datatype Heartbeat = Heartbeat(filter: seq<bv8>, size: nat, hashNum: nat)

  method SendHeartbeat(bf: BloomFilter) returns (hb: Heartbeat)
    requires bf.Valid()
    ensures hb.size == bf.size && hb.hashNum == bf.hashNum
    ensures hb.filter != [] && forall j: nat :: Bit(hb.filter, j) <==> j < bf.size && bf.bits[j]
  {
    var data := bf.Bytes();
    hb := Heartbeat(data, bf.size, bf.hashNum);
  }

  /** `handleHeartbeat` rebuilds a filter unless the heartbeat carries none. */
  method ReceiveHeartbeat(hashes: Hashes, hb: Heartbeat) returns (bf: BloomFilter?)
    ensures bf == null <==> hb.filter == [] || hb.size == 0
    ensures bf != null ==>
              bf.Valid() && fresh(bf) && bf.hashes == hashes && bf.size == hb.size && bf.hashNum == hb.hashNum
    ensures bf != null ==> forall i :: 0 <= i < bf.size ==> (bf.bits[i] <==> Bit(hb.filter, i))
  {
    if |hb.filter| > 0 && hb.size > 0 {
      bf := new BloomFilter(hashes, hb.size, hb.hashNum);
      bf.FromBytes(hb.filter);
    } else {
      bf := null;
    }
  }

  /**
   End to end: a filter that went through a heartbeat matches at least as many of the query tokens
   as were added to the original.
   */
  method RoutedMatchCount(bf: BloomFilter, ghost added: set<string>, query: seq<string>) returns (score: nat)
    requires bf.Valid() && NoFalseNegatives(bf.hashes, bf.bits[..], bf.hashNum, added)
    ensures score == MatchCountOf(bf.hashes, bf.bits[..], bf.hashNum, query)
    ensures score >= CountIn(query, added)
  {
    var hb := SendHeartbeat(bf);
    var received := ReceiveHeartbeat(bf.hashes, hb);
    assert received.bits[..] == bf.bits[..];
    score := received.MatchCount(query);
    MatchesAtLeastAdded(bf.hashes, bf.bits[..], bf.hashNum, added, query);
  }
}
