/** Binary addresses: order and range size (src/sort.c, src/other.c).

    An address is identified with the number its bytes denote in network order.  The IPv4 code
    computes on that number as a 32-bit word, the IPv6 code on its sixteen bytes. */
module Address {
  datatype Version = IPv4 | IPv6

  const SPACE4: int := 0x1_0000_0000
  const SPACE6: int := 0x1_0000_0000_0000_0000_0000_0000_0000_0000
  const EXACT: int := 0x20_0000_0000_0000  // 2^53

  type Addr = a: int | 0 <= a < SPACE6
  type Byte = b: int | 0 <= b < 256

  predicate InSpace(ver: Version, a: Addr) {
    ver == IPv4 ==> a < SPACE4
  }

  // ----- bytes in network order -----

  function Bytes(a: nat, n: nat): (bs: seq<Byte>)
    ensures |bs| == n
  {
    if n == 0 then [] else Bytes(a / 256, n - 1) + [a % 256]
  }

  function Value(bs: seq<Byte>): nat {
    if bs == [] then 0 else Value(bs[..|bs| - 1]) * 256 + bs[|bs| - 1]
  }

  function Pow256(n: nat): nat {
    if n == 0 then 1 else 256 * Pow256(n - 1)
  }

  lemma {:induction false} ValueOfBytes(a: nat, n: nat)
    requires a < Pow256(n)
    ensures Value(Bytes(a, n)) == a
  {
    if n > 0 {
      ValueOfBytes(a / 256, n - 1);
      assert Bytes(a, n)[..n - 1] == Bytes(a / 256, n - 1);
    }
  }

  lemma {:induction false} BytesOfValue(bs: seq<Byte>)
    ensures Bytes(Value(bs), |bs|) == bs
  {
    if bs != [] {
      BytesOfValue(bs[..|bs| - 1]);
      assert bs == bs[..|bs| - 1] + [bs[|bs| - 1]];
    }
  }

  lemma SixteenBytes()
    ensures Pow256(16) == SPACE6
  {
    assert Pow256(4) == SPACE4;
    assert Pow256(8) == SPACE4 * SPACE4 by { assert Pow256(6) == 0x1_0000_0000_0000; }
    assert Pow256(12) == SPACE4 * SPACE4 * SPACE4 by { assert Pow256(10) == 0x1_0000_0000_0000_0000_0000; }
    assert Pow256(14) == 0x1_0000_0000_0000_0000_0000_0000_0000;
  }

  /** The sixteen-byte form and the number determine each other. */
  lemma AddressBytesRoundTrip(a: Addr, bs: seq<Byte>)
    requires |bs| == 16
    ensures Value(Bytes(a, 16)) == a
    ensures Bytes(Value(bs), 16) == bs
  {
    SixteenBytes();
    ValueOfBytes(a, 16);
    BytesOfValue(bs);
  }

  // ----- order -----

  /** C's memcmp: the difference at the first byte that differs. */
  function MemCmp(x: seq<Byte>, y: seq<Byte>): int
    requires |x| == |y|
  {
    if x == [] then 0
    else if x[0] != y[0] then x[0] as int - y[0] as int
    else MemCmp(x[1..], y[1..])
  }

  lemma {:induction false} MemCmpLast(x: seq<Byte>, y: seq<Byte>)
    requires |x| == |y| > 0
    ensures var n := |x| - 1;
            MemCmp(x, y) == (if MemCmp(x[..n], y[..n]) != 0 then MemCmp(x[..n], y[..n]) else x[n] as int - y[n] as int)
  {
    var n := |x| - 1;
    if n > 0 && x[0] == y[0] {
      MemCmpLast(x[1..], y[1..]);
      assert x[1..][..n - 1] == x[..n][1..];
      assert y[1..][..n - 1] == y[..n][1..];
    }
  }

  /** Byte-lexicographic order is numeric order. */
  lemma {:induction false} MemCmpIsNumeric(x: seq<Byte>, y: seq<Byte>)
    requires |x| == |y|
    ensures MemCmp(x, y) < 0 <==> Value(x) < Value(y)
    ensures MemCmp(x, y) > 0 <==> Value(x) > Value(y)
  {
    if x != [] {
      MemCmpLast(x, y);
      MemCmpIsNumeric(x[..|x| - 1], y[..|y| - 1]);
    }
  }

  /** ipcomp and leasecomp: the sign orders addresses as numbers in both versions. */
  function IpComp(ver: Version, a: Addr, b: Addr): (r: int)
    ensures r < 0 <==> a < b
    ensures r > 0 <==> a > b
  {
    match ver
    case IPv4 => if a < b then -1 else if a > b then 1 else 0
    case IPv6 =>
      SixteenBytes(); ValueOfBytes(a, 16); ValueOfBytes(b, 16);
      MemCmpIsNumeric(Bytes(a, 16), Bytes(b, 16));
      MemCmp(Bytes(a, 16), Bytes(b, 16))
  }

  // ----- range size -----

  /** What the accumulation over byte differences holds after reading all of x and y. */
  function Horner(first: seq<Byte>, last: seq<Byte>): int
    requires |first| == |last|
  {
    var n := |first| - 1;
    if first == [] then 0 else Horner(first[..n], last[..n]) * 256 + (last[n] as int - first[n] as int)
  }

  lemma {:induction false} HornerIsDifference(first: seq<Byte>, last: seq<Byte>)
    requires |first| == |last|
    ensures Horner(first, last) == Value(last) - Value(first)
  {
    if first != [] {
      HornerIsDifference(first[..|first| - 1], last[..|last| - 1]);
    }
  }

  /** get_range_size: IPv4 wraps at 32 bits, IPv6 accumulates signed byte differences. */
  function RangeSize(ver: Version, first: Addr, last: Addr): (size: int)
    ensures ver == IPv6 ==> size == last - first + 1
    ensures ver == IPv4 ==> 0 <= size < SPACE4
    ensures ver == IPv4 && first <= last < SPACE4 ==>
              size == if first == 0 && last == SPACE4 - 1 then 0 else last - first + 1
  {
    match ver
    case IPv4 => (last - first + 1) % SPACE4
    case IPv6 =>
      SixteenBytes(); ValueOfBytes(first, 16); ValueOfBytes(last, 16);
      HornerIsDifference(Bytes(first, 16), Bytes(last, 16));
      Horner(Bytes(first, 16), Bytes(last, 16)) + 1
  }

  /** get_range_size_v6 on the two byte arrays. */
  method GetRangeSizeV6(first: seq<Byte>, last: seq<Byte>) returns (size: int)
    requires |first| == |last| == 16
    ensures size == RangeSize(IPv6, Addr6(first), Addr6(last))
    ensures size >= 1 <==> MemCmp(first, last) <= 0
  {
    size := 0;
    for i := 0 to 16
      invariant size == Horner(first[..i], last[..i])
    {
      assert first[..i + 1][..i] == first[..i] && last[..i + 1][..i] == last[..i];
      size := size * 256;
      size := size + (last[i] as int - first[i] as int);
    }
    assert first[..16] == first && last[..16] == last;
    HornerIsDifference(first, last);
    MemCmpIsNumeric(first, last);
    size := size + 1;
  }

  lemma {:induction false} ValueBound(bs: seq<Byte>)
    ensures Value(bs) < Pow256(|bs|)
  {
    if bs != [] {
      ValueBound(bs[..|bs| - 1]);
    }
  }

  function Addr6(bs: seq<Byte>): (a: Addr)
    requires |bs| == 16
  {
    ValueBound(bs); SixteenBytes();
    Value(bs)
  }

  // ----- exactness of the double computation -----

  function Pow2(k: nat): nat {
    if k == 0 then 1 else 2 * Pow2(k - 1)
  }

  ghost predicate Scaled(n: int, m: int, k: nat) {
    -EXACT <= m <= EXACT && n == m * Pow2(k)
  }

  /** An integer a double holds exactly: at most 53 significant bits. */
  ghost predicate Representable(n: int) {
    exists m: int, k: nat :: Scaled(n, m, k)
  }

  /** Every prefix of a difference in [0, 2^53) is itself in [0, 2^53). */
  lemma {:induction false} HornerPrefixBound(first: seq<Byte>, last: seq<Byte>, i: nat)
    requires |first| == |last| && i <= |first|
    requires 0 <= Horner(first, last) < EXACT
    ensures 0 <= Horner(first[..i], last[..i]) < EXACT
    decreases |first|
  {
    var n := |first|;
    if i == n {
      assert first[..n] == first && last[..n] == last;
    } else {
      HornerPrefixBound(first[..n - 1], last[..n - 1], i);
      assert first[..n - 1][..i] == first[..i] && last[..n - 1][..i] == last[..i];
    }
  }

  lemma SmallIsExact(m: int)
    requires -EXACT <= m <= EXACT
    ensures Representable(m)
    ensures Representable(256 * m)
  {
    assert Scaled(m, m, 0);
    assert Pow2(8) == 256 by { assert Pow2(4) == 16; }
    assert Scaled(256 * m, m, 8);
  }

  /** When the size is between 1 and 2^53, no step of the loop rounds: the accumulator, its product
      with 256 and the final increment are all representable. */
  lemma SizeV6IsExact(first: seq<Byte>, last: seq<Byte>, i: nat)
    requires |first| == |last| == 16 && i <= 16
    requires 1 <= RangeSize(IPv6, Addr6(first), Addr6(last)) <= EXACT
    ensures Representable(Horner(first[..i], last[..i]))
    ensures Representable(256 * Horner(first[..i], last[..i]))
    ensures Representable(Horner(first, last) + 1)
  {
    HornerIsDifference(first, last);
    HornerPrefixBound(first, last, i);
    SmallIsExact(Horner(first[..i], last[..i]));
    SmallIsExact(Horner(first, last) + 1);
  }
}
