/** Integer option values: the shortest-form printer, its parser, and the block option carried in one
    (common.go:118-146, block.go:30-71). */
module Integers {
  import opened Prelude

  const TWO_32 := 0x1_0000_0000

  // ---------------------------------------------------------------- integers as bytes

  /** Big-endian reading. */
  function Value(b: seq<byte>): nat {
    if b == [] then 0 else Value(b[..|b| - 1]) * 0x100 + b[|b| - 1] as int
  }

  /** The last `n` bytes of `v`, most significant first. */
  function BigEndian(v: nat, n: nat): (b: seq<byte>)
    ensures |b| == n
  {
    if n == 0 then [] else BigEndian(v / 0x100, n - 1) + [v % 0x100]
  }

  function Width(v: nat): (n: nat)
    ensures n <= 4
  {
    if v == 0 then 0 else if v < 0x100 then 1 else if v < 0x1_0000 then 2 else 4
  }

  /** One, two or four bytes; nothing at all for zero. */
  function EncodeInt(v: nat): (b: seq<byte>)
    requires v < TWO_32
    ensures |b| <= 4
  {
    BigEndian(v, Width(v))
  }

  /** Big-endian reading of at most four bytes. */
  function DecodeInt(b: seq<byte>): Option<nat> {
    if |b| > 4 then None else Some(Value(b))
  }

  function Limit(n: nat): nat { if n == 0 then 1 else 0x100 * Limit(n - 1) }

  lemma {:induction false} ValueBound(b: seq<byte>)
    ensures Value(b) < Limit(|b|)
  {
    if b != [] { ValueBound(b[..|b| - 1]); }
  }

  lemma {:induction false} ValueOfBigEndian(v: nat, n: nat)
    requires v < Limit(n)
    ensures Value(BigEndian(v, n)) == v
  {
    if n > 0 {
      ValueOfBigEndian(v / 0x100, n - 1);
      assert BigEndian(v, n)[..n - 1] == BigEndian(v / 0x100, n - 1);
    }
  }

  lemma Limits()
    ensures Limit(0) == 1 && Limit(1) == 0x100 && Limit(2) == 0x1_0000 && Limit(3) == 0x100_0000 && Limit(4) == TWO_32
  {
    assert Limit(2) == 0x100 * Limit(1);
    assert Limit(3) == 0x100 * Limit(2);
    assert Limit(4) == 0x100 * Limit(3);
  }

  /** Whatever it accepts, the parser reads a 32-bit integer. */
  lemma DecodedFits(b: seq<byte>)
    ensures DecodeInt(b).Some? ==> DecodeInt(b).value < TWO_32
  {
    if |b| <= 4 {
      ValueBound(b);
      Limits();
    }
  }

  lemma {:induction false} LeadingZeros(zeros: nat, b: seq<byte>)
    ensures Value(seq(zeros, _ => 0) + b) == Value(b)
    decreases zeros + |b|
  {
    var padded := seq(zeros, _ => 0) + b;
    if b != [] {
      assert padded[..|padded| - 1] == seq(zeros, _ => 0) + b[..|b| - 1];
      LeadingZeros(zeros, b[..|b| - 1]);
    } else if zeros > 0 {
      assert padded[..|padded| - 1] == seq(zeros - 1, _ => 0) + b;
      LeadingZeros(zeros - 1, b);
    }
  }

  lemma Value4(p: seq<byte>)
    requires |p| == 4
    ensures Value(p) == ((p[0] as int * 0x100 + p[1] as int) * 0x100 + p[2] as int) * 0x100 + p[3] as int
  {
    assert p[..3][..2] == p[..2] && p[..2][..1] == p[..1] && p[..1][..0] == [];
    assert Value(p[..1]) == p[0] as int;
    assert Value(p[..2]) == Value(p[..1]) * 0x100 + p[1] as int;
    assert Value(p[..3]) == Value(p[..2]) * 0x100 + p[2] as int;
  }

  /** The parser of the program: the bytes are copied to the end of a zeroed buffer of four, which is read as
      one 32-bit word. */
  method DecodeIntPadded(b: seq<byte>) returns (r: Option<nat>)
    ensures r == DecodeInt(b)
    ensures r.Some? ==> r.value < TWO_32
  {
    if |b| > 4 {
      return None;
    }
    var tmp := new byte[4](_ => 0);
    var k := 0;
    while k < |b|
      invariant 0 <= k <= |b|
      invariant forall j :: 0 <= j < 4 - |b| ==> tmp[j] == 0
      invariant forall j :: 0 <= j < k ==> tmp[4 - |b| + j] == b[j]
    {
      tmp[4 - |b| + k] := b[k];
      k := k + 1;
    }
    assert tmp[..] == seq(4 - |b|, _ => 0) + b;
    LeadingZeros(4 - |b|, b);
    DecodedFits(b);
    Value4(tmp[..]);
    return Some(((tmp[0] as int * 0x100 + tmp[1] as int) * 0x100 + tmp[2] as int) * 0x100 + tmp[3] as int);
  }

  /** Every 32-bit integer survives printing and parsing. */
  lemma IntRoundTrip(v: nat)
    requires v < TWO_32
    ensures DecodeInt(EncodeInt(v)) == Some(v)
  {
    Limits();
    ValueOfBigEndian(v, Width(v));
  }

  /** The printed form is the shortest of those that are read back as the same integer, three bytes, which the
      printer never uses, aside. */
  lemma ShortestForm(v: nat, b: seq<byte>)
    requires v < TWO_32 && DecodeInt(b) == Some(v)
    ensures |EncodeInt(v)| in {0, 1, 2, 4}
    ensures |EncodeInt(v)| <= |b| || (|b| == 3 && |EncodeInt(v)| == 4)
  {
    ValueBound(b);
    Limits();
  }

  // ---------------------------------------------------------------- the block option

  datatype BlockInfo = BlockInfo(number: int, more: bool, size: int)

  /** log2(size) - 4, cut toward zero, for the sizes on which ToInt asks for it. */
  function ComputeSZX(size: int): int
    requires 1 <= size <= 1024
  {
    if size >= 1024 then 6 else if size >= 512 then 5 else if size >= 256 then 4 else if size >= 128 then 3
    else if size >= 64 then 2 else if size >= 32 then 1 else if size > 8 then 0
    else if size > 4 then -1 else if size > 2 then -2 else if size == 2 then -3 else -4
  }

  function Power2(n: nat): nat { if n == 0 then 1 else 2 * Power2(n - 1) }

  /** The three fields packed into one integer.  A negative exponent overwrites the other fields: the bits
      below it are zero, so the bitwise or of the program is the exponent itself. */
  function ToInt(b: BlockInfo): int {
    if b.size > 1024 || b.size <= 0 then 0
    else
      var szx := ComputeSZX(b.size);
      if szx < 0 then szx else b.number * 16 + (if b.more then 8 else 0) + szx
  }

  function FromInt(v: int): BlockInfo {
    BlockInfo(v / 16, v / 8 % 2 != 0, Power2(v % 8 + 4))
  }

  predicate LegalSize(size: int) { size in {16, 32, 64, 128, 256, 512, 1024} }

  lemma PowersAreSizes(e: nat)
    ensures e < 8 ==> Power2(e + 4) == [16, 32, 64, 128, 256, 512, 1024, 2048][e]
  {
    assert Power2(4) == 16 && Power2(5) == 32 && Power2(6) == 64 && Power2(7) == 128;
    assert Power2(8) == 256 && Power2(9) == 512 && Power2(10) == 1024 && Power2(11) == 2048;
  }

  /** The table is the truncated logarithm: the power of two next to `size` on the side of 16. */
  lemma SzxIsTruncatedLog(size: int)
    requires 1 <= size <= 1024
    ensures var szx := ComputeSZX(size);
            && -4 <= szx <= 6
            && (size >= 16 ==> szx >= 0 && Power2(szx + 4) <= size < Power2(szx + 5))
            && (size < 16 ==> szx <= 0 && size <= Power2(szx + 4) && (szx > -4 ==> Power2(szx + 3) < size))
  {
    PowersAreSizes(0);
    assert Power2(0) == 1 && Power2(1) == 2 && Power2(2) == 4 && Power2(3) == 8;
  }

  lemma Quotient(q: int, d: int, r: int)
    requires 0 <= r < d && d in {2, 8, 16}
    ensures (q * d + r) / d == q && (q * d + r) % d == r
  {
    match d
    case 2 => assert (q * 2 + r) / 2 == q;
    case 8 => assert (q * 8 + r) / 8 == q;
    case _ => assert (q * 16 + r) / 16 == q;
  }

  lemma FieldsUnpack(number: int, more: bool, szx: int)
    requires 0 <= szx < 8
    ensures FromInt(number * 16 + (if more then 8 else 0) + szx) == BlockInfo(number, more, Power2(szx + 4))
  {
    var m := if more then 1 else 0;
    var v := number * 16 + m * 8 + szx;
    assert v / 16 == number by { Quotient(number, 16, m * 8 + szx); }
    assert v == (number * 2 + m) * 8 + szx;
    assert v / 8 == number * 2 + m && v % 8 == szx by { Quotient(number * 2 + m, 8, szx); }
    assert (number * 2 + m) % 2 == m by { Quotient(number, 2, m); }
  }

  /** A block option survives packing and unpacking exactly when its size is a power of two in 16..1024. */
  lemma BlockRoundTrip(b: BlockInfo)
    ensures FromInt(ToInt(b)) == b <==> LegalSize(b.size)
  {
    PowersAreSizes(ToInt(b) % 8);
    if 1 <= b.size <= 1024 {
      var szx := ComputeSZX(b.size);
      if szx >= 0 {
        FieldsUnpack(b.number, b.more, szx);
        PowersAreSizes(szx);
      }
    }
  }

  // ---------------------------------------------------------------- the option on the wire

  /** What the 32-bit conversion of the printer keeps of an integer. */
  function Uint32(v: int): (u: nat)
    ensures u < TWO_32
  {
    v % TWO_32
  }

  /** The number and flag of a 1024-byte block as the peer reads them from the option. */
  function BlockOnWire(number: nat, more: bool): BlockInfo {
    FromInt(Uint32(ToInt(BlockInfo(number, more, 1024))))
  }

  const MAX_BLOCKS := 0x1000_0000

  lemma Packed1024(number: nat, more: bool)
    ensures ToInt(BlockInfo(number, more, 1024)) == (number * 2 + if more then 1 else 0) * 8 + 6
  {
  }

  lemma Unpacked1024(x: nat)
    ensures FromInt(x * 8 + 6) == BlockInfo(x / 2, x % 2 != 0, 1024)
  {
    PowersAreSizes(6);
    assert (x * 8 + 6) % 8 == 6 && (x * 8 + 6) / 8 == x && (x * 8 + 6) / 16 == x / 2;
  }

  lemma Remainder(q: nat, r: nat)
    requires r < TWO_32
    ensures Uint32(q * TWO_32 + r) == r
  {
  }

  /** The number of a block survives the wire exactly when it is below 2^28. */
  lemma NumberSurvives(number: nat, more: bool)
    ensures BlockOnWire(number, more) == BlockInfo(number, more, 1024) <==> number < MAX_BLOCKS
  {
    var x := number * 2 + if more then 1 else 0;
    var (lost, kept) := (x / 0x2000_0000, x % 0x2000_0000);
    assert Uint32(x * 8 + 6) == kept * 8 + 6 by {
      assert x * 8 + 6 == lost * TWO_32 + (kept * 8 + 6);
      Remainder(lost, kept * 8 + 6);
    }
    assert BlockOnWire(number, more) == BlockInfo(kept / 2, kept % 2 != 0, 1024) by {
      Packed1024(number, more);
      Unpacked1024(kept);
    }
    assert x / 2 == number && (x % 2 != 0) == more;
    assert kept == x <==> number < MAX_BLOCKS;
  }
}
