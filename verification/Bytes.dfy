/** Bytes, their bit patterns, and little-endian integers of a fixed width. */
module Bytes {

  type byte = n: int | 0 <= n < 0x100

  function Zeros(n: nat): (bs: seq<byte>)
    ensures |bs| == n && forall i :: 0 <= i < n ==> bs[i] == 0
  {
    seq<byte>(n, i => 0)
  }

  // Bitwise "and" of bytes.

  lemma NextBitPattern(b: bv8)
    requires b < 0xFF
    ensures (b + 1) as int == b as int + 1
  {
  }

  /** The eight bits of a byte. */
  function Bits(b: byte): (bits: bv8)
    ensures bits as int == b
  {
    if b == 0 then
      0
    else
      var previous := Bits(b - 1);
      assert previous < 0xFF by { assert previous as int < 0xFF; }
      NextBitPattern(previous);
      previous + 1
  }

  function And(a: byte, b: byte): byte {
    (Bits(a) & Bits(b)) as int
  }

  /** A mask byte of 0xFF keeps a byte and a mask byte of 0x00 erases it. */
  lemma AndMask(a: byte)
    ensures And(a, 0xFF) == a && And(a, 0) == 0
  {
  }

  lemma {:induction false} BitsInjective(a: byte, b: byte)
    requires Bits(a) == Bits(b)
    ensures a == b
  {
  }

  lemma {:induction false} AndBits(a: byte, b: byte)
    ensures Bits(And(a, b)) == Bits(a) & Bits(b)
  {
    SameValueSameBits(Bits(And(a, b)), Bits(a) & Bits(b));
  }

  lemma SameValueSameBits(x: bv8, y: bv8)
    requires x as int == y as int
    ensures x == y
  {
  }

  // Little-endian integers.

  /** 256 to the power `width`: how many values fit in `width` bytes. */
  function Span(width: nat): (n: nat)
    ensures n >= 1
  {
    if width == 0 then 1 else 0x100 * Span(width - 1)
  }

  function ToLittleEndian(n: nat, width: nat): (bs: seq<byte>)
    requires n < Span(width)
    ensures |bs| == width
  {
    if width == 0 then [] else [n % 0x100] + ToLittleEndian(n / 0x100, width - 1)
  }

  function FromLittleEndian(bs: seq<byte>): (n: nat)
    ensures n < Span(|bs|)
  {
    if bs == [] then 0 else bs[0] + 0x100 * FromLittleEndian(bs[1..])
  }

  lemma {:induction false} LittleEndianRoundTrip(n: nat, width: nat)
    requires n < Span(width)
    ensures FromLittleEndian(ToLittleEndian(n, width)) == n
  {
    if width > 0 {
      LittleEndianRoundTrip(n / 0x100, width - 1);
      assert ToLittleEndian(n, width)[1..] == ToLittleEndian(n / 0x100, width - 1);
    }
  }

  lemma {:induction false} LittleEndianInverse(bs: seq<byte>)
    ensures ToLittleEndian(FromLittleEndian(bs), |bs|) == bs
  {
    if bs != [] {
      var n := FromLittleEndian(bs);
      LittleEndianInverse(bs[1..]);
      assert n % 0x100 == bs[0] && n / 0x100 == FromLittleEndian(bs[1..]);
      assert ToLittleEndian(n, |bs|) == [bs[0]] + ToLittleEndian(n / 0x100, |bs| - 1);
    }
  }

  // What little-endian means, place by place.

  lemma TimesMore(d: nat, a: nat, b: nat)
    ensures a < b ==> d * a + d <= d * b
  {
    if a < b {
      assert d * (a + 1) <= d * b;
    }
  }

  lemma Quotient(n: nat, d: nat, q: nat, r: nat)
    requires n == d * q + r && r < d
    ensures n / d == q
  {
    TimesMore(d, n / d, q);
    TimesMore(d, q, n / d);
  }

  lemma TimesPage(a: nat, b: nat)
    ensures a * (0x100 * b) == 0x100 * (a * b) == (0x100 * a) * b
  {
  }

  lemma DivideByPages(n: nat, e: nat)
    requires e > 0
    ensures n / (0x100 * e) == n / 0x100 / e
  {
    var m := n / 0x100;
    var q, r := m / e, m % e;
    assert m == e * q + r;
    TimesPage(e, q);
    Quotient(n, 0x100 * e, q, 0x100 * r + n % 0x100);
  }

  /** The byte at `i` is the integer's digit of weight 256 to the power `i`: the least one comes first. */
  lemma {:induction false} LittleEndianAt(n: nat, width: nat, i: nat)
    requires n < Span(width) && i < width
    ensures ToLittleEndian(n, width)[i] == n / Span(i) % 0x100
  {
    if i > 0 {
      LittleEndianAt(n / 0x100, width - 1, i - 1);
      DivideByPages(n, Span(i - 1));
    }
  }

  /** The sum of the first `n` bytes, each times 256 to the power of its place. */
  function WeightedSum(bs: seq<byte>, n: nat): nat
    requires n <= |bs|
  {
    if n == 0 then 0 else WeightedSum(bs, n - 1) + bs[n - 1] * Span(n - 1)
  }

  lemma {:induction false} WeightedSumShift(bs: seq<byte>, n: nat)
    requires 1 <= n <= |bs|
    ensures WeightedSum(bs, n) == bs[0] + 0x100 * WeightedSum(bs[1..], n - 1)
  {
    if n > 1 {
      WeightedSumShift(bs, n - 1);
      TimesPage(bs[n - 1], Span(n - 2));
    }
  }

  /** The integer read is the weighted sum of the bytes. */
  lemma {:induction false} LittleEndianSum(bs: seq<byte>)
    ensures FromLittleEndian(bs) == WeightedSum(bs, |bs|)
  {
    if bs != [] {
      LittleEndianSum(bs[1..]);
      WeightedSumShift(bs, |bs|);
    }
  }

  /** Signed integers are stored in two's complement. */
  function Unsigned(i: int, width: nat): (n: nat)
    requires -2 * i <= Span(width) && 2 * i < Span(width)
    ensures n < Span(width)
  {
    if i < 0 then i + Span(width) else i
  }

  function Signed(n: nat, width: nat): (i: int)
    requires n < Span(width)
    ensures -2 * i <= Span(width) && 2 * i < Span(width)
  {
    if 2 * n < Span(width) then n else n - Span(width)
  }

  lemma {:induction false} SignedRoundTrip(i: int, n: nat, width: nat)
    requires width > 0
    requires -2 * i <= Span(width) && 2 * i < Span(width)
    requires n < Span(width)
    ensures Signed(Unsigned(i, width), width) == i
    ensures Unsigned(Signed(n, width), width) == n
  {
  }
}
