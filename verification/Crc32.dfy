/**
  CRC-32 (section 3.2.9 of IEEE 802.3), as used for GUID partition tables.

  A 32-bit register is the sequence of its bits in transmission order: least significant bit first
  for the little-endian form, most significant bit first for the big-endian form.  In this order
  `crc >> 1` of the first form and `crc << 1` of the second are the same shift, and both
  polynomial constants denote the same sequence; only table indices are read differently.
 */
module Crc32 {

  type Bits = seq<bool>

  /** Bits in a byte, and steps of the register for it. */
  const BYTE: nat := 8

  type Word = w: Bits | |w| == 32 witness Zeros(32)

  /** A byte, bits in the same order. */
  datatype Byte = Byte(b0: bool, b1: bool, b2: bool, b3: bool, b4: bool, b5: bool, b6: bool, b7: bool) {
    function Bits(): (r: Bits)
      ensures |r| == 8
    {
      [b0, b1, b2, b3, b4, b5, b6, b7]
    }
  }

  function Zeros(n: nat): (z: Bits)
    ensures |z| == n && forall i | 0 <= i < n :: !z[i]
  {
    seq(n, _ => false)
  }

  function Xor(a: Bits, b: Bits): (r: Bits)
    requires |a| == |b|
    ensures |r| == |a| && forall i | 0 <= i < |a| :: r[i] == (a[i] != b[i])
  {
    seq(|a|, i requires 0 <= i < |a| => a[i] != b[i])
  }

  /** Bits of a hexadecimal digit, least significant first. */
  function Digit(d: nat): Bits {
    [d % 2 == 1, d / 2 % 2 == 1, d / 4 % 2 == 1, d / 8 % 2 == 1]
  }

  /** The same, most significant first. */
  function DigitMsb(d: nat): Bits {
    [d / 8 % 2 == 1, d / 4 % 2 == 1, d / 2 % 2 == 1, d % 2 == 1]
  }

  /** CRCPOLY_LE = 0xedb88320, least significant bit first. */
  const POLY: Word :=
    Digit(0x0) + Digit(0x2) + Digit(0x3) + Digit(0x8) + Digit(0x8) + Digit(0xb) + Digit(0xd) + Digit(0xe)

  /** CRCPOLY_BE = 0x04c11db7, most significant bit first. */
  const POLY_BE: Word :=
    DigitMsb(0x0) + DigitMsb(0x4) + DigitMsb(0xc) + DigitMsb(0x1) +
    DigitMsb(0x1) + DigitMsb(0xd) + DigitMsb(0xb) + DigitMsb(0x7)

  /** Both constants are the same polynomial. */
  lemma PolynomialsAgree()
    ensures POLY == POLY_BE
  {
    assert Digit(0x0) == DigitMsb(0x0) && Digit(0x2) == DigitMsb(0x4) && Digit(0x3) == DigitMsb(0xc);
    assert Digit(0x8) == DigitMsb(0x1) && Digit(0xb) == DigitMsb(0xd) && Digit(0xd) == DigitMsb(0xb);
    assert Digit(0xe) == DigitMsb(0x7);
  }

  lemma LastPolyBit()
    ensures POLY[31]
  {
    assert POLY[31] == Digit(0xe)[3];
  }

  /** One step of the shift register. */
  function Shift(c: Word): Word {
    var s: Word := c[1..] + [false];
    if c[0] then Xor(s, POLY) else s
  }

  function Shifts(c: Word, n: nat): Word
    decreases n
  {
    if n == 0 then c else Shifts(Shift(c), n - 1)
  }

  /** The register with a byte folded into its first eight bits. */
  function FoldIn(c: Word, b: Byte): Word { Xor(c, b.Bits() + Zeros(24)) }

  /** One step for each of a byte's bits. */
  function Feed(c: Word, b: Byte): Word { Shifts(FoldIn(c, b), |b.Bits()|) }

  /** The bitwise definition. */
  function Crc(seed: Word, buf: seq<Byte>): Word
    decreases |buf|
  {
    if buf == [] then seed else Feed(Crc(seed, buf[..|buf| - 1]), buf[|buf| - 1])
  }

  // ---------------------------------------------------------------- algebra

  lemma ShiftXor(a: Word, b: Word)
    ensures Shift(Xor(a, b)) == Xor(Shift(a), Shift(b))
  {
  }

  lemma {:induction false} ShiftsXor(a: Word, b: Word, n: nat)
    ensures Shifts(Xor(a, b), n) == Xor(Shifts(a, n), Shifts(b, n))
    decreases n
  {
    if n > 0 {
      ShiftXor(a, b);
      ShiftsXor(Shift(a), Shift(b), n - 1);
    }
  }

  lemma {:induction false} ShiftsAdd(c: Word, m: nat, n: nat)
    ensures Shifts(c, m + n) == Shifts(Shifts(c, m), n)
    decreases m
  {
    if m > 0 {
      ShiftsAdd(Shift(c), m - 1, n);
    }
  }

  /** The shift loses nothing: the polynomial's last bit tells what fell out. */
  lemma ShiftInjective(a: Word, b: Word)
    requires Shift(a) == Shift(b)
    ensures a == b
  {
    LastPolyBit();
    ShiftBit(a, 31);
    ShiftBit(b, 31);
    forall i | 1 <= i < 32
      ensures a[i] == b[i]
    {
      ShiftBit(a, i - 1);
      ShiftBit(b, i - 1);
    }
  }

  lemma ShiftBit(c: Word, i: nat)
    requires i < 32
    ensures Shift(c)[i] == ((i < 31 && c[i + 1]) != (c[0] && POLY[i]))
  {
  }

  lemma {:induction false} ShiftsInjective(a: Word, b: Word, n: nat)
    requires Shifts(a, n) == Shifts(b, n)
    ensures a == b
    decreases n
  {
    if n > 0 {
      ShiftsInjective(Shift(a), Shift(b), n - 1);
      ShiftInjective(a, b);
    }
  }

  /** Leading zeros are shifted out without touching the rest. */
  lemma {:induction false} ShiftOutZeros(z: nat, rest: Bits, n: nat)
    requires |rest| + n + z == 32
    ensures Shifts(Zeros(n) + rest + Zeros(z), n) == rest + Zeros(z + n)
    decreases n
  {
    var w: Word := Zeros(n) + rest + Zeros(z);
    if n == 0 {
      assert w == rest + Zeros(z + n);
    } else {
      assert Shift(w) == Zeros(n - 1) + rest + Zeros(z + 1);
      ShiftOutZeros(z + 1, rest, n - 1);
    }
  }

  /** Eight shifts act on the first eight bits alone; the others only move up. */
  lemma SplitByte(c: Word)
    ensures Shifts(c, BYTE) == Xor(c[8..] + Zeros(8), Shifts(c[..8] + Zeros(24), BYTE))
  {
    var high: Word := Zeros(8) + c[8..];
    var low: Word := c[..8] + Zeros(24);
    assert c == Xor(high, low);
    ShiftsXor(high, low, BYTE);
    ShiftOutZeros(0, c[8..], BYTE);
    assert high == Zeros(8) + c[8..] + Zeros(0);
  }

  /** Folding a byte into the register after eight shifts is folding it in one byte later. */
  lemma FoldLater(c: Word, p: Bits)
    requires |p| == 24
    ensures Xor(Shifts(c, BYTE), p + Zeros(8)) == Shifts(Xor(c, Zeros(8) + p), BYTE)
  {
    ShiftsXor(c, Zeros(8) + p, BYTE);
    ShiftOutZeros(0, p, BYTE);
    assert Zeros(8) + p == Zeros(8) + p + Zeros(0);
  }

  // ---------------------------------------------------------------- properties of the checksum

  function Fold<S, B>(step: (S, B) -> S, s: S, buf: seq<B>): S
    decreases |buf|
  {
    if buf == [] then s else step(Fold(step, s, buf[..|buf| - 1]), buf[|buf| - 1])
  }

  lemma {:induction false} FoldConcat<S, B>(step: (S, B) -> S, s: S, a: seq<B>, b: seq<B>)
    ensures Fold(step, s, a + b) == Fold(step, Fold(step, s, a), b)
    decreases |b|
  {
    if b == [] {
      assert a + b == a;
    } else {
      var n := |b| - 1;
      FoldConcat(step, s, a, b[..n]);
      assert (a + b)[..|a + b| - 1] == a + b[..n];
    }
  }

  lemma {:induction false} CrcIsFold(seed: Word, buf: seq<Byte>)
    ensures Crc(seed, buf) == Fold((c: Word, x: Byte) => Feed(c, x), seed, buf)
    decreases |buf|
  {
    if buf != [] {
      CrcIsFold(seed, buf[..|buf| - 1]);
    }
  }

  /** The checksum can be computed piecewise. */
  lemma CrcConcat(seed: Word, a: seq<Byte>, b: seq<Byte>)
    ensures Crc(seed, a + b) == Crc(Crc(seed, a), b)
  {
    var step := (c: Word, x: Byte) => Feed(c, x);
    CrcIsFold(seed, a);
    CrcIsFold(seed, a + b);
    CrcIsFold(Fold(step, seed, a), b);
    FoldConcat(step, seed, a, b);
  }

  lemma XorCancels(a: Word, b: Word, c: Word)
    requires Xor(c, a) == Xor(c, b)
    ensures a == b
  {
    forall i | 0 <= i < 32
      ensures a[i] == b[i]
    {
      assert Xor(c, a)[i] == (c[i] != a[i]) && Xor(c, b)[i] == (c[i] != b[i]);
    }
  }

  /** Different registers stay different, whatever is fed to both. */
  lemma {:induction false} CrcInjectiveInSeed(c: Word, d: Word, buf: seq<Byte>)
    requires Crc(c, buf) == Crc(d, buf)
    ensures c == d
    decreases |buf|
  {
    if buf != [] {
      var n := |buf| - 1;
      var x, y := Crc(c, buf[..n]), Crc(d, buf[..n]);
      var b := buf[n];
      ShiftsInjective(FoldIn(x, b), FoldIn(y, b), BYTE);
      forall i | 0 <= i < 32
        ensures x[i] == y[i]
      {
        assert FoldIn(x, b)[i] == (x[i] != (b.Bits() + Zeros(24))[i]) &&
               FoldIn(y, b)[i] == (y[i] != (b.Bits() + Zeros(24))[i]);
      }
      assert x == y;
      CrcInjectiveInSeed(c, d, buf[..n]);
    }
  }

  lemma XorRegroup(c: Word, b: Byte, p: Bits)
    requires |p| == 24
    ensures Xor(FoldIn(c, b), Zeros(8) + p) == Xor(c, b.Bits() + p)
  {
  }

  /** Feeding byte b and folding p in afterwards is folding b and p in at once and shifting. */
  lemma FeedThenFold(c: Word, b: Byte, p: Bits)
    requires |p| == 24
    ensures Xor(Feed(c, b), p + Zeros(8)) == Shifts(Xor(c, b.Bits() + p), BYTE)
  {
    FoldLater(FoldIn(c, b), p);
    XorRegroup(c, b, p);
  }

  function Pack(a: Byte, b: Byte, d: Byte, e: Byte): Word {
    a.Bits() + b.Bits() + d.Bits() + e.Bits()
  }

  lemma Unpack(a: Byte, b: Byte, d: Byte, e: Byte)
    ensures var x := Pack(a, b, d, e);
            a.Bits() == x[..8] && b.Bits() == x[8..16] && d.Bits() == x[16..24] && e.Bits() == x[24..]
  {
  }

  lemma SameBits(a: Byte, b: Byte)
    requires a.Bits() == b.Bits()
    ensures a == b
  {
    var p, q := a.Bits(), b.Bits();
    assert p[0] == q[0] && p[1] == q[1] && p[2] == q[2] && p[3] == q[3];
    assert p[4] == q[4] && p[5] == q[5] && p[6] == q[6] && p[7] == q[7];
  }

  lemma PackInjective(a: Byte, b: Byte, d: Byte, e: Byte, a': Byte, b': Byte, d': Byte, e': Byte)
    requires Pack(a, b, d, e) == Pack(a', b', d', e')
    ensures a == a' && b == b' && d == d' && e == e'
  {
    Unpack(a, b, d, e);
    Unpack(a', b', d', e');
    SameBits(a, a');
    SameBits(b, b');
    SameBits(d, d');
    SameBits(e, e');
  }

  /** What is still to be folded in after each of the four bytes. */
  function Rest1(b: Byte, d: Byte, e: Byte): (r: Bits) ensures |r| == 24 { b.Bits() + d.Bits() + e.Bits() }
  function Rest2(d: Byte, e: Byte): (r: Bits) ensures |r| == 24 { d.Bits() + e.Bits() + Zeros(8) }
  function Rest3(e: Byte): (r: Bits) ensures |r| == 24 { e.Bits() + Zeros(16) }

  lemma Rests(a: Byte, b: Byte, d: Byte, e: Byte)
    ensures a.Bits() + Rest1(b, d, e) == Pack(a, b, d, e)
    ensures b.Bits() + Rest2(d, e) == Rest1(b, d, e) + Zeros(8)
    ensures d.Bits() + Rest3(e) == Rest2(d, e) + Zeros(8)
    ensures e.Bits() + Zeros(24) == Rest3(e) + Zeros(8)
  {
  }

  /** Four bytes act as one 32-bit word folded in before 32 shifts. */
  lemma FourBytes(c: Word, a: Byte, b: Byte, d: Byte, e: Byte)
    ensures Crc(c, [a, b, d, e]) == Shifts(Xor(c, Pack(a, b, d, e)), 4 * BYTE)
  {
    Rests(a, b, d, e);
    var c1 := Feed(c, a);
    FeedThenFold(c, a, Rest1(b, d, e));
    var c2 := Feed(c1, b);
    FeedThenFold(c1, b, Rest2(d, e));
    FeedThenFold(c2, d, Rest3(e));
    CrcOfFour(c, a, b, d, e);
    ThreeMore(Xor(c, Pack(a, b, d, e)));
  }

  lemma ThreeMore(w: Word)
    ensures Shifts(w, 4 * BYTE) == Shifts(Shifts(Shifts(Shifts(w, BYTE), BYTE), BYTE), BYTE)
  {
    ShiftsAdd(w, BYTE, 3 * BYTE);
    ShiftsAdd(Shifts(w, BYTE), BYTE, 2 * BYTE);
    ShiftsAdd(Shifts(Shifts(w, BYTE), BYTE), BYTE, BYTE);
  }

  lemma CrcOfFour(c: Word, a: Byte, b: Byte, d: Byte, e: Byte)
    ensures Crc(c, [a, b, d, e]) == Feed(Feed(Feed(Feed(c, a), b), d), e)
  {
    assert [a, b, d, e][..3] == [a, b, d] && [a, b, d][..2] == [a, b] && [a, b][..1] == [a] && [a][..0] == [];
    assert Crc(c, [a]) == Feed(c, a);
    assert Crc(c, [a, b]) == Feed(Feed(c, a), b);
    assert Crc(c, [a, b, d]) == Feed(Feed(Feed(c, a), b), d);
  }

  lemma FourDetected(c: Word, a: Byte, b: Byte, d: Byte, e: Byte, a': Byte, b': Byte, d': Byte, e': Byte)
    requires Crc(c, [a, b, d, e]) == Crc(c, [a', b', d', e'])
    ensures a == a' && b == b' && d == d' && e == e'
  {
    FourBytes(c, a, b, d, e);
    FourBytes(c, a', b', d', e');
    var x, y := Pack(a, b, d, e), Pack(a', b', d', e');
    ShiftsInjective(Xor(c, x), Xor(c, y), 4 * BYTE);
    XorCancels(x, y, c);
    PackInjective(a, b, d, e, a', b', d', e');
  }

  lemma WindowDetected(c: Word, v: seq<Byte>, w: seq<Byte>)
    requires |v| == |w| == 4 && Crc(c, v) == Crc(c, w)
    ensures v == w
  {
    FourElements(v);
    FourElements(w);
    FourDetected(c, v[0], v[1], v[2], v[3], w[0], w[1], w[2], w[3]);
  }

  lemma FourElements<T>(s: seq<T>)
    requires |s| == 4
    ensures s == [s[0], s[1], s[2], s[3]]
  {
  }

  lemma ThreeParts<T>(s: seq<T>, i: nat, j: nat)
    requires i <= j <= |s|
    ensures s == s[..i] + s[i..j] + s[j..]
  {
  }

  lemma SamePadding<T>(a: seq<T>, b: seq<T>, pad: seq<T>, i: nat, j: nat)
    requires |a| == |b| && i <= j <= |pad|
    requires forall k | 0 <= k < |a| && !(i <= k < j) :: a[k] == b[k]
    ensures (a + pad)[..i] == (b + pad)[..i] && (a + pad)[j..] == (b + pad)[j..]
    ensures a + pad == b + pad ==> a == b
  {
    assert a == (a + pad)[..|a|] && b == (b + pad)[..|b|];
  }

  /** The same state before, the same bytes after: equal checksums mean equal windows. */
  lemma BurstBetween(seed: Word, pre: seq<Byte>, v: seq<Byte>, w: seq<Byte>, post: seq<Byte>)
    requires |v| == |w| == 4 && Crc(seed, pre + v + post) == Crc(seed, pre + w + post)
    ensures v == w
  {
    CrcConcat(seed, pre + v, post);
    CrcConcat(seed, pre + w, post);
    CrcInjectiveInSeed(Crc(seed, pre + v), Crc(seed, pre + w), post);
    CrcConcat(seed, pre, v);
    CrcConcat(seed, pre, w);
    WindowDetected(Crc(seed, pre), v, w);
  }

  lemma BurstInside(seed: Word, a: seq<Byte>, b: seq<Byte>, i: nat, j: nat)
    requires |a| == |b| && j == i + 4 <= |a|
    requires a[..i] == b[..i] && a[j..] == b[j..] && Crc(seed, a) == Crc(seed, b)
    ensures a == b
  {
    ThreeParts(a, i, j);
    ThreeParts(b, i, j);
    BurstBetween(seed, a[..i], a[i..j], b[i..j], a[j..]);
  }

  /** Buffers that differ, but only inside four consecutive bytes, have different checksums. */
  lemma {:induction false} BurstDetected(seed: Word, a: seq<Byte>, b: seq<Byte>, i: nat)
    requires |a| == |b| && a != b
    requires forall k | 0 <= k < |a| && !(i <= k < i + 4) :: a[k] == b[k]
    ensures Crc(seed, a) != Crc(seed, b)
  {
    if Crc(seed, a) == Crc(seed, b) {
      EqualWhenPadded(seed, a, b, i, seq(i + 4, _ => Byte(false, false, false, false, false, false, false, false)));
    }
  }

  /** Equal checksums stay equal for longer buffers with the same tail, where the window is complete. */
  lemma EqualWhenPadded(seed: Word, a: seq<Byte>, b: seq<Byte>, i: nat, pad: seq<Byte>)
    requires |a| == |b| && |pad| == i + 4 && Crc(seed, a) == Crc(seed, b)
    requires forall k | 0 <= k < |a| && !(i <= k < i + 4) :: a[k] == b[k]
    ensures a == b
  {
    CrcConcat(seed, a, pad);
    CrcConcat(seed, b, pad);
    SamePadding(a, b, pad, i, i + 4);
    BurstInside(seed, a + pad, b + pad, i, i + 4);
  }

  // ---------------------------------------------------------------- the EFI checksum

  function Ones(): Word { seq(32, _ => true) }

  /** efi_crc32: all bits set before, all bits inverted after. */
  function EfiCrc(buf: seq<Byte>): Word { Xor(Crc(Ones(), buf), Ones()) }

  /** The EFI checksum detects every change inside four consecutive bytes. */
  lemma {:induction false} EfiBurstDetected(a: seq<Byte>, b: seq<Byte>, i: nat)
    requires |a| == |b| && a != b
    requires forall k | 0 <= k < |a| && !(i <= k < i + 4) :: a[k] == b[k]
    ensures EfiCrc(a) != EfiCrc(b)
  {
    BurstDetected(Ones(), a, b, i);
    if EfiCrc(a) == EfiCrc(b) {
      XorCancelsLeft(Crc(Ones(), a), Crc(Ones(), b), Ones());
    }
  }

  lemma XorCancelsLeft(a: Word, b: Word, c: Word)
    requires Xor(a, c) == Xor(b, c)
    ensures a == b
  {
    forall i | 0 <= i < 32
      ensures a[i] == b[i]
    {
      assert Xor(a, c)[i] == (a[i] != c[i]) && Xor(b, c)[i] == (b[i] != c[i]);
    }
  }

  // ---------------------------------------------------------------- check values

  /** The generating polynomial, by the exponents of section 3.2.9: the first bit belongs to the highest power. */
  lemma GeneratorExponents()
    ensures forall i | 0 <= i < 32 ::
              POLY[i] <==> 31 - i in [26, 23, 22, 16, 12, 11, 10, 8, 7, 5, 4, 2, 1, 0]
  {
    assert POLY[0..16] == Digit(0x0) + Digit(0x2) + Digit(0x3) + Digit(0x8);
    assert POLY[16..32] == Digit(0x8) + Digit(0xb) + Digit(0xd) + Digit(0xe);
    forall i | 0 <= i < 32
      ensures POLY[i] <==> 31 - i in [26, 23, 22, 16, 12, 11, 10, 8, 7, 5, 4, 2, 1, 0]
    {
      if i < 16 {
        FirstHalf(i);
      } else {
        SecondHalf(i);
      }
    }
  }

  lemma FirstHalf(i: nat)
    requires i < 16
    ensures POLY[i] <==> i == 5 || i == 8 || i == 9 || i == 15
  {
    assert POLY[i] == [Digit(0x0), Digit(0x2), Digit(0x3), Digit(0x8)][i / 4][i % 4];
  }

  lemma SecondHalf(i: nat)
    requires 16 <= i < 32
    ensures POLY[i] <==> i == 19 || i == 20 || i == 21 || i == 23 || i == 24 || i == 26 || i == 27 || i >= 29
  {
    assert POLY[i] == [Digit(0x8), Digit(0xb), Digit(0xd), Digit(0xe)][i / 4 - 4][i % 4];
  }

  const FF: Byte := Byte(true, true, true, true, true, true, true, true)

  /** The checksum of nothing is zero, that of four bytes with all bits set has all bits set. */
  lemma EfiCheckValues()
    ensures EfiCrc([]) == Zeros(32)
    ensures EfiCrc([FF, FF, FF, FF]) == Ones()
  {
    OnesCancel();
    FourBytes(Ones(), FF, FF, FF, FF);
    AllOnes();
    ZerosStay(4 * BYTE);
  }

  lemma OnesCancel()
    ensures Xor(Ones(), Ones()) == Zeros(32) && Xor(Zeros(32), Ones()) == Ones()
  {
  }

  lemma AllOnes()
    ensures Pack(FF, FF, FF, FF) == Ones()
  {
    assert forall i | 0 <= i < 8 :: FF.Bits()[i];
  }

  lemma {:induction false} ZerosStay(n: nat)
    ensures Shifts(Zeros(32), n) == Zeros(32)
  {
    if n > 0 {
      assert Shift(Zeros(32)) == Zeros(32);
      ZerosStay(n - 1);
    }
  }

  /** A single bit that is sent last leaves the polynomial in the register. */
  lemma LastBitLeavesPoly()
    ensures Crc(Zeros(32), [Byte(false, false, false, false, false, false, false, true)]) == POLY
  {
    var b := Byte(false, false, false, false, false, false, false, true);
    var rest := [true] + Zeros(24);
    var w: Word, x: Word := Zeros(7) + rest + Zeros(0), rest + Zeros(7);
    assert FoldIn(Zeros(32), b) == w;
    ShiftsAdd(w, 7, 1);
    ShiftOutZeros(0, rest, 7);
    assert x == [true] + Zeros(31);
    OneShift(x);
    assert [b][..0] == [] && Crc(Zeros(32), [b]) == Feed(Zeros(32), b);
  }

  lemma OneShift(x: Word)
    requires x == [true] + Zeros(31)
    ensures Shifts(x, 1) == POLY
  {
    assert x[1..] + [false] == Zeros(32);
    assert Shift(x) == POLY;
    assert Shifts(x, 1) == Shifts(Shift(x), 0);
  }
}

/** The lookup tables and the table-driven loops. */
module CrcTables {
  import opened Crc32

  function Pow2(e: nat): (p: nat)
    ensures p > 0
  {
    if e == 0 then 1 else 2 * Pow2(e - 1)
  }

  /** The lowest n bits of k, least significant first. */
  function FromNat(k: nat, n: nat): (s: Bits)
    ensures |s| == n
  {
    if n == 0 then [] else [k % 2 == 1] + FromNat(k / 2, n - 1)
  }

  function ToNat(s: Bits): (k: nat)
    ensures k < Pow2(|s|)
  {
    if s == [] then 0 else (if s[0] then 1 else 0) + 2 * ToNat(s[1..])
  }

  lemma {:induction false} FromToNat(s: Bits)
    ensures FromNat(ToNat(s), |s|) == s
  {
    if s != [] {
      FromToNat(s[1..]);
      assert ToNat(s) / 2 == ToNat(s[1..]);
      assert s == [s[0]] + s[1..];
    }
  }

  lemma {:induction false} TopBitZero(k: nat, n: nat)
    requires k < Pow2(n)
    ensures FromNat(k, n + 1) == FromNat(k, n) + [false]
  {
    if n > 0 {
      TopBitZero(k / 2, n - 1);
    }
  }

  lemma {:induction false} ZeroBits(n: nat)
    ensures FromNat(0, n) == Zeros(n)
  {
    if n > 0 {
      ZeroBits(n - 1);
    }
  }

  lemma XorCons(x: bool, a: Bits, y: bool, b: Bits)
    requires |a| == |b|
    ensures Xor([x] + a, [y] + b) == [x != y] + Xor(a, b)
  {
  }

  lemma XorZeros(a: Bits)
    ensures Xor(a, Zeros(|a|)) == a && Xor(Zeros(|a|), a) == a
  {
  }

  lemma BitsCons(k: nat, n: nat)
    requires n > 0
    ensures FromNat(k, n) == [k % 2 == 1] + FromNat(k / 2, n - 1)
  {
  }

  lemma Twice(p: nat, q: nat)
    ensures 2 * p * q == 2 * (p * q)
  {
  }

  lemma LowSum(e: nat, i: nat, m: nat, j: nat)
    requires i == Pow2(e) && j == 2 * m
    ensures j % 2 == 0 && (i + j) % 2 == i % 2 && j / 2 == m
    ensures e == 0 ==> i == 1 && (i + j) / 2 == j / 2
    ensures e > 0 ==> i / 2 == Pow2(e - 1) && (i + j) / 2 == i / 2 + m
  {
  }

  /** Adding a bit below all set bits sets just that bit. */
  lemma {:induction false} AddLowBit(e: nat, q: nat, n: nat)
    ensures FromNat(Pow2(e) + Pow2(e + 1) * q, n) == Xor(FromNat(Pow2(e), n), FromNat(Pow2(e + 1) * q, n))
    decreases n
  {
    if n > 0 {
      var i, j := Pow2(e), Pow2(e + 1) * q;
      Twice(Pow2(e), q);
      LowSum(e, i, Pow2(e) * q, j);
      BitsCons(i + j, n);
      BitsCons(i, n);
      BitsCons(j, n);
      if e == 0 {
        ZeroBits(n - 1);
        XorZeros(FromNat(j / 2, n - 1));
      } else {
        AddLowBit(e - 1, q, n - 1);
      }
      XorCons(i % 2 == 1, FromNat(i / 2, n - 1), j % 2 == 1, FromNat(j / 2, n - 1));
    }
  }

  lemma HighSum(e: nat, i: nat, j: nat)
    requires i == Pow2(e) && j < i
    ensures e == 0 ==> j == 0
    ensures e > 0 ==>
            i % 2 == 0 && i / 2 == Pow2(e - 1) && j / 2 < i / 2 && (i + j) / 2 == i / 2 + j / 2 && (i + j) % 2 == j % 2
  {
  }

  /** Adding a bit above all set bits sets just that bit. */
  lemma {:induction false} AddHighBit(e: nat, j: nat, n: nat)
    requires j < Pow2(e)
    ensures FromNat(Pow2(e) + j, n) == Xor(FromNat(Pow2(e), n), FromNat(j, n))
    decreases n
  {
    if n > 0 {
      var i := Pow2(e);
      HighSum(e, i, j);
      if e == 0 {
        ZeroBits(n);
        XorZeros(FromNat(i, n));
      } else {
        BitsCons(i + j, n);
        BitsCons(i, n);
        BitsCons(j, n);
        AddHighBit(e - 1, j / 2, n - 1);
        XorCons(i % 2 == 1, FromNat(i / 2, n - 1), j % 2 == 1, FromNat(j / 2, n - 1));
      }
    }
  }

  // ---------------------------------------------------------------- little-endian table

  /** The register holding table index k. */
  function LeWord(k: nat): Word { FromNat(k, BYTE) + Zeros(24) }

  /** What a table entry must be: the index shifted eight times. */
  function LeEntry(k: nat): Word { Shifts(LeWord(k), BYTE) }

  lemma XorWords(a: Bits, b: Bits)
    requires |a| == |b| == 8
    ensures Xor(a + Zeros(24), b + Zeros(24)) == Xor(a, b) + Zeros(24)
  {
  }

  lemma EntrySum(a: Bits, b: Bits)
    requires |a| == |b| == 8
    ensures Shifts(Xor(a, b) + Zeros(24), BYTE) == Xor(Shifts(a + Zeros(24), BYTE), Shifts(b + Zeros(24), BYTE))
  {
    XorWords(a, b);
    ShiftsXor(a + Zeros(24), b + Zeros(24), BYTE);
  }

  lemma LeEntryAdd(e: nat, q: nat)
    ensures LeEntry(Pow2(e) + Pow2(e + 1) * q) == Xor(LeEntry(Pow2(e)), LeEntry(Pow2(e + 1) * q))
  {
    AddLowBit(e, q, BYTE);
    EntrySum(FromNat(Pow2(e), BYTE), FromNat(Pow2(e + 1) * q, BYTE));
  }

  /** Shifting the index 2m gives the index m. */
  lemma LeHalf(m: nat)
    requires m < 128
    ensures Shift(LeWord(2 * m)) == LeWord(m)
  {
    assert Pow2(7) == 128;
    TopBitZero(m, BYTE - 1);
    assert FromNat(2 * m, BYTE) == [false] + FromNat(m, BYTE - 1);
    var r := FromNat(m, BYTE - 1) + Zeros(24);
    assert LeWord(2 * m) == [false] + r;
    ShiftFalse(r);
    assert LeWord(m) == r + [false];
  }

  lemma ShiftFalse(r: Bits)
    requires |r| == 31
    ensures Shift([false] + r) == r + [false]
  {
    assert ([false] + r)[1..] == r;
  }

  lemma LeStart()
    ensures Shifts(LeWord(128), BYTE - 1) == [true] + Zeros(31)
  {
    ShiftOutZeros(24, [true], BYTE - 1);
    assert Pow2(7) == 128;
    HighBitAlone(BYTE - 1);
    assert LeWord(128) == Zeros(7) + [true] + Zeros(24);
  }

  lemma {:induction false} HighBitAlone(e: nat)
    ensures FromNat(Pow2(e), e + 1) == Zeros(e) + [true]
  {
    if e == 0 {
      assert FromNat(1, 1) == [true] + FromNat(0, 0);
    } else {
      HighBitAlone(e - 1);
      assert Zeros(e) == [false] + Zeros(e - 1);
    }
  }

  /** One more shift than seven: the recurrence of the init loops. */
  lemma OneMore(c: Word)
    ensures Shift(Shifts(c, BYTE - 1)) == Shifts(c, BYTE)
  {
    ShiftsAdd(c, BYTE - 1, 1);
    assert Shifts(Shifts(c, BYTE - 1), 1) == Shift(Shifts(c, BYTE - 1));
  }

  function Idx(e: nat, m: nat): nat { Pow2(e) * m }

  /** The table agrees with `want` at every multiple of 2^e. */
  ghost predicate Filled(table: seq<Word>, want: seq<Word>, e: nat) {
    |table| == |want| == 256 && e <= 8 &&
    forall m {:trigger Idx(e, m)} | 0 <= m < Pow2(8 - e) :: Idx(e, m) < 256 && table[Idx(e, m)] == want[Idx(e, m)]
  }

  lemma {:induction false} Pow2Product(e: nat, f: nat)
    ensures Pow2(e) * Pow2(f) == Pow2(e + f)
  {
    if e > 0 {
      Pow2Product(e - 1, f);
      Twice(Pow2(e - 1), Pow2(f));
    }
  }

  lemma IdxBelow(e: nat, m: nat)
    requires e <= 8
    ensures m < Pow2(8 - e) <==> Idx(e, m) < 256
  {
    Pow2Product(e, 8 - e);
    assert Pow2(8) == 256;
    if m < Pow2(8 - e) {
      MulLess(Pow2(e), m, Pow2(8 - e));
    } else {
      MulLessEq(Pow2(e), Pow2(8 - e), m);
    }
  }

  lemma MulLess(p: nat, a: nat, b: nat)
    requires p > 0 && a < b
    ensures p * a < p * b
  {
  }

  lemma MulLessEq(p: nat, a: nat, b: nat)
    requires a <= b
    ensures p * a <= p * b
  {
  }

  lemma IdxHalves(e: nat, m: nat)
    ensures Idx(e, 2 * m) == Idx(e + 1, m)
    ensures Idx(e, 2 * m + 1) == Idx(e + 1, m) + Pow2(e)
  {
    MulTwice(Pow2(e), m);
    assert Pow2(e + 1) == 2 * Pow2(e);
  }

  lemma MulTwice(p: nat, m: nat)
    ensures p * (2 * m) == 2 * p * m
    ensures p * (2 * m + 1) == 2 * p * m + p
  {
  }

  /** When the odd multiples are filled in as well, the next level is complete. */
  lemma NextLevel(table: seq<Word>, want: seq<Word>, e: nat)
    requires e < 8 && Filled(table, want, e + 1) && OddFilled(table, want, e, Pow2(7 - e))
    ensures Filled(table, want, e)
  {
    forall m | 0 <= m < Pow2(8 - e)
      ensures Idx(e, m) < 256 && table[Idx(e, m)] == want[Idx(e, m)]
    {
      IdxHalves(e, m / 2);
      assert m == 2 * (m / 2) || m == 2 * (m / 2) + 1;
      assert m / 2 < Pow2(7 - e);
      if m % 2 == 1 {
        assert Idx(e, 2 * (m / 2) + 1) < 256;
      } else {
        assert Idx(e + 1, m / 2) < 256;
      }
    }
  }

  lemma IdxDistinct(e: nat, a: nat, b: nat)
    requires a != b
    ensures Idx(e, a) != Idx(e, b)
  {
    if a < b {
      MulLess(Pow2(e), a, b);
    } else {
      MulLess(Pow2(e), b, a);
    }
  }

  ghost predicate OddFilled(table: seq<Word>, want: seq<Word>, e: nat, q: nat) {
    |table| == |want| == 256 &&
    forall m {:trigger Idx(e, 2 * m + 1)} | 0 <= m < q ::
      Idx(e, 2 * m + 1) < 256 && table[Idx(e, 2 * m + 1)] == want[Idx(e, 2 * m + 1)]
  }

  /** Writing one odd multiple keeps all even ones ... */
  lemma EvenKept(table: seq<Word>, table': seq<Word>, want: seq<Word>, e: nat, q: nat, v: Word)
    requires e < 8 && Filled(table, want, e + 1)
    requires Idx(e, 2 * q + 1) < 256 && table' == table[Idx(e, 2 * q + 1) := v]
    ensures Filled(table', want, e + 1)
  {
    forall m {:trigger Idx(e + 1, m)} | 0 <= m < Pow2(8 - (e + 1))
      ensures Idx(e + 1, m) < 256 && table'[Idx(e + 1, m)] == want[Idx(e + 1, m)]
    {
      IdxHalves(e, m);
      IdxDistinct(e, 2 * m, 2 * q + 1);
    }
  }

  /** ... and the odd ones written before. */
  lemma OddStep(table: seq<Word>, table': seq<Word>, want: seq<Word>, e: nat, q: nat)
    requires OddFilled(table, want, e, q)
    requires Idx(e, 2 * q + 1) < 256 && table' == table[Idx(e, 2 * q + 1) := want[Idx(e, 2 * q + 1)]]
    ensures OddFilled(table', want, e, q + 1)
  {
    forall m {:trigger Idx(e, 2 * m + 1)} | 0 <= m < q + 1
      ensures Idx(e, 2 * m + 1) < 256 && table'[Idx(e, 2 * m + 1)] == want[Idx(e, 2 * m + 1)]
    {
      if m < q {
        IdxDistinct(e, 2 * m + 1, 2 * q + 1);
      }
    }
  }

  /** The arithmetic of one inner iteration. */
  lemma FillStep(e: nat, q: nat, i: nat, j: nat)
    requires e < 8 && i == Pow2(e) && j == Idx(e + 1, q) && j < 256
    ensures q < Pow2(7 - e) && i + j == Idx(e, 2 * q + 1) && i + j < 256
    ensures j + 2 * i == Idx(e + 1, q + 1)
  {
    IdxBelow(e + 1, q);
    IdxHalves(e, q);
    OddBelow(e, q);
    NextIdx(e, q);
  }

  lemma OddBelow(e: nat, q: nat)
    requires e < 8 && q < Pow2(7 - e)
    ensures Idx(e, 2 * q + 1) < 256
  {
    assert Pow2(8 - e) == 2 * Pow2(7 - e);
    IdxBelow(e, 2 * q + 1);
  }

  lemma NextIdx(e: nat, q: nat)
    ensures Idx(e + 1, q + 1) == Idx(e + 1, q) + 2 * Pow2(e)
  {
    var p := Pow2(e + 1);
    assert p * (q + 1) == p * q + p;
  }

  /** A table whose entry at i + j is the sum of those at i and j, for i a bit below all bits of j. */
  ghost predicate LowBitAdds(want: seq<Word>, e: nat) {
    |want| == 256 && e < 8 && Pow2(e) < 256 &&
    forall q {:trigger Idx(e, 2 * q + 1)} | 0 <= q && Idx(e, 2 * q + 1) < 256 ::
      Idx(e + 1, q) < 256 && want[Idx(e, 2 * q + 1)] == Xor(want[Pow2(e)], want[Idx(e + 1, q)])
  }

  /** The inner loop of crc32init_le. */
  method FillLe(table: array<Word>, i: nat, crc: Word, ghost want: seq<Word>, ghost e: nat)
    requires LowBitAdds(want, e) && i == Pow2(e) && crc == want[i] && table.Length == 256
    requires Filled(table[..], want, e + 1)
    modifies table
    ensures Filled(table[..], want, e)
  {
    var j := 0;
    ghost var q := 0;
    while j < 256
      invariant j == Idx(e + 1, q) && q <= Pow2(7 - e)
      invariant Filled(table[..], want, e + 1) && OddFilled(table[..], want, e, q)
      decreases Pow2(7 - e) - q
    {
      FillStep(e, q, i, j);
      ghost var before := table[..];
      assert before[Idx(e + 1, q)] == want[j];
      table[i + j] := Xor(crc, table[j]);
      assert table[..] == before[i + j := want[i + j]];
      EvenKept(before, table[..], want, e, q, want[i + j]);
      OddStep(before, table[..], want, e, q);
      j := j + 2 * i;
      q := q + 1;
    }
    IdxBelow(e + 1, q);
    NextLevel(table[..], want, e);
  }

  lemma {:induction false} ShiftsOfZero(n: nat)
    ensures Shifts(Zeros(32), n) == Zeros(32)
    decreases n
  {
    if n > 0 {
      ShiftFalse(Zeros(31));
      assert Zeros(32) == [false] + Zeros(31) && Zeros(31) + [false] == Zeros(32);
      ShiftsOfZero(n - 1);
    }
  }

  lemma ZeroEntry()
    ensures LeEntry(0) == Zeros(32) && BeEntry(0) == Zeros(32)
  {
    ZeroBits(BYTE);
    assert LeWord(0) == Zeros(32) && BeWord(0) == Zeros(32);
    ShiftsOfZero(BYTE);
  }

  /** Register value with only the bit that is shifted out next. */
  function Start(): Word { [true] + Zeros(31) }

  ghost function LeTable(): (t: seq<Word>)
    ensures |t| == 256 && forall k | 0 <= k < 256 :: t[k] == LeEntry(k)
  {
    seq(256, k requires 0 <= k < 256 => LeEntry(k))
  }

  /** What the init loop uses of the table it is building. */
  ghost predicate LeShaped(want: seq<Word>) {
    |want| == 256 && want[0] == Zeros(32) && Shift(Start()) == want[128] &&
    (forall e: nat {:trigger LowBitAdds(want, e)} | e < 8 :: LowBitAdds(want, e)) &&
    forall e: nat {:trigger Next(e)} | 0 < e < 8 :: Next(e) && Shift(want[Pow2(e)]) == want[Pow2(e - 1)]
  }

  predicate Next(e: nat) {
    0 < e < 8 && Pow2(e) < 256 && Pow2(e - 1) < 256 && Pow2(e) / 2 == Pow2(e - 1)
  }

  lemma LeTableAdds(e: nat)
    requires e < 8
    ensures LowBitAdds(LeTable(), e)
  {
    Pow2Room(e);
    forall q {:trigger Idx(e, 2 * q + 1)} | 0 <= q && Idx(e, 2 * q + 1) < 256
      ensures Idx(e + 1, q) < 256 && LeEntry(Idx(e, 2 * q + 1)) == Xor(LeEntry(Pow2(e)), LeEntry(Idx(e + 1, q)))
    {
      IdxHalves(e, q);
      LeEntryAdd(e, q);
    }
  }

  /** The recurrence between two outer iterations. */
  lemma LeNext(e: nat)
    requires 0 < e < 8
    ensures Next(e) && Shift(LeEntry(Pow2(e))) == LeEntry(Pow2(e - 1))
  {
    Pow2Room(e - 1);
    Pow2Room(e);
    LeHalf(Pow2(e - 1));
    ShiftLast(LeWord(Pow2(e)));
  }

  lemma ShiftLast(c: Word)
    ensures Shift(Shifts(c, BYTE)) == Shifts(Shift(c), BYTE)
  {
    ShiftsAdd(c, BYTE, 1);
    ShiftsAdd(c, 1, BYTE);
    assert Shifts(Shifts(c, BYTE), 1) == Shift(Shifts(c, BYTE));
    assert Shifts(c, 1) == Shift(c);
  }

  lemma LeTableShaped()
    ensures LeShaped(LeTable())
  {
    ZeroEntry();
    LeStart();
    OneMore(LeWord(128));
    forall e: nat | e < 8
      ensures LowBitAdds(LeTable(), e)
    {
      LeTableAdds(e);
    }
    forall e: nat | 0 < e < 8
      ensures Next(e) && Shift(LeTable()[Pow2(e)]) == LeTable()[Pow2(e - 1)]
    {
      LeNext(e);
    }
  }

  /** The outer loop of crc32init_le. */
  method FillTableLe(table: array<Word>, ghost want: seq<Word>)
    requires table.Length == 256 && LeShaped(want)
    modifies table
    ensures table[..] == want
  {
    var crc: Word := Start();
    table[0] := Zeros(32);
    assert Pow2(0) == 1 && Pow2(7) == 128;
    assert Idx(8, 0) == 0;
    var i := 128;
    ghost var e := 7;
    while i != 0
      invariant -1 <= e <= 7 && i == if e == -1 then 0 else Pow2(e)
      invariant Filled(table[..], want, e + 1)
      invariant e >= 0 ==> i < 256 && Shift(crc) == want[i]
      decreases i
    {
      crc := Shift(crc);
      assert LowBitAdds(want, e);
      FillLe(table, i, crc, want, e);
      assert e > 0 ==> Next(e);
      i := i / 2;
      e := e - 1;
    }
    AllFilled(table[..], want);
  }

  lemma AllFilled(table: seq<Word>, want: seq<Word>)
    requires Filled(table, want, 0)
    ensures table == want
  {
    assert Pow2(8) == 256;
    forall k | 0 <= k < 256
      ensures table[k] == want[k]
    {
      assert Idx(0, k) == k;
    }
  }

  /** crc32init_le: every entry is its index shifted eight times. */
  method InitLe() returns (table: array<Word>)
    ensures fresh(table) && table[..] == LeTable()
  {
    table := new Word[256](_ => Zeros(32));
    LeTableShaped();
    FillTableLe(table, LeTable());
  }

  lemma LeEntryOf(w: Bits)
    requires |w| == 8
    ensures ToNat(w) < 256 && LeEntry(ToNat(w)) == Shifts(w + Zeros(24), BYTE)
  {
    assert Pow2(8) == 256;
    FromToNat(w);
  }

  lemma BeEntryOf(w: Bits)
    requires |w| == 8
    ensures ToNat(Reverse(w)) < 256 && BeEntry(ToNat(Reverse(w))) == Shifts(w + Zeros(24), BYTE)
  {
    assert Pow2(8) == 256;
    FromToNat(Reverse(w));
    ReverseTwice(w);
  }

  lemma ReverseTwice(s: Bits)
    ensures Reverse(Reverse(s)) == s
  {
  }

  lemma FeedSplit(crc: Word, b: Byte)
    ensures var x := FoldIn(crc, b); Feed(crc, b) == Xor(crc[8..] + Zeros(8), Shifts(x[..8] + Zeros(24), BYTE))
  {
    var x := FoldIn(crc, b);
    SplitByte(x);
    assert x[8..] == crc[8..];
  }

  lemma LookupLe(crc: Word, b: Byte)
    ensures var x := FoldIn(crc, b);
            ToNat(x[..8]) < 256 && Feed(crc, b) == Xor(crc[8..] + Zeros(8), LeEntry(ToNat(x[..8])))
  {
    FeedSplit(crc, b);
    LeEntryOf(FoldIn(crc, b)[..8]);
  }

  lemma LookupBe(crc: Word, b: Byte)
    ensures var x := FoldIn(crc, b);
            ToNat(Reverse(x[..8])) < 256 && Feed(crc, b) == Xor(crc[8..] + Zeros(8), BeEntry(ToNat(Reverse(x[..8]))))
  {
    FeedSplit(crc, b);
    BeEntryOf(FoldIn(crc, b)[..8]);
  }

  /** Table-driven crc32_le equals the bitwise definition, for every seed and buffer. */
  method Crc32Le(table: array<Word>, seed: Word, buf: seq<Byte>) returns (crc: Word)
    requires table[..] == LeTable()
    ensures crc == Crc(seed, buf)
  {
    crc := seed;
    for n := 0 to |buf|
      invariant crc == Crc(seed, buf[..n])
    {
      var x := FoldIn(crc, buf[n]);
      LookupLe(crc, buf[n]);
      var index := ToNat(x[..8]);
      crc := Xor(crc[8..] + Zeros(8), table[index]);
      assert buf[..n + 1][..n] == buf[..n];
    }
    assert buf[..|buf|] == buf;
  }

  /** The bitwise loops of the one-bit-at-a-time variants. */
  method CrcBitwise(seed: Word, buf: seq<Byte>) returns (crc: Word)
    ensures crc == Crc(seed, buf)
  {
    crc := seed;
    for n := 0 to |buf|
      invariant crc == Crc(seed, buf[..n])
    {
      crc := FoldIn(crc, buf[n]);
      ghost var folded := crc;
      for i := 0 to 8
        invariant Shifts(crc, BYTE - i) == Shifts(folded, BYTE)
      {
        crc := Shift(crc);
      }
      assert buf[..n + 1][..n] == buf[..n];
    }
    assert buf[..|buf|] == buf;
  }

  // ---------------------------------------------------------------- big-endian table

  function Reverse(s: Bits): (r: Bits)
    ensures |r| == |s| && forall i | 0 <= i < |s| :: r[i] == s[|s| - 1 - i]
  {
    seq(|s|, i requires 0 <= i < |s| => s[|s| - 1 - i])
  }

  function BeWord(k: nat): Word { Reverse(FromNat(k, BYTE)) + Zeros(24) }

  function BeEntry(k: nat): Word { Shifts(BeWord(k), BYTE) }

  lemma ReverseXor(a: Bits, b: Bits)
    requires |a| == |b|
    ensures Reverse(Xor(a, b)) == Xor(Reverse(a), Reverse(b))
  {
  }

  lemma BeBitsAdd(e: nat, j: nat, n: nat)
    requires j < Pow2(e)
    ensures Reverse(FromNat(Pow2(e) + j, n)) == Xor(Reverse(FromNat(Pow2(e), n)), Reverse(FromNat(j, n)))
  {
    AddHighBit(e, j, n);
    ReverseXor(FromNat(Pow2(e), n), FromNat(j, n));
  }

  lemma BeEntryAdd(e: nat, j: nat)
    requires j < Pow2(e)
    ensures BeEntry(Pow2(e) + j) == Xor(BeEntry(Pow2(e)), BeEntry(j))
  {
    BeBitsAdd(e, j, BYTE);
    EntrySum(Reverse(FromNat(Pow2(e), BYTE)), Reverse(FromNat(j, BYTE)));
  }

  /** Shifting the index m gives the index 2m. */
  lemma BeDouble(m: nat)
    requires m < 128
    ensures Shift(BeWord(m)) == BeWord(2 * m)
  {
    var r := Reverse(FromNat(m, BYTE - 1));
    assert Pow2(7) == 128;
    BeBits(m, BYTE - 1);
    BePad(r);
    ShiftFalse(r + Zeros(24));
  }

  lemma BePad(r: Bits)
    ensures [false] + r + Zeros(24) == [false] + (r + Zeros(24))
    ensures r + Zeros(24) + [false] == r + [false] + Zeros(24)
  {
  }

  lemma BeBits(m: nat, n: nat)
    requires m < Pow2(n)
    ensures Reverse(FromNat(m, n + 1)) == [false] + Reverse(FromNat(m, n))
    ensures Reverse(FromNat(2 * m, n + 1)) == Reverse(FromNat(m, n)) + [false]
  {
    TopBitZero(m, n);
    ReverseEnds(FromNat(m, n), false);
    assert FromNat(2 * m, n + 1) == [false] + FromNat(m, n);
  }

  lemma ReverseEnds(s: Bits, b: bool)
    ensures Reverse(s + [b]) == [b] + Reverse(s) && Reverse([b] + s) == Reverse(s) + [b]
  {
  }

  lemma BeStart()
    ensures Shifts(BeWord(1), BYTE - 1) == [true] + Zeros(31)
  {
    ShiftOutZeros(24, [true], BYTE - 1);
    ZeroBits(BYTE - 1);
    assert FromNat(1, BYTE) == [true] + Zeros(7);
    assert Reverse([true] + Zeros(7)) == Zeros(7) + [true];
  }

  ghost function BeTable(): (t: seq<Word>)
    ensures |t| == 256 && forall k | 0 <= k < 256 :: t[k] == BeEntry(k)
  {
    seq(256, k requires 0 <= k < 256 => BeEntry(k))
  }

  /** A table whose entry at i + j is the sum of those at i and j, for i a bit above all bits of j. */
  ghost predicate HighBitAdds(want: seq<Word>, i: nat) {
    |want| == 256 && 2 * i <= 256 &&
    forall j {:trigger want[j]} | 0 <= j < i :: want[i + j] == Xor(want[i], want[j])
  }

  ghost predicate HighAddsAt(want: seq<Word>, e: nat) { HighBitAdds(want, Pow2(e)) }

  /** The inner loop of crc32init_be. */
  method FillBe(table: array<Word>, i: nat, crc: Word, ghost want: seq<Word>)
    requires HighBitAdds(want, i) && 0 < i && crc == want[i] && table.Length == 256
    requires table[..i] == want[..i]
    modifies table
    ensures table[..2 * i] == want[..2 * i]
  {
    for j := 0 to i
      invariant table[..i + j] == want[..i + j]
    {
      assert table[..i + j][j] == want[..i + j][j];
      table[i + j] := Xor(crc, table[j]);
      assert want[i + j] == Xor(want[i], want[j]);
    }
  }

  /** What the init loop uses of the table it is building. */
  ghost predicate BeShaped(want: seq<Word>) {
    |want| == 256 && want[0] == Zeros(32) && Shift(Start()) == want[1] &&
    (forall e: nat {:trigger HighAddsAt(want, e)} | e < 8 :: HighAddsAt(want, e)) &&
    forall e: nat {:trigger Next(e)} | 0 < e < 8 :: Next(e) && Shift(want[Pow2(e - 1)]) == want[Pow2(e)]
  }

  lemma BeTableAdds(e: nat)
    requires e < 8
    ensures HighBitAdds(BeTable(), Pow2(e))
  {
    Pow2Room(e);
    forall j {:trigger BeTable()[j]} | 0 <= j < Pow2(e)
      ensures BeTable()[Pow2(e) + j] == Xor(BeTable()[Pow2(e)], BeTable()[j])
    {
      BeEntryAdd(e, j);
    }
  }

  /** The recurrence between two outer iterations. */
  lemma BeNext(e: nat)
    requires 0 < e < 8
    ensures Next(e) && Shift(BeEntry(Pow2(e - 1))) == BeEntry(Pow2(e))
  {
    Pow2Room(e - 1);
    Pow2Room(e);
    BeDouble(Pow2(e - 1));
    ShiftLast(BeWord(Pow2(e - 1)));
  }

  lemma BeTableShaped()
    ensures BeShaped(BeTable())
  {
    ZeroEntry();
    BeStart();
    OneMore(BeWord(1));
    forall e: nat | e < 8
      ensures HighAddsAt(BeTable(), e)
    {
      BeTableAdds(e);
    }
    forall e: nat | 0 < e < 8
      ensures Next(e) && Shift(BeTable()[Pow2(e - 1)]) == BeTable()[Pow2(e)]
    {
      BeNext(e);
    }
  }

  /** The outer loop of crc32init_be. */
  method FillTableBe(table: array<Word>, ghost want: seq<Word>)
    requires table.Length == 256 && BeShaped(want)
    modifies table
    ensures table[..] == want
  {
    var crc: Word := Start();
    table[0] := Zeros(32);
    assert Pow2(0) == 1 && Pow2(8) == 256;
    var i := 1;
    ghost var e := 0;
    while i < 256
      invariant 0 <= e <= 8 && 0 < i <= 256 && i == Pow2(e)
      invariant table[..i] == want[..i]
      invariant e < 8 ==> i < 256 && Shift(crc) == want[i]
      decreases 8 - e
    {
      crc := Shift(crc);
      assert HighAddsAt(want, e);
      FillBe(table, i, crc, want);
      assert e < 7 ==> Next(e + 1);
      i := 2 * i;
      e := e + 1;
    }
  }

  /** crc32init_be */
  method InitBe() returns (table: array<Word>)
    ensures fresh(table) && table[..] == BeTable()
  {
    table := new Word[256](_ => Zeros(32));
    BeTableShaped();
    FillTableBe(table, BeTable());
  }

  lemma Pow2Room(e: nat)
    requires e < 8
    ensures 2 * Pow2(e) <= 256
  {
    assert e == 0 || e == 1 || e == 2 || e == 3 || e == 4 || e == 5 || e == 6 || e == 7;
    assert Pow2(7) == 128;
  }

  /** Table-driven crc32_be equals the bitwise definition. */
  method Crc32Be(table: array<Word>, seed: Word, buf: seq<Byte>) returns (crc: Word)
    requires table[..] == BeTable()
    ensures crc == Crc(seed, buf)
  {
    crc := seed;
    for n := 0 to |buf|
      invariant crc == Crc(seed, buf[..n])
    {
      var x := FoldIn(crc, buf[n]);
      LookupBe(crc, buf[n]);
      var index := ToNat(Reverse(x[..8]));
      crc := Xor(crc[8..] + Zeros(8), table[index]);
      assert buf[..n + 1][..n] == buf[..n];
    }
    assert buf[..|buf|] == buf;
  }

  /** End to end: build the table, run the loop. */
  method Checksum(bigEndian: bool, seed: Word, buf: seq<Byte>) returns (crc: Word)
    ensures crc == Crc(seed, buf)
  {
    if bigEndian {
      var table := InitBe();
      crc := Crc32Be(table, seed, buf);
    } else {
      var table := InitLe();
      crc := Crc32Le(table, seed, buf);
    }
  }
}
