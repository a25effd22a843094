/**
 * The header error control byte of an ATM cell (common/atm.c): a table-driven
 * CRC-8 with generator x^8 + x^2 + x + 1 and coset leader 0x55
 * (section 4.3.2 of ITU-T I.432.1).
 */
module Hec {
  import opened Bytes

  const COSET_LEADER: Byte := 0x55

  /** The generator without its x^8 term. */
  const GENERATOR_LOW: Byte := 0x07

  // ---- Remainders modulo the generator ----

  function XorB(a: Byte, b: Byte): Byte {
    a ^ b
  }

  predicate TopB(r: Byte) {
    r & 0x80 != 0
  }

  function UpB(r: Byte): Byte {
    r << 1
  }

  /** Multiply a remainder by x. */
  function TimesX(r: Byte): Byte {
    if TopB(r) then XorB(GENERATOR_LOW, UpB(r)) else UpB(r)
  }

  function TimesXn(r: Byte, n: nat): Byte {
    if n == 0 then r else TimesX(TimesXn(r, n - 1))
  }

  /** Multiply a remainder by x^8: the syndrome of a byte. */
  function Syndrome(r: Byte): Byte {
    TimesXn(r, 8)
  }

  function BitB(b: bool): Byte {
    if b then 1 else 0
  }

  /** The remainder of a polynomial given by its coefficients, highest first. */
  function Remainder(s: seq<bool>): Byte {
    if s == [] then 0 else XorB(TimesX(Remainder(s[..|s| - 1])), BitB(s[|s| - 1]))
  }

  lemma TopXorB(a: Byte, b: Byte)
    ensures TopB(XorB(a, b)) == (TopB(a) != TopB(b))
  {
  }

  lemma UpXorB(a: Byte, b: Byte)
    ensures UpB(XorB(a, b)) == XorB(UpB(a), UpB(b))
  {
  }

  lemma AssociateB(k: Byte, a: Byte, b: Byte)
    ensures XorB(k, XorB(a, b)) == XorB(XorB(k, a), b)
  {
  }

  lemma CommuteB(k: Byte, a: Byte, b: Byte)
    ensures XorB(k, XorB(a, b)) == XorB(a, XorB(k, b))
  {
  }

  lemma CancelB(k: Byte, a: Byte)
    ensures XorB(k, XorB(k, a)) == a
  {
  }

  lemma UnitB(a: Byte)
    ensures XorB(a, a) == 0 && XorB(a, 0) == a == XorB(0, a)
  {
  }

  lemma TimesXLinear(a: Byte, b: Byte)
    ensures TimesX(XorB(a, b)) == XorB(TimesX(a), TimesX(b))
  {
    hide XorB, UpB, TopB;
    var (g, x, y) := (GENERATOR_LOW, UpB(a), UpB(b));
    TopXorB(a, b);
    UpXorB(a, b);
    AssociateB(g, x, y);
    CommuteB(g, x, y);
    CommuteB(XorB(g, x), g, y);
    CancelB(g, XorB(x, y));
  }

  lemma {:induction false} TimesXnLinear(a: Byte, b: Byte, n: nat)
    ensures TimesXn(XorB(a, b), n) == XorB(TimesXn(a, n), TimesXn(b, n))
  {
    hide TimesX, XorB;
    if n > 0 {
      TimesXnLinear(a, b, n - 1);
      TimesXLinear(TimesXn(a, n - 1), TimesXn(b, n - 1));
    }
  }

  lemma TimesXInjective(a: Byte, b: Byte)
    requires TimesX(a) == TimesX(b)
    ensures a == b
  {
  }

  lemma {:induction false} TimesXnInjective(a: Byte, b: Byte, n: nat)
    requires TimesXn(a, n) == TimesXn(b, n)
    ensures a == b
  {
    hide TimesX;
    if n > 0 {
      TimesXInjective(TimesXn(a, n - 1), TimesXn(b, n - 1));
      TimesXnInjective(a, b, n - 1);
    }
  }

  lemma {:induction false} TimesXnAdd(r: Byte, m: nat, n: nat)
    ensures TimesXn(TimesXn(r, m), n) == TimesXn(r, m + n)
  {
    hide TimesX;
    if n > 0 { TimesXnAdd(r, m, n - 1); }
  }

  // ---- The remainder really is one: long division ----

  function XorQ(a: bv40, b: bv40): bv40 {
    a ^ b
  }

  function UpQ(a: bv40): bv40 {
    a << 1
  }

  function WideQ(r: Byte): bv40 {
    r as bv40
  }

  function BitQ(b: bool): bv40 {
    if b then 1 else 0
  }

  function UpN(a: bv40, n: nat): bv40 {
    if n == 0 then a else UpQ(UpN(a, n - 1))
  }

  /** The generator times a quotient, as polynomials over the two-element field. */
  function TimesGenerator(q: bv40): bv40 {
    XorQ(XorQ(UpN(q, 8), UpN(q, 2)), XorQ(UpN(q, 1), q))
  }

  /** The coefficients read as a binary number. */
  function Word(s: seq<bool>): bv40 {
    if s == [] then 0 else XorQ(UpQ(Word(s[..|s| - 1])), BitQ(s[|s| - 1]))
  }

  function Quotient(s: seq<bool>): bv40 {
    if s == [] then 0
    else XorQ(UpQ(Quotient(s[..|s| - 1])), BitQ(TopB(Remainder(s[..|s| - 1]))))
  }

  lemma UpXorQ(a: bv40, b: bv40)
    ensures UpQ(XorQ(a, b)) == XorQ(UpQ(a), UpQ(b))
  {
  }

  lemma AssociateQ(k: bv40, a: bv40, b: bv40)
    ensures XorQ(k, XorQ(a, b)) == XorQ(XorQ(k, a), b)
  {
  }

  lemma CommuteQ(k: bv40, a: bv40, b: bv40)
    ensures XorQ(k, XorQ(a, b)) == XorQ(a, XorQ(k, b))
  {
  }

  lemma UnitQ(a: bv40)
    ensures XorQ(a, 0) == a
  {
  }

  lemma InterchangeQ(a: bv40, b: bv40, c: bv40, d: bv40)
    ensures XorQ(XorQ(a, b), XorQ(c, d)) == XorQ(XorQ(a, c), XorQ(b, d))
  {
    hide XorQ;
    CommuteQ(XorQ(a, b), c, d);
    AssociateQ(c, XorQ(a, b), d);
    CommuteQ(c, a, b);
    AssociateQ(a, c, b);
    AssociateQ(XorQ(a, c), b, d);
  }

  lemma {:induction false} UpNXorQ(a: bv40, b: bv40, n: nat)
    ensures UpN(XorQ(a, b), n) == XorQ(UpN(a, n), UpN(b, n))
  {
    hide XorQ, UpQ;
    if n > 0 {
      UpNXorQ(a, b, n - 1);
      UpXorQ(UpN(a, n - 1), UpN(b, n - 1));
    }
  }

  lemma {:induction false} UpNUp(a: bv40, n: nat)
    ensures UpN(UpQ(a), n) == UpQ(UpN(a, n))
  {
    hide UpQ;
    if n > 0 { UpNUp(a, n - 1); }
  }

  lemma UpGenerator(q: bv40)
    ensures UpQ(TimesGenerator(q)) == TimesGenerator(UpQ(q))
  {
    hide XorQ, UpQ;
    UpXorQ(XorQ(UpN(q, 8), UpN(q, 2)), XorQ(UpN(q, 1), q));
    UpXorQ(UpN(q, 8), UpN(q, 2));
    UpXorQ(UpN(q, 1), q);
    UpNUp(q, 8);
    UpNUp(q, 2);
    UpNUp(q, 1);
  }

  lemma GeneratorItself()
    ensures TimesGenerator(1) == 0x107
  {
    assert UpN(1, 2) == 4;
    assert UpN(1, 4) == 16;
    assert UpN(1, 6) == 64;
    assert UpN(1, 8) == 256;
  }

  lemma GeneratorPlusOne(q: bv40)
    ensures TimesGenerator(XorQ(q, 1)) == XorQ(TimesGenerator(q), 0x107)
  {
    hide XorQ, UpQ, UpN;
    GeneratorItself();
    UpNXorQ(q, 1, 8);
    UpNXorQ(q, 1, 2);
    UpNXorQ(q, 1, 1);
    InterchangeQ(UpN(q, 8), UpN(1, 8), UpN(q, 2), UpN(1, 2));
    InterchangeQ(UpN(q, 1), UpN(1, 1), q, 1);
    InterchangeQ(XorQ(UpN(q, 8), UpN(q, 2)), XorQ(UpN(1, 8), UpN(1, 2)), XorQ(UpN(q, 1), q), XorQ(UpN(1, 1), 1));
  }

  lemma WideUp(r: Byte)
    ensures TopB(r) ==> UpQ(WideQ(r)) == XorQ(0x107, WideQ(XorB(GENERATOR_LOW, UpB(r))))
    ensures !TopB(r) ==> UpQ(WideQ(r)) == WideQ(UpB(r))
  {
  }

  lemma WideXorBit(r: Byte, b: bool)
    ensures WideQ(XorB(r, BitB(b))) == XorQ(WideQ(r), BitQ(b))
  {
  }

  /** Up to 40 coefficients are a multiple of the generator plus their remainder. */
  lemma {:induction false} DivisionIdentity(s: seq<bool>)
    ensures Word(s) == XorQ(TimesGenerator(Quotient(s)), WideQ(Remainder(s)))
  {
    hide XorQ, UpQ, WideQ, TimesGenerator, XorB, UpB, TopB, BitB;
    if s == [] {
      DivisionOfNothing();
    } else {
      var (t, b) := (s[..|s| - 1], s[|s| - 1]);
      var (q, r) := (Quotient(t), Remainder(t));
      DivisionIdentity(t);
      UpXorQ(TimesGenerator(q), WideQ(r));
      UpGenerator(q);
      WideUp(r);
      WideXorBit(TimesX(r), b);
      AssociateQ(TimesGenerator(UpQ(q)), WideQ(TimesX(r)), BitQ(b));
      if TopB(r) {
        GeneratorPlusOne(UpQ(q));
        AssociateQ(TimesGenerator(UpQ(q)), 0x107, WideQ(TimesX(r)));
        AssociateQ(TimesGenerator(XorQ(UpQ(q), 1)), WideQ(TimesX(r)), BitQ(b));
      } else {
        UnitQ(UpQ(q));
      }
    }
  }

  lemma ZeroQ()
    ensures UpQ(0) == 0 && XorQ(0, 0) == 0 && WideQ(0) == 0
  {
  }

  lemma {:induction false} UpNZero(n: nat)
    ensures UpN(0, n) == 0
  {
    hide UpQ;
    ZeroQ();
    if n > 0 { UpNZero(n - 1); }
  }

  lemma DivisionOfNothing()
    ensures 0 == XorQ(TimesGenerator(0), WideQ(0))
  {
    hide XorQ, UpQ, UpN, WideQ;
    ZeroQ();
    UpNZero(8);
    UpNZero(2);
    UpNZero(1);
  }

  // ---- Bytes as coefficients ----

  function DownB(b: Byte, k: bv4): Byte
    requires k <= 8
  {
    b >> k
  }

  predicate BitAt(b: Byte, k: bv4)
    requires k < 8
  {
    (b >> k) & 1 == 1
  }

  /** The eight coefficients of a byte, highest first. */
  function ByteBits(b: Byte): (s: seq<bool>)
    ensures |s| == 8
  {
    [BitAt(b, 7), BitAt(b, 6), BitAt(b, 5), BitAt(b, 4), BitAt(b, 3), BitAt(b, 2), BitAt(b, 1), BitAt(b, 0)]
  }

  function Bits(h: seq<Byte>): (s: seq<bool>)
    ensures |s| == 8 * |h|
  {
    if h == [] then [] else Bits(h[..|h| - 1]) + ByteBits(h[|h| - 1])
  }

  /** The remainder after the first `n` coefficients of `s`, starting from `r`. */
  function Horner(r: Byte, s: seq<bool>, n: nat): Byte
    requires n <= |s|
  {
    if n == 0 then r else XorB(TimesX(Horner(r, s, n - 1)), BitB(s[n - 1]))
  }

  lemma DownStep(b: Byte, k: bv4)
    requires 0 < k <= 8
    ensures XorB(TimesX(DownB(b, k)), BitB(BitAt(b, k - 1))) == DownB(b, k - 1)
  {
  }

  lemma DownEnds(b: Byte)
    ensures DownB(b, 8) == 0 && DownB(b, 0) == b
  {
  }

  /** The bits of a byte, taken one at a time, rebuild the byte. */
  lemma ByteFromBits(b: Byte)
    ensures Horner(0, ByteBits(b), 8) == b
  {
    hide XorB, TimesX, BitB, BitAt, DownB;
    var s := ByteBits(b);
    DownEnds(b);
    DownStep(b, 8);
    assert Horner(0, s, 1) == DownB(b, 7);
    DownStep(b, 7);
    assert Horner(0, s, 2) == DownB(b, 6);
    DownStep(b, 6);
    assert Horner(0, s, 3) == DownB(b, 5);
    DownStep(b, 5);
    assert Horner(0, s, 4) == DownB(b, 4);
    DownStep(b, 4);
    assert Horner(0, s, 5) == DownB(b, 3);
    DownStep(b, 3);
    assert Horner(0, s, 6) == DownB(b, 2);
    DownStep(b, 2);
    assert Horner(0, s, 7) == DownB(b, 1);
    DownStep(b, 1);
  }

  lemma {:induction false} HornerLinear(a: Byte, r: Byte, s: seq<bool>, n: nat)
    requires n <= |s|
    ensures Horner(XorB(a, r), s, n) == XorB(TimesXn(a, n), Horner(r, s, n))
  {
    hide TimesX, XorB, BitB;
    if n > 0 {
      HornerLinear(a, r, s, n - 1);
      TimesXLinear(TimesXn(a, n - 1), Horner(r, s, n - 1));
      AssociateB(TimesXn(a, n), TimesX(Horner(r, s, n - 1)), BitB(s[n - 1]));
    }
  }

  lemma {:induction false} RemainderHorner(t: seq<bool>, s: seq<bool>, n: nat)
    requires n <= |s|
    ensures Remainder(t + s[..n]) == Horner(Remainder(t), s, n)
  {
    hide TimesX, XorB, BitB;
    if n == 0 {
      assert t + s[..0] == t;
    } else {
      RemainderHorner(t, s, n - 1);
      var u := t + s[..n];
      assert u[..|u| - 1] == t + s[..n - 1] && u[|u| - 1] == s[n - 1];
    }
  }

  /** A whole byte at once: the table step of `atm_compute_hec`. */
  lemma RemainderOfByte(t: seq<bool>, b: Byte)
    ensures Remainder(t + ByteBits(b)) == XorB(Syndrome(Remainder(t)), b)
  {
    hide TimesX, XorB, BitB, ByteBits;
    RemainderHorner(t, ByteBits(b), 8);
    assert ByteBits(b)[..8] == ByteBits(b);
    UnitB(Remainder(t));
    HornerLinear(Remainder(t), 0, ByteBits(b), 8);
    ByteFromBits(b);
  }

  // ---- The header check itself ----

  /** `hec_accum` after the bytes of `h`. */
  function Accumulate(h: seq<Byte>): Byte {
    if h == [] then 0 else Syndrome(XorB(Accumulate(h[..|h| - 1]), h[|h| - 1]))
  }

  /** `atm_compute_hec`. */
  function CheckByte(h: seq<Byte>): Byte
    requires |h| == 4
  {
    XorB(Accumulate(h), COSET_LEADER)
  }

  /** A five-byte header whose last byte was written by `atm_insert_hec`. */
  ghost predicate Protected(h: seq<Byte>) {
    |h| == 5 && h[4] == CheckByte(h[..4])
  }

  /** The header of zeros has the coset leader as its check byte, and the header of an idle cell 0x52. */
  lemma KnownHeaders()
    ensures Protected([0x00, 0x00, 0x00, 0x00, 0x55]) && Protected([0x00, 0x00, 0x00, 0x01, 0x52])
  {
    AccumulatedZeros();
    var (zeros, idle) := ([0x00, 0x00, 0x00, 0x00], [0x00, 0x00, 0x00, 0x01]);
    assert idle[..3] == zeros[..3] == [0x00, 0x00, 0x00];
    assert Accumulate(idle) == Syndrome(XorB(0, 1));
    SyndromeOfOne();
    assert [0x00, 0x00, 0x00, 0x00, 0x55][..4] == zeros && [0x00, 0x00, 0x00, 0x01, 0x52][..4] == idle;
  }

  lemma AccumulatedZeros()
    ensures Accumulate([0x00, 0x00, 0x00]) == 0 && Accumulate([0x00, 0x00, 0x00, 0x00]) == 0
  {
    ZeroStaysZero(8);
    UnitB(0);
    var (a, b, c, d) := ([0x00], [0x00, 0x00], [0x00, 0x00, 0x00], [0x00, 0x00, 0x00, 0x00]);
    assert a[..0] == [] && b[..1] == a && c[..2] == b && d[..3] == c;
    assert Accumulate(a) == 0;
    assert Accumulate(b) == 0;
  }

  lemma SyndromeOfOne()
    ensures Syndrome(1) == 0x07
  {
    assert TimesXn(1, 1) == 0x02;
    assert TimesXn(1, 2) == 0x04;
    assert TimesXn(1, 3) == 0x08;
    assert TimesXn(1, 4) == 0x10;
    assert TimesXn(1, 5) == 0x20;
    assert TimesXn(1, 6) == 0x40;
    assert TimesXn(1, 7) == 0x80;
    assert TimesXn(1, 8) == 0x07;
  }

  /** The accumulator is the remainder of the bytes followed by eight zeros. */
  lemma {:induction false} AccumulateIsRemainder(h: seq<Byte>)
    ensures Accumulate(h) == Syndrome(Remainder(Bits(h)))
  {
    hide TimesX, XorB, ByteBits;
    if h == [] {
      ZeroStaysZero(8);
    } else {
      AccumulateIsRemainder(h[..|h| - 1]);
      RemainderOfByte(Bits(h[..|h| - 1]), h[|h| - 1]);
    }
  }

  lemma TimesXZero()
    ensures TimesX(0) == 0
  {
  }

  lemma {:induction false} ZeroStaysZero(n: nat)
    ensures TimesXn(0, n) == 0
  {
    hide TimesX;
    TimesXZero();
    if n > 0 { ZeroStaysZero(n - 1); }
  }

  /** Every protected header leaves the coset leader when divided by the generator. */
  lemma ProtectedRemainder(h: seq<Byte>)
    requires Protected(h)
    ensures Remainder(Bits(h)) == COSET_LEADER
    ensures Word(Bits(h)) == XorQ(TimesGenerator(Quotient(Bits(h))), WideQ(COSET_LEADER))
  {
    hide TimesX, XorB, ByteBits, Syndrome, XorQ, TimesGenerator, WideQ, Accumulate;
    AccumulateIsRemainder(h[..4]);
    RemainderOfByte(Bits(h[..4]), h[4]);
    CancelB(Accumulate(h[..4]), COSET_LEADER);
    DivisionIdentity(Bits(h));
  }

  /** Conversely the check byte is the only one with that remainder. */
  lemma ProtectedOnlyIf(h: seq<Byte>)
    requires |h| == 5 && Remainder(Bits(h)) == COSET_LEADER
    ensures Protected(h)
  {
    hide TimesX, XorB, ByteBits, Syndrome, Accumulate;
    AccumulateIsRemainder(h[..4]);
    RemainderOfByte(Bits(h[..4]), h[4]);
    CancelB(Accumulate(h[..4]), h[4]);
  }

  /** Byte-wise exclusive or of two headers. */
  function XorBytes(a: seq<Byte>, b: seq<Byte>): (c: seq<Byte>)
    requires |a| == |b|
    ensures |c| == |a|
  {
    seq(|a|, i requires 0 <= i < |a| => XorB(a[i], b[i]))
  }

  lemma {:induction false} AccumulateLinear(a: seq<Byte>, b: seq<Byte>)
    requires |a| == |b|
    ensures Accumulate(XorBytes(a, b)) == XorB(Accumulate(a), Accumulate(b))
  {
    hide TimesX, XorB;
    if a == [] {
      UnitB(0);
    } else {
      var n := |a| - 1;
      AccumulateLinear(a[..n], b[..n]);
      assert XorBytes(a, b)[..n] == XorBytes(a[..n], b[..n]);
      InterchangeB(Accumulate(a[..n]), Accumulate(b[..n]), a[n], b[n]);
      TimesXnLinear(XorB(Accumulate(a[..n]), a[n]), XorB(Accumulate(b[..n]), b[n]), 8);
    }
  }

  /** The check byte is linear up to the coset leader. */
  lemma HecLinear(a: seq<Byte>, b: seq<Byte>)
    requires |a| == |b| == 4
    ensures CheckByte(XorBytes(a, b)) == XorB(XorB(CheckByte(a), CheckByte(b)), COSET_LEADER)
  {
    hide XorB, Accumulate, XorBytes;
    AccumulateLinear(a, b);
    InterchangeB(Accumulate(a), COSET_LEADER, Accumulate(b), COSET_LEADER);
    UnitB(COSET_LEADER);
    UnitB(XorB(Accumulate(a), Accumulate(b)));
  }

  // ---- Minimum distance ----

  function Weight(s: seq<bool>): nat {
    if s == [] then 0 else Weight(s[..|s| - 1]) + (if s[|s| - 1] then 1 else 0)
  }

  function Differ(s: seq<bool>, t: seq<bool>): (d: seq<bool>)
    requires |s| == |t|
    ensures |d| == |s|
  {
    seq(|s|, i requires 0 <= i < |s| => s[i] != t[i])
  }

  /** The number of bits in which two headers differ. */
  function Distance(a: seq<Byte>, b: seq<Byte>): nat
    requires |a| == |b|
  {
    Weight(Differ(Bits(a), Bits(b)))
  }

  lemma BitDifference(a: bool, b: bool)
    ensures BitB(a != b) == XorB(BitB(a), BitB(b))
  {
  }

  lemma InterchangeB(a: Byte, b: Byte, c: Byte, d: Byte)
    ensures XorB(XorB(a, b), XorB(c, d)) == XorB(XorB(a, c), XorB(b, d))
  {
    hide XorB;
    CommuteB(XorB(a, b), c, d);
    AssociateB(c, XorB(a, b), d);
    CommuteB(c, a, b);
    AssociateB(a, c, b);
    AssociateB(XorB(a, c), b, d);
  }

  lemma {:induction false} RemainderDiffer(s: seq<bool>, t: seq<bool>)
    requires |s| == |t|
    ensures Remainder(Differ(s, t)) == XorB(Remainder(s), Remainder(t))
  {
    hide TimesX, XorB, BitB;
    if s == [] {
      UnitB(0);
    } else {
      var n := |s| - 1;
      RemainderDiffer(s[..n], t[..n]);
      assert Differ(s, t)[..n] == Differ(s[..n], t[..n]);
      TimesXLinear(Remainder(s[..n]), Remainder(t[..n]));
      BitDifference(s[n], t[n]);
      InterchangeB(TimesX(Remainder(s[..n])), TimesX(Remainder(t[..n])), BitB(s[n]), BitB(t[n]));
    }
  }

  /** Whether a byte has an odd number of ones. */
  predicate OddOnes(b: Byte) {
    (b ^ (b >> 1) ^ (b >> 2) ^ (b >> 3) ^ (b >> 4) ^ (b >> 5) ^ (b >> 6) ^ (b >> 7)) & 1 == 1
  }

  /** x + 1 divides the generator, so a step keeps the parity. */
  lemma TimesXParity(r: Byte, b: bool)
    ensures OddOnes(XorB(TimesX(r), BitB(b))) == (OddOnes(r) != b)
  {
  }

  lemma {:induction false} RemainderParity(s: seq<bool>)
    ensures OddOnes(Remainder(s)) == (Weight(s) % 2 == 1)
  {
    hide TimesX, XorB, BitB, OddOnes;
    if s == [] {
      ZeroParity();
    } else {
      RemainderParity(s[..|s| - 1]);
      TimesXParity(Remainder(s[..|s| - 1]), s[|s| - 1]);
    }
  }

  lemma ZeroParity()
    ensures !OddOnes(0)
  {
  }

  lemma BitBValues()
    ensures BitB(true) == 1 && BitB(false) == 0
  {
  }

  lemma {:induction false} WeightZero(s: seq<bool>)
    requires Weight(s) == 0
    ensures Remainder(s) == 0
    ensures forall i :: 0 <= i < |s| ==> !s[i]
  {
    hide TimesX, XorB;
    if s != [] {
      WeightZero(s[..|s| - 1]);
      TimesXZero();
      UnitB(0);
    }
  }

  lemma {:induction false} WeightOne(s: seq<bool>) returns (p: nat)
    requires Weight(s) == 1
    ensures p < |s| && Remainder(s) == TimesXn(1, p)
  {
    hide TimesX, XorB, BitB;
    BitBValues();
    if s[|s| - 1] {
      WeightZero(s[..|s| - 1]);
      TimesXZero();
      UnitB(1);
      p := 0;
    } else {
      var p' := WeightOne(s[..|s| - 1]);
      UnitB(TimesX(Remainder(s[..|s| - 1])));
      p := p' + 1;
    }
  }

  lemma {:induction false} WeightTwo(s: seq<bool>) returns (p: nat, q: nat)
    requires Weight(s) == 2
    ensures p < q < |s| && Remainder(s) == XorB(TimesXn(1, q), TimesXn(1, p))
  {
    hide TimesX, XorB, BitB;
    BitBValues();
    if s[|s| - 1] {
      var q' := WeightOne(s[..|s| - 1]);
      p, q := 0, q' + 1;
    } else {
      var p', q' := WeightTwo(s[..|s| - 1]);
      UnitB(TimesX(Remainder(s[..|s| - 1])));
      TimesXLinear(TimesXn(1, q'), TimesXn(1, p'));
      p, q := p' + 1, q' + 1;
    }
  }

  lemma {:induction false} TimesXnFirst(r: Byte, n: nat)
    ensures TimesXn(TimesX(r), n) == TimesXn(r, n + 1)
  {
    hide TimesX;
    if n > 0 { TimesXnFirst(r, n - 1); }
  }

  /** None of `r`, `x r`, ..., `x^(n-1) r` is one. */
  predicate AvoidsOne(r: Byte, n: nat)
    decreases n
  {
    n == 0 || (r != 1 && AvoidsOne(TimesX(r), n - 1))
  }

  lemma {:induction false} AvoidsOneAt(r: Byte, n: nat, k: nat)
    requires k < n && AvoidsOne(r, n)
    ensures TimesXn(r, k) != 1
    decreases k
  {
    hide TimesX;
    if k > 0 {
      AvoidsOneAt(TimesX(r), n - 1, k - 1);
      TimesXnFirst(r, k - 1);
    }
  }

  /** The powers of x below the code length, after the first. */
  lemma PowersAvoidOne()
    ensures AvoidsOne(2, 39)
  {
    assert AvoidsOne(0x9b, 2);
    assert AvoidsOne(0x67, 4);
    assert AvoidsOne(0x58, 6);
    assert AvoidsOne(0x16, 8);
    assert AvoidsOne(0x86, 10);
    assert AvoidsOne(0xa2, 12);
    assert AvoidsOne(0xab, 14);
    assert AvoidsOne(0x6b, 16);
    assert AvoidsOne(0x5b, 18);
    assert AvoidsOne(0x57, 20);
    assert AvoidsOne(0x54, 22);
    assert AvoidsOne(0x15, 24);
    assert AvoidsOne(0xc7, 26);
    assert AvoidsOne(0x70, 28);
    assert AvoidsOne(0x1c, 30);
    assert AvoidsOne(0x07, 32);
    assert AvoidsOne(0x40, 34);
    assert AvoidsOne(0x10, 36);
    assert AvoidsOne(0x04, 38);
    assert AvoidsOne(0x02, 39);
  }

  lemma NoShortCycle(n: nat)
    requires 0 < n < 40
    ensures TimesXn(1, n) != 1
  {
    hide TimesX;
    PowersAvoidOne();
    AvoidsOneAt(2, 39, n - 1);
    TimesXnFirst(1, n - 1);
    XIsTwo();
  }

  lemma XIsTwo()
    ensures TimesX(1) == 2
  {
  }

  /** A nonempty error pattern of fewer than four bits is never a codeword. */
  lemma FewBitsShow(s: seq<bool>)
    requires |s| <= 40 && 0 < Weight(s) < 4
    ensures Remainder(s) != 0
  {
    hide TimesX, XorB, TimesXn, Remainder;
    RemainderParity(s);
    ZeroParity();
    if Weight(s) == 2 {
      var p, q := WeightTwo(s);
      PowersDiffer(p, q);
    }
  }

  lemma PowersDiffer(p: nat, q: nat)
    requires p < q < 40
    ensures XorB(TimesXn(1, q), TimesXn(1, p)) != 0
  {
    hide TimesX, XorB;
    if XorB(TimesXn(1, q), TimesXn(1, p)) == 0 {
      XorZero(TimesXn(1, q), TimesXn(1, p));
      TimesXnAdd(1, q - p, p);
      TimesXnInjective(TimesXn(1, q - p), 1, p);
      NoShortCycle(q - p);
    }
  }

  lemma XorZero(a: Byte, b: Byte)
    requires XorB(a, b) == 0
    ensures a == b
  {
  }

  lemma SameBits(s: seq<bool>, t: seq<bool>)
    requires |s| == |t| && Weight(Differ(s, t)) == 0
    ensures s == t
  {
    WeightZero(Differ(s, t));
    forall i | 0 <= i < |s|
      ensures s[i] == t[i]
    {
      assert !Differ(s, t)[i];
    }
  }

  /** Bits determine the bytes. */
  lemma {:induction false} BitsInjective(a: seq<Byte>, b: seq<Byte>)
    requires |a| == |b| && Bits(a) == Bits(b)
    ensures a == b
  {
    hide ByteBits;
    if a != [] {
      var n := |a| - 1;
      assert Bits(a)[8 * n..] == ByteBits(a[n]) && Bits(b)[8 * n..] == ByteBits(b[n]);
      assert Bits(a)[..8 * n] == Bits(a[..n]) && Bits(b)[..8 * n] == Bits(b[..n]);
      BitsInjective(a[..n], b[..n]);
      ByteFromBits(a[n]);
      ByteFromBits(b[n]);
      assert a == a[..n] + [a[n]] && b == b[..n] + [b[n]];
    }
  }

  /**
   * Any two different five-byte headers written by `atm_insert_hec` differ in
   * at least four bits: the code corrects one error and detects two.
   */
  lemma MinimumDistance(a: seq<Byte>, b: seq<Byte>)
    requires Protected(a) && Protected(b) && a != b
    ensures Distance(a, b) >= 4
  {
    hide TimesX, XorB, ByteBits, Remainder, Weight, Bits;
    var d := Differ(Bits(a), Bits(b));
    RemainderDiffer(Bits(a), Bits(b));
    ProtectedRemainder(a);
    ProtectedRemainder(b);
    UnitB(COSET_LEADER);
    if Weight(d) == 0 {
      SameBits(Bits(a), Bits(b));
      BitsInjective(a, b);
    } else if Weight(d) < 4 {
      FewBitsShow(d);
    }
  }

  // ---- The code: gen_syndrome_table, atm_compute_hec, atm_insert_hec ----

  ghost predicate IsSyndromeTable(t: seq<Byte>) {
    |t| == 256 && forall i :: 0 <= i < 256 ==> t[i] == Syndrome(AsByte(i))
  }

  function WideI(r: Byte): bv32 {
    r as bv32
  }

  function NarrowI(r: bv32): Byte {
    (r & 0xff) as Byte
  }

  /** One turn of the inner loop, on a 32-bit `int`. */
  function StepI(s: bv32): bv32 {
    if s & 0x80 != 0 then (s << 1) ^ 0x107 else s << 1
  }

  lemma StepIsTimesX(r: Byte)
    ensures StepI(WideI(r)) == WideI(TimesX(r))
    ensures NarrowI(WideI(r)) == r
  {
  }

  method GenSyndromeTable(table: array<Byte>)
    requires table.Length == 256
    modifies table
    ensures IsSyndromeTable(table[..])
  {
    hide TimesX, WideI, NarrowI, StepI, AsByte;
    for i := 0 to 256
      invariant forall k :: 0 <= k < i ==> table[k] == Syndrome(AsByte(k))
    {
      var syndrome := WideI(AsByte(i));
      for j := 0 to 8
        invariant syndrome == WideI(TimesXn(AsByte(i), j))
        invariant forall k :: 0 <= k < i ==> table[k] == Syndrome(AsByte(k))
      {
        StepIsTimesX(TimesXn(AsByte(i), j));
        syndrome := StepI(syndrome);
      }
      StepIsTimesX(TimesXn(AsByte(i), 8));
      table[i] := NarrowI(syndrome);
      assert table[i] == Syndrome(AsByte(i));
    }
  }

  method ComputeHec(table: array<Byte>, header: array<Byte>) returns (hec: Byte)
    requires IsSyndromeTable(table[..])
    requires header.Length >= 4
    ensures hec == CheckByte(header[..4])
  {
    hide XorB, Syndrome, AsByte, Value;
    var accum: Byte := 0;
    for i := 0 to 4
      invariant accum == Accumulate(header[..i])
    {
      var b := XorB(accum, header[i]);
      ByteOfValue(b);
      assert header[..i + 1][..i] == header[..i];
      assert table[..][Value(b)] == Syndrome(AsByte(Value(b)));
      accum := table[Value(b)];
    }
    hec := XorB(accum, COSET_LEADER);
  }

  method InsertHec(table: array<Byte>, cell: array<Byte>)
    requires IsSyndromeTable(table[..])
    requires cell.Length >= 5 && cell != table
    modifies cell
    ensures cell[..] == old(cell[..4]) + [CheckByte(old(cell[..4]))] + old(cell[5..])
    ensures Protected(cell[..5])
  {
    hide CheckByte;
    cell[4] := ComputeHec(table, cell);
    assert cell[..5][..4] == old(cell[..4]);
  }
}
