/**
 * The CRC-12 and CRC-16 tables of common/crc.c. Their loops keep the register
 * and the byte being shifted in apart, unlike the CRC-32 one.
 */
module Crc16 {
  import opened Bytes

  // ---- Word primitives and their laws ----

  function XorH(a: bv16, b: bv16): bv16 { a ^ b }

  function HalfH(c: bv16): bv16 { c >> 1 }

  predicate OddH(c: bv16) { c & 1 == 1 }

  lemma OddXorH(a: bv16, b: bv16)
    ensures OddH(XorH(a, b)) == (OddH(a) != OddH(b))
  {
  }

  lemma HalfXorH(a: bv16, b: bv16)
    ensures HalfH(XorH(a, b)) == XorH(HalfH(a), HalfH(b))
  {
  }

  lemma AssociateH(k: bv16, a: bv16, b: bv16)
    ensures XorH(k, XorH(a, b)) == XorH(XorH(k, a), b)
  {
  }

  lemma CommuteH(k: bv16, a: bv16, b: bv16)
    ensures XorH(k, XorH(a, b)) == XorH(a, XorH(k, b))
  {
  }

  lemma CancelH(k: bv16, a: bv16)
    ensures XorH(k, XorH(k, a)) == a
  {
  }

  lemma SwapH(a: bv16, b: bv16)
    ensures XorH(a, b) == XorH(b, a) && XorH(a, 0) == a && XorH(0, a) == a
  {
  }

  datatype Reg16 = Reg16(bits: bv16)

  const CRC12_POLY := Reg16(0x0f01)
  const CRC16_POLY := Reg16(0xa001)

  function Xor(a: Reg16, b: Reg16): Reg16 { Reg16(XorH(a.bits, b.bits)) }

  function Half(c: Reg16): Reg16 { Reg16(HalfH(c.bits)) }

  predicate Odd(c: Reg16) { OddH(c.bits) }

  function OfByte(b: Byte): Reg16 { Reg16(b as bv16) }

  lemma XorLaws(k: Reg16, a: Reg16, b: Reg16)
    ensures Odd(Xor(a, b)) == (Odd(a) != Odd(b))
    ensures Half(Xor(a, b)) == Xor(Half(a), Half(b))
    ensures Xor(k, Xor(a, b)) == Xor(Xor(k, a), b) == Xor(a, Xor(k, b))
    ensures Xor(k, Xor(k, a)) == a && Xor(a, Reg16(0)) == a && Xor(Reg16(0), a) == a && Xor(a, b) == Xor(b, a)
  {
    hide XorH, HalfH, OddH;
    OddXorH(a.bits, b.bits);
    HalfXorH(a.bits, b.bits);
    AssociateH(k.bits, a.bits, b.bits);
    CommuteH(k.bits, a.bits, b.bits);
    CancelH(k.bits, a.bits);
    SwapH(a.bits, b.bits);
  }

  /** One step of the reflected shift register. */
  function Shift(poly: Reg16, c: Reg16): Reg16 {
    if Odd(c) then Xor(Half(c), poly) else Half(c)
  }

  function ShiftTimes(poly: Reg16, c: Reg16, n: nat): Reg16 {
    if n == 0 then c else Shift(poly, ShiftTimes(poly, c, n - 1))
  }

  /** Entry `i` of the table: the byte `i` pushed through eight shifts. */
  function Entry(poly: Reg16, i: Byte): Reg16 {
    ShiftTimes(poly, OfByte(i), 8)
  }

  ghost predicate IsTable(poly: Reg16, t: seq<Reg16>) {
    |t| == 256 && forall i :: 0 <= i < 256 ==> t[i] == Entry(poly, AsByte(i))
  }

  // ---- A byte through the table is eight bits through the register ----

  lemma ShiftLinear(poly: Reg16, a: Reg16, b: Reg16)
    ensures Shift(poly, Xor(a, b)) == Xor(Shift(poly, a), Shift(poly, b))
  {
    hide Xor, Half, Odd;
    var (p, q) := (Half(a), Half(b));
    XorLaws(poly, a, b);
    XorLaws(poly, p, q);
    XorLaws(p, q, poly);
    XorLaws(q, p, poly);
    XorLaws(poly, Xor(p, poly), q);
    XorLaws(Xor(p, poly), q, poly);
    XorLaws(poly, p, poly);
    XorLaws(poly, q, poly);
  }

  lemma {:induction false} ShiftTimesLinear(poly: Reg16, a: Reg16, b: Reg16, n: nat)
    ensures ShiftTimes(poly, Xor(a, b), n) == Xor(ShiftTimes(poly, a, n), ShiftTimes(poly, b, n))
  {
    hide Shift, Xor;
    if n > 0 {
      ShiftTimesLinear(poly, a, b, n - 1);
      ShiftLinear(poly, ShiftTimes(poly, a, n - 1), ShiftTimes(poly, b, n - 1));
    }
  }

  function HighH(c: bv16, k: bv5): bv16
    requires k <= 8
  {
    (c & 0xff00) >> k
  }

  lemma HighStepH(c: bv16, k: bv5)
    requires k < 8
    ensures !OddH(HighH(c, k)) && HalfH(HighH(c, k)) == HighH(c, k + 1)
  {
  }

  function High(c: Reg16, k: bv5): Reg16
    requires k <= 8
  {
    Reg16(HighH(c.bits, k))
  }

  lemma HighStep(poly: Reg16, c: Reg16, k: bv5)
    requires k < 8
    ensures Shift(poly, High(c, k)) == High(c, k + 1)
  {
    hide HighH, OddH, HalfH;
    HighStepH(c.bits, k);
  }

  /** A register whose low byte is clear just moves down. */
  lemma ShiftHigh(poly: Reg16, c: Reg16)
    ensures ShiftTimes(poly, High(c, 0), 8) == High(c, 8)
  {
    hide Shift, High;
    var h := High(c, 0);
    HighStep(poly, c, 0);
    assert ShiftTimes(poly, h, 1) == High(c, 1);
    HighStep(poly, c, 1);
    assert ShiftTimes(poly, h, 2) == High(c, 2);
    HighStep(poly, c, 2);
    assert ShiftTimes(poly, h, 3) == High(c, 3);
    HighStep(poly, c, 3);
    assert ShiftTimes(poly, h, 4) == High(c, 4);
    HighStep(poly, c, 4);
    assert ShiftTimes(poly, h, 5) == High(c, 5);
    HighStep(poly, c, 5);
    assert ShiftTimes(poly, h, 6) == High(c, 6);
    HighStep(poly, c, 6);
    assert ShiftTimes(poly, h, 7) == High(c, 7);
    HighStep(poly, c, 7);
  }

  function Down8(c: Reg16): Reg16 {
    Reg16(c.bits >> 8)
  }

  function IndexH(c: bv16, b: Byte): Byte {
    ((c & 0xff) as Byte) ^ b
  }

  function Index(c: Reg16, b: Byte): Byte {
    IndexH(c.bits, b)
  }

  lemma SplitH(c: bv16, b: Byte)
    ensures XorH(c, b as bv16) == XorH(HighH(c, 0), IndexH(c, b) as bv16)
    ensures HighH(c, 8) == c >> 8
  {
  }

  /** For either polynomial, looking up the low byte of `c ^ b` replaces eight shifts. */
  lemma TableUpdate(poly: Reg16, c: Reg16, b: Byte)
    ensures Xor(Down8(c), Entry(poly, Index(c, b))) == ShiftTimes(poly, Xor(c, OfByte(b)), 8)
  {
    hide ShiftTimes, XorH, HighH, IndexH;
    SplitH(c.bits, b);
    ShiftTimesLinear(poly, High(c, 0), OfByte(Index(c, b)), 8);
    ShiftHigh(poly, c);
  }

  /** The polynomials themselves are the entries of byte 0x80, and byte 1 has the entry 0xc0c1 in the CRC-16 table. */
  lemma KnownEntries()
    ensures Entry(CRC12_POLY, 0x80) == Reg16(0x0f01) && Entry(CRC16_POLY, 0x80) == Reg16(0xa001)
    ensures Entry(CRC16_POLY, 0x01) == Reg16(0xc0c1)
  {
    Middle12();
    Middle16();
    First16();
  }

  lemma Middle12()
    ensures Entry(CRC12_POLY, 0x80) == Reg16(0x0f01)
  {
    var c := OfByte(0x80);
    assert ShiftTimes(CRC12_POLY, c, 1) == Reg16(0x0040);
    assert ShiftTimes(CRC12_POLY, c, 2) == Reg16(0x0020);
    assert ShiftTimes(CRC12_POLY, c, 3) == Reg16(0x0010);
    assert ShiftTimes(CRC12_POLY, c, 4) == Reg16(0x0008);
    assert ShiftTimes(CRC12_POLY, c, 5) == Reg16(0x0004);
    assert ShiftTimes(CRC12_POLY, c, 6) == Reg16(0x0002);
    assert ShiftTimes(CRC12_POLY, c, 7) == Reg16(0x0001);
    assert ShiftTimes(CRC12_POLY, c, 8) == Reg16(0x0f01);
  }

  lemma Middle16()
    ensures Entry(CRC16_POLY, 0x80) == Reg16(0xa001)
  {
    var c := OfByte(0x80);
    assert ShiftTimes(CRC16_POLY, c, 1) == Reg16(0x0040);
    assert ShiftTimes(CRC16_POLY, c, 2) == Reg16(0x0020);
    assert ShiftTimes(CRC16_POLY, c, 3) == Reg16(0x0010);
    assert ShiftTimes(CRC16_POLY, c, 4) == Reg16(0x0008);
    assert ShiftTimes(CRC16_POLY, c, 5) == Reg16(0x0004);
    assert ShiftTimes(CRC16_POLY, c, 6) == Reg16(0x0002);
    assert ShiftTimes(CRC16_POLY, c, 7) == Reg16(0x0001);
    assert ShiftTimes(CRC16_POLY, c, 8) == Reg16(0xa001);
  }

  lemma First16()
    ensures Entry(CRC16_POLY, 0x01) == Reg16(0xc0c1)
  {
    var c := OfByte(0x01);
    assert ShiftTimes(CRC16_POLY, c, 1) == Reg16(0xa001);
    assert ShiftTimes(CRC16_POLY, c, 2) == Reg16(0xf001);
    assert ShiftTimes(CRC16_POLY, c, 3) == Reg16(0xd801);
    assert ShiftTimes(CRC16_POLY, c, 4) == Reg16(0xcc01);
    assert ShiftTimes(CRC16_POLY, c, 5) == Reg16(0xc601);
    assert ShiftTimes(CRC16_POLY, c, 6) == Reg16(0xc301);
    assert ShiftTimes(CRC16_POLY, c, 7) == Reg16(0xc181);
    assert ShiftTimes(CRC16_POLY, c, 8) == Reg16(0xc0c1);
  }

  // ---- The loops with two registers ----

  /** One turn of the inner loop: `crc` and the byte `c` move together. */
  function Turn(poly: Reg16, crc: Reg16, c: Reg16): (Reg16, Reg16) {
    (if Odd(Xor(crc, c)) then Xor(Half(crc), poly) else Half(crc), Half(c))
  }

  /** Their difference is the single register of the bitwise CRC. */
  lemma TurnIsShift(poly: Reg16, crc: Reg16, c: Reg16)
    ensures Xor(Turn(poly, crc, c).0, Turn(poly, crc, c).1) == Shift(poly, Xor(crc, c))
  {
    hide Xor, Half, Odd;
    XorLaws(Half(crc), poly, Half(c));
    XorLaws(poly, crc, c);
    XorLaws(Half(crc), Half(c), poly);
  }

  function ByteDownH(b: Byte, k: bv4): bv16
    requires k <= 8
  {
    (b as bv16) >> k
  }

  function ByteDown(b: Byte, k: bv4): Reg16
    requires k <= 8
  {
    Reg16(ByteDownH(b, k))
  }

  lemma ByteDownSteps(b: Byte, k: bv4)
    ensures ByteDownH(b, 0) == b as bv16 && ByteDownH(b, 8) == 0
    ensures k < 8 ==> HalfH(ByteDownH(b, k)) == ByteDownH(b, k + 1)
  {
  }

  function Step4(k: nat): (s: bv4)
    requires k <= 8
    ensures s <= 8
  {
    if k == 0 then 0 else if k == 1 then 1 else if k == 2 then 2 else if k == 3 then 3 else if k == 4 then 4
    else if k == 5 then 5 else if k == 6 then 6 else if k == 7 then 7 else 8
  }

  lemma Step4Next(k: nat)
    requires k < 8
    ensures Step4(k) < 8 && Step4(k + 1) == Step4(k) + 1
  {
  }

  /** `crc12_init` and `crc16_init`, which differ in the polynomial only. */
  method CrcInit(poly: Reg16, table: array<Reg16>)
    requires table.Length == 256
    modifies table
    ensures IsTable(poly, table[..])
  {
    hide Xor, Half, Odd, Shift, ByteDownH, AsByte, OfByte, Step4, XorH, HalfH;
    for i := 0 to 256
      invariant forall n :: 0 <= n < i ==> table[n] == Entry(poly, AsByte(n))
    {
      ghost var b := AsByte(i);
      var crc, c := Reg16(0), OfByte(AsByte(i));
      ByteDownSteps(b, 0);
      XorLaws(c, c, c);
      assert c == ByteDown(b, Step4(0)) by { StartOf(b); }
      for j := 0 to 8
        invariant Xor(crc, c) == ShiftTimes(poly, OfByte(b), j)
        invariant c == ByteDown(b, Step4(j))
        invariant forall n :: 0 <= n < i ==> table[n] == Entry(poly, AsByte(n))
      {
        TurnIsShift(poly, crc, c);
        Step4Next(j);
        ByteDownSteps(b, Step4(j));
        HalfOf(ByteDownH(b, Step4(j)));
        if Odd(Xor(crc, c)) {
          crc := Xor(Half(crc), poly);
        } else {
          crc := Half(crc);
        }
        c := Half(c);
      }
      assert c == Reg16(0) by { EndOf(b); }
      XorLaws(c, crc, crc);
      table[i] := crc;
    }
  }

  /** `crc_init`, for its two 16-bit tables. */
  method CrcTables(crc12: array<Reg16>, crc16: array<Reg16>)
    requires crc12.Length == 256 && crc16.Length == 256 && crc12 != crc16
    modifies crc12, crc16
    ensures IsTable(CRC12_POLY, crc12[..]) && IsTable(CRC16_POLY, crc16[..])
  {
    hide IsTable;
    CrcInit(CRC12_POLY, crc12);
    ghost var table := crc12[..];
    CrcInit(CRC16_POLY, crc16);
    assert crc12[..] == table;
  }

  lemma HalfOf(w: bv16)
    ensures Half(Reg16(w)) == Reg16(HalfH(w))
  {
  }

  lemma StartOf(b: Byte)
    ensures OfByte(b) == ByteDown(b, Step4(0))
  {
  }

  lemma EndOf(b: Byte)
    ensures ByteDown(b, Step4(8)) == Reg16(0)
  {
  }
}
