/**
 * The reflected CRC computed bit by bit, the byte table of common/crc.c and
 * the accumulator convention of common/crc.cpp.
 *
 * Bit patterns are touched only by the word primitives at the top; a register
 * wraps a word, so that proofs which only move registers around never open it.
 */
module Crc {
  import opened Bytes

  // ---- Word primitives and their laws ----

  function XorW(a: bv32, b: bv32): bv32 {
    a ^ b
  }

  function NotW(a: bv32): bv32 {
    !a
  }

  function HalfW(c: bv32): bv32 {
    c >> 1
  }

  predicate OddW(c: bv32) {
    c & 1 == 1
  }

  lemma NotNotW(a: bv32)
    ensures NotW(NotW(a)) == a
  {
  }

  lemma OddXorW(a: bv32, b: bv32)
    ensures OddW(XorW(a, b)) == (OddW(a) != OddW(b))
  {
  }

  lemma HalfXorW(a: bv32, b: bv32)
    ensures HalfW(XorW(a, b)) == XorW(HalfW(a), HalfW(b))
  {
  }

  lemma AssociateW(k: bv32, a: bv32, b: bv32)
    ensures XorW(k, XorW(a, b)) == XorW(XorW(k, a), b)
  {
  }

  lemma CommuteW(k: bv32, a: bv32, b: bv32)
    ensures XorW(k, XorW(a, b)) == XorW(a, XorW(k, b))
  {
  }

  lemma CancelW(k: bv32, a: bv32)
    ensures XorW(k, XorW(k, a)) == a
  {
  }

  // ---- The register ----

  datatype Reg32 = Reg32(bits: bv32)

  const CRC32_POLY := Reg32(0xedb88320)

  function Xor(a: Reg32, b: Reg32): Reg32 {
    Reg32(XorW(a.bits, b.bits))
  }

  /** The C operator `~` on a 32-bit word. */
  function Not(a: Reg32): Reg32 {
    Reg32(NotW(a.bits))
  }

  function Half(c: Reg32): Reg32 {
    Reg32(HalfW(c.bits))
  }

  predicate Odd(c: Reg32) {
    OddW(c.bits)
  }

  function WideW(b: Byte): bv32 {
    b as bv32
  }

  function OfByte(b: Byte): Reg32 {
    Reg32(WideW(b))
  }

  /** One step of the reflected shift register for CRC-32. */
  function Shift(c: Reg32): Reg32 {
    if Odd(c) then Xor(CRC32_POLY, Half(c)) else Half(c)
  }

  function ShiftTimes(c: Reg32, n: nat): Reg32 {
    if n == 0 then c else Shift(ShiftTimes(c, n - 1))
  }

  /** The register after it has swallowed one byte, bit by bit. */
  function Feed(c: Reg32, b: Byte): Reg32 {
    ShiftTimes(Xor(c, OfByte(b)), 8)
  }

  /** The register after a whole byte string. */
  function FeedAll(c: Reg32, data: seq<Byte>): Reg32
    decreases data
  {
    if data == [] then c else FeedAll(Feed(c, data[0]), data[1..])
  }

  /** zlib's `crc32_z`: a finished CRC goes in and a finished CRC comes out. */
  function Crc32z(crc: Reg32, data: seq<Byte>): Reg32 {
    Not(FeedAll(Not(crc), data))
  }

  /** `crc32_compute`: a raw accumulator goes in, a complemented CRC comes out. */
  function Crc32Compute(accumulator: Reg32, data: seq<Byte>): Reg32 {
    if |data| <= 0 then Not(accumulator) else Crc32z(Not(accumulator), data)
  }

  // ---- Composition over concatenation ----

  lemma DoubleComplement(c: Reg32)
    ensures Not(Not(c)) == c
  {
    hide NotW;
    NotNotW(c.bits);
  }

  lemma {:induction false} FeedAllAppend(c: Reg32, a: seq<Byte>, b: seq<Byte>)
    ensures FeedAll(c, a + b) == FeedAll(FeedAll(c, a), b)
    decreases a
  {
    hide Feed;
    if a == [] {
      assert a + b == b;
    } else {
      assert (a + b)[0] == a[0] && (a + b)[1..] == a[1..] + b;
      FeedAllAppend(Feed(c, a[0]), a[1..], b);
    }
  }

  /** `crc32_compute` is the complemented register, whatever the length. */
  lemma ComputeIsFeed(acc: Reg32, data: seq<Byte>)
    ensures Crc32Compute(acc, data) == Not(FeedAll(acc, data))
  {
    hide Not;
    DoubleComplement(acc);
  }

  /**
   * Feeding a finished CRC back through `crc32_compute` the way every caller
   * does (`crc32_compute(~crc, ...)`) continues the computation: the result is
   * the one-shot CRC of the concatenation, for empty pieces too.
   */
  lemma ComputeComposes(acc: Reg32, a: seq<Byte>, b: seq<Byte>)
    ensures Crc32Compute(Not(Crc32Compute(acc, a)), b) == Crc32Compute(acc, a + b)
  {
    hide FeedAll, Crc32Compute, Not;
    ComputeIsFeed(acc, a);
    DoubleComplement(FeedAll(acc, a));
    ComputeIsFeed(FeedAll(acc, a), b);
    FeedAllAppend(acc, a, b);
    ComputeIsFeed(acc, a + b);
  }

  // ---- The byte table ----

  /** Entry `i` of the CRC-32 table: the byte `i` pushed through eight shifts. */
  function Entry(i: Byte): Reg32 {
    ShiftTimes(OfByte(i), 8)
  }

  ghost predicate IsTable(t: seq<Reg32>) {
    |t| == 256 && forall i :: 0 <= i < 256 ==> t[i] == Entry(AsByte(i))
  }

  lemma XorLaws(k: Reg32, a: Reg32, b: Reg32)
    ensures Odd(Xor(a, b)) == (Odd(a) != Odd(b))
    ensures Half(Xor(a, b)) == Xor(Half(a), Half(b))
    ensures Xor(k, Xor(a, b)) == Xor(Xor(k, a), b) == Xor(a, Xor(k, b))
    ensures Xor(k, Xor(k, a)) == a
  {
    hide XorW, HalfW, OddW;
    OddXorW(a.bits, b.bits);
    HalfXorW(a.bits, b.bits);
    AssociateW(k.bits, a.bits, b.bits);
    CommuteW(k.bits, a.bits, b.bits);
    CancelW(k.bits, a.bits);
  }

  lemma ShiftLinear(a: Reg32, b: Reg32)
    ensures Shift(Xor(a, b)) == Xor(Shift(a), Shift(b))
  {
    hide Xor, Half, Odd;
    XorLaws(CRC32_POLY, a, b);
    XorLaws(CRC32_POLY, Half(a), Half(b));
    XorLaws(Xor(CRC32_POLY, Half(a)), CRC32_POLY, Half(b));
    XorLaws(CRC32_POLY, Xor(CRC32_POLY, Half(a)), Half(b));
  }

  lemma {:induction false} ShiftTimesLinear(a: Reg32, b: Reg32, n: nat)
    ensures ShiftTimes(Xor(a, b), n) == Xor(ShiftTimes(a, n), ShiftTimes(b, n))
  {
    hide Shift, Xor;
    if n > 0 {
      ShiftTimesLinear(a, b, n - 1);
      ShiftLinear(ShiftTimes(a, n - 1), ShiftTimes(b, n - 1));
    }
  }

  /** The top 24 bits in place, and moved down `k` places. */
  function TopW(c: bv32): bv32 {
    c & 0xffff_ff00
  }

  function HighW(c: bv32, k: bv6): bv32
    requires k <= 8
  {
    (c & 0xffff_ff00) >> k
  }

  function High(c: Reg32, k: bv6): Reg32
    requires k <= 8
  {
    Reg32(HighW(c.bits, k))
  }

  lemma HighStepW(c: bv32, k: bv6)
    requires k < 8
    ensures !OddW(HighW(c, k)) && HalfW(HighW(c, k)) == HighW(c, k + 1)
  {
  }

  lemma HighStep(c: Reg32, k: bv6)
    requires k < 8
    ensures Shift(High(c, k)) == High(c, k + 1)
  {
    hide HighW, OddW, HalfW;
    HighStepW(c.bits, k);
  }

  /** A register whose low byte is clear just moves down. */
  lemma ShiftHigh(c: Reg32)
    ensures ShiftTimes(High(c, 0), 8) == High(c, 8)
  {
    hide Shift, High;
    var h := High(c, 0);
    HighStep(c, 0);
    assert ShiftTimes(h, 1) == High(c, 1);
    HighStep(c, 1);
    assert ShiftTimes(h, 2) == High(c, 2);
    HighStep(c, 2);
    assert ShiftTimes(h, 3) == High(c, 3);
    HighStep(c, 3);
    assert ShiftTimes(h, 4) == High(c, 4);
    HighStep(c, 4);
    assert ShiftTimes(h, 5) == High(c, 5);
    HighStep(c, 5);
    assert ShiftTimes(h, 6) == High(c, 6);
    HighStep(c, 6);
    assert ShiftTimes(h, 7) == High(c, 7);
    HighStep(c, 7);
  }

  function LowW(c: bv32): Byte {
    (c & 0xff) as Byte
  }

  function XorByte(a: Byte, b: Byte): Byte {
    a ^ b
  }

  /** The table index a byte update looks up: the low byte of `c ^ b`. */
  function Index(c: Reg32, b: Byte): Byte {
    XorByte(LowW(c.bits), b)
  }

  /** What the update keeps of the old register. */
  function Down8(c: Reg32): Reg32 {
    Reg32(c.bits >> 8)
  }

  lemma Down8IsHigh(c: Reg32)
    ensures High(c, 8) == Down8(c)
  {
  }

  lemma TopIsHighW(c: bv32)
    ensures HighW(c, 0) == TopW(c)
  {
  }

  lemma TopAndLowW(c: bv32)
    ensures XorW(TopW(c), WideW(LowW(c))) == c
  {
  }

  lemma XorByteW(a: Byte, b: Byte)
    ensures XorW(WideW(a), WideW(b)) == WideW(XorByte(a, b))
  {
  }

  lemma SplitLowByteW(c: bv32, b: Byte)
    ensures XorW(c, WideW(b)) == XorW(HighW(c, 0), WideW(XorByte(LowW(c), b)))
  {
    hide XorW, HighW, LowW, TopW, XorByte, WideW;
    TopAndLowW(c);
    TopIsHighW(c);
    AssociateW(TopW(c), WideW(LowW(c)), WideW(b));
    XorByteW(LowW(c), b);
  }

  lemma SplitLowByte(c: Reg32, b: Byte)
    ensures Xor(c, OfByte(b)) == Xor(High(c, 0), OfByte(Index(c, b)))
  {
    hide XorW, HighW, LowW, TopW, XorByte, WideW;
    SplitLowByteW(c.bits, b);
  }

  /** The byte-at-a-time update through the table is the bitwise update. */
  lemma TableUpdate(c: Reg32, b: Byte)
    ensures Xor(Down8(c), Entry(Index(c, b))) == Feed(c, b)
  {
    hide ShiftTimes, Xor, OfByte, Index, High, Down8;
    SplitLowByte(c, b);
    ShiftTimesLinear(High(c, 0), OfByte(Index(c, b)), 8);
    ShiftHigh(c);
    Down8IsHigh(c);
  }

  /** The register after a byte string, computed through a table. */
  function TableFeedAll(t: seq<Reg32>, c: Reg32, data: seq<Byte>): Reg32
    requires |t| == 256
    decreases data
  {
    if data == [] then c
    else TableFeedAll(t, Xor(Down8(c), t[Value(Index(c, data[0]))]), data[1..])
  }

  /** For inputs of any length the table built by `crc32_init` gives the bitwise CRC. */
  lemma {:induction false} TableIsBitwise(t: seq<Reg32>, c: Reg32, data: seq<Byte>)
    requires IsTable(t)
    ensures TableFeedAll(t, c, data) == FeedAll(c, data)
    decreases data
  {
    hide Feed, Entry, Xor, Down8, Index, AsByte, Value;
    if data != [] {
      ByteOfValue(Index(c, data[0]));
      TableUpdate(c, data[0]);
      TableIsBitwise(t, Feed(c, data[0]), data[1..]);
    }
  }

  /** Two entries of the table as published with the CRC-32 of zlib and Ethernet: byte 1, and the polynomial itself. */
  lemma KnownEntries()
    ensures Entry(0x01) == Reg32(0x7707_3096) && Entry(0x80) == Reg32(0xedb8_8320)
  {
    FirstEntry();
    MiddleEntry();
  }

  lemma FirstEntry()
    ensures Entry(0x01) == Reg32(0x7707_3096)
  {
    var c := OfByte(0x01);
    assert ShiftTimes(c, 1) == Reg32(0xedb8_8320);
    assert ShiftTimes(c, 2) == Reg32(0x76dc_4190);
    assert ShiftTimes(c, 3) == Reg32(0x3b6e_20c8);
    assert ShiftTimes(c, 4) == Reg32(0x1db7_1064);
    assert ShiftTimes(c, 5) == Reg32(0x0edb_8832);
    assert ShiftTimes(c, 6) == Reg32(0x076d_c419);
    assert ShiftTimes(c, 7) == Reg32(0xee0e_612c);
    assert ShiftTimes(c, 8) == Reg32(0x7707_3096);
  }

  lemma MiddleEntry()
    ensures Entry(0x80) == Reg32(0xedb8_8320)
  {
    var c := OfByte(0x80);
    assert ShiftTimes(c, 1) == Reg32(0x0000_0040);
    assert ShiftTimes(c, 2) == Reg32(0x0000_0020);
    assert ShiftTimes(c, 3) == Reg32(0x0000_0010);
    assert ShiftTimes(c, 4) == Reg32(0x0000_0008);
    assert ShiftTimes(c, 5) == Reg32(0x0000_0004);
    assert ShiftTimes(c, 6) == Reg32(0x0000_0002);
    assert ShiftTimes(c, 7) == Reg32(0x0000_0001);
    assert ShiftTimes(c, 8) == Reg32(0xedb8_8320);
  }

  // ---- crc32_init runs the same shifts on a 64-bit `unsigned long` ----

  function HalfL(c: bv64): bv64 {
    c >> 1
  }

  predicate OddL(c: bv64) {
    c & 1 == 1
  }

  function XorL(a: bv64, b: bv64): bv64 {
    a ^ b
  }

  function LongW(c: bv32): bv64 {
    c as bv64
  }

  /** Storing into the table keeps the low 32 bits. */
  function NarrowL(c: bv64): bv32 {
    (c & 0xffff_ffff) as bv32
  }

  lemma LongLaws(a: bv32, b: bv32)
    ensures OddL(LongW(a)) == OddW(a)
    ensures HalfL(LongW(a)) == LongW(HalfW(a))
    ensures XorL(LongW(a), LongW(b)) == LongW(XorW(a, b))
  {
  }

  lemma NarrowLong(c: bv32)
    ensures NarrowL(LongW(c)) == c
  {
  }

  datatype Reg64 = Reg64(bits: bv64)

  function Widen(c: Reg32): Reg64 {
    Reg64(LongW(c.bits))
  }

  function Narrow(c: Reg64): Reg32 {
    Reg32(NarrowL(c.bits))
  }

  /** One turn of the inner loop. */
  function LongShift(c: Reg64): Reg64 {
    if OddL(c.bits) then Reg64(XorL(LongW(CRC32_POLY.bits), HalfL(c.bits))) else Reg64(HalfL(c.bits))
  }

  /** The wide register never leaves 32 bits, so storing it loses nothing. */
  lemma LongShiftIsShift(c: Reg32)
    ensures LongShift(Widen(c)) == Widen(Shift(c))
    ensures Narrow(Widen(c)) == c
  {
    hide OddL, HalfL, XorL, LongW, NarrowL, OddW, HalfW, XorW;
    LongLaws(c.bits, c.bits);
    LongLaws(CRC32_POLY.bits, HalfW(c.bits));
    NarrowLong(c.bits);
  }

  method Crc32Init(table: array<Reg32>)
    requires table.Length == 256
    modifies table
    ensures IsTable(table[..])
  {
    hide Shift, LongShift, Widen, Narrow, OfByte, AsByte;
    for n := 0 to 256
      invariant forall i :: 0 <= i < n ==> table[i] == Entry(AsByte(i))
    {
      var c := Widen(OfByte(AsByte(n)));
      for k := 0 to 8
        invariant c == Widen(ShiftTimes(OfByte(AsByte(n)), k))
        invariant forall i :: 0 <= i < n ==> table[i] == Entry(AsByte(i))
      {
        LongShiftIsShift(ShiftTimes(OfByte(AsByte(n)), k));
        c := LongShift(c);
      }
      LongShiftIsShift(ShiftTimes(OfByte(AsByte(n)), 8));
      table[n] := Narrow(c);
      assert table[n] == Entry(AsByte(n));
    }
  }
}
