/** Byte strings and the big-endian accessors shared by the emulated devices. */
module Bytes {

  type Byte = bv8

  /** `m_ntoh32`: the big-endian word held by four bytes. */
  function Ntoh32(b0: Byte, b1: Byte, b2: Byte, b3: Byte): bv32 {
    ((b0 as bv32) << 24) | ((b1 as bv32) << 16) | ((b2 as bv32) << 8) | (b3 as bv32)
  }

  /** `m_hton32`: the four bytes of a word, most significant first. */
  function Hton32(v: bv32): (s: seq<Byte>)
    ensures |s| == 4
  {
    [((v >> 24) & 0xff) as Byte, ((v >> 16) & 0xff) as Byte, ((v >> 8) & 0xff) as Byte, (v & 0xff) as Byte]
  }

  lemma Hton32RoundTrip(v: bv32)
    ensures Ntoh32(Hton32(v)[0], Hton32(v)[1], Hton32(v)[2], Hton32(v)[3]) == v
  {
  }

  /** A byte shifted in from the right becomes the last of the four: the order is big-endian. */
  lemma Hton32Shift(v: bv32, b: Byte)
    ensures Hton32((v << 8) | (b as bv32)) == Hton32(v)[1..] + [b]
  {
    var (s, r) := (Hton32((v << 8) | (b as bv32)), Hton32(v));
    assert s[0] == r[1] && s[1] == r[2] && s[2] == r[3] && s[3] == b;
  }

  lemma Ntoh32RoundTrip(a: Byte, b: Byte, c: Byte, d: Byte)
    ensures Hton32(Ntoh32(a, b, c, d)) == [a, b, c, d]
  {
  }

  // ---- Bytes as numbers, a nibble at a time ----

  function NibbleOf(n: int): bv4
    requires 0 <= n < 16
  {
    if n == 0 then 0
    else if n == 1 then 1
    else if n == 2 then 2
    else if n == 3 then 3
    else if n == 4 then 4
    else if n == 5 then 5
    else if n == 6 then 6
    else if n == 7 then 7
    else if n == 8 then 8
    else if n == 9 then 9
    else if n == 10 then 10
    else if n == 11 then 11
    else if n == 12 then 12
    else if n == 13 then 13
    else if n == 14 then 14
    else 15
  }

  function NibbleValue(v: bv4): (n: int)
    ensures 0 <= n < 16
  {
    if v == 0 then 0
    else if v == 1 then 1
    else if v == 2 then 2
    else if v == 3 then 3
    else if v == 4 then 4
    else if v == 5 then 5
    else if v == 6 then 6
    else if v == 7 then 7
    else if v == 8 then 8
    else if v == 9 then 9
    else if v == 10 then 10
    else if v == 11 then 11
    else if v == 12 then 12
    else if v == 13 then 13
    else if v == 14 then 14
    else 15
  }

  lemma NibbleRoundTrip(n: int)
    requires 0 <= n < 16
    ensures NibbleValue(NibbleOf(n)) == n
  {
  }

  lemma NibbleValueRoundTrip(v: bv4)
    ensures NibbleOf(NibbleValue(v)) == v
  {
  }

  function Join(hi: bv4, lo: bv4): Byte {
    ((hi as Byte) << 4) | (lo as Byte)
  }

  function Hi(b: Byte): bv4 {
    (b >> 4) as bv4
  }

  function Lo(b: Byte): bv4 {
    (b & 0x0f) as bv4
  }

  lemma JoinParts(hi: bv4, lo: bv4)
    ensures Hi(Join(hi, lo)) == hi && Lo(Join(hi, lo)) == lo
  {
  }

  lemma PartsJoin(b: Byte)
    ensures Join(Hi(b), Lo(b)) == b
  {
  }

  /** The byte that holds a number below 256. */
  function AsByte(n: int): Byte
    requires 0 <= n < 256
  {
    Join(NibbleOf(n / 16), NibbleOf(n % 16))
  }

  /** The number a byte holds. */
  function Value(b: Byte): (n: int)
    ensures 0 <= n < 256
  {
    16 * NibbleValue(Hi(b)) + NibbleValue(Lo(b))
  }

  lemma ValueOfByte(n: int)
    requires 0 <= n < 256
    ensures Value(AsByte(n)) == n
  {
    hide NibbleOf, NibbleValue, Join, Hi, Lo;
    JoinParts(NibbleOf(n / 16), NibbleOf(n % 16));
    NibbleRoundTrip(n / 16);
    NibbleRoundTrip(n % 16);
  }

  lemma ByteOfValue(b: Byte)
    ensures AsByte(Value(b)) == b
  {
    hide NibbleOf, NibbleValue, Join, Hi, Lo;
    NibbleValueRoundTrip(Hi(b));
    NibbleValueRoundTrip(Lo(b));
    PartsJoin(b);
  }

  /** Four bytes as a number, most significant first. */
  function Number32(a: Byte, b: Byte, c: Byte, d: Byte): nat {
    0x100_0000 * Value(a) + 0x1_0000 * Value(b) + 0x100 * Value(c) + Value(d)
  }

  function Zeros(n: nat): (s: seq<Byte>)
    ensures |s| == n
  {
    seq(n, _ => 0)
  }

  function Flatten(parts: seq<seq<Byte>>): seq<Byte> {
    if parts == [] then [] else parts[0] + Flatten(parts[1..])
  }

  lemma {:induction false} FlattenAppend(parts: seq<seq<Byte>>, more: seq<seq<Byte>>)
    ensures Flatten(parts + more) == Flatten(parts) + Flatten(more)
  {
    if parts == [] {
      assert parts + more == more;
    } else {
      assert (parts + more)[0] == parts[0] && (parts + more)[1..] == parts[1..] + more;
      FlattenAppend(parts[1..], more);
      assert parts[0] + (Flatten(parts[1..]) + Flatten(more)) == Flatten(parts) + Flatten(more);
    }
  }
}
