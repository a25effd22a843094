/** Descriptor words of the Am79c971 rings (common/dev_am79c971.c). */
module Am79Desc {
  import opened Bytes
  import opened PhysMem

  const MAX_PKT_SIZE: nat := 2048

  // ---- Flags of the second word ----

  predicate Own(w: Word) {
    w.bits & 0x8000_0000 != 0
  }

  predicate Err(w: Word) {
    w.bits & 0x4000_0000 != 0
  }

  predicate Buff(w: Word) {
    w.bits & 0x0800_0000 != 0
  }

  predicate Stp(w: Word) {
    w.bits & 0x0200_0000 != 0
  }

  predicate Enp(w: Word) {
    w.bits & 0x0100_0000 != 0
  }

  function ClearOwn(w: Word): Word {
    Word(w.bits & !0x8000_0000)
  }

  function SetStp(w: Word): Word {
    Word(w.bits | 0x0200_0000)
  }

  function SetEnp(w: Word): Word {
    Word(w.bits | 0x0100_0000)
  }

  /** ERR and BUFF together: the chain ended before the packet did. */
  function SetErrBuff(w: Word): Word {
    Word(w.bits | (0x4000_0000 | 0x0800_0000))
  }

  lemma ClearOwnFlags(w: Word)
    ensures !Own(ClearOwn(w))
    ensures Stp(ClearOwn(w)) == Stp(w) && Enp(ClearOwn(w)) == Enp(w)
    ensures Err(ClearOwn(w)) == Err(w) && Buff(ClearOwn(w)) == Buff(w)
  {
  }

  lemma SetEnpFlags(w: Word)
    ensures Enp(SetEnp(w)) && Own(SetEnp(w)) == Own(w) && Stp(SetEnp(w)) == Stp(w)
    ensures Err(SetEnp(w)) == Err(w) && Buff(SetEnp(w)) == Buff(w)
  {
  }

  lemma SetStpFlags(w: Word)
    ensures Stp(SetStp(w)) && Own(SetStp(w)) == Own(w) && Enp(SetStp(w)) == Enp(w)
    ensures Err(SetStp(w)) == Err(w) && Buff(SetStp(w)) == Buff(w)
  {
  }

  lemma SetErrBuffFlags(w: Word)
    ensures Err(SetErrBuff(w)) && Buff(SetErrBuff(w))
    ensures Own(SetErrBuff(w)) == Own(w) && Stp(SetErrBuff(w)) == Stp(w) && Enp(SetErrBuff(w)) == Enp(w)
  {
  }

  lemma ClearOwnCommutes(w: Word)
    ensures ClearOwn(SetEnp(w)) == SetEnp(ClearOwn(w))
    ensures ClearOwn(SetErrBuff(w)) == SetErrBuff(ClearOwn(w))
  {
  }

  /** The flags are bits of the first byte of their word in guest memory. */
  lemma FlagsInBytes(w: Word)
    ensures var b := Hton32(w.bits)[0];
            && (Own(w) <==> b & 0x80 != 0) && (Err(w) <==> b & 0x40 != 0) && (Buff(w) <==> b & 0x08 != 0)
            && (Stp(w) <==> b & 0x02 != 0) && (Enp(w) <==> b & 0x01 != 0)
  {
  }

  /** A word without these five flags. */
  function Others(w: Word): Word {
    Word(w.bits & 0x34ff_ffff)
  }

  lemma ClearOwnOthers(w: Word)
    ensures Others(ClearOwn(w)) == Others(w)
  {
  }

  lemma SetStpOthers(w: Word)
    ensures Others(SetStp(w)) == Others(w)
  {
  }

  lemma SetEnpOthers(w: Word)
    ensures Others(SetEnp(w)) == Others(w)
  {
  }

  lemma SetErrBuffOthers(w: Word)
    ensures Others(SetErrBuff(w)) == Others(w)
  {
  }

  // ---- The 12-bit length fields ----

  function Field12(b: bv32): bv32 {
    b & 0xfff
  }

  /** `~((field) - 1) & 0xfff`: the two's complement of the field. */
  function Negated12(b: bv32): bv32 {
    !(b - 1) & 0xfff
  }

  function Nibbles(b: bv32): (bv4, bv4, bv4) {
    (((b >> 8) & 0xf) as bv4, ((b >> 4) & 0xf) as bv4, (b & 0xf) as bv4)
  }

  function FromNibbles(n: (bv4, bv4, bv4)): bv32 {
    ((n.0 as bv32) << 8) | ((n.1 as bv32) << 4) | (n.2 as bv32)
  }

  /** The number in the low twelve bits. */
  function Number12(b: bv32): (n: nat)
    ensures n < 4096
  {
    256 * NibbleValue(Nibbles(b).0) + 16 * NibbleValue(Nibbles(b).1) + NibbleValue(Nibbles(b).2)
  }

  function Bits12(n: nat): bv32
    requires n < 4096
  {
    FromNibbles((NibbleOf(n / 256), NibbleOf(n / 16 % 16), NibbleOf(n % 16)))
  }

  /** The size of the buffer a descriptor points at. */
  function BufLen(w: Word): (n: nat)
    ensures n < 4096
  {
    Number12(Negated12(Field12(w.bits)))
  }

  /** The byte count of a received packet, and a word with another count. */
  function CountOf(w: Word): nat {
    Number12(w.bits)
  }

  function WithField(b: bv32, f: bv32): bv32 {
    (b & !0xfff) | f
  }

  function WithCount(w: Word, n: nat): Word
    requires n < 4096
  {
    Word(WithField(w.bits, Bits12(n)))
  }

  // The size really is the two's complement of the field, digit by digit.

  function NotN(v: bv4): bv4 {
    !v
  }

  function NegN(v: bv4): bv4 {
    !v + 1
  }

  lemma NotNValue(v: bv4)
    ensures NibbleValue(NotN(v)) == 15 - NibbleValue(v)
  {
  }

  lemma NegNValue(v: bv4)
    ensures NibbleValue(NegN(v)) == if v == 0 then 0 else 16 - NibbleValue(v)
    ensures NibbleValue(v) == 0 <==> v == 0
  {
  }

  lemma NegatedNibbles(b: bv32)
    ensures var (n, r) := (Nibbles(b), Nibbles(Negated12(Field12(b))));
            r == (if n.2 == 0 && n.1 == 0 then NegN(n.0) else NotN(n.0),
                  if n.2 == 0 then NegN(n.1) else NotN(n.1),
                  NegN(n.2))
  {
    var (n, r) := (Nibbles(b), Nibbles(Negated12(Field12(b))));
    assert r.2 == NegN(n.2);
    assert n.2 == 0 ==> r.1 == NegN(n.1);
    assert n.2 != 0 ==> r.1 == NotN(n.1);
    assert n.2 == 0 && n.1 == 0 ==> r.0 == NegN(n.0);
    assert !(n.2 == 0 && n.1 == 0) ==> r.0 == NotN(n.0);
  }

  lemma ComplementDigits(a: nat, b: nat, c: nat)
    requires a < 16 && b < 16 && c < 16
    ensures (4096 - (256 * a + 16 * b + c)) % 4096
         == 256 * (if c == 0 && b == 0 then (if a == 0 then 0 else 16 - a) else 15 - a)
          + 16 * (if c == 0 then (if b == 0 then 0 else 16 - b) else 15 - b)
          + (if c == 0 then 0 else 16 - c)
  {
  }

  lemma BufLenIsComplement(w: Word)
    ensures BufLen(w) == (4096 - Number12(w.bits)) % 4096
  {
    hide Nibbles, Negated12, Field12, NibbleValue, NegN, NotN;
    NegatedNibbles(w.bits);
    var (n0, n1, n2) := Nibbles(w.bits);
    NegNValue(n0);
    NegNValue(n1);
    NegNValue(n2);
    NotNValue(n0);
    NotNValue(n1);
    ComplementDigits(NibbleValue(n0), NibbleValue(n1), NibbleValue(n2));
  }

  lemma NibblesOfField(b: bv32, n: (bv4, bv4, bv4))
    ensures Nibbles(WithField(b, FromNibbles(n))) == n
  {
    assert Nibbles(WithField(b, FromNibbles(n))).0 == n.0;
    assert Nibbles(WithField(b, FromNibbles(n))).1 == n.1;
    assert Nibbles(WithField(b, FromNibbles(n))).2 == n.2;
  }

  lemma CountWritten(w: Word, n: nat)
    requires n < 4096
    ensures CountOf(WithCount(w, n)) == n
  {
    hide Nibbles, FromNibbles, WithField, NibbleOf, NibbleValue;
    NibblesOfField(w.bits, (NibbleOf(n / 256), NibbleOf(n / 16 % 16), NibbleOf(n % 16)));
    NibbleRoundTrip(n / 256);
    NibbleRoundTrip(n / 16 % 16);
    NibbleRoundTrip(n % 16);
    ThreeDigits(n);
  }

  lemma FieldRest(b: bv32, n: (bv4, bv4, bv4))
    ensures var (v, w) := (Hton32(WithField(b, FromNibbles(n))), Hton32(b));
            v[0] == w[0] && v[1] == w[1] && v[2] & 0xf0 == w[2] & 0xf0
  {
  }

  /** The count is all that changes in its word. */
  lemma CountRest(w: Word, n: nat)
    requires n < 4096
    ensures var (b, c) := (Hton32(WithCount(w, n).bits), Hton32(w.bits));
            b[0] == c[0] && b[1] == c[1] && b[2] & 0xf0 == c[2] & 0xf0
  {
    hide Hton32, WithField, FromNibbles, NibbleOf;
    FieldRest(w.bits, (NibbleOf(n / 256), NibbleOf(n / 16 % 16), NibbleOf(n % 16)));
  }

  lemma ThreeDigits(n: nat)
    requires n < 4096
    ensures 256 * (n / 256) + 16 * (n / 16 % 16) + n % 16 == n
  {
  }

  lemma FlagsKeepField(w: Word)
    ensures Field12(ClearOwn(w).bits) == Field12(w.bits)
  {
  }

  /** Flags do not touch the buffer size. */
  lemma FlagsKeepLen(w: Word)
    ensures BufLen(ClearOwn(w)) == BufLen(w)
  {
    hide Field12, Negated12, Number12, ClearOwn;
    FlagsKeepField(w);
  }

  lemma NibblesInBytes(b: bv32)
    ensures var (n, h) := (Nibbles(b), Hton32(b)); n.0 == Lo(h[2]) && n.1 == Hi(h[3]) && n.2 == Lo(h[3])
  {
  }

  /** The number in the low twelve bits, from the last two bytes of the word in guest memory. */
  lemma Number12InBytes(b: bv32)
    ensures Number12(b) == 256 * NibbleValue(Lo(Hton32(b)[2])) + Value(Hton32(b)[3])
  {
    hide Nibbles, Hton32, Lo, Hi, NibbleValue;
    NibblesInBytes(b);
  }

  /** The address word, as a number: its bytes, most significant first. */
  function Address(w: Word): nat {
    var b := Hton32(w.bits);
    Number32(b[0], b[1], b[2], b[3])
  }
}
