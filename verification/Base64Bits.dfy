/**
 * The shifts and masks of common/base64.c are the arithmetic that `Base64`
 * uses: for every byte, bit by bit, a nibble at a time.
 */
module Base64Bits {
  import opened Bytes
  import B = Base64

  // ---- The expressions of the source, on eight bits ----

  function Six0(a: Byte): Byte { a >> 2 }

  function Six1(a: Byte, b: Byte): Byte { ((a << 4) & 0x30) | (b >> 4) }

  function Six2(b: Byte, c: Byte): Byte { ((b << 2) & 0x3c) | (c >> 6) }

  function Six3(c: Byte): Byte { c & 0x3f }

  function Eight0(s: Byte, t: Byte): Byte { (s << 2) | (t >> 4) }

  function Eight1(t: Byte, u: Byte): Byte { ((t << 4) & 0xf0) | (u >> 2) }

  function Eight2(u: Byte, v: Byte): Byte { ((u << 6) & 0xc0) | v }

  // ---- Nibbles: two bits and two bits ----

  function High2(n: bv4): bv4 { n >> 2 }

  function Low2(n: bv4): bv4 { n & 3 }

  function Up2(n: bv4): bv4 { n << 2 }

  function Both(a: bv4, b: bv4): bv4 { a | b }

  lemma NibbleParts(n: bv4)
    ensures NibbleValue(High2(n)) == NibbleValue(n) / 4
    ensures NibbleValue(Low2(n)) == NibbleValue(n) % 4
    ensures NibbleValue(Up2(n)) == NibbleValue(n) % 4 * 4
  {
  }

  lemma PairBits(m: bv4, n: bv4)
    ensures Up2(m) & 3 == 0 && High2(n) < 4 && Low2(n) < 4
  {
  }

  lemma BothValue(x: bv4, y: bv4)
    requires x & 3 == 0 && y < 4
    ensures NibbleValue(Both(x, y)) == NibbleValue(x) + NibbleValue(y)
  {
    assert x == 0 || x == 4 || x == 8 || x == 12;
    assert y == 0 || y == 1 || y == 2 || y == 3;
  }

  lemma NibbleJoined(m: bv4, n: bv4)
    ensures NibbleValue(Both(Up2(m), High2(n))) == NibbleValue(m) % 4 * 4 + NibbleValue(n) / 4
    ensures NibbleValue(Both(Up2(m), Low2(n))) == NibbleValue(m) % 4 * 4 + NibbleValue(n) % 4
  {
    hide NibbleValue, High2, Low2, Up2, Both;
    PairBits(m, n);
    BothValue(Up2(m), High2(n));
    BothValue(Up2(m), Low2(n));
    NibbleParts(m);
    NibbleParts(n);
  }

  // ---- The bytes, by their nibbles ----

  lemma SixNibbles(a: Byte, b: Byte)
    ensures Hi(Six0(a)) == High2(Hi(a)) && Lo(Six0(a)) == Both(Up2(Hi(a)), High2(Lo(a)))
    ensures Hi(Six1(a, b)) == Low2(Lo(a)) && Lo(Six1(a, b)) == Hi(b)
    ensures Hi(Six2(a, b)) == High2(Lo(a)) && Lo(Six2(a, b)) == Both(Up2(Lo(a)), High2(Hi(b)))
    ensures Hi(Six3(a)) == Low2(Hi(a)) && Lo(Six3(a)) == Lo(a)
  {
  }

  /** A six-bit value in a byte. */
  predicate Small(s: Byte) { s < 64 }

  lemma SmallNibbles(s: Byte)
    ensures Small(s) <==> High2(Hi(s)) == 0
  {
  }

  lemma EightNibbles0(s: Byte, t: Byte)
    requires Small(s) && Small(t)
    ensures Hi(Eight0(s, t)) == Both(Up2(Hi(s)), High2(Lo(s))) && Lo(Eight0(s, t)) == Both(Up2(Lo(s)), Low2(Hi(t)))
  {
  }

  lemma EightNibbles1(t: Byte, u: Byte)
    requires Small(u)
    ensures Hi(Eight1(t, u)) == Lo(t) && Lo(Eight1(t, u)) == Both(Up2(Hi(u)), High2(Lo(u)))
  {
  }

  lemma EightNibbles2(u: Byte, v: Byte)
    requires Small(v)
    ensures Hi(Eight2(u, v)) == Both(Up2(Lo(u)), Low2(Hi(v))) && Lo(Eight2(u, v)) == Lo(v)
  {
  }

  // ---- The values ----

  /** A byte with nibbles `h` and `l`. */
  function Number(h: int, l: int): (n: B.Octet)
    requires 0 <= h < 16 && 0 <= l < 16
    ensures n == 16 * h + l
  {
    16 * h + l
  }

  lemma ValueIs(b: Byte)
    ensures Value(b) == Number(NibbleValue(Hi(b)), NibbleValue(Lo(b)))
  {
  }

  lemma Divided(h: int, l: int)
    requires 0 <= h < 16 && 0 <= l < 16
    ensures (16 * h + l) / 4 == 4 * h + l / 4
    ensures (16 * h + l) % 64 == 16 * (h % 4) + l
    ensures (16 * h + l) % 4 == l % 4 && (16 * h + l) % 16 == l
    ensures (16 * h + l) / 16 == h && (16 * h + l) / 64 == h / 4
  {
  }

  lemma Split4(l: int)
    requires 0 <= l
    ensures l == 4 * (l / 4) + l % 4
  {
  }

  lemma Below4(h: int)
    requires 0 <= h < 4
    ensures h % 4 == h && h / 4 == 0
  {
  }

  lemma SixNumbers(h: int, l: int, h': int, l': int)
    requires 0 <= h < 16 && 0 <= l < 16 && 0 <= h' < 16 && 0 <= l' < 16
    ensures B.Six0(Number(h, l)) == 4 * h + l / 4
    ensures B.Six1(Number(h, l), Number(h', l')) == l % 4 * 16 + h'
    ensures B.Six2(Number(h, l), Number(h', l')) == l * 4 + h' / 4
    ensures B.Six3(Number(h, l)) == 16 * (h % 4) + l
  {
    Divided(h, l);
    Divided(h', l');
  }

  lemma Over4(h: int, l: int)
    requires 0 <= h && 0 <= l < 16
    ensures (16 * h + l) / 4 == 4 * h + l / 4
  {
  }

  lemma Over16(h: int, l: int)
    requires 0 <= h && 0 <= l < 16
    ensures (16 * h + l) / 16 == h
  {
  }

  lemma Rest4(h: int, l: int)
    requires 0 <= h && 0 <= l < 16
    ensures (16 * h + l) % 4 == l % 4
  {
  }

  lemma Rest16(h: int, l: int)
    requires 0 <= h && 0 <= l < 16
    ensures (16 * h + l) % 16 == l
  {
  }

  lemma Eight0Number(h: int, l: int, h': int, l': int)
    requires 0 <= h < 4 && 0 <= l < 16 && 0 <= h' < 4 && 0 <= l' < 16
    ensures B.Eight0(Number(h, l), Number(h', l')) == 64 * h + 4 * l + h'
  {
    Over16(h', l');
  }

  lemma Eight1Is(t: B.Sextet, u: B.Sextet, low: int, high: int)
    requires t % 16 == low && u / 4 == high
    ensures B.Eight1(t, u) == 16 * low + high
  {
  }

  lemma Eight1Number(h: int, l: int, h': int, l': int)
    requires 0 <= h < 4 && 0 <= l < 16 && 0 <= h' < 4 && 0 <= l' < 16
    ensures B.Eight1(Number(h, l), Number(h', l')) == 16 * l + 4 * h' + l' / 4
  {
    hide B.Eight1;
    Rest16(h, l);
    Over4(h', l');
    Eight1Is(Number(h, l), Number(h', l'), l, 4 * h' + l' / 4);
  }

  lemma Eight2Number(h: int, l: int, h': int, l': int)
    requires 0 <= h < 4 && 0 <= l < 16 && 0 <= h' < 4 && 0 <= l' < 16
    ensures B.Eight2(Number(h, l), Number(h', l')) == l % 4 * 64 + 16 * h' + l'
  {
    Rest4(h, l);
  }

  /** The encoder's four expressions. */
  lemma SixesAgree(a: Byte, b: Byte)
    ensures Value(Six0(a)) == B.Six0(Value(a))
    ensures Value(Six1(a, b)) == B.Six1(Value(a), Value(b))
    ensures Value(Six2(a, b)) == B.Six2(Value(a), Value(b))
    ensures Value(Six3(a)) == B.Six3(Value(a))
  {
    hide *;
    SixNibbles(a, b);
    NibbleParts(Hi(a));
    NibbleParts(Lo(a));
    NibbleJoined(Hi(a), Lo(a));
    NibbleJoined(Lo(a), Hi(b));
    ValueIs(a);
    ValueIs(b);
    ValueIs(Six0(a));
    ValueIs(Six1(a, b));
    ValueIs(Six2(a, b));
    ValueIs(Six3(a));
    SixNumbers(NibbleValue(Hi(a)), NibbleValue(Lo(a)), NibbleValue(Hi(b)), NibbleValue(Lo(b)));
    Split4(NibbleValue(Hi(a)));
    Split4(NibbleValue(Lo(a)));
  }

  lemma SmallValue(s: Byte)
    requires Small(s)
    ensures Value(s) < 64 && NibbleValue(Hi(s)) < 4
  {
    hide NibbleValue, Hi, Lo, High2, Small;
    SmallNibbles(s);
    NibbleParts(Hi(s));
    NibbleOfZero();
  }

  lemma NibbleOfZero()
    ensures NibbleValue(0) == 0
  {
  }

  lemma FirstEight(s: Byte, t: Byte)
    requires Small(s) && Small(t)
    ensures Value(s) < 64 && Value(t) < 64
    ensures Value(Eight0(s, t)) == B.Eight0(Value(s), Value(t))
  {
    hide *;
    SmallValue(s);
    SmallValue(t);
    EightNibbles0(s, t);
    NibbleJoined(Hi(s), Lo(s));
    NibbleJoined(Lo(s), Hi(t));
    ValueIs(s);
    ValueIs(t);
    ValueIs(Eight0(s, t));
    Eight0Number(NibbleValue(Hi(s)), NibbleValue(Lo(s)), NibbleValue(Hi(t)), NibbleValue(Lo(t)));
    Split4(NibbleValue(Lo(s)));
    Below4(NibbleValue(Hi(s)));
    Below4(NibbleValue(Hi(t)));
  }

  lemma SecondEight(s: Byte, t: Byte)
    requires Small(s) && Small(t)
    ensures Value(s) < 64 && Value(t) < 64
    ensures Value(Eight1(s, t)) == B.Eight1(Value(s), Value(t))
  {
    hide *;
    SmallValue(s);
    SmallValue(t);
    EightNibbles1(s, t);
    NibbleJoined(Hi(t), Lo(t));
    ValueIs(s);
    ValueIs(t);
    ValueIs(Eight1(s, t));
    Eight1Number(NibbleValue(Hi(s)), NibbleValue(Lo(s)), NibbleValue(Hi(t)), NibbleValue(Lo(t)));
    Below4(NibbleValue(Hi(t)));
  }

  lemma ThirdEight(s: Byte, t: Byte)
    requires Small(s) && Small(t)
    ensures Value(s) < 64 && Value(t) < 64
    ensures Value(Eight2(s, t)) == B.Eight2(Value(s), Value(t))
  {
    hide *;
    SmallValue(s);
    SmallValue(t);
    EightNibbles2(s, t);
    NibbleJoined(Lo(s), Hi(t));
    ValueIs(s);
    ValueIs(t);
    ValueIs(Eight2(s, t));
    Eight2Number(NibbleValue(Hi(s)), NibbleValue(Lo(s)), NibbleValue(Hi(t)), NibbleValue(Lo(t)));
    Below4(NibbleValue(Hi(t)));
  }

  /** The decoder's three expressions, on values of digits. */
  lemma EightsAgree(s: Byte, t: Byte)
    requires Small(s) && Small(t)
    ensures Value(s) < 64 && Value(t) < 64
    ensures Value(Eight0(s, t)) == B.Eight0(Value(s), Value(t))
    ensures Value(Eight1(s, t)) == B.Eight1(Value(s), Value(t))
    ensures Value(Eight2(s, t)) == B.Eight2(Value(s), Value(t))
  {
    hide *;
    FirstEight(s, t);
    SecondEight(s, t);
    ThirdEight(s, t);
  }
}
