/**
 * Base64 (common/base64.c; section 6.8 of RFC 2045, without line breaks).
 * Characters are numbers here: a shift is a multiplication or a division by a
 * power of two, a mask a remainder, and `|` joins disjoint bits, so it adds.
 * `Base64Bits` proves that this is what the bits do.
 */
module Base64 {
  /** An `unsigned char`. */
  type Octet = n: int | 0 <= n < 256

  /** A six-bit value. */
  type Sextet = n: int | 0 <= n < 64

  const PAD: Octet := 0x3d
  const CR: Octet := 0x0d
  const PLUS: Octet := 0x2b
  const SPACE: Octet := 0x20
  const BAD: Octet := 0xff

  // ---- The alphabet ----

  /** `base64digits`. */
  function Digit(v: Sextet): Octet {
    if v < 26 then 0x41 + v
    else if v < 52 then 0x61 + (v - 26)
    else if v < 62 then 0x30 + (v - 52)
    else if v == 62 then 0x2b
    else 0x2f
  }

  /** `DECODE64`: the value of a digit, or BAD. */
  function Val(c: Octet): (v: Octet)
    ensures v == BAD || v < 64
  {
    if 0x41 <= c <= 0x5a then c - 0x41
    else if 0x61 <= c <= 0x7a then c - 0x61 + 26
    else if 0x30 <= c <= 0x39 then c - 0x30 + 52
    else if c == 0x2b then 62
    else if c == 0x2f then 63
    else BAD
  }

  predicate IsDigit(c: Octet) {
    Val(c) != BAD
  }

  lemma DigitValue(v: Sextet)
    ensures Val(Digit(v)) == v && IsDigit(Digit(v))
  {
  }

  /** The alphabet: capitals, small letters, figures, plus, slash. */
  lemma Alphabet(v: Sextet)
    ensures v < 26 ==> Digit(v) == 'A' as int + v
    ensures 26 <= v < 52 ==> Digit(v) == 'a' as int + (v - 26)
    ensures 52 <= v < 62 ==> Digit(v) == '0' as int + (v - 52)
    ensures Digit(62) == '+' as int && Digit(63) == '/' as int
  {
  }

  /** Digits are the characters of the alphabet, each with its own value, and nothing else is a digit. */
  lemma DigitsOnly(c: Octet)
    ensures IsDigit(c) <==> exists v: Sextet :: Digit(v) == c
    ensures IsDigit(c) ==> Val(c) < 64 && Digit(Val(c)) == c
  {
    if IsDigit(c) {
      assert Digit(Val(c)) == c;
    }
    if v: Sextet :| Digit(v) == c {
      DigitValue(v);
    }
  }

  lemma NotDigits()
    ensures !IsDigit(0) && !IsDigit(PAD) && !IsDigit(CR) && !IsDigit(SPACE)
  {
  }

  // ---- Three bytes and four digits ----

  function Six0(a: Octet): Sextet { a / 4 }

  function Six1(a: Octet, b: Octet): Sextet { a % 4 * 16 + b / 16 }

  function Six2(b: Octet, c: Octet): Sextet { b % 16 * 4 + c / 64 }

  function Six3(c: Octet): Sextet { c % 64 }

  function Eight0(s: Sextet, t: Sextet): Octet { s * 4 + t / 16 }

  function Eight1(t: Sextet, u: Sextet): Octet { t % 16 * 16 + u / 4 }

  function Eight2(u: Sextet, v: Sextet): Octet { u % 4 * 64 + v }

  lemma EightsBack(a: Octet, b: Octet, c: Octet)
    ensures Eight0(Six0(a), Six1(a, b)) == a
    ensures Eight1(Six1(a, b), Six2(b, c)) == b
    ensures Eight2(Six2(b, c), Six3(c)) == c
  {
  }

  // ---- Encoding ----

  /** The four characters of three bytes. */
  function Group(a: Octet, b: Octet, c: Octet): (g: seq<Octet>)
    ensures |g| == 4
  {
    [Digit(Six0(a)), Digit(Six1(a, b)), Digit(Six2(b, c)), Digit(Six3(c))]
  }

  /** The encoding, without its terminating NUL. */
  function Encoded(x: seq<Octet>): seq<Octet> {
    if |x| >= 3 then Group(x[0], x[1], x[2]) + Encoded(x[3..])
    else if |x| == 2 then Group(x[0], x[1], 0)[..3] + [PAD]
    else if |x| == 1 then Group(x[0], 0, 0)[..2] + [PAD, PAD]
    else []
  }

  lemma {:induction false} EncodedLength(x: seq<Octet>)
    ensures |Encoded(x)| == 4 * ((|x| + 2) / 3)
  {
    hide Group;
    if |x| >= 3 {
      EncodedLength(x[3..]);
      assert |Encoded(x)| == 4 + |Encoded(x[3..])|;
    }
  }

  /** A C string: its only NUL is its last character. */
  predicate Terminated(s: seq<Octet>) {
    |s| > 0 && s[|s| - 1] == 0 && forall i :: 0 <= i < |s| - 1 ==> s[i] != 0
  }

  lemma GroupDigits(a: Octet, b: Octet, c: Octet)
    ensures var g := Group(a, b, c);
            && Val(g[0]) == Six0(a) && Val(g[1]) == Six1(a, b) && Val(g[2]) == Six2(b, c) && Val(g[3]) == Six3(c)
            && forall i :: 0 <= i < 4 ==> IsDigit(g[i]) && g[i] != 0 && g[i] != PAD && g[i] != CR && g[i] != SPACE
  {
    hide Six0, Six1, Six2, Six3, Digit, Val;
    DigitValue(Six0(a));
    DigitValue(Six1(a, b));
    DigitValue(Six2(b, c));
    DigitValue(Six3(c));
    NotDigits();
  }

  lemma {:induction false} EncodedTerminated(x: seq<Octet>)
    ensures Terminated(Encoded(x) + [0])
  {
    hide Group;
    if |x| >= 3 {
      GroupDigits(x[0], x[1], x[2]);
      EncodedTerminated(x[3..]);
      assert Encoded(x) + [0] == Group(x[0], x[1], x[2]) + (Encoded(x[3..]) + [0]);
    } else if |x| == 2 {
      GroupDigits(x[0], x[1], 0);
    } else if |x| == 1 {
      GroupDigits(x[0], 0, 0);
    }
  }

  // ---- Decoding ----

  /** Whether the decoder succeeds, and the bytes it has written when it returns. */
  datatype Decoded = Decoded(ok: bool, bytes: seq<Octet>)

  /** The first four characters are digits, the last two of which may be padding. */
  predicate GroupOk(s: seq<Octet>)
    requires Terminated(s)
  {
    && IsDigit(s[0])
    && 1 < |s| && IsDigit(s[1])
    && 2 < |s| && (s[2] == PAD || IsDigit(s[2]))
    && 3 < |s| && (s[3] == PAD || IsDigit(s[3]))
  }

  /** The bytes four characters stand for. */
  function GroupBytes(s: seq<Octet>): (b: seq<Octet>)
    requires Terminated(s) && GroupOk(s)
    ensures 1 <= |b| <= 3
  {
    var (d1, d2, d3, d4) := (Val(s[0]), Val(s[1]), Val(s[2]), Val(s[3]));
    if s[2] == PAD then [Eight0(d1, d2)]
    else if s[3] == PAD then [Eight0(d1, d2), Eight1(d2, d3)]
    else [Eight0(d1, d2), Eight1(d2, d3), Eight2(d3, d4)]
  }

  /** As many of them as there is room for. */
  function Room(b: seq<Octet>, len: nat, maxlen: int): seq<Octet> {
    if maxlen == 0 || len + |b| <= maxlen then b else if len >= maxlen then [] else b[..maxlen - len]
  }

  lemma GroupOkLonger(s: seq<Octet>)
    requires Terminated(s) && GroupOk(s)
    ensures 4 < |s| && Terminated(s[4..])
  {
    hide Val;
    NotDigits();
  }

  /** The rest of the input, with `len` bytes already written. */
  function DecodeFrom(s: seq<Octet>, len: nat, maxlen: int): Decoded
    requires Terminated(s)
    decreases |s|
  {
    if !GroupOk(s) then Decoded(false, [])
    else
      GroupOkLonger(s);
      var b := GroupBytes(s);
      if maxlen != 0 && len + |b| > maxlen then Decoded(false, Room(b, len, maxlen))
      else if s[4] == 0 || s[4] == CR || s[3] == PAD then Decoded(true, b)
      else
        var d := DecodeFrom(s[4..], len + |b|, maxlen);
        Decoded(d.ok, b + d.bytes)
  }

  /** A leading `+ ` is skipped, and a line that is only a carriage return is empty. */
  function Start(s: seq<Octet>): (n: nat)
    requires Terminated(s)
    ensures n < |s|
  {
    if s[0] == PLUS && s[1] == SPACE then 2 else 0
  }

  function Decode(s: seq<Octet>, maxlen: int): Decoded
    requires Terminated(s)
  {
    var t := s[Start(s)..];
    if t[0] == CR then Decoded(true, []) else DecodeFrom(t, 0, maxlen)
  }

  /** Never more than `maxlen` bytes are written. */
  lemma {:induction false} DecodeFromBounded(s: seq<Octet>, len: nat, maxlen: int)
    requires Terminated(s) && maxlen > 0 && len <= maxlen
    ensures len + |DecodeFrom(s, len, maxlen).bytes| <= maxlen
    decreases |s|
  {
    hide GroupBytes, GroupOk;
    if GroupOk(s) {
      GroupOkLonger(s);
      var b := GroupBytes(s);
      if len + |b| <= maxlen && !(s[4] == 0 || s[4] == CR || s[3] == PAD) {
        DecodeFromBounded(s[4..], len + |b|, maxlen);
      }
    }
  }

  lemma DecodeBounded(s: seq<Octet>, maxlen: int)
    requires Terminated(s) && maxlen > 0
    ensures |Decode(s, maxlen).bytes| <= maxlen
  {
    hide DecodeFrom;
    var t := s[Start(s)..];
    if t[0] != CR {
      DecodeFromBounded(t, 0, maxlen);
    }
  }

  // ---- The round trip ----

  /** Four characters of which the first `n + 1` are a group's, and the rest padding. */
  predicate Begins(s: seq<Octet>, a: Octet, b: Octet, c: Octet, n: nat)
    requires |s| >= 4
  {
    var g := Group(a, b, c);
    && s[0] == g[0] && s[1] == g[1]
    && s[2] == (if n >= 2 then g[2] else PAD)
    && s[3] == (if n >= 3 then g[3] else PAD)
  }

  lemma GroupDecodes(a: Octet, b: Octet, c: Octet, n: nat, s: seq<Octet>)
    requires Terminated(s) && |s| >= 4 && 1 <= n <= 3 && Begins(s, a, b, c, n)
    requires (n < 3 ==> c == 0) && (n < 2 ==> b == 0)
    ensures GroupOk(s) && GroupBytes(s) == [a, b, c][..n]
    ensures s[3] == PAD <==> n < 3
  {
    hide Val, Digit, Six0, Six1, Six2, Six3, Eight0, Eight1, Eight2, Group, IsDigit;
    GroupDigits(a, b, c);
    EightsBack(a, b, c);
  }

  /** The first group of an encoding: its bytes, and how many there are. */
  function HeadBytes(x: seq<Octet>): (Octet, Octet, Octet, nat)
    requires x != []
  {
    (x[0], if |x| > 1 then x[1] else 0, if |x| > 2 then x[2] else 0, if |x| >= 3 then 3 else |x|)
  }

  /** What may follow an encoding: its NUL, or a carriage return and anything up to the NUL. */
  predicate LineEnd(tail: seq<Octet>) {
    Terminated(tail) && (tail[0] == 0 || tail[0] == CR)
  }

  lemma EncodedLine(x: seq<Octet>, tail: seq<Octet>)
    requires LineEnd(tail)
    ensures Terminated(Encoded(x) + tail)
  {
    hide Encoded;
    var s := Encoded(x) + [0];
    EncodedTerminated(x);
    assert forall i :: 0 <= i < |Encoded(x)| ==> (Encoded(x) + tail)[i] == s[i];
  }

  lemma EncodedBegins(x: seq<Octet>, tail: seq<Octet>)
    requires x != []
    ensures |Encoded(x)| >= 4
    ensures var (a, b, c, n) := HeadBytes(x); Begins(Encoded(x) + tail, a, b, c, n)
  {
    hide Group;
  }

  lemma HeadIs(x: seq<Octet>)
    requires x != []
    ensures var (a, b, c, n) := HeadBytes(x); [a, b, c][..n] == if |x| >= 3 then x[..3] else x
  {
  }

  /** One group of an encoding decodes to its bytes. */
  lemma GroupBack(x: seq<Octet>, tail: seq<Octet>)
    requires x != [] && LineEnd(tail)
    ensures Terminated(Encoded(x) + tail) && GroupOk(Encoded(x) + tail)
    ensures GroupBytes(Encoded(x) + tail) == if |x| >= 3 then x[..3] else x
    ensures (Encoded(x) + tail)[3] == PAD <==> |x| < 3
  {
    hide Encoded, Begins, GroupOk, GroupBytes, LineEnd, Terminated;
    EncodedLine(x, tail);
    EncodedBegins(x, tail);
    var (a, b, c, n) := HeadBytes(x);
    GroupDecodes(a, b, c, n, Encoded(x) + tail);
    HeadIs(x);
  }

  lemma EncodedNone()
    ensures Encoded([]) == []
  {
  }

  lemma EncodedFirst(x: seq<Octet>)
    requires |x| >= 3
    ensures |Encoded(x)| >= 4 && Encoded(x)[4..] == Encoded(x[3..])
  {
    hide Group;
  }

  /** What follows the first group of an encoding. */
  lemma GroupsRest(x: seq<Octet>, tail: seq<Octet>)
    requires |x| >= 3 && LineEnd(tail)
    ensures |Encoded(x) + tail| > 4 && (Encoded(x) + tail)[4..] == Encoded(x[3..]) + tail
    ensures (Encoded(x) + tail)[4] == 0 || (Encoded(x) + tail)[4] == CR <==> |x| == 3
  {
    hide Encoded, Group, IsDigit;
    var y := x[3..];
    EncodedFirst(x);
    assert (Encoded(x) + tail)[4] == (Encoded(y) + tail)[0];
    if y == [] {
      EncodedNone();
    } else {
      var (a, b, c, n) := HeadBytes(y);
      EncodedBegins(y, tail);
      GroupDigits(a, b, c);
    }
  }

  lemma {:induction false} RoundTripFrom(x: seq<Octet>, tail: seq<Octet>, len: nat, maxlen: int)
    requires x != [] && LineEnd(tail)
    ensures Terminated(Encoded(x) + tail)
    ensures var d := DecodeFrom(Encoded(x) + tail, len, maxlen);
            if maxlen == 0 || len + |x| <= maxlen then d == Decoded(true, x) else !d.ok
    decreases x
  {
    hide Encoded, GroupOk, GroupBytes, LineEnd, Terminated, Room;
    EncodedLine(x, tail);
    GroupBack(x, tail);
    GroupOkLonger(Encoded(x) + tail);
    if |x| >= 3 {
      GroupsRest(x, tail);
      if |x| > 3 {
        RoundTripFrom(x[3..], tail, len + 3, maxlen);
        assert x == x[..3] + x[3..];
      }
    }
  }

  lemma JustNul()
    ensures LineEnd([0])
  {
  }

  /**
   * The round trip. Decoding an encoding gives the bytes back exactly when
   * there was at least one and the output limit, if any, leaves room for them.
   */
  lemma RoundTrip(x: seq<Octet>, maxlen: int)
    ensures Terminated(Encoded(x) + [0])
    ensures Decode(Encoded(x) + [0], maxlen) == Decoded(true, x)
       <==> x != [] && (maxlen == 0 || |x| <= maxlen)
  {
    hide DecodeFrom, Encoded;
    JustNul();
    EncodedTerminated(x);
    if x == [] {
      EmptyFails(maxlen);
    } else {
      StartOfEncoding(x, [0]);
      var s := Encoded(x) + [0];
      assert s[0..] == s;
      RoundTripFrom(x, [0], 0, maxlen);
    }
  }

  lemma PrefixSkipped(t: seq<Octet>, maxlen: int)
    requires Terminated(t)
    ensures var s := ['+' as int, ' ' as int] + t;
            && Terminated(s)
            && Decode(s, maxlen) == if t[0] == CR then Decoded(true, []) else DecodeFrom(t, 0, maxlen)
  {
    hide DecodeFrom;
    var s := ['+' as int, ' ' as int] + t;
    assert forall i :: 2 <= i < |s| ==> s[i] == t[i - 2];
    assert s[2..] == t;
  }

  /**
   * As a line of a dialogue: behind `+ `, and up to a carriage return whatever
   * comes then. Here the empty string decodes too.
   */
  lemma LineRoundTrip(x: seq<Octet>, rest: seq<Octet>, maxlen: int)
    requires Terminated(rest)
    ensures var s := ['+' as int, ' ' as int] + (Encoded(x) + (['\r' as int] + rest));
            && Terminated(s)
            && (Decode(s, maxlen) == Decoded(true, x) <==> x == [] || maxlen == 0 || |x| <= maxlen)
  {
    hide Decode, DecodeFrom, Encoded, Terminated, LineEnd;
    var tail := ['\r' as int] + rest;
    LineStarts(rest);
    EncodedLine(x, tail);
    PrefixSkipped(Encoded(x) + tail, maxlen);
    if x == [] {
      NothingEncoded();
      assert Encoded(x) + tail == tail;
    } else {
      StartOfEncoding(x, tail);
      RoundTripFrom(x, tail, 0, maxlen);
    }
  }

  lemma LineStarts(rest: seq<Octet>)
    requires Terminated(rest)
    ensures LineEnd(['\r' as int] + rest)
  {
    var t := ['\r' as int] + rest;
    assert forall i :: 1 <= i < |t| ==> t[i] == rest[i - 1];
  }

  lemma NothingEncoded()
    ensures Encoded([]) == []
  {
  }

  lemma EmptyFails(maxlen: int)
    ensures Encoded([]) == [] && Terminated([0]) && !Decode([0], maxlen).ok
  {
    NotDigits();
    var s: seq<Octet> := [0];
    assert s[0..] == s;
  }

  lemma StartOfEncoding(x: seq<Octet>, tail: seq<Octet>)
    requires x != [] && LineEnd(tail)
    ensures Terminated(Encoded(x) + tail) && Start(Encoded(x) + tail) == 0 && (Encoded(x) + tail)[0] != CR
  {
    hide Val, Encoded;
    GroupBack(x, tail);
    NotDigits();
  }

  /** Padding: one `=` behind two last bytes, two behind one; every other character is a digit. */
  lemma {:induction false} EncodedPadding(x: seq<Octet>, i: nat)
    requires i < |Encoded(x)|
    ensures var (n, p) := (|Encoded(x)|, if |x| % 3 == 1 then 2 else if |x| % 3 == 2 then 1 else 0);
            if i < n - p then IsDigit(Encoded(x)[i]) else Encoded(x)[i] == '=' as int
    decreases x
  {
    hide Val, Six0, Six1, Six2, Six3;
    if |x| >= 3 {
      GroupDigits(x[0], x[1], x[2]);
      if i >= 4 {
        EncodedPadding(x[3..], i - 4);
      } else {
        EncodedLength(x[3..]);
      }
    } else if |x| == 2 {
      GroupDigits(x[0], x[1], 0);
    } else if |x| == 1 {
      GroupDigits(x[0], 0, 0);
    }
  }

  // ---- The other way round ----

  lemma EightsForth(a: Sextet, b: Sextet, c: Sextet, d: Sextet)
    ensures var (x, y, z) := (Eight0(a, b), Eight1(b, c), Eight2(c, d));
            Six0(x) == a && Six1(x, y) == b && Six2(y, z) == c && Six3(z) == d
  {
  }

  /** Four digits without padding are the encoding of the bytes they decode to. */
  lemma GroupForth(s: seq<Octet>)
    requires Terminated(s) && GroupOk(s) && s[2] != PAD && s[3] != PAD
    ensures var b := GroupBytes(s); |b| == 3 && Group(b[0], b[1], b[2]) == [s[0], s[1], s[2], s[3]]
  {
    hide Digit, Val, Six0, Six1, Six2, Six3, Eight0, Eight1, Eight2;
    DigitsOnly(s[0]);
    DigitsOnly(s[1]);
    DigitsOnly(s[2]);
    DigitsOnly(s[3]);
    EightsForth(Val(s[0]), Val(s[1]), Val(s[2]), Val(s[3]));
  }

  lemma EncodedGroup(b: seq<Octet>, rest: seq<Octet>)
    requires |b| == 3
    ensures Encoded(b + rest) == Group(b[0], b[1], b[2]) + Encoded(rest)
  {
    hide Group;
    assert (b + rest)[3..] == rest;
  }

  lemma PlainRest(s: seq<Octet>)
    requires 4 <= |s| && PAD !in s
    ensures PAD !in s[4..]
  {
  }

  /**
   * What decodes is an encoding: a line without `=` that is decoded consists of
   * the encoding of the bytes it gives, and ends after it. (A `=` in the third
   * place of a group whose fourth is a digit does not end the line.)
   */
  lemma {:induction false} Reencoded(s: seq<Octet>, len: nat, maxlen: int)
    requires Terminated(s) && PAD !in s && DecodeFrom(s, len, maxlen).ok
    ensures var e := Encoded(DecodeFrom(s, len, maxlen).bytes);
            |e| < |s| && e == s[..|e|] && (s[|e|] == 0 || s[|e|] == CR)
    decreases |s|
  {
    hide Encoded, GroupOk, GroupBytes, Terminated, Group, Room;
    DecodeUnfolds(s, len, maxlen);
    assert GroupOk(s);
    var b := GroupBytes(s);
    GroupForth(s);
    var head := [s[0], s[1], s[2], s[3]];
    if s[4] == 0 || s[4] == CR {
      EncodedGroup(b, []);
      EncodedNone();
      assert b + [] == b && head + [] == head == s[..4];
    } else {
      PlainRest(s);
      Reencoded(s[4..], len + 3, maxlen);
      var rest := DecodeFrom(s[4..], len + 3, maxlen).bytes;
      EncodedGroup(b, rest);
      var e := Encoded(rest);
      assert head + e == s[..4 + |e|];
    }
  }

  lemma HeadTerminated(c: Octet, rest: seq<Octet>)
    requires c != 0 && Terminated(rest)
    ensures Terminated(['A' as int, 'A' as int, '=' as int, c] + rest)
  {
    var s := ['A' as int, 'A' as int, '=' as int, c] + rest;
    assert forall i :: 4 <= i < |s| ==> s[i] == rest[i - 4];
  }

  lemma PaddedGroup(c: Octet, rest: seq<Octet>)
    requires (c == 'A' as int || c == PAD) && Terminated(rest)
    ensures var s := ['A' as int, 'A' as int, '=' as int, c] + rest;
            Terminated(s) && GroupOk(s) && GroupBytes(s) == [0]
  {
    hide GroupBytes, Terminated;
    var s := ['A' as int, 'A' as int, '=' as int, c] + rest;
    HeadTerminated(c, rest);
    assert s[0] == s[1] == 'A' as int && s[2] == PAD && s[3] == c;
    FirstLetters(s);
  }

  lemma FirstLetters(s: seq<Octet>)
    requires Terminated(s) && GroupOk(s) && s[0] == s[1] == 'A' as int && s[2] == PAD
    ensures GroupBytes(s) == [0]
  {
  }

  /** Such a line: the group with the padding gives one byte, and the line goes on. */
  lemma PaddingInside()
    ensures var line := ['A' as int, 'A' as int, '=' as int, 'A' as int]
                        + (['A' as int, 'A' as int, '=' as int, '=' as int] + [0]);
            Terminated(line) && DecodeFrom(line, 0, 0) == Decoded(true, [0, 0])
  {
    hide GroupOk, GroupBytes, DecodeFrom, Terminated;
    var last := ['A' as int, 'A' as int, '=' as int, '=' as int] + [0];
    var line := ['A' as int, 'A' as int, '=' as int, 'A' as int] + last;
    EmptyFails(0);
    PaddedGroup(PAD, [0]);
    PaddedGroup('A' as int, last);
    DecodeUnfolds(last, 1, 0);
    DecodeUnfolds(line, 0, 0);
    assert line[4..] == last;
  }

  // ---- The routines ----

  lemma EncodeStep(x: seq<Octet>, i: nat, e: seq<Octet>, o: nat)
    requires i + 3 <= |x| && o <= |e| && e[o..] == Encoded(x[i..])
    ensures o + 4 <= |e|
    ensures e[o..o + 4] == Group(x[i], x[i + 1], x[i + 2]) && e[o + 4..] == Encoded(x[i + 3..])
  {
    hide Group;
    assert x[i..][3..] == x[i + 3..];
    assert e[o..][..4] == e[o..o + 4] && e[o..][4..] == e[o + 4..];
  }

  lemma EncodeTail(x: seq<Octet>, i: nat, e: seq<Octet>, o: nat)
    requires i <= |x| < i + 3 && o <= |e| && e[o..] == Encoded(x[i..])
    ensures |e| == if i == |x| then o else o + 4
    ensures i < |x| ==> e[o] == Digit(Six0(x[i])) && e[o + 1] == Digit(Six1(x[i], if i + 1 < |x| then x[i + 1] else 0))
    ensures i < |x| ==> e[o + 2] == (if i + 1 == |x| then PAD else Digit(Six2(x[i + 1], 0))) && e[o + 3] == PAD
  {
    hide Digit, Six0, Six1, Six2, Six3;
    assert forall k :: o <= k < |e| ==> e[k] == e[o..][k - o];
  }

  /** `base64_encode`. */
  method Encode(out: array<Octet>, input: array<Octet>, inlen: nat)
    requires out != input && inlen <= input.Length
    requires |Encoded(input[..inlen])| < out.Length
    modifies out
    ensures var e := Encoded(old(input[..inlen]));
            && out[..|e|] == e && out[|e|] == 0
            && forall k :: |e| < k < out.Length ==> out[k] == old(out[k])
  {
    hide Digit, Six0, Six1, Six2, Six3, Encoded;
    ghost var x, e := input[..inlen], Encoded(input[..inlen]);
    var i, o, left := 0, 0, inlen;
    assert x[0..] == x && e[0..] == e;
    while left >= 3
      invariant left == inlen - i && 0 <= i <= inlen && 0 <= o <= |e|
      invariant e[o..] == Encoded(x[i..])
      invariant forall k :: 0 <= k < o ==> out[k] == e[k]
      invariant forall k :: o <= k < out.Length ==> out[k] == old(out[k])
      decreases left
    {
      EncodeStep(x, i, e, o);
      ghost var g := e[o..o + 4];
      assert e[o] == g[0] && e[o + 1] == g[1] && e[o + 2] == g[2] && e[o + 3] == g[3];
      out[o] := Digit(Six0(input[i]));
      out[o + 1] := Digit(Six1(input[i], input[i + 1]));
      out[o + 2] := Digit(Six2(input[i + 1], input[i + 2]));
      out[o + 3] := Digit(Six3(input[i + 2]));
      i, o, left := i + 3, o + 4, left - 3;
    }
    EncodeTail(x, i, e, o);
    if left > 0 {
      out[o] := Digit(Six0(input[i]));
      var fragment := Six1(input[i], if left > 1 then input[i + 1] else 0);
      out[o + 1] := Digit(fragment);
      out[o + 2] := if left < 2 then PAD else Digit(Six2(input[i + 1], 0));
      out[o + 3] := PAD;
      o := o + 4;
    }
    out[o] := 0;
  }

  /** The state of the decoding loop: what is written so far, and what the rest of the input gives. */
  ghost predicate Decoding(s: seq<Octet>, p: nat, written: seq<Octet>, maxlen: int, d: Decoded)
  {
    && p < |s| && Terminated(s[p..])
    && (var rest := DecodeFrom(s[p..], |written|, maxlen); d == Decoded(rest.ok, written + rest.bytes))
  }

  /** The four characters at `p`, read only as far as the first one that ends or spoils the group. */
  method ReadGroup(input: array<Octet>, p: nat, ghost nul: nat)
    returns (ok: bool, digit1: Octet, digit2: Octet, digit3: Octet, digit4: Octet)
    requires p <= nul < input.Length && Terminated(input[p..nul + 1])
    ensures ok <==> GroupOk(input[p..nul + 1])
    ensures ok ==> p + 4 <= nul
    ensures ok ==> digit1 == input[p] && digit2 == input[p + 1] && digit3 == input[p + 2] && digit4 == input[p + 3]
  {
    hide Val;
    ghost var t := input[p..nul + 1];
    NotDigits();
    digit2, digit3, digit4 := 0, 0, 0;
    digit1 := input[p];
    assert t[0] == digit1;
    if !IsDigit(digit1) { return false, digit1, digit2, digit3, digit4; }
    digit2 := input[p + 1];
    assert t[1] == digit2;
    if !IsDigit(digit2) { return false, digit1, digit2, digit3, digit4; }
    digit3 := input[p + 2];
    assert t[2] == digit3;
    if digit3 != PAD && !IsDigit(digit3) { return false, digit1, digit2, digit3, digit4; }
    digit4 := input[p + 3];
    assert t[3] == digit4;
    if digit4 != PAD && !IsDigit(digit4) { return false, digit1, digit2, digit3, digit4; }
    ok := true;
  }

  /** The one to three bytes of a group, as long as there is room; `ok` when all of them were written. */
  method WriteGroup(out: array<Octet>, len: nat, maxlen: int, ghost t: seq<Octet>,
                    digit1: Octet, digit2: Octet, digit3: Octet, digit4: Octet)
    returns (ok: bool, newLen: nat)
    requires Terminated(t) && GroupOk(t)
    requires digit1 == t[0] && digit2 == t[1] && digit3 == t[2] && digit4 == t[3]
    requires (maxlen > 0 ==> len <= maxlen) && len + |Room(GroupBytes(t), len, maxlen)| <= out.Length
    modifies out
    ensures ok <==> maxlen == 0 || len + |GroupBytes(t)| <= maxlen
    ensures newLen == len + |Room(GroupBytes(t), len, maxlen)|
    ensures out[..newLen] == old(out[..len]) + Room(GroupBytes(t), len, maxlen)
    ensures forall k :: newLen <= k < out.Length ==> out[k] == old(out[k])
  {
    hide Val, Eight0, Eight1, Eight2, Terminated;
    ghost var b, before := GroupBytes(t), out[..len];
    newLen := len;
    if maxlen != 0 && len + 1 > maxlen { return false, newLen; }
    out[len] := Eight0(Val(digit1), Val(digit2));
    newLen := len + 1;
    assert out[..newLen] == before + b[..1];
    if digit3 != PAD {
      if maxlen != 0 && newLen + 1 > maxlen { return false, newLen; }
      out[newLen] := Eight1(Val(digit2), Val(digit3));
      newLen := newLen + 1;
      assert out[..newLen] == before + b[..2];
      if digit4 != PAD {
        if maxlen != 0 && newLen + 1 > maxlen { return false, newLen; }
        out[newLen] := Eight2(Val(digit3), Val(digit4));
        newLen := newLen + 1;
        assert out[..newLen] == before + b[..3];
      }
    }
    ok := true;
  }

  /** `base64_decode`; -1 for an error. Every read is at or before the terminating NUL. */
  method DecodeInto(out: array<Octet>, input: array<Octet>, maxlen: int, ghost nul: nat) returns (r: int)
    requires out != input && nul < input.Length && Terminated(input[..nul + 1])
    requires |Decode(input[..nul + 1], maxlen).bytes| <= out.Length
    modifies out
    ensures var d := Decode(old(input[..nul + 1]), maxlen);
            && r == (if d.ok then |d.bytes| else -1)
            && out[..|d.bytes|] == d.bytes
            && forall k :: |d.bytes| <= k < out.Length ==> out[k] == old(out[k])
  {
    hide GroupOk, GroupBytes, Decode, Decoding, Room, Val;
    ghost var s, d := input[..nul + 1], Decode(input[..nul + 1], maxlen);
    var p := 0;
    if input[0] == PLUS && input[1] == SPACE {
      p := 2;
    }
    DecodingStarts(s, maxlen);
    if input[p] == CR {
      return 0;
    }
    assert out[..0] == [];
    var len, more := 0, true;
    while more
      invariant p <= nul && 0 <= len <= |d.bytes| && (maxlen > 0 ==> len <= maxlen)
      invariant more ==> Decoding(s, p, out[..len], maxlen, d)
      invariant !more ==> d == Decoded(true, out[..len])
      invariant forall k :: len <= k < out.Length ==> out[k] == old(out[k])
      decreases nul - p, more
    {
      ghost var t, written := s[p..], out[..len];
      assert t == input[p..nul + 1];
      DecodingNext(s, p, written, maxlen, d);
      var ok, digit1, digit2, digit3, digit4 := ReadGroup(input, p, nul);
      if !ok {
        return -1;
      }
      RoomPrefix(GroupBytes(t), len, maxlen);
      ok, len := WriteGroup(out, len, maxlen, t, digit1, digit2, digit3, digit4);
      if !ok {
        return -1;
      }
      p := p + 4;
      more := input[p] != 0 && input[p] != CR && digit4 != PAD;
    }
    r := len;
  }

  lemma DecodingStarts(s: seq<Octet>, maxlen: int)
    requires Terminated(s)
    ensures s[Start(s)] == CR ==> Decode(s, maxlen) == Decoded(true, [])
    ensures s[Start(s)] != CR ==> Decoding(s, Start(s), [], maxlen, Decode(s, maxlen))
  {
    hide DecodeFrom;
  }

  /** What one turn of the loop does to its state. */
  lemma DecodingNext(s: seq<Octet>, p: nat, written: seq<Octet>, maxlen: int, d: Decoded)
    requires Decoding(s, p, written, maxlen, d)
    ensures p < |s| && Terminated(s[p..])
    ensures !GroupOk(s[p..]) ==> d == Decoded(false, written)
    ensures GroupOk(s[p..]) ==>
      (var b := GroupBytes(s[p..]);
       && p + 4 < |s|
       && (if maxlen != 0 && |written| + |b| > maxlen
           then d == Decoded(false, written + Room(b, |written|, maxlen))
           else if s[p + 4] == 0 || s[p + 4] == CR || s[p + 3] == PAD then d == Decoded(true, written + b)
           else Decoding(s, p + 4, written + b, maxlen, d))
       && |written| + |Room(b, |written|, maxlen)| <= |d.bytes|)
  {
    hide GroupOk, GroupBytes, DecodeFrom, Room, Terminated;
    var t := s[p..];
    DecodeUnfolds(t, |written|, maxlen);
    if GroupOk(t) {
      var b := GroupBytes(t);
      RoomPrefix(b, |written|, maxlen);
      assert t[4..] == s[p + 4..];
      assert written + (b + DecodeFrom(t[4..], |written| + |b|, maxlen).bytes)
          == written + b + DecodeFrom(t[4..], |written| + |b|, maxlen).bytes;
    } else {
      assert written + [] == written;
    }
  }

  lemma RoomPrefix(b: seq<Octet>, len: nat, maxlen: int)
    ensures |Room(b, len, maxlen)| <= |b|
    ensures maxlen == 0 || len + |b| <= maxlen ==> Room(b, len, maxlen) == b
    ensures maxlen != 0 && len <= maxlen ==> len + |Room(b, len, maxlen)| <= maxlen
  {
  }

  lemma DecodeUnfolds(t: seq<Octet>, len: nat, maxlen: int)
    requires Terminated(t)
    ensures !GroupOk(t) ==> DecodeFrom(t, len, maxlen) == Decoded(false, [])
    ensures GroupOk(t) ==> 4 < |t| && Terminated(t[4..])
    ensures GroupOk(t) ==>
      (var (b, d) := (GroupBytes(t), DecodeFrom(t, len, maxlen));
       if maxlen != 0 && len + |b| > maxlen then d == Decoded(false, Room(b, len, maxlen))
       else if t[4] == 0 || t[4] == CR || t[3] == PAD then d == Decoded(true, b)
       else (var rest := DecodeFrom(t[4..], len + |b|, maxlen); d == Decoded(rest.ok, b + rest.bytes)))
  {
    hide Val, IsDigit, GroupBytes;
    if GroupOk(t) { GroupOkLonger(t); }
  }
}
