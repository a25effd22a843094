/**
 * Cisco EEPROM contents: bytes packed two to a 16-bit word, and the walk over
 * format-4 fields (common/cisco_eeprom.c).
 */
module Eeprom {
  import opened Bytes
  import opened Wrappers

  // ---- Byte packing ----

  function High(w: bv16): Byte { ((w >> 8) & 0xff) as Byte }

  function Low(w: bv16): Byte { (w & 0xff) as Byte }

  function WithLow(w: bv16, v: Byte): bv16 { (w & 0xff00) | (v as bv16) }

  function WithHigh(w: bv16, v: Byte): bv16 { (w & 0x00ff) | ((v as bv16) << 8) }

  lemma HalvesWritten(w: bv16, v: Byte)
    ensures Low(WithLow(w, v)) == v && High(WithLow(w, v)) == High(w)
    ensures High(WithHigh(w, v)) == v && Low(WithHigh(w, v)) == Low(w)
  {
  }

  function ByteIn(words: seq<bv16>, i: nat): Byte
    requires i < 2 * |words|
  {
    if i % 2 == 0 then High(words[i / 2]) else Low(words[i / 2])
  }

  /** The bytes of an EEPROM, high half of each word first. */
  function Unpacked(words: seq<bv16>): (b: seq<Byte>)
    ensures |b| == 2 * |words|
  {
    seq(2 * |words|, i requires 0 <= i < 2 * |words| => ByteIn(words, i))
  }

  function WithByte(words: seq<bv16>, i: nat, v: Byte): (r: seq<bv16>)
    requires i < 2 * |words|
    ensures |r| == |words|
  {
    words[i / 2 := if i % 2 == 1 then WithLow(words[i / 2], v) else WithHigh(words[i / 2], v)]
  }

  /** Setting a byte changes that byte and none of its neighbours. */
  lemma ByteSet(words: seq<bv16>, i: nat, v: Byte)
    requires i < 2 * |words|
    ensures Unpacked(WithByte(words, i, v)) == Unpacked(words)[i := v]
  {
    hide High, Low, WithHigh, WithLow;
    HalvesWritten(words[i / 2], v);
    var (a, b) := (Unpacked(WithByte(words, i, v)), Unpacked(words)[i := v]);
    forall k: nat | k < 2 * |words|
      ensures a[k] == b[k]
    {
      if k / 2 == i / 2 && k != i {
        assert k % 2 != i % 2;
      }
    }
  }

  /** `b` with `s` written from `o` on, as far as it fits. */
  function Overwritten(b: seq<Byte>, o: nat, s: seq<Byte>): (r: seq<Byte>)
    ensures |r| == |b|
    decreases s
  {
    if s == [] then b
    else
      var r := Overwritten(b, o, s[..|s| - 1]);
      if o + |s| - 1 < |b| then r[o + |s| - 1 := s[|s| - 1]] else r
  }

  lemma {:induction false} OverwrittenAt(b: seq<Byte>, o: nat, s: seq<Byte>, i: nat)
    requires i < |b|
    ensures Overwritten(b, o, s)[i] == if o <= i < o + |s| then s[i - o] else b[i]
    decreases s
  {
    if s != [] { OverwrittenAt(b, o, s[..|s| - 1], i); }
  }

  // ---- Fields ----

  /** `(type >> 6) & 3`. */
  function LengthCode(t: Byte): (n: nat)
    ensures n < 4
  {
    if t & 0xc0 == 0xc0 then 3 else if t & 0xc0 == 0x80 then 2 else if t & 0xc0 == 0x40 then 1 else 0
  }

  function Low4(b: Byte): (n: nat)
    ensures n < 16
  {
    NibbleValue(Lo(b))
  }

  /** What `cisco_eeprom_v4_get_field` finds: an error, the end marker, or a field whose payload is at `at`. */
  datatype Found = Broken | Ended | Field(kind: Byte, len: nat, at: nat)

  function FieldAt(b: seq<Byte>, o: nat): (f: Found)
    ensures f.Field? ==> o < f.at <= |b| && f.kind != 0xff
  {
    if o >= |b| then Broken
    else if b[o] == 0xff then Ended
    else if LengthCode(b[o]) == 3 then
      if o + 1 >= |b| then Broken else Field(b[o], Low4(b[o + 1]), o + 2)
    else Field(b[o], if LengthCode(b[o]) == 0 then 1 else 2 * LengthCode(b[o]), o + 1)
  }

  /** All fields met from `o` on. */
  function Fields(b: seq<Byte>, o: nat): (fs: seq<Found>)
    ensures forall k :: 0 <= k < |fs| ==> fs[k].Field?
    decreases |b| - o
  {
    var f := FieldAt(b, o);
    if !f.Field? then []
    else [f] + (if f.at + f.len < |b| then Fields(b, f.at + f.len) else [])
  }

  /** The search of `cisco_eeprom_v4_find_field`, from `o`: where the payload is. */
  function Find(b: seq<Byte>, t: Byte, o: nat): Option<nat>
    decreases |b| - o
  {
    var f := FieldAt(b, o);
    if !f.Field? then None
    else if f.kind == t then Some(f.at)
    else if f.at + f.len < |b| then Find(b, t, f.at + f.len)
    else None
  }

  predicate First(fs: seq<Found>, t: Byte, k: nat)
    requires forall j :: 0 <= j < |fs| ==> fs[j].Field?
  {
    k < |fs| && fs[k].kind == t && forall j :: 0 <= j < k ==> fs[j].kind != t
  }

  predicate Missing(fs: seq<Found>, t: Byte)
    requires forall j :: 0 <= j < |fs| ==> fs[j].Field?
  {
    forall j :: 0 <= j < |fs| ==> fs[j].kind != t
  }

  /** The list and the search from `o`, in terms of what comes after the first field. */
  lemma FromHere(b: seq<Byte>, t: Byte, o: nat)
    ensures var f := FieldAt(b, o);
            && (!f.Field? ==> Fields(b, o) == [] && Find(b, t, o) == None)
            && (f.Field? ==> o < f.at + f.len && Fields(b, o) == [f] + Fields(b, f.at + f.len)
                             && Find(b, t, o) == if f.kind == t then Some(f.at) else Find(b, t, f.at + f.len))
  {
    hide LengthCode, Low4;
    var f := FieldAt(b, o);
    if f.Field? && f.at + f.len >= |b| {
      assert FieldAt(b, f.at + f.len) == Broken;
    }
  }

  lemma FirstBehind(f: Found, fs: seq<Found>, t: Byte, k: nat)
    requires f.Field? && f.kind != t && forall j :: 0 <= j < |fs| ==> fs[j].Field?
    ensures First(fs, t, k) ==> First([f] + fs, t, k + 1) && ([f] + fs)[k + 1] == fs[k]
    ensures Missing(fs, t) ==> Missing([f] + fs, t)
  {
  }

  lemma FirstAtOnce(f: Found, fs: seq<Found>, t: Byte)
    requires f.Field? && f.kind == t && forall j :: 0 <= j < |fs| ==> fs[j].Field?
    ensures First([f] + fs, t, 0)
  {
  }

  /** The search returns the first field of the type, and fails only when there is none. */
  lemma {:induction false} FindIsFirst(b: seq<Byte>, t: Byte, o: nat) returns (k: nat)
    ensures Find(b, t, o).Some? ==> First(Fields(b, o), t, k) && Find(b, t, o).value == Fields(b, o)[k].at
    ensures Find(b, t, o).None? ==> Missing(Fields(b, o), t)
    decreases |b| - o
  {
    hide FieldAt, Fields, Find;
    var f := FieldAt(b, o);
    k := 0;
    FromHere(b, t, o);
    if f.Field? {
      var rest := Fields(b, f.at + f.len);
      hide First, Missing;
      if f.kind == t {
        FirstAtOnce(f, rest, t);
      } else {
        var k' := FindIsFirst(b, t, f.at + f.len);
        FirstBehind(f, rest, t, k');
        k := k' + 1;
      }
    }
  }

  lemma HighCode(n: bv4, t: Byte)
    requires n == Hi(t)
    ensures LengthCode(t) == NibbleValue(n) / 4
  {
  }

  /** The length code is the upper two bits of the type, a variable length the lower four of its byte. */
  lemma CodeIs(t: Byte)
    ensures LengthCode(t) == Value(t) / 64 && Low4(t) == Value(t) % 16
  {
    hide LengthCode, Hi, Lo;
    HighCode(Hi(t), t);
  }

  // ---- Encoding ----

  /** A field to be written; `lengthByte` is only used by types with a variable length. */
  datatype Source = Source(kind: Byte, lengthByte: Byte, payload: seq<Byte>)

  predicate Encodable(f: Source) {
    && f.kind != 0xff
    && |f.payload| == (if LengthCode(f.kind) == 3 then Low4(f.lengthByte)
                       else if LengthCode(f.kind) == 0 then 1 else 2 * LengthCode(f.kind))
  }

  function Encode(f: Source): seq<Byte> {
    [f.kind] + (if LengthCode(f.kind) == 3 then [f.lengthByte] else []) + f.payload
  }

  function EncodeAll(fs: seq<Source>): seq<Byte> {
    if fs == [] then [] else Encode(fs[0]) + EncodeAll(fs[1..])
  }

  lemma EncodedField(before: seq<Byte>, f: Source, after: seq<Byte>)
    requires Encodable(f)
    ensures var (b, g) := (before + Encode(f) + after, FieldAt(before + Encode(f) + after, |before|));
            && g.Field? && g.kind == f.kind && g.len == |f.payload|
            && g.at + g.len == |before + Encode(f)|
            && b[g.at..g.at + g.len] == f.payload
  {
    hide LengthCode, Low4;
    var (b, o) := (before + Encode(f) + after, |before|);
    assert b[o] == f.kind;
    if LengthCode(f.kind) == 3 {
      assert b[o + 1] == f.lengthByte;
    }
  }

  function FirstOf(fs: seq<Source>, t: Byte): Option<Source> {
    if fs == [] then None else if fs[0].kind == t then Some(fs[0]) else FirstOf(fs[1..], t)
  }

  /** The search result `r` points at what was to be found. */
  predicate Points(b: seq<Byte>, r: Option<nat>, want: Option<Source>) {
    match want
    case None => r.None?
    case Some(f) => r.Some? && r.value + |f.payload| <= |b| && b[r.value..r.value + |f.payload|] == f.payload
  }

  /**
   * Any list of fields, written after any header and followed by the end
   * marker or by nothing, is searched correctly: the payload of the first field
   * of the type, or nothing.
   */
  lemma {:induction false} FindEncoded(before: seq<Byte>, fs: seq<Source>, after: seq<Byte>, t: Byte)
    requires forall k :: 0 <= k < |fs| ==> Encodable(fs[k])
    requires after == [] || after[0] == 0xff
    ensures var b := before + EncodeAll(fs) + after; Points(b, Find(b, t, |before|), FirstOf(fs, t))
    decreases fs
  {
    hide Encode, Encodable, LengthCode, Low4, FieldAt;
    var b := before + EncodeAll(fs) + after;
    if fs == [] {
      Unmarked(b, |before|);
    } else {
      var (f, rest) := (fs[0], fs[1..]);
      Regroup(before, Encode(f), EncodeAll(rest), after);
      EncodedField(before, f, EncodeAll(rest) + after);
      FindEncoded(before + Encode(f), rest, after, t);
      var g := FieldAt(b, |before|);
      if f.kind != t && g.at + g.len >= |b| {
        NothingAfter(b, t, g.at + g.len);
      }
    }
  }

  lemma Unmarked(b: seq<Byte>, o: nat)
    requires o == |b| || (o < |b| && b[o] == 0xff)
    ensures !FieldAt(b, o).Field?
  {
  }

  lemma Regroup(a: seq<Byte>, b: seq<Byte>, c: seq<Byte>, d: seq<Byte>)
    ensures a + (b + c) + d == a + b + (c + d)
    ensures a + (b + c) + d == (a + b) + c + d
  {
  }

  lemma NothingAfter(b: seq<Byte>, t: Byte, o: nat)
    requires o >= |b|
    ensures Find(b, t, o) == None
  {
  }

  // ---- Rewriting a payload ----

  /** No header byte of the fields from `o` on lies in `lo..hi`. */
  ghost predicate HeadersClear(b: seq<Byte>, o: nat, lo: nat, hi: nat)
    decreases |b| - o
  {
    var f := FieldAt(b, o);
    && (o < |b| ==> !(lo <= o < hi))
    && (f.Field? ==> (f.at <= lo || hi <= o) && (f.at + f.len < |b| ==> HeadersClear(b, f.at + f.len, lo, hi)))
  }

  lemma {:induction false} SameFields(b: seq<Byte>, c: seq<Byte>, t: Byte, o: nat, lo: nat, hi: nat)
    requires |b| == |c| && HeadersClear(b, o, lo, hi)
    requires forall i :: 0 <= i < |b| && !(lo <= i < hi) ==> b[i] == c[i]
    ensures Fields(c, o) == Fields(b, o) && Find(c, t, o) == Find(b, t, o)
    decreases |b| - o
  {
    hide LengthCode, Low4;
    var f := FieldAt(b, o);
    assert FieldAt(c, o) == f;
    if f.Field? && f.at + f.len < |b| {
      SameFields(b, c, t, f.at + f.len, lo, hi);
    }
  }

  /** Everything from `o` on starts at `o` or later. */
  lemma {:induction false} HeadersAfter(b: seq<Byte>, o: nat, lo: nat, hi: nat)
    requires hi <= o
    ensures HeadersClear(b, o, lo, hi)
    decreases |b| - o
  {
    hide LengthCode, Low4;
    var f := FieldAt(b, o);
    if f.Field? && f.at + f.len < |b| {
      HeadersAfter(b, f.at + f.len, lo, hi);
    }
  }

  /** From the payload of a field on, `n` bytes hold no header exactly if they fit it or no field follows. */
  lemma {:induction false} PayloadClear(b: seq<Byte>, o: nat, k: nat, n: nat)
    requires k < |Fields(b, o)| && n > 0
    ensures var g := Fields(b, o)[k];
            HeadersClear(b, o, g.at, g.at + n) <==> n <= g.len || g.at + g.len >= |b|
    ensures o < Fields(b, o)[k].at
    decreases |b| - o
  {
    hide LengthCode, Low4;
    var f := FieldAt(b, o);
    var g := Fields(b, o)[k];
    if k > 0 {
      PayloadClear(b, f.at + f.len, k - 1, n);
    } else if f.at + f.len < |b| && n <= g.len {
      HeadersAfter(b, f.at + f.len, g.at, g.at + n);
    }
  }

  /** The byte that makes a header at `o` say something else. */
  function Otherwise(b: seq<Byte>, o: nat): Byte {
    if FieldAt(b, o).Field? then 0xff else 0
  }

  lemma HeaderChanged(b: seq<Byte>, c: seq<Byte>, o: nat)
    requires |c| == |b| && o < |b| && c[o] == Otherwise(b, o)
    ensures Fields(c, o) != Fields(b, o)
  {
    hide Low4;
    assert FieldAt(c, o).Field? != FieldAt(b, o).Field?;
    assert FieldAt(b, o).Field? ==> Fields(b, o) != [];
    assert FieldAt(c, o).Field? ==> Fields(c, o) != [];
  }

  /** A length byte with another length. */
  function OtherLength(v: Byte): Byte {
    if Low4(v) == 0 then 1 else 0
  }

  lemma OtherLengthIs(v: Byte)
    ensures Low4(OtherLength(v)) != Low4(v)
  {
  }

  lemma LengthChanged(b: seq<Byte>, c: seq<Byte>, o: nat)
    requires |c| == |b| && FieldAt(b, o).Field? && FieldAt(b, o).at == o + 2
    requires c[o] == b[o] && c[o + 1] == OtherLength(b[o + 1])
    ensures Fields(c, o) != Fields(b, o)
  {
    hide LengthCode, Low4, OtherLength;
    OtherLengthIs(b[o + 1]);
    assert FieldAt(c, o) != FieldAt(b, o);
    assert Fields(c, o) != [] && Fields(c, o)[0] == FieldAt(c, o);
    assert Fields(b, o) != [] && Fields(b, o)[0] == FieldAt(b, o);
  }

  /** `n` bytes, the one for place `i` being `v`. */
  function Filler(at: nat, n: nat, i: nat, v: Byte): (s: seq<Byte>)
    requires at <= i < at + n
    ensures |s| == n && s[i - at] == v
  {
    seq(n, _ => 0)[i - at := v]
  }

  lemma SameHeader(b: seq<Byte>, c: seq<Byte>, o: nat)
    requires |b| == |c| && FieldAt(b, o).Field? && c[o] == b[o]
    requires FieldAt(b, o).at == o + 2 ==> c[o + 1] == b[o + 1]
    ensures FieldAt(c, o) == FieldAt(b, o)
  {
    hide LengthCode, Low4;
    var (v, w) := (b[o], c[o]);
    if LengthCode(v) == 3 {
      assert FieldAt(b, o).at == o + 2;
      assert FieldAt(c, o) == Field(v, Low4(c[o + 1]), o + 2);
    }
  }

  /** A change further on is a change of the list. */
  lemma ChangedLater(b: seq<Byte>, c: seq<Byte>, o: nat)
    requires |b| == |c| && FieldAt(b, o).Field? && FieldAt(c, o) == FieldAt(b, o)
    requires var p := FieldAt(b, o).at + FieldAt(b, o).len; p < |b| && Fields(c, p) != Fields(b, p)
    ensures Fields(c, o) != Fields(b, o)
  {
    hide FieldAt;
    var p := FieldAt(b, o).at + FieldAt(b, o).len;
    assert Fields(c, o)[1..] == Fields(c, p);
    assert Fields(b, o)[1..] == Fields(b, p);
  }

  /** Where the first header byte under `at..at + n` lies. */
  lemma Conflict(b: seq<Byte>, o: nat, at: nat, n: nat)
    requires !HeadersClear(b, o, at, at + n)
    ensures var f := FieldAt(b, o);
            || (at <= o < at + n && o < |b|)
            || (o + 1 == at && f.Field? && f.at == o + 2)
            || (f.Field? && !(at <= o < at + n) && (f.at <= at || at + n <= o)
                && f.at + f.len < |b| && !HeadersClear(b, f.at + f.len, at, at + n))
  {
    hide LengthCode, Low4;
  }

  /** Bytes over a header change the list of fields, if they are the wrong ones. */
  lemma {:induction false} Disturbed(b: seq<Byte>, o: nat, at: nat, n: nat) returns (s: seq<Byte>)
    requires n > 0 && !HeadersClear(b, o, at, at + n)
    ensures |s| == n && Fields(Overwritten(b, at, s), o) != Fields(b, o)
    decreases |b| - o
  {
    hide FieldAt, Fields, HeadersClear, Overwritten, Otherwise, OtherLength, Filler;
    var f := FieldAt(b, o);
    Conflict(b, o, at, n);
    if at <= o < at + n && o < |b| {
      s := Filler(at, n, o, Otherwise(b, o));
      OverwrittenAt(b, at, s, o);
      HeaderChanged(b, Overwritten(b, at, s), o);
    } else if o + 1 == at && f.Field? && f.at == o + 2 {
      s := Filler(at, n, o + 1, OtherLength(b[o + 1]));
      OverwrittenAt(b, at, s, o);
      OverwrittenAt(b, at, s, o + 1);
      LengthChanged(b, Overwritten(b, at, s), o);
    } else {
      s := Disturbed(b, f.at + f.len, at, n);
      OverwrittenAt(b, at, s, o);
      if f.at == o + 2 { OverwrittenAt(b, at, s, o + 1); }
      SameHeader(b, Overwritten(b, at, s), o);
      ChangedLater(b, Overwritten(b, at, s), o);
    }
  }

  /** Whatever is written, the list of fields stays, exactly if no header byte lies under it. */
  lemma OverwritingIff(b: seq<Byte>, o: nat, at: nat, n: nat)
    requires n > 0
    ensures (forall s: seq<Byte> :: |s| == n ==> Fields(Overwritten(b, at, s), o) == Fields(b, o))
       <==> HeadersClear(b, o, at, at + n)
  {
    hide Fields, Overwritten, HeadersClear;
    if HeadersClear(b, o, at, at + n) {
      forall s: seq<Byte> | |s| == n
        ensures Fields(Overwritten(b, at, s), o) == Fields(b, o)
      {
        KeptFields(b, o, at, s, 0);
      }
    } else {
      var s := Disturbed(b, o, at, n);
      assert Fields(Overwritten(b, at, s), o) != Fields(b, o);
    }
  }

  lemma KeptFields(b: seq<Byte>, o: nat, at: nat, s: seq<Byte>, t: Byte)
    requires HeadersClear(b, o, at, at + |s|)
    ensures var c := Overwritten(b, at, s); Fields(c, o) == Fields(b, o) && Find(c, t, o) == Find(b, t, o)
  {
    hide Fields, Find, Overwritten, HeadersClear;
    var c := Overwritten(b, at, s);
    forall i: nat | i < |b|
      ensures c[i] == if at <= i < at + |s| then s[i - at] else b[i]
    {
      OverwrittenAt(b, at, s, i);
    }
    SameFields(b, c, t, o, at, at + |s|);
  }

  lemma ReadsBack(b: seq<Byte>, at: nat, s: seq<Byte>)
    requires at + |s| <= |b|
    ensures Overwritten(b, at, s)[at..at + |s|] == s
  {
    hide Overwritten;
    var c := Overwritten(b, at, s);
    forall i: nat | i < |s|
      ensures c[at + i] == s[i]
    {
      OverwrittenAt(b, at, s, at + i);
    }
  }

  /** Bytes that fit a payload, or run past the last one, read back and change no search for any type. */
  lemma Rewriting(b: seq<Byte>, o: nat, k: nat, s: seq<Byte>, t: Byte)
    requires k < |Fields(b, o)|
    requires |s| <= Fields(b, o)[k].len || Fields(b, o)[k].at + Fields(b, o)[k].len >= |b|
    ensures var (g, c) := (Fields(b, o)[k], Overwritten(b, Fields(b, o)[k].at, s));
            && (g.at + |s| <= |b| ==> c[g.at..g.at + |s|] == s)
            && Fields(c, o) == Fields(b, o)
            && Find(c, t, o) == Find(b, t, o)
  {
    hide FieldAt, Fields, Find, HeadersClear;
    var g := Fields(b, o)[k];
    if s != [] {
      PayloadClear(b, o, k, |s|);
      KeptFields(b, o, g.at, s, t);
    }
    if g.at + |s| <= |b| {
      ReadsBack(b, g.at, s);
    }
  }

  /** Nothing of length `n` written at a payload disturbs the list exactly if it fits, or no field follows. */
  lemma RewritingIff(b: seq<Byte>, o: nat, k: nat, n: nat)
    requires k < |Fields(b, o)| && n > 0
    ensures var g := Fields(b, o)[k];
            (forall s: seq<Byte> :: |s| == n ==> Fields(Overwritten(b, g.at, s), o) == Fields(b, o))
            <==> n <= g.len || g.at + g.len >= |b|
  {
    hide Fields, Overwritten, HeadersClear, FieldAt;
    var g := Fields(b, o)[k];
    OverwritingIff(b, o, g.at, n);
    PayloadClear(b, o, k, n);
  }

  // ---- Burning the station address ----

  const MAC_FIELD: Byte := 0xc3

  /** What `c2691_burn_mac_addr` leaves. */
  function Burnt(b: seq<Byte>, mac: seq<Byte>): (c: seq<Byte>)
    ensures |c| == |b|
  {
    var (version, at) := (if b == [] then 0xff else b[0], Find(b, MAC_FIELD, 2));
    if version == 0 then Overwritten(b, 2, mac)
    else if version == 4 && at.Some? then Overwritten(b, at.value, mac)
    else b
  }

  /**
   * Every byte after burning: in format 0 bytes 2 to 7 are the address, in
   * format 4 six bytes from the first 0xC3 payload on, if there is one; all
   * others, and those of every other format, stay.
   */
  lemma BurntAt(b: seq<Byte>, mac: seq<Byte>, i: nat)
    requires |mac| == 6 && i < |b|
    ensures var at := Find(b, 0xc3, 2);
            Burnt(b, mac)[i]
            == if b[0] == 0 && 2 <= i < 8 then mac[i - 2]
               else if b[0] == 4 && at.Some? && at.value <= i < at.value + 6 then mac[i - at.value]
               else b[i]
  {
    hide Find, Overwritten;
    var at := Find(b, 0xc3, 2);
    OverwrittenAt(b, 2, mac, i);
    if at.Some? {
      OverwrittenAt(b, at.value, mac, i);
    }
  }

  /** Field `k` is where a format-4 EEPROM keeps the address. */
  predicate MacField(b: seq<Byte>, k: nat) {
    b != [] && b[0] == 4 && First(Fields(b, 2), MAC_FIELD, k)
  }

  lemma MacFound(b: seq<Byte>, mac: seq<Byte>, k: nat)
    requires MacField(b, k)
    ensures Find(b, MAC_FIELD, 2) == Some(Fields(b, 2)[k].at)
    ensures Burnt(b, mac) == Overwritten(b, Fields(b, 2)[k].at, mac)
  {
    hide Find, Fields, Overwritten;
    var j := FindIsFirst(b, MAC_FIELD, 2);
    if Find(b, MAC_FIELD, 2).Some? {
      assert j == k;
    }
  }

  /**
   * The source writes six bytes whatever the length of the field. No address
   * disturbs the list of fields if and only if the field has six bytes, or is
   * the last one.
   */
  lemma BurningIff(b: seq<Byte>, k: nat)
    requires MacField(b, k)
    ensures (forall mac: seq<Byte> :: |mac| == 6 ==> Fields(Burnt(b, mac), 2) == Fields(b, 2))
       <==> Fields(b, 2)[k].len >= 6 || Fields(b, 2)[k].at + Fields(b, 2)[k].len >= |b|
  {
    hide Fields, Overwritten, Burnt, MacField, FieldAt;
    MacThere(b, k);
    var at := Fields(b, 2)[k].at;
    RewritingIff(b, 2, k, 6);
    if s: seq<Byte> :| |s| == 6 && Fields(Overwritten(b, at, s), 2) != Fields(b, 2) {
      MacFound(b, s, k);
    } else {
      forall mac: seq<Byte> | |mac| == 6
        ensures Fields(Burnt(b, mac), 2) == Fields(b, 2)
      {
        MacFound(b, mac, k);
      }
    }
  }

  lemma MacThere(b: seq<Byte>, k: nat)
    requires MacField(b, k)
    ensures k < |Fields(b, 2)|
  {
  }

  /** Then every search finds what it found, and the address reads back if the EEPROM holds it all. */
  lemma BurningKeepsSearches(b: seq<Byte>, mac: seq<Byte>, k: nat, t: Byte)
    requires |mac| == 6 && MacField(b, k)
    requires Fields(b, 2)[k].len >= 6 || Fields(b, 2)[k].at + Fields(b, 2)[k].len >= |b|
    ensures var (at, c) := (Fields(b, 2)[k].at, Burnt(b, mac));
            Find(c, t, 2) == Find(b, t, 2) && (at + 6 <= |b| ==> c[at..at + 6] == mac)
  {
    hide Find, Fields, FieldAt, Overwritten, Burnt;
    MacFound(b, mac, k);
    Rewriting(b, 2, k, mac, t);
  }

  /** A field of one byte with another field behind it: an address that hides the other one. */
  lemma OverlongRewrite() returns (b: seq<Byte>, mac: seq<Byte>)
    ensures |mac| == 6 && MacField(b, 0) && Fields(b, 2)[0].len == 1
    ensures !(forall s: seq<Byte> :: |s| == 6 ==> Fields(Burnt(b, s), 2) == Fields(b, 2))
    ensures Find(b, 0x01, 2).Some? && Find(Burnt(b, mac), 0x01, 2).None?
  {
    b := [4, 0xff, 0xc3, 0x01, 0x00, 0x01, 0x02, 0xff, 0xff, 0xff];
    mac := [0xff, 0xff, 0xff, 0xff, 0xff, 0xff];
    OneByteField(b);
    BurningIff(b, 0);
    MacFound(b, mac, 0);
    var c := Burnt(b, mac);
    OverwrittenAt(b, 4, mac, 2);
    OverwrittenAt(b, 4, mac, 3);
    OverwrittenAt(b, 4, mac, 5);
    hide Burnt, Overwritten;
    assert FieldAt(c, 2) == Field(0xc3, 1, 4);
    assert FieldAt(c, 5) == Ended;
    assert Find(c, 0x01, 5) == None;
  }

  lemma OneByteField(b: seq<Byte>)
    requires b == [4, 0xff, 0xc3, 0x01, 0x00, 0x01, 0x02, 0xff, 0xff, 0xff]
    ensures MacField(b, 0) && Fields(b, 2)[0] == Field(0xc3, 1, 4)
    ensures FieldAt(b, 5) == Field(0x01, 1, 6) && Find(b, 0x01, 2) == Some(6)
  {
    assert FieldAt(b, 2) == Field(0xc3, 1, 4);
    assert FieldAt(b, 5) == Field(0x01, 1, 6);
    assert Find(b, 0x01, 5) == Some(6);
  }

  class CiscoEeprom {
    const data: array<bv16>

    ghost function Contents(): (b: seq<Byte>)
      reads this, data
    {
      Unpacked(data[..])
    }

    constructor (words: seq<bv16>)
      ensures data[..] == words && fresh(data)
    {
      data := new bv16[|words|](i requires 0 <= i < |words| => words[i]);
      new;
      assert data[..] == words;
    }

    method GetByte(offset: nat) returns (ok: bool, val: Byte)
      ensures ok <==> offset < |Contents()|
      ensures val == if ok then Contents()[offset] else 0xff
    {
      if offset >= 2 * data.Length {
        return false, 0xff;
      }
      var tmp := data[offset / 2];
      if offset % 2 == 0 {
        tmp := tmp >> 8;
      }
      ok, val := true, (tmp & 0xff) as Byte;
    }

    method SetByte(offset: nat, val: Byte) returns (ok: bool)
      modifies data
      ensures ok <==> offset < |old(Contents())|
      ensures Contents() == if ok then old(Contents())[offset := val] else old(Contents())
    {
      hide WithLow, WithHigh, Unpacked;
      if offset >= 2 * data.Length {
        return false;
      }
      ByteSet(data[..], offset, val);
      if offset % 2 == 1 {
        data[offset / 2] := WithLow(data[offset / 2], val);
      } else {
        data[offset / 2] := WithHigh(data[offset / 2], val);
      }
      assert data[..] == WithByte(old(data[..]), offset, val);
      ok := true;
    }

    /** Reads until the region is complete or the end is reached. */
    method GetRegion(offset: nat, n: nat) returns (ok: bool, region: seq<Byte>)
      ensures ok <==> n == 0 || offset + n <= |Contents()|
      ensures ok ==> |region| == n && forall k :: 0 <= k < n ==> region[k] == Contents()[offset + k]
    {
      hide Unpacked;
      region := [];
      for i := 0 to n
        invariant |region| == i && (i > 0 ==> offset + i <= |Contents()|)
        invariant forall k :: 0 <= k < i ==> region[k] == Contents()[offset + k]
      {
        var got, val := GetByte(offset + i);
        if !got {
          return false, region + [val];
        }
        region := region + [val];
      }
      ok := true;
    }

    /** Writes until the region is complete or the end is reached. */
    method SetRegion(offset: nat, region: seq<Byte>) returns (ok: bool)
      modifies data
      ensures ok <==> region == [] || offset + |region| <= |old(Contents())|
      ensures Contents() == Overwritten(old(Contents()), offset, region)
    {
      hide Unpacked;
      for i := 0 to |region|
        invariant i > 0 ==> offset + i <= |old(Contents())|
        invariant Contents() == Overwritten(old(Contents()), offset, region[..i])
      {
        assert region[..i + 1][..i] == region[..i];
        var done := SetByte(offset + i, region[i]);
        if !done {
          BeyondEnd(old(Contents()), offset, region, i);
          return false;
        }
      }
      assert region[..|region|] == region;
      ok := true;
    }

    /** -1, 0 and 1 are an error, the end marker and a field. */
    method GetField(offset: nat) returns (code: int, kind: Byte, len: nat, next: nat)
      ensures match FieldAt(Contents(), offset)
              case Broken => code == -1
              case Ended => code == 0
              case Field(k, n, at) => code == 1 && kind == k && len == n && next == at
    {
      hide Unpacked, LengthCode, NibbleValue;
      len, next := 0, offset;
      var ok;
      ok, kind := GetByte(next);
      next := next + 1;
      if !ok {
        return -1, kind, len, next;
      }
      if kind == 0xff {
        return 0, kind, len, next;
      }
      var code6 := LengthCode(kind);
      if code6 == 3 {
        var tmp;
        ok, tmp := GetByte(next);
        next := next + 1;
        if !ok {
          return -1, kind, len, next;
        }
        len := Low4(tmp);
      } else {
        len := if code6 == 0 then 1 else 2 * code6;
      }
      code := 1;
    }

    /** `cisco_eeprom_v4_find_field`. */
    method FindField(kind: Byte) returns (ok: bool, field: nat)
      ensures ok <==> Find(Contents(), kind, 2).Some?
      ensures ok ==> field == Find(Contents(), kind, 2).value
    {
      hide Unpacked, FieldAt;
      var offset := 2;
      field := 0;
      var more := true;
      while more
        invariant Find(Contents(), kind, 2) == if more then Find(Contents(), kind, offset) else None
        decreases more, |Contents()| - offset
      {
        var code, t, len;
        code, t, len, offset := GetField(offset);
        if code < 1 {
          break;
        }
        if t == kind {
          return true, offset;
        }
        offset := offset + len;
        more := offset < 2 * data.Length;
      }
      ok := false;
    }

    /**
     * `c2691_burn_mac_addr`: at offset 2 in format 0, in the payload of field
     * 0xC3 in format 4; other formats are an error.
     */
    method BurnMac(mac: seq<Byte>) returns (ok: bool)
      requires |mac| == 6
      modifies data
      ensures Contents() == Burnt(old(Contents()), mac)
      ensures var b := old(Contents()); ok <==> b != [] && (b[0] == 0 || b[0] == 4)
    {
      hide Unpacked, Find, Overwritten;
      var _, version := GetByte(0);
      if version == 0 {
        var _ := SetRegion(2, mac);
        return true;
      }
      if version == 4 {
        var found, offset := FindField(MAC_FIELD);
        if found {
          var _ := SetRegion(offset, mac);
        }
        return true;
      }
      ok := false;
    }
  }

  lemma {:induction false} BeyondEnd(b: seq<Byte>, o: nat, s: seq<Byte>, i: nat)
    requires i <= |s| && |b| <= o + i
    ensures Overwritten(b, o, s) == Overwritten(b, o, s[..i])
    decreases s
  {
    if i < |s| {
      assert s[..|s| - 1][..i] == s[..i];
      BeyondEnd(b, o, s[..|s| - 1], i);
    } else {
      assert s[..i] == s;
    }
  }
}
