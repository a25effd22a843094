/**
 * A ring of sixteen-byte descriptors in guest memory, as both directions of
 * the Am79c971 walk it (common/dev_am79c971.c).
 */
module Am79Ring {
  import opened Bytes
  import opened PhysMem
  import opened Am79Desc

  /** A ring as the device sees it: base address, size, current position, software style. */
  datatype Ring = Ring(start: nat, len: nat, pos: nat, style: nat)

  predicate Usable(r: Ring) {
    0 < r.len && r.pos < r.len && (r.style == 2 || r.style == 3) && r.start + 16 * r.len <= 0x1_0000_0000
  }

  /** The words of a descriptor the device uses. */
  datatype Desc = Desc(addr: Word, flags: Word, aux: Word)

  /** The slot reached after `i` moves: the position modulo the ring size. */
  function Slot(r: Ring, i: nat): (s: nat)
    requires r.len > 0
    ensures s < r.len
  {
    (r.pos + i) % r.len
  }

  /** One move of the position: increment, and wrap at the end. */
  function NextSlot(s: nat, len: nat): nat {
    if s + 1 == len then 0 else s + 1
  }

  lemma ModNext(a: nat, n: nat)
    requires n > 0
    ensures (a + 1) % n == NextSlot(a % n, n)
  {
    var q, s := a / n, a % n;
    assert a == q * n + s;
    if s + 1 == n {
      assert a + 1 == (q + 1) * n;
      ModUnique(a + 1, n, q + 1, 0);
    } else {
      ModUnique(a + 1, n, q, s + 1);
    }
  }

  lemma Multiples(n: nat, q: int, d: int)
    requires q < d
    ensures q * n + n <= d * n
  {
    var k := d - q - 1;
    assert d * n == q * n + n + k * n;
    assert k * n >= 0;
  }

  lemma ModUnique(a: nat, n: nat, q: nat, s: nat)
    requires n > 0 && a == q * n + s && s < n
    ensures a % n == s
  {
    var d, e := a / n, a % n;
    assert a == d * n + e;
    if d > q {
      Multiples(n, q, d);
    } else if d < q {
      Multiples(n, d, q);
    }
  }

  lemma SlotFirst(r: Ring)
    requires r.pos < r.len
    ensures Slot(r, 0) == r.pos
  {
    ModUnique(r.pos, r.len, 0, r.pos);
  }

  lemma SlotNext(r: Ring, i: nat)
    requires r.len > 0
    ensures Slot(r, i + 1) == NextSlot(Slot(r, i), r.len)
  {
    ModNext(r.pos + i, r.len);
  }

  /** Where the moves lead, without division. */
  lemma SlotPlain(r: Ring, i: nat)
    requires r.pos < r.len && i <= r.len
    ensures Slot(r, i) == if r.pos + i < r.len then r.pos + i else r.pos + i - r.len
  {
    if r.pos + i < r.len {
      ModUnique(r.pos + i, r.len, 0, r.pos + i);
    } else {
      ModUnique(r.pos + i, r.len, 1, r.pos + i - r.len);
    }
  }

  /** A full turn meets no slot twice. */
  lemma SlotsDistinct(r: Ring, i: nat, j: nat)
    requires r.pos < r.len && i < j < r.len
    ensures Slot(r, i) != Slot(r, j)
  {
    SlotPlain(r, i);
    SlotPlain(r, j);
  }

  /** A full turn leads back. */
  lemma SlotTurn(r: Ring, i: nat)
    requires r.len > 0
    ensures Slot(r, i + r.len) == Slot(r, i)
  {
    var (a, n) := (r.pos + i, r.len);
    assert a + n == (a / n + 1) * n + a % n;
    ModUnique(a + n, n, a / n + 1, a % n);
  }

  /** So every slot met is one of the first turn. */
  lemma {:induction false} SlotHome(r: Ring, i: nat) returns (t: nat)
    requires r.len > 0
    ensures t < r.len && t <= i && Slot(r, t) == Slot(r, i)
    ensures i < r.len ==> t == i
    decreases i
  {
    if i < r.len {
      t := i;
    } else {
      t := SlotHome(r, i - r.len);
      SlotTurn(r, i - r.len);
    }
  }

  function DescAddr(r: Ring, s: nat): nat {
    r.start + 16 * s
  }

  function FlagsAddr(r: Ring, s: nat): nat {
    DescAddr(r, s) + 4
  }

  /** Styles 2 and 3 exchange the address word and the word with the byte count. */
  function AddrAddr(r: Ring, s: nat): nat {
    if r.style == 2 then DescAddr(r, s) else DescAddr(r, s) + 8
  }

  function AuxAddr(r: Ring, s: nat): nat {
    if r.style == 2 then DescAddr(r, s) + 8 else DescAddr(r, s)
  }

  /** `rxdesc_read` and `txdesc_read`. */
  function Words(m: Mem, r: Ring, s: nat): Desc {
    Desc(Load32(m, AddrAddr(r, s)), Load32(m, FlagsAddr(r, s)), Load32(m, AuxAddr(r, s)))
  }

  /** The descriptor and its buffer met after `j` moves, as memory stands at `m`. */
  function At(m: Mem, r: Ring, j: nat): Desc
    requires r.len > 0
  {
    Words(m, r, Slot(r, j))
  }

  function BufAddr(m: Mem, r: Ring, j: nat): nat
    requires r.len > 0
  {
    Address(At(m, r, j).addr)
  }

  function Size(m: Mem, r: Ring, j: nat): (n: nat)
    requires r.len > 0
    ensures n < 4096
  {
    BufLen(At(m, r, j).flags)
  }

  /** What the first `k` buffers hold together. */
  function Room(m: Mem, r: Ring, k: nat): nat
    requires r.len > 0
  {
    if k == 0 then 0 else Room(m, r, k - 1) + Size(m, r, k - 1)
  }

  lemma RoomNone(m: Mem, r: Ring)
    requires r.len > 0
    ensures Room(m, r, 0) == 0
  {
  }

  /** The contents, in memory `now`, of the first `k` buffers the ring named in memory `m`. */
  function Gather(m: Mem, r: Ring, now: Mem, k: nat): (s: seq<Byte>)
    requires r.len > 0
  {
    if k == 0 then []
    else Gather(m, r, now, k - 1) + LoadBlock(now, BufAddr(m, r, k - 1), Size(m, r, k - 1))
  }

  lemma {:induction false} GatherLength(m: Mem, r: Ring, now: Mem, k: nat)
    requires r.len > 0
    ensures |Gather(m, r, now, k)| == Room(m, r, k)
  {
    if k > 0 { GatherLength(m, r, now, k - 1); }
  }

  lemma {:induction false} RoomGrows(m: Mem, r: Ring, j: nat, k: nat)
    requires r.len > 0 && j <= k
    ensures Room(m, r, j) <= Room(m, r, k)
  {
    if j < k { RoomGrows(m, r, j, k - 1); }
  }

  /** The memory of one ring. */
  predicate OutsideRing(r: Ring, a: nat, n: nat) {
    Apart(a, n, r.start, 16 * r.len)
  }

  /** The driver keeps its buffers away from the ring itself. */
  ghost predicate BuffersApart(m: Mem, r: Ring) {
    forall s: nat :: s < r.len ==>
      OutsideRing(r, Address(Words(m, r, s).addr), BufLen(Words(m, r, s).flags))
  }

  lemma BuffersApartAt(m: Mem, r: Ring, s: nat)
    requires BuffersApart(m, r) && s < r.len
    ensures OutsideRing(r, Address(Words(m, r, s).addr), BufLen(Words(m, r, s).flags))
  {
  }

  // ---- A descriptor byte by byte ----

  /** The four bytes of a word in memory. */
  lemma BytesOfWord(m: Mem, a: nat)
    ensures Hton32(Load32(m, a).bits) == [Load8(m, a), Load8(m, a + 1), Load8(m, a + 2), Load8(m, a + 3)]
  {
    hide Load8, Ntoh32, Hton32;
    Ntoh32RoundTrip(Load8(m, a), Load8(m, a + 1), Load8(m, a + 2), Load8(m, a + 3));
  }

  /** A word taken as an address is the big-endian number in its four bytes of memory. */
  lemma AddressLoaded(m: Mem, a: nat)
    ensures Address(Load32(m, a)) == Number32(Load8(m, a), Load8(m, a + 1), Load8(m, a + 2), Load8(m, a + 3))
  {
    hide Load8, Load32, Hton32, Number32;
    BytesOfWord(m, a);
  }

  /** The twelve bits that end at byte `a`. */
  function Twelve(m: Mem, a: nat): (n: nat)
    requires a > 0
    ensures n < 4096
  {
    256 * NibbleValue(Lo(Load8(m, a - 1))) + Value(Load8(m, a))
  }

  lemma WordInBytes(m: Mem, a: nat)
    ensures var w := Load32(m, a);
            && (Own(w) <==> Load8(m, a) & 0x80 != 0) && (Err(w) <==> Load8(m, a) & 0x40 != 0)
            && (Buff(w) <==> Load8(m, a) & 0x08 != 0)
            && (Stp(w) <==> Load8(m, a) & 0x02 != 0) && (Enp(w) <==> Load8(m, a) & 0x01 != 0)
    ensures BufLen(Load32(m, a)) == (4096 - Twelve(m, a + 3)) % 4096 && CountOf(Load32(m, a)) == Twelve(m, a + 3)
  {
    hide Load8, Load32, Hton32, BufLen, Number12, Own, Err, Buff, Stp, Enp, Lo, Value, NibbleValue;
    BytesOfWord(m, a);
    FlagsInBytes(Load32(m, a));
    BufLenIsComplement(Load32(m, a));
    Number12InBytes(Load32(m, a).bits);
  }

  /**
   * Descriptor `s` is the 16 bytes at `start + 16 * s`: flags in byte 4, the
   * two's complement of the buffer size in bytes 6 and 7. In style 2 the buffer
   * address is bytes 0 to 3 and the byte count in bytes 10 and 11, in style 3
   * the address is bytes 8 to 11 and the count in bytes 2 and 3.
   */
  lemma DescriptorBytes(m: Mem, r: Ring, s: nat)
    requires r.style == 2 || r.style == 3
    ensures var (d, a) := (Words(m, r, s), r.start + 16 * s);
            var (x, y) := if r.style == 2 then (a, a + 8) else (a + 8, a);
            && (Own(d.flags) <==> Load8(m, a + 4) & 0x80 != 0) && (Err(d.flags) <==> Load8(m, a + 4) & 0x40 != 0)
            && (Buff(d.flags) <==> Load8(m, a + 4) & 0x08 != 0)
            && (Stp(d.flags) <==> Load8(m, a + 4) & 0x02 != 0) && (Enp(d.flags) <==> Load8(m, a + 4) & 0x01 != 0)
            && BufLen(d.flags) == (4096 - Twelve(m, a + 7)) % 4096
            && CountOf(d.aux) == Twelve(m, y + 3)
            && Address(d.addr) == Number32(Load8(m, x), Load8(m, x + 1), Load8(m, x + 2), Load8(m, x + 3))
  {
    hide Number32, Load8, Load32, BufLen, CountOf, Twelve, Address, Own, Err, Buff, Stp, Enp, Value;
    WordInBytes(m, FlagsAddr(r, s));
    WordInBytes(m, AuxAddr(r, s));
    AddressLoaded(m, AddrAddr(r, s));
  }

  // ---- What a store does to the descriptors ----

  lemma WordsAfterBlock(m: Mem, r: Ring, s: nat, a: nat, data: seq<Byte>)
    requires s < r.len && OutsideRing(r, a, |data|)
    ensures Words(StoreBlock(m, a, data), r, s) == Words(m, r, s)
  {
    hide StoreBlock, Load32;
    LoadApart32(m, a, data, AddrAddr(r, s));
    LoadApart32(m, a, data, FlagsAddr(r, s));
    LoadApart32(m, a, data, AuxAddr(r, s));
  }

  lemma WordsAfterFlags(m: Mem, r: Ring, s: nat, t: nat, w: Word)
    requires s < r.len && t < r.len
    ensures Words(Store32(m, FlagsAddr(r, t), w), r, s)
         == if s == t then Words(m, r, s).(flags := w) else Words(m, r, s)
  {
    hide Store32, Load32;
    LoadOther32(m, FlagsAddr(r, t), w, AddrAddr(r, s));
    LoadOther32(m, FlagsAddr(r, t), w, AuxAddr(r, s));
    if s == t {
      LoadStored32(m, FlagsAddr(r, t), w);
    } else {
      LoadOther32(m, FlagsAddr(r, t), w, FlagsAddr(r, s));
    }
  }

  lemma WordsAfterAux(m: Mem, r: Ring, s: nat, t: nat, w: Word)
    requires s < r.len && t < r.len
    ensures Words(Store32(m, AuxAddr(r, t), w), r, s)
         == if s == t then Words(m, r, s).(aux := w) else Words(m, r, s)
  {
    hide Store32, Load32;
    LoadOther32(m, AuxAddr(r, t), w, AddrAddr(r, s));
    LoadOther32(m, AuxAddr(r, t), w, FlagsAddr(r, s));
    if s == t {
      LoadStored32(m, AuxAddr(r, t), w);
    } else {
      LoadOther32(m, AuxAddr(r, t), w, AuxAddr(r, s));
    }
  }

  lemma WordsAfterAddr(m: Mem, r: Ring, s: nat, t: nat, w: Word)
    requires s < r.len && t < r.len
    ensures Words(Store32(m, AddrAddr(r, t), w), r, s)
         == if s == t then Words(m, r, s).(addr := w) else Words(m, r, s)
  {
    hide Store32, Load32;
    LoadOther32(m, AddrAddr(r, t), w, FlagsAddr(r, s));
    LoadOther32(m, AddrAddr(r, t), w, AuxAddr(r, s));
    if s == t {
      LoadStored32(m, AddrAddr(r, t), w);
    } else {
      LoadOther32(m, AddrAddr(r, t), w, AddrAddr(r, s));
    }
  }

  lemma BlockAfterFlags(m: Mem, r: Ring, t: nat, w: Word, a: nat, n: nat)
    requires t < r.len && OutsideRing(r, a, n)
    ensures LoadBlock(Store32(m, FlagsAddr(r, t), w), a, n) == LoadBlock(m, a, n)
  {
    hide Store32, LoadBlock;
    BlockOther(m, FlagsAddr(r, t), w, a, n);
  }
}
