/**
 * Guest physical memory as the devices see it (common/memory.c): bytes at
 * addresses, big-endian words, and block copies.
 */
module PhysMem {
  import opened Bytes

  /** Memory contents; an address never written reads as zero. */
  type Mem = map<nat, Byte>

  /** A 32-bit word, wrapped so that passing it around does not open its bits. */
  datatype Word = Word(bits: bv32)

  function Load8(m: Mem, a: nat): Byte {
    if a in m then m[a] else 0
  }

  /** `physmem_copy_u32_from_vm`. */
  function Load32(m: Mem, a: nat): Word {
    Word(Ntoh32(Load8(m, a), Load8(m, a + 1), Load8(m, a + 2), Load8(m, a + 3)))
  }

  /** `physmem_copy_from_vm`. */
  function LoadBlock(m: Mem, a: nat, n: nat): (s: seq<Byte>)
    ensures |s| == n
  {
    seq(n, i requires 0 <= i < n => Load8(m, a + i))
  }

  /** `physmem_copy_to_vm`. */
  function StoreBlock(m: Mem, a: nat, s: seq<Byte>): Mem
    decreases s
  {
    if s == [] then m else StoreBlock(m, a, s[..|s| - 1])[a + |s| - 1 := s[|s| - 1]]
  }

  /** `physmem_copy_u32_to_vm`. */
  function Store32(m: Mem, a: nat, w: Word): Mem {
    StoreBlock(m, a, Hton32(w.bits))
  }

  /** `a..a+n` and `b..b+k` have no address in common. */
  predicate Apart(a: nat, n: nat, b: nat, k: nat) {
    n == 0 || k == 0 || a + n <= b || b + k <= a
  }

  lemma {:induction false} LoadStored8(m: Mem, a: nat, s: seq<Byte>, b: nat)
    ensures Load8(StoreBlock(m, a, s), b) == if a <= b < a + |s| then s[b - a] else Load8(m, b)
    decreases s
  {
    if s != [] { LoadStored8(m, a, s[..|s| - 1], b); }
  }

  lemma LoadStored32(m: Mem, a: nat, w: Word)
    ensures Load32(Store32(m, a, w), a) == w
  {
    hide Ntoh32, Hton32, Load8, StoreBlock;
    var s := Hton32(w.bits);
    LoadStored8(m, a, s, a);
    LoadStored8(m, a, s, a + 1);
    LoadStored8(m, a, s, a + 2);
    LoadStored8(m, a, s, a + 3);
    Hton32RoundTrip(w.bits);
  }

  lemma LoadApart32(m: Mem, a: nat, s: seq<Byte>, b: nat)
    requires Apart(a, |s|, b, 4)
    ensures Load32(StoreBlock(m, a, s), b) == Load32(m, b)
  {
    hide Ntoh32, Load8, StoreBlock;
    LoadStored8(m, a, s, b);
    LoadStored8(m, a, s, b + 1);
    LoadStored8(m, a, s, b + 2);
    LoadStored8(m, a, s, b + 3);
  }

  lemma LoadOther32(m: Mem, a: nat, w: Word, b: nat)
    requires Apart(a, 4, b, 4)
    ensures Load32(Store32(m, a, w), b) == Load32(m, b)
  {
    LoadApart32(m, a, Hton32(w.bits), b);
  }

  lemma ByteOther(m: Mem, at: nat, w: Word, a: nat)
    requires Apart(at, 4, a, 1)
    ensures Load8(Store32(m, at, w), a) == Load8(m, a)
  {
    hide Hton32, StoreBlock, Load8;
    LoadStored8(m, at, Hton32(w.bits), a);
  }

  lemma BlockStored(m: Mem, a: nat, s: seq<Byte>)
    ensures LoadBlock(StoreBlock(m, a, s), a, |s|) == s
  {
    hide StoreBlock, Load8;
    var r := LoadBlock(StoreBlock(m, a, s), a, |s|);
    forall i | 0 <= i < |s|
      ensures r[i] == s[i]
    {
      LoadStored8(m, a, s, a + i);
    }
  }

  lemma BlockApart(m: Mem, a: nat, s: seq<Byte>, b: nat, n: nat)
    requires Apart(a, |s|, b, n)
    ensures LoadBlock(StoreBlock(m, a, s), b, n) == LoadBlock(m, b, n)
  {
    hide StoreBlock, Load8;
    var r, t := LoadBlock(StoreBlock(m, a, s), b, n), LoadBlock(m, b, n);
    forall i | 0 <= i < n
      ensures r[i] == t[i]
    {
      LoadStored8(m, a, s, b + i);
    }
  }

  lemma BlockOther(m: Mem, a: nat, w: Word, b: nat, n: nat)
    requires Apart(a, 4, b, n)
    ensures LoadBlock(Store32(m, a, w), b, n) == LoadBlock(m, b, n)
  {
    BlockApart(m, a, Hton32(w.bits), b, n);
  }

  class Memory {
    var bytes: Mem

    /** Every state the memory went through, the present one last. */
    ghost var trace: seq<Mem>

    ghost predicate Valid()
      reads this
    {
      |trace| > 0 && trace[|trace| - 1] == bytes
    }

    method CopyU32To(a: nat, w: Word)
      requires Valid()
      modifies this
      ensures Valid() && bytes == Store32(old(bytes), a, w)
      ensures trace == old(trace) + [bytes]
    {
      bytes := Store32(bytes, a, w);
      trace := trace + [bytes];
    }

    method CopyTo(a: nat, s: seq<Byte>)
      requires Valid()
      modifies this
      ensures Valid() && bytes == StoreBlock(old(bytes), a, s)
      ensures trace == old(trace) + [bytes]
    {
      bytes := StoreBlock(bytes, a, s);
      trace := trace + [bytes];
    }
  }
}
