/** A set of flash chips interleaved over one byte array (common/dev_bootflash.c). */
module Bootflash {
  import opened Bytes
  import opened FlashChip

  /**
   * `wide` is word mode. The models of the source use one chip in word mode and
   * four in byte mode; one and two in byte mode are covered as well.
   */
  datatype Layout = Layout(wide: bool, chips: nat, cells: nat, blkSize: nat, ids: Ids)

  predicate LayoutOk(l: Layout) {
    (l.chips == 1 || l.chips == 2 || l.chips == 4) && (l.wide ==> l.chips == 1)
  }

  function HostSize(l: Layout): nat {
    if l.wide then 2 * l.cells
    else if l.chips == 1 then l.cells
    else if l.chips == 2 then 2 * l.cells
    else 4 * l.cells
  }

  /** `(offset << nr_flash_bits) + flash_pos`, doubled in word mode. */
  function Index(l: Layout, fi: nat, o: nat): nat {
    if l.wide then 2 * o
    else if l.chips == 1 then o
    else if l.chips == 2 then 2 * o + fi
    else 4 * o + fi
  }

  /** The chip and the cell a device address belongs to. */
  function ChipOf(l: Layout, a: nat): nat {
    if l.chips == 2 then a % 2 else if l.chips == 4 then a % 4 else 0
  }

  function CellOf(l: Layout, a: nat): nat {
    if l.wide then a / 2
    else if l.chips == 1 then a
    else if l.chips == 2 then a / 2
    else a / 4
  }

  lemma IndexFits(l: Layout, fi: nat, o: nat)
    requires LayoutOk(l) && fi < l.chips && o < l.cells
    ensures Index(l, fi, o) < HostSize(l)
    ensures l.wide ==> Index(l, fi, o) + 1 < HostSize(l)
  {
  }

  /** A cell past the end of its chip is past the end of the whole array. */
  lemma InsideIff(l: Layout, fi: nat, o: nat)
    requires LayoutOk(l) && fi < l.chips
    ensures Index(l, fi, o) < HostSize(l) <==> o < l.cells
  {
  }

  /** The stripes are disjoint, and together they are the array. */
  lemma IndexOf(l: Layout, a: nat)
    requires LayoutOk(l) && a < HostSize(l)
    ensures ChipOf(l, a) < l.chips && CellOf(l, a) < l.cells
    ensures !l.wide ==> Index(l, ChipOf(l, a), CellOf(l, a)) == a
    ensures l.wide ==> Index(l, 0, CellOf(l, a)) == a - a % 2
  {
  }

  lemma IndexInjective(l: Layout, f: nat, o: nat, g: nat, p: nat)
    requires LayoutOk(l) && f < l.chips && g < l.chips
    ensures Index(l, f, o) == Index(l, g, p) <==> f == g && o == p
    ensures l.wide ==> Index(l, f, o) != Index(l, g, p) + 1
  {
  }

  predicate HostOk(l: Layout, host: seq<Byte>) {
    LayoutOk(l) && |host| == HostSize(l)
  }

  /** `flash_read`. */
  function Load(l: Layout, host: seq<Byte>, fi: nat, o: nat): Datum
    requires HostOk(l, host) && fi < l.chips && o < l.cells
  {
    IndexFits(l, fi, o);
    if l.wide then Datum(host[Index(l, fi, o)], host[Index(l, fi, o) + 1]) else Datum(0, host[Index(l, fi, o)])
  }

  /** `flash_write`. */
  function Save(l: Layout, host: seq<Byte>, fi: nat, o: nat, d: Datum): (r: seq<Byte>)
    requires HostOk(l, host) && fi < l.chips && o < l.cells
    ensures |r| == |host|
  {
    IndexFits(l, fi, o);
    if l.wide then host[Index(l, fi, o) := d.hi][Index(l, fi, o) + 1 := d.lo] else host[Index(l, fi, o) := d.lo]
  }

  lemma LoadSaved(l: Layout, host: seq<Byte>, f: nat, o: nat, d: Datum, g: nat, p: nat)
    requires HostOk(l, host) && f < l.chips && o < l.cells && g < l.chips && p < l.cells
    ensures Load(l, Save(l, host, f, o, d), g, p) == if f == g && o == p then Kept(d, l.wide) else Load(l, host, g, p)
  {
    hide Index, HostSize;
    IndexFits(l, f, o);
    IndexFits(l, g, p);
    IndexInjective(l, f, o, g, p);
    IndexInjective(l, g, p, f, o);
  }

  /** What chip `fi` holds. */
  function View(l: Layout, host: seq<Byte>, fi: nat): (v: seq<Datum>)
    requires HostOk(l, host) && fi < l.chips
    ensures |v| == l.cells
  {
    seq(l.cells, o requires 0 <= o < l.cells => Load(l, host, fi, o))
  }

  function SaveAll(l: Layout, host: seq<Byte>, fi: nat, puts: seq<Put>): (r: seq<Byte>)
    requires HostOk(l, host) && fi < l.chips
    ensures |r| == |host|
    decreases puts
  {
    if puts == [] then host
    else
      var (before, last) := (SaveAll(l, host, fi, puts[..|puts| - 1]), puts[|puts| - 1]);
      if last.offset < l.cells then Save(l, before, fi, last.offset, last.d) else before
  }

  /** Writing through one chip writes that chip's cells and no other chip's. */
  lemma {:induction false} ViewSaved(l: Layout, host: seq<Byte>, fi: nat, puts: seq<Put>, g: nat)
    requires HostOk(l, host) && fi < l.chips && g < l.chips
    ensures View(l, SaveAll(l, host, fi, puts), g)
         == if fi == g then Stored(View(l, host, g), puts, l.wide) else View(l, host, g)
    decreases puts
  {
    hide Load, Save, Kept, HostSize;
    if puts != [] {
      var (init, last) := (puts[..|puts| - 1], puts[|puts| - 1]);
      ViewSaved(l, host, fi, init, g);
      if last.offset < l.cells {
        ViewSavedOne(l, SaveAll(l, host, fi, init), fi, last.offset, last.d, g);
      }
    }
  }

  lemma ViewSavedOne(l: Layout, host: seq<Byte>, fi: nat, o: nat, d: Datum, g: nat)
    requires HostOk(l, host) && fi < l.chips && g < l.chips && o < l.cells
    ensures View(l, Save(l, host, fi, o, d), g)
         == if fi == g then View(l, host, g)[o := Kept(d, l.wide)] else View(l, host, g)
  {
    hide Load, Save, Kept, HostSize;
    var (v, w) := (View(l, Save(l, host, fi, o, d), g), View(l, host, g));
    forall p: nat | p < l.cells
      ensures v[p] == if fi == g && o == p then Kept(d, l.wide) else w[p]
    {
      LoadSaved(l, host, fi, o, d, g, p);
    }
  }

  // ---- The set as a state machine ----

  datatype Flashes = Flashes(chips: seq<Chip>, host: seq<Byte>)

  predicate Good(l: Layout, s: Flashes) {
    && HostOk(l, s.host)
    && |s.chips| == l.chips
    && forall f :: 0 <= f < l.chips ==> Ok(s.chips[f])
  }

  /** One access of one chip. */
  datatype Access = Access(fi: nat, op: Op)

  predicate Addressed(l: Layout, a: Access) {
    a.fi < l.chips && a.op.offset < l.cells
  }

  function Act(l: Layout, s: Flashes, a: Access): (r: Flashes)
    requires Good(l, s) && Addressed(l, a)
    ensures Good(l, r)
  {
    Flashes(s.chips[a.fi := Next(s.chips[a.fi], a.op)],
            SaveAll(l, s.host, a.fi, Writes(s.chips[a.fi], a.op, l.blkSize)))
  }

  predicate AllAddressed(l: Layout, accesses: seq<Access>) {
    forall k :: 0 <= k < |accesses| ==> Addressed(l, accesses[k])
  }

  function Acts(l: Layout, s: Flashes, accesses: seq<Access>): (r: Flashes)
    requires Good(l, s) && AllAddressed(l, accesses)
    ensures Good(l, r)
    decreases accesses
  {
    if accesses == [] then s
    else Act(l, Acts(l, s, accesses[..|accesses| - 1]), accesses[|accesses| - 1])
  }

  /** No access writes past the end of its chip: windows and erase blocks lie in range. */
  predicate InRange(l: Layout, s: Flashes, a: Access)
    requires Good(l, s) && Addressed(l, a)
  {
    var puts := Writes(s.chips[a.fi], a.op, l.blkSize);
    forall k :: 0 <= k < |puts| ==> puts[k].offset < l.cells
  }

  /** What that asks: of a confirmed buffer that its window fits, of a confirmed erase that its block does. */
  lemma InRangeIff(l: Layout, s: Flashes, a: Access)
    requires Good(l, s) && Addressed(l, a)
    ensures var (c, op) := (s.chips[a.fi], a.op);
            InRange(l, s, a)
            <==> (op.Write? && op.d.lo == CONFIRM ==>
                    && (c.state == BufConfirm && c.wbCount > 0 ==> c.wbOffset + c.wbCount <= l.cells)
                    && (c.state == Erase && l.blkSize > 0 ==> op.offset + l.blkSize <= l.cells))
  {
    hide HostSize, Ok;
    var (c, op, puts) := (s.chips[a.fi], a.op, Writes(s.chips[a.fi], a.op, l.blkSize));
    if op.Write? && op.d.lo == CONFIRM {
      if c.state == BufConfirm && c.wbCount > 0 {
        assert puts[c.wbCount - 1].offset == c.wbOffset + c.wbCount - 1;
      }
      if c.state == Erase && l.blkSize > 0 {
        assert puts[l.blkSize - 1].offset == op.offset + l.blkSize - 1;
      }
    }
  }

  predicate AllInRange(l: Layout, s: Flashes, accesses: seq<Access>)
    requires Good(l, s) && AllAddressed(l, accesses)
    decreases accesses
  {
    accesses != [] ==>
      (var init := accesses[..|accesses| - 1];
       AllInRange(l, s, init) && InRange(l, Acts(l, s, init), accesses[|accesses| - 1]))
  }

  /** Chip `f` as a device of its own. */
  function DeviceOf(l: Layout, s: Flashes, f: nat): (v: Device)
    requires Good(l, s) && f < l.chips
    ensures Ok(v.chip)
  {
    Device(s.chips[f], View(l, s.host, f))
  }

  /** The accesses to chip `f`. */
  function Project(accesses: seq<Access>, f: nat): seq<Op>
    decreases accesses
  {
    if accesses == [] then []
    else
      var (p, last) := (Project(accesses[..|accesses| - 1], f), accesses[|accesses| - 1]);
      if last.fi == f then p + [last.op] else p
  }

  lemma ActRefines(l: Layout, s: Flashes, a: Access, f: nat)
    requires Good(l, s) && Addressed(l, a) && f < l.chips
    ensures DeviceOf(l, Act(l, s, a), f)
         == if a.fi == f then Step(DeviceOf(l, s, f), a.op, l.blkSize, l.wide) else DeviceOf(l, s, f)
  {
    hide View, SaveAll, Writes, Next, Stored, Ok;
    ViewSaved(l, s.host, a.fi, Writes(s.chips[a.fi], a.op, l.blkSize), f);
  }

  /**
   * The chips are independent: after any run of interleaved accesses, each chip
   * is where its own accesses alone would have taken it.
   */
  lemma {:induction false} Independent(l: Layout, s: Flashes, accesses: seq<Access>, f: nat)
    requires Good(l, s) && AllAddressed(l, accesses) && f < l.chips
    ensures DeviceOf(l, Acts(l, s, accesses), f)
         == Run(DeviceOf(l, s, f), Project(accesses, f), l.blkSize, l.wide)
    decreases accesses
  {
    hide Act, DeviceOf, Step, Good;
    if accesses != [] {
      var (init, last) := (accesses[..|accesses| - 1], accesses[|accesses| - 1]);
      Independent(l, s, init, f);
      ActRefines(l, Acts(l, s, init), last, f);
      if last.fi == f {
        var p := Project(init, f);
        assert Project(accesses, f) == p + [last.op];
        RunAppend(DeviceOf(l, s, f), p, [last.op], l.blkSize, l.wide);
        RunOne(Run(DeviceOf(l, s, f), p, l.blkSize, l.wide), last.op, l.blkSize, l.wide);
      }
    }
  }

  /** Two arrays are the same when every chip holds the same. */
  lemma ViewsDetermine(l: Layout, host: seq<Byte>, i: nat, other: seq<Byte>)
    requires HostOk(l, host) && HostOk(l, other) && i < |host|
    requires View(l, host, ChipOf(l, i)) == View(l, other, ChipOf(l, i))
    ensures host[i] == other[i]
  {
    var (f, o) := (ChipOf(l, i), CellOf(l, i));
    IndexOf(l, i);
    assert View(l, host, f)[o] == View(l, other, f)[o];
    if l.wide && i % 2 == 1 {
      assert Load(l, host, f, o).lo == Load(l, other, f, o).lo;
    }
  }

  /** An access that may write the array: to a chip that is programming, or confirming a buffer or an erase. */
  predicate Programs(l: Layout, s: Flashes, a: Access)
    requires Good(l, s) && Addressed(l, a)
  {
    var st := s.chips[a.fi].state;
    a.op.Write? && (st == Program || ((st == BufConfirm || st == Erase) && a.op.d.lo == 0xd0))
  }

  /**
   * Frame. If a run changed byte `i`, some access in it was to the chip that
   * byte is striped to, while that chip was programming or confirming.
   */
  lemma {:induction false} OnlyItsChip(l: Layout, s: Flashes, accesses: seq<Access>, i: nat)
    returns (k: nat)
    requires Good(l, s) && AllAddressed(l, accesses) && i < |s.host|
    requires Acts(l, s, accesses).host[i] != s.host[i]
    ensures k < |accesses| && accesses[k].fi == ChipOf(l, i)
    ensures Programs(l, Acts(l, s, accesses[..k]), accesses[k])
    decreases accesses
  {
    hide Act, Programs, ChipOf;
    var (init, last) := (accesses[..|accesses| - 1], accesses[|accesses| - 1]);
    var mid := Acts(l, s, init);
    if mid.host[i] != s.host[i] {
      k := OnlyItsChip(l, s, init, i);
      assert accesses[..k] == init[..k];
    } else {
      k := |accesses| - 1;
      if last.fi != ChipOf(l, i) || !Programs(l, mid, last) {
        UnchangedUnless(l, mid, last, i);
      }
    }
  }

  lemma UnchangedUnless(l: Layout, s: Flashes, a: Access, i: nat)
    requires Good(l, s) && Addressed(l, a) && i < |s.host|
    requires a.fi != ChipOf(l, i) || !Programs(l, s, a)
    ensures Act(l, s, a).host[i] == s.host[i]
  {
    hide Act, View, ChipOf;
    ChipExists(l, i);
    var f := ChipOf(l, i);
    ActRefines(l, s, a, f);
    if a.fi == f {
      OnlyProgramming(DeviceOf(l, s, f), a.op, l.blkSize, l.wide);
    }
    ViewsDetermine(l, Act(l, s, a).host, i, s.host);
  }

  lemma ChipExists(l: Layout, i: nat)
    requires LayoutOk(l) && i < HostSize(l)
    ensures ChipOf(l, i) < l.chips
  {
    IndexOf(l, i);
  }

  /** Chip `f` holds the programmed window, and otherwise what it held. */
  ghost predicate ProgrammedIn(l: Layout, s: Flashes, r: Flashes, f: nat, base: nat, n: nat, hits: seq<Put>)
    requires Good(l, s) && Good(l, r) && f < l.chips
  {
    Programmed(View(l, s.host, f), View(l, r.host, f), base, n, hits, l.wide)
  }

  /**
   * A buffered program on chip `f`, with accesses to the other chips between
   * its steps. The write after the completed window decides: exactly the
   * window's cells of that chip are programmed, or no cell of it changes. Every
   * other chip is where its own accesses take it.
   */
  lemma InterleavedProgram(l: Layout, s: Flashes, accesses: seq<Access>, f: nat, b: Buffering, at: nat, d: Datum)
    requires Good(l, s) && AllAddressed(l, accesses) && f < l.chips && Ready(s.chips[f])
    requires WellFormed(b) && Project(accesses, f) == Opening(b) + [Write(at, d)]
    ensures var r := Acts(l, s, accesses);
            && r.chips[f].state == ReadArray
            && (d.lo != CONFIRM ==> View(l, r.host, f) == View(l, s.host, f))
            && (d.lo == CONFIRM && Distinct(Filler(b)) && b.base + FlashChip.Size(b) <= l.cells ==>
                  ProgrammedIn(l, s, r, f, b.base, FlashChip.Size(b), Filler(b)))
            && (forall g: nat :: g < l.chips && g != f ==>
                  DeviceOf(l, r, g) == Run(DeviceOf(l, s, g), Project(accesses, g), l.blkSize, l.wide))
  {
    hide Acts, Ok, Ready, Distinct, Filler, FlashChip.Size, Opening, WellFormed, Run, Project, View, Programmed;
    Independent(l, s, accesses, f);
    BufferedProgram(DeviceOf(l, s, f), b, at, d, l.blkSize, l.wide);
    forall g: nat | g < l.chips && g != f
      ensures DeviceOf(l, Acts(l, s, accesses), g)
           == Run(DeviceOf(l, s, g), Project(accesses, g), l.blkSize, l.wide)
    {
      Independent(l, s, accesses, g);
    }
  }

  /** A single program on chip `f` among accesses to the others: one cell of that chip takes the datum. */
  lemma InterleavedSingle(l: Layout, s: Flashes, accesses: seq<Access>, f: nat, at: nat, c: Datum, wait: seq<Op>,
                          o: nat, d: Datum)
    requires Good(l, s) && AllAddressed(l, accesses) && f < l.chips && Ready(s.chips[f]) && o < l.cells
    requires (c.lo == 0x40 || c.lo == 0x10) && Reads(wait)
    requires Project(accesses, f) == [Write(at, c)] + wait + [Write(o, d)]
    ensures var r := Acts(l, s, accesses);
            && r.chips[f] == s.chips[f].(state := ProgramDone)
            && View(l, r.host, f) == View(l, s.host, f)[o := Kept(d, l.wide)]
            && (forall g: nat :: g < l.chips && g != f ==>
                  DeviceOf(l, r, g) == Run(DeviceOf(l, s, g), Project(accesses, g), l.blkSize, l.wide))
  {
    hide Acts, Ok, Ready, Run, Project, View, Kept, Reads;
    Independent(l, s, accesses, f);
    SingleProgram(DeviceOf(l, s, f), at, c, wait, o, d, l.blkSize, l.wide);
    forall g: nat | g < l.chips && g != f
      ensures DeviceOf(l, Acts(l, s, accesses), g)
           == Run(DeviceOf(l, s, g), Project(accesses, g), l.blkSize, l.wide)
    {
      Independent(l, s, accesses, g);
    }
  }

  // ---- Device accesses ----

  /** A device access of `size` bytes at `a` is so many chip accesses. */
  predicate AccessFits(l: Layout, a: nat, size: nat) {
    && LayoutOk(l)
    && (size == 1 || size == 2 || size == 4 || size == 8)
    && (l.wide ==> size > 1)
    && a + size <= HostSize(l)
  }

  function Units(l: Layout, size: nat): nat {
    if l.wide then size / 2 else size
  }

  /** The address of the `k`-th chip access. */
  function UnitAt(l: Layout, a: nat, k: nat): nat {
    if l.wide then a + 2 * k else a + k
  }

  lemma UnitFits(l: Layout, a: nat, size: nat, k: nat)
    requires AccessFits(l, a, size) && k < Units(l, size)
    ensures ChipOf(l, UnitAt(l, a, k)) < l.chips && CellOf(l, UnitAt(l, a, k)) < l.cells
  {
    IndexOf(l, UnitAt(l, a, k));
  }

  function ReadUnit(l: Layout, a: nat, k: nat): Access {
    Access(ChipOf(l, UnitAt(l, a, k)), Read(CellOf(l, UnitAt(l, a, k))))
  }

  /** The value shifted down for the `k`-th chip access; in byte mode its upper bytes are ignored. */
  function UnitData(l: Layout, data: seq<Byte>, k: nat): Datum
    requires k < Units(l, |data|)
  {
    if l.wide then Datum(data[2 * k], data[2 * k + 1])
    else Datum(if k == 0 then 0 else data[k - 1], data[k])
  }

  function WriteUnit(l: Layout, a: nat, data: seq<Byte>, k: nat): Access
    requires k < Units(l, |data|)
  {
    Access(ChipOf(l, UnitAt(l, a, k)), Write(CellOf(l, UnitAt(l, a, k)), UnitData(l, data, k)))
  }

  function ReadUnits(l: Layout, a: nat, n: nat): (r: seq<Access>)
    ensures |r| == n
  {
    if n == 0 then [] else ReadUnits(l, a, n - 1) + [ReadUnit(l, a, n - 1)]
  }

  function WriteUnits(l: Layout, a: nat, data: seq<Byte>, n: nat): (r: seq<Access>)
    requires n <= Units(l, |data|)
    ensures |r| == n
  {
    if n == 0 then [] else WriteUnits(l, a, data, n - 1) + [WriteUnit(l, a, data, n - 1)]
  }

  lemma {:induction false} ReadsAddressed(l: Layout, a: nat, size: nat, n: nat)
    requires AccessFits(l, a, size) && n <= Units(l, size)
    ensures AllAddressed(l, ReadUnits(l, a, n))
  {
    hide AccessFits, Units, UnitAt, ChipOf, CellOf;
    if n > 0 {
      ReadsAddressed(l, a, size, n - 1);
      UnitFits(l, a, size, n - 1);
    }
  }

  lemma {:induction false} WritesAddressed(l: Layout, a: nat, data: seq<Byte>, n: nat)
    requires AccessFits(l, a, |data|) && n <= Units(l, |data|)
    ensures AllAddressed(l, WriteUnits(l, a, data, n))
  {
    hide AccessFits, Units, UnitAt, ChipOf, CellOf, UnitData;
    if n > 0 {
      WritesAddressed(l, a, data, n - 1);
      UnitFits(l, a, |data|, n - 1);
    }
  }

  function BytesOf(l: Layout, d: Datum): seq<Byte> {
    if l.wide then [d.hi, d.lo] else [d.lo]
  }

  function AnswerOf(l: Layout, s: Flashes, a: Access): Datum
    requires Good(l, s) && Addressed(l, a)
  {
    Answer(s.chips[a.fi], a.op.offset, Load(l, s.host, a.fi, a.op.offset), l.ids)
  }

  /** What a device read of `n` chip accesses returns, most significant byte first. */
  function ReadValue(l: Layout, s: Flashes, a: nat, n: nat): seq<Byte>
    requires Good(l, s) && AllAddressed(l, ReadUnits(l, a, n))
  {
    if n == 0 then []
    else
      ReadsPrefix(l, a, n);
      ReadValue(l, s, a, n - 1)
      + BytesOf(l, AnswerOf(l, Acts(l, s, ReadUnits(l, a, n - 1)), ReadUnit(l, a, n - 1)))
  }

  lemma ReadsPrefix(l: Layout, a: nat, n: nat)
    requires n > 0 && AllAddressed(l, ReadUnits(l, a, n))
    ensures AllAddressed(l, ReadUnits(l, a, n - 1)) && Addressed(l, ReadUnit(l, a, n - 1))
  {
    var (r, p) := (ReadUnits(l, a, n), ReadUnits(l, a, n - 1));
    assert r[n - 1] == ReadUnit(l, a, n - 1);
    assert forall k :: 0 <= k < |p| ==> p[k] == r[k];
  }

  predicate AllInReadArray(s: Flashes) {
    forall f :: 0 <= f < |s.chips| ==> s.chips[f].state == ReadArray
  }

  lemma ActsNext(l: Layout, s: Flashes, p: seq<Access>, u: Access)
    requires Good(l, s) && AllAddressed(l, p) && Addressed(l, u)
    ensures AllAddressed(l, p + [u]) && Acts(l, s, p + [u]) == Act(l, Acts(l, s, p), u)
  {
    hide Act, Good, Addressed;
    assert (p + [u])[..|p + [u]| - 1] == p;
  }

  lemma ReadsNone(l: Layout, s: Flashes, a: nat)
    requires Good(l, s)
    ensures AllAddressed(l, ReadUnits(l, a, 0)) && Acts(l, s, ReadUnits(l, a, 0)) == s && ReadValue(l, s, a, 0) == []
  {
  }

  /** What one byte-mode chip access of a read contributes. */
  lemma ReadByte(l: Layout, s: Flashes, a: nat, size: nat, k: nat)
    requires Good(l, s) && !l.wide && AllInReadArray(s) && AccessFits(l, a, size) && k < size
    ensures var u := ReadUnit(l, a, k);
            && Addressed(l, u) && Act(l, s, u) == s
            && BytesOf(l, AnswerOf(l, s, u)) == [s.host[a + k]]
  {
    hide ChipOf, CellOf, HostSize, Index, Ok, Act;
    IndexOf(l, a + k);
    ReadingActs(l, s, ReadUnit(l, a, k));
  }

  /** With every chip in read-array, a byte-mode read returns the bytes at its address and changes nothing. */
  lemma {:induction false} ReadsTheArray(l: Layout, s: Flashes, a: nat, size: nat, n: nat)
    requires Good(l, s) && !l.wide && AllInReadArray(s) && AccessFits(l, a, size) && n <= size
    ensures AllAddressed(l, ReadUnits(l, a, n))
    ensures Acts(l, s, ReadUnits(l, a, n)) == s && ReadValue(l, s, a, n) == s.host[a..a + n]
  {
    hide AccessFits, HostSize, Ok, Acts, Act, Addressed, AnswerOf, BytesOf, ReadUnit, AllInReadArray;
    FitsHost(l, a, size);
    ReadsAddressed(l, a, size, n) by { UnitsIs(l, size); }
    if n == 0 {
      ReadsNone(l, s, a);
    } else {
      ReadsPrefix(l, a, n);
      ReadsTheArray(l, s, a, size, n - 1);
      ReadByte(l, s, a, size, n - 1);
      ActsNext(l, s, ReadUnits(l, a, n - 1), ReadUnit(l, a, n - 1));
      assert s.host[a..a + n] == s.host[a..a + n - 1] + [s.host[a + n - 1]];
    }
  }

  /** What one chip access of a word-mode read contributes. */
  lemma ReadPair(l: Layout, s: Flashes, a: nat, size: nat, k: nat)
    requires Good(l, s) && l.wide && AllInReadArray(s) && AccessFits(l, a, size) && k < Units(l, size)
    ensures var (u, e) := (ReadUnit(l, a, k), a - a % 2);
            && Addressed(l, u) && Act(l, s, u) == s
            && e + 2 * k + 2 <= |s.host|
            && BytesOf(l, AnswerOf(l, s, u)) == [s.host[e + 2 * k], s.host[e + 2 * k + 1]]
  {
    hide Ok;
    UnitFits(l, a, size, k);
    PairAt(a, k);
    ReadingActs(l, s, ReadUnit(l, a, k));
  }

  lemma PairAt(a: nat, k: nat)
    ensures 2 * ((a + 2 * k) / 2) == a - a % 2 + 2 * k
  {
  }

  /** In word mode it returns the pairs of bytes that hold its address, in order. */
  lemma {:induction false} ReadsTheWords(l: Layout, s: Flashes, a: nat, size: nat, n: nat)
    requires Good(l, s) && l.wide && AllInReadArray(s) && AccessFits(l, a, size) && n <= Units(l, size)
    ensures AllAddressed(l, ReadUnits(l, a, n))
    ensures var e := a - a % 2;
            && e + 2 * n <= |s.host|
            && Acts(l, s, ReadUnits(l, a, n)) == s && ReadValue(l, s, a, n) == s.host[e..e + 2 * n]
  {
    hide Ok, Act, Acts, AnswerOf, BytesOf, ReadUnit, AllInReadArray, Units, HostSize, Good, Addressed, AllAddressed;
    var e := a - a % 2;
    FitsHostOf(l, s, a, size);
    if n == 0 {
      ReadsNone(l, s, a);
    } else {
      var u := ReadUnit(l, a, n - 1);
      ReadsTheWords(l, s, a, size, n - 1);
      ReadPair(l, s, a, size, n - 1);
      ActsNext(l, s, ReadUnits(l, a, n - 1), u);
      PairSplit(s.host, e, n);
    }
  }

  lemma FitsHostOf(l: Layout, s: Flashes, a: nat, size: nat)
    requires Good(l, s) && AccessFits(l, a, size)
    ensures a + size <= |s.host|
  {
  }

  lemma PairSplit(b: seq<Byte>, e: nat, n: nat)
    requires n > 0 && e + 2 * n <= |b|
    ensures b[e..e + 2 * n] == b[e..e + 2 * (n - 1)] + [b[e + 2 * (n - 1)], b[e + 2 * (n - 1) + 1]]
  {
  }

  /** The datum of a single program in word mode lies in the array most significant byte first. */
  lemma WordStoredWide(l: Layout, s: Flashes, a: nat, data: seq<Byte>)
    requires Good(l, s) && l.wide && AccessFits(l, a, 2) && |data| == 2 && s.chips[0].state == Program
    ensures AllAddressed(l, WriteUnits(l, a, data, 1))
    ensures var (r, e) := (Acts(l, s, WriteUnits(l, a, data, 1)), a - a % 2);
            && e + 2 <= |s.host|
            && r.host == s.host[e := data[0]][e + 1 := data[1]]
            && r.chips == [s.chips[0].(state := ProgramDone)]
  {
    hide Ok, Act, Acts, WriteUnit, AccessFits;
    var u := WriteUnit(l, a, data, 0);
    WideUnit(l, a, data);
    FitsHostOf(l, s, a, 2);
    assert WriteUnits(l, a, data, 0) == [];
    assert WriteUnits(l, a, data, 1) == [u];
    assert [] + [u] == [u];
    ActsNone(l, s);
    ActsNext(l, s, [], u);
    StoringActs(l, s, u);
  }

  lemma WideUnit(l: Layout, a: nat, data: seq<Byte>)
    requires l.wide && AccessFits(l, a, 2) && |data| == 2
    ensures var u := WriteUnit(l, a, data, 0);
            && Addressed(l, u) && u.fi == 0 && 2 * u.op.offset == a - a % 2
            && u.op == Write(u.op.offset, Datum(data[0], data[1]))
  {
    UnitFits(l, a, 2, 0);
    PairAt(a, 0);
  }

  lemma ActsNone(l: Layout, s: Flashes)
    requires Good(l, s)
    ensures AllAddressed(l, []) && Acts(l, s, []) == s
  {
  }

  lemma StoringActs(l: Layout, s: Flashes, u: Access)
    requires Good(l, s) && l.wide && Addressed(l, u) && u.op.Write? && s.chips[0].state == Program
    ensures var (r, e) := (Act(l, s, u), 2 * u.op.offset);
            && e + 2 <= |s.host|
            && r.host == s.host[e := u.op.d.hi][e + 1 := u.op.d.lo]
            && r.chips == [s.chips[0].(state := ProgramDone)]
  {
    hide Ok;
    SavesFew(l, s.host, 0, Put(u.op.offset, u.op.d));
  }

  lemma UnitsIs(l: Layout, size: nat)
    requires !l.wide
    ensures Units(l, size) == size
  {
  }

  lemma FitsHost(l: Layout, a: nat, size: nat)
    requires AccessFits(l, a, size)
    ensures a + size <= HostSize(l)
  {
  }

  lemma ReadingActs(l: Layout, s: Flashes, u: Access)
    requires Good(l, s) && Addressed(l, u) && u.op.Read? && s.chips[u.fi].state == ReadArray
    ensures Act(l, s, u) == s
  {
    assert SaveAll(l, s.host, u.fi, []) == s.host;
    assert s.chips[u.fi := s.chips[u.fi]] == s.chips;
  }

  lemma SavesFew(l: Layout, host: seq<Byte>, fi: nat, p: Put)
    requires HostOk(l, host) && fi < l.chips && p.offset < l.cells
    ensures SaveAll(l, host, fi, []) == host
    ensures SaveAll(l, host, fi, [p]) == Save(l, host, fi, p.offset, p.d)
  {
    assert [p][..0] == [];
  }

  // ---- Word by word ----

  /** A device access that reaches each chip with one byte, in byte mode. */
  datatype Word = ReadWord(cell: nat) | WriteWord(cell: nat, data: seq<Byte>)

  predicate WordFits(l: Layout, w: Word) {
    w.cell < l.cells && (w.WriteWord? ==> |w.data| == l.chips)
  }

  predicate WordsFit(l: Layout, ws: seq<Word>) {
    forall k :: 0 <= k < |ws| ==> WordFits(l, ws[k])
  }

  /** The first `n` chip accesses of a word; `Read` and `Write` perform them at the address of its cell on chip 0. */
  function SomeUnits(l: Layout, w: Word, n: nat): seq<Access>
    requires LayoutOk(l) && !l.wide && WordFits(l, w) && n <= l.chips
  {
    match w
    case ReadWord(cell) => ReadUnits(l, Index(l, 0, cell), n)
    case WriteWord(cell, data) => WriteUnits(l, Index(l, 0, cell), data, n)
  }

  function AllWordUnits(l: Layout, ws: seq<Word>): seq<Access>
    requires LayoutOk(l) && !l.wide && WordsFit(l, ws)
    decreases ws
  {
    if ws == [] then [] else AllWordUnits(l, ws[..|ws| - 1]) + SomeUnits(l, ws[|ws| - 1], l.chips)
  }

  /** What chip `f` sees of a word: of one written, its own byte with the one before it above. */
  function LaneOp(l: Layout, w: Word, f: nat): (op: Op)
    requires !l.wide && WordFits(l, w) && f < l.chips
    ensures op.offset == w.cell && (op.Write? <==> w.WriteWord?)
    ensures op.Write? ==> op.d.lo == w.data[f]
  {
    match w
    case ReadWord(cell) => Read(cell)
    case WriteWord(cell, data) => Write(cell, UnitData(l, data, f))
  }

  function Lane(l: Layout, ws: seq<Word>, f: nat): (ops: seq<Op>)
    requires !l.wide && WordsFit(l, ws) && f < l.chips
    ensures |ops| == |ws|
    ensures forall k :: 0 <= k < |ws| ==> ops[k] == LaneOp(l, ws[k], f)
  {
    if ws == [] then []
    else
      var (init, last) := (ws[..|ws| - 1], ws[|ws| - 1]);
      Lane(l, init, f) + [LaneOp(l, last, f)]
  }

  lemma {:induction false} ProjectAppend(a: seq<Access>, b: seq<Access>, f: nat)
    ensures Project(a + b, f) == Project(a, f) + Project(b, f)
    decreases b
  {
    if b == [] {
      assert a + b == a;
    } else {
      assert (a + b)[..|a + b| - 1] == a + b[..|b| - 1];
      ProjectAppend(a, b[..|b| - 1], f);
    }
  }

  lemma OfTwo(o: nat, k: nat)
    requires k < 2
    ensures (2 * o + k) % 2 == k && (2 * o + k) / 2 == o
  {
  }

  lemma OfFour(o: nat, k: nat)
    requires k < 4
    ensures (4 * o + k) % 4 == k && (4 * o + k) / 4 == o
  {
  }

  /** The `k`-th unit at the address of a cell on chip 0 is that cell of chip `k`. */
  lemma UnitLands(l: Layout, cell: nat, k: nat)
    requires LayoutOk(l) && !l.wide && k < l.chips
    ensures var u := UnitAt(l, Index(l, 0, cell), k); ChipOf(l, u) == k && CellOf(l, u) == cell
  {
    if l.chips == 2 {
      OfTwo(cell, k);
    } else if l.chips == 4 {
      OfFour(cell, k);
    }
  }

  lemma UnitsNext(l: Layout, w: Word, n: nat)
    requires LayoutOk(l) && !l.wide && WordFits(l, w) && n < l.chips
    ensures SomeUnits(l, w, 0) == []
    ensures SomeUnits(l, w, n + 1) == SomeUnits(l, w, n) + [Access(n, LaneOp(l, w, n))]
  {
    hide UnitData, UnitAt, ChipOf, CellOf, Index;
    UnitLands(l, w.cell, n);
  }

  lemma ProjectOne(u: Access, f: nat)
    ensures Project([], f) == []
    ensures Project([u], f) == if u.fi == f then [u.op] else []
  {
    assert [u][..0] == [];
    assert Project([], f) == [];
  }

  lemma {:induction false} UnitsProject(l: Layout, w: Word, n: nat, f: nat)
    requires LayoutOk(l) && !l.wide && WordFits(l, w) && n <= l.chips && f < l.chips
    ensures Project(SomeUnits(l, w, n), f) == if f < n then [LaneOp(l, w, f)] else []
  {
    hide SomeUnits, LaneOp, Project, LayoutOk;
    if n == 0 {
      UnitsNext(l, w, 0);
      ProjectOne(Access(f, Read(0)), f);
    } else {
      var u := Access(n - 1, LaneOp(l, w, n - 1));
      UnitsProject(l, w, n - 1, f);
      UnitsNext(l, w, n - 1);
      ProjectAppend(SomeUnits(l, w, n - 1), [u], f);
      ProjectOne(u, f);
    }
  }

  /** Each chip receives one access for each word, a write of its own byte or a read. */
  lemma {:induction false} WordsProject(l: Layout, ws: seq<Word>, f: nat)
    requires LayoutOk(l) && !l.wide && WordsFit(l, ws) && f < l.chips
    ensures Project(AllWordUnits(l, ws), f) == Lane(l, ws, f)
    decreases ws
  {
    hide LayoutOk, WordFits, LaneOp, Project, SomeUnits;
    if ws != [] {
      var (init, last) := (ws[..|ws| - 1], ws[|ws| - 1]);
      WordsProject(l, init, f);
      UnitsProject(l, last, l.chips, f);
      ProjectAppend(AllWordUnits(l, init), SomeUnits(l, last, l.chips), f);
    } else {
      ProjectOne(Access(f, Read(0)), f);
    }
  }

  lemma AddressedAppend(l: Layout, a: seq<Access>, b: seq<Access>)
    requires AllAddressed(l, a) && AllAddressed(l, b)
    ensures AllAddressed(l, a + b)
  {
  }

  lemma NoneAddressed(l: Layout)
    ensures AllAddressed(l, [])
  {
  }

  lemma OneAddressed(l: Layout, u: Access)
    requires Addressed(l, u)
    ensures AllAddressed(l, [u])
  {
  }

  lemma {:induction false} WordAddressed(l: Layout, w: Word, n: nat)
    requires LayoutOk(l) && !l.wide && WordFits(l, w) && n <= l.chips
    ensures AllAddressed(l, SomeUnits(l, w, n))
  {
    hide SomeUnits, AllAddressed;
    if n == 0 {
      UnitsNext(l, w, 0);
      NoneAddressed(l);
    } else {
      var u := Access(n - 1, LaneOp(l, w, n - 1));
      UnitsNext(l, w, n - 1);
      WordAddressed(l, w, n - 1);
      OneAddressed(l, u);
      AddressedAppend(l, SomeUnits(l, w, n - 1), [u]);
    }
  }

  lemma {:induction false} WordsAddressed(l: Layout, ws: seq<Word>)
    requires LayoutOk(l) && !l.wide && WordsFit(l, ws)
    ensures AllAddressed(l, AllWordUnits(l, ws))
    decreases ws
  {
    hide AllAddressed, SomeUnits;
    if ws == [] {
      NoneAddressed(l);
    } else {
      var (init, last) := (ws[..|ws| - 1], ws[|ws| - 1]);
      WordsAddressed(l, init);
      WordAddressed(l, last, l.chips);
      AddressedAppend(l, AllWordUnits(l, init), SomeUnits(l, last, l.chips));
    }
  }

  lemma {:induction false} LaneAppend(l: Layout, a: seq<Word>, b: seq<Word>, f: nat)
    requires !l.wide && WordsFit(l, a) && WordsFit(l, b) && f < l.chips
    ensures WordsFit(l, a + b) && Lane(l, a + b, f) == Lane(l, a, f) + Lane(l, b, f)
  {
    hide LaneOp, WordFits;
    var (ops, all) := (Lane(l, a + b, f), Lane(l, a, f) + Lane(l, b, f));
    forall k | 0 <= k < |ops|
      ensures ops[k] == all[k]
    {
      assert ops[k] == LaneOp(l, (a + b)[k], f);
    }
  }

  lemma LaneOne(l: Layout, w: Word, f: nat)
    requires !l.wide && WordFits(l, w) && f < l.chips
    ensures WordsFit(l, [w]) && Lane(l, [w], f) == [LaneOp(l, w, f)]
  {
    hide LaneOp, WordFits;
    assert Lane(l, [w], f)[0] == LaneOp(l, w, f);
  }

  /** The words written to the window, in order. */
  function WordHits(ws: seq<Word>, base: nat, n: nat): (h: seq<Word>)
    ensures forall k :: 0 <= k < |h| ==> h[k].WriteWord? && h[k] in ws
    decreases ws
  {
    if ws == [] then []
    else
      var (h, w) := (WordHits(ws[..|ws| - 1], base, n), ws[|ws| - 1]);
      if w.WriteWord? && base <= w.cell < base + n then h + [w] else h
  }

  lemma HitsFit(l: Layout, ws: seq<Word>, base: nat, n: nat)
    requires WordsFit(l, ws)
    ensures WordsFit(l, WordHits(ws, base, n))
  {
  }

  /** Chip `f` is hit by exactly these, each with its own byte. */
  lemma {:induction false} LaneHits(l: Layout, ws: seq<Word>, f: nat, base: nat, n: nat)
    requires !l.wide && WordsFit(l, ws) && f < l.chips
    ensures var (h, g) := (WordHits(ws, base, n), Hits(Lane(l, ws, f), base, n));
            && WordsFit(l, h) && |g| == |h|
            && forall k :: 0 <= k < |h| ==> g[k] == Put(h[k].cell, LaneOp(l, h[k], f).d)
    decreases ws
  {
    hide LaneOp, WordFits, Hits;
    HitsFit(l, ws, base, n);
    if ws == [] {
      NoHits(base, n);
    } else {
      LaneHits(l, ws[..|ws| - 1], f, base, n);
      var ops := Lane(l, ws, f);
      assert ops[..|ops| - 1] == Lane(l, ws[..|ws| - 1], f);
      HitsStep(ops, base, n);
    }
  }

  lemma NoHits(base: nat, n: nat)
    ensures Hits([], base, n) == []
  {
  }

  /**
   * A buffered program by words: command, reads, count, any words of which the
   * last one completes the window, reads, and one more word that decides.
   */
  datatype WordBuffering =
    WordBuffering(cmd: Word, wait: seq<Word>, count: Word, fill: seq<Word>, rest: seq<Word>, last: Word)

  function WordsOf(b: WordBuffering): seq<Word> {
    [b.cmd] + b.wait + [b.count] + b.fill + b.rest + [b.last]
  }

  predicate PartsFit(l: Layout, b: WordBuffering) {
    && WordFits(l, b.cmd) && WordFits(l, b.count) && WordFits(l, b.last)
    && WordsFit(l, b.wait) && WordsFit(l, b.fill) && WordsFit(l, b.rest)
    && b.cmd.WriteWord? && b.count.WriteWord? && b.last.WriteWord?
  }

  predicate ReadsOnly(ws: seq<Word>) {
    forall k :: 0 <= k < |ws| ==> ws[k].ReadWord?
  }

  predicate DistinctCells(ws: seq<Word>) {
    forall j, k :: 0 <= j < k < |ws| ==> ws[j].cell != ws[k].cell
  }

  /** The words that fill the window of `n` cells. */
  function Window(b: WordBuffering, n: nat): seq<Word> {
    WordHits(b.fill, b.cmd.cell, n)
  }

  /** Command and count are the same for every chip, and each of the `n` cells of the window is written once. */
  predicate WordProgram(l: Layout, b: WordBuffering, n: nat) {
    && PartsFit(l, b) && ReadsOnly(b.wait) && ReadsOnly(b.rest)
    && (forall f :: 0 <= f < l.chips ==> b.cmd.data[f] == 0xe8 && CountIn(b.count.data[f]) == n)
    && |Window(b, n)| == n && DistinctCells(Window(b, n))
    && b.fill != [] && EndsWindow(b.fill[|b.fill| - 1], b.cmd.cell, n)
  }

  predicate EndsWindow(w: Word, base: nat, n: nat) {
    w.WriteWord? && base <= w.cell < base + n
  }

  function BufferingOf(l: Layout, b: WordBuffering, f: nat): Buffering
    requires !l.wide && f < l.chips && PartsFit(l, b)
  {
    Buffering(b.cmd.cell, LaneOp(l, b.cmd, f).d, Lane(l, b.wait, f), b.count.cell, LaneOp(l, b.count, f).d,
              Lane(l, b.fill, f), Lane(l, b.rest, f))
  }

  /** What one chip receives is a buffered program of its own bytes. */
  lemma LaneOpens(l: Layout, b: WordBuffering, n: nat, f: nat)
    requires LayoutOk(l) && !l.wide && f < l.chips && WordProgram(l, b, n)
    ensures WordsFit(l, Window(b, n))
    ensures var (c, h) := (BufferingOf(l, b, f), Window(b, n));
            && WellFormed(c) && FlashChip.Size(c) == n && |Filler(c)| == n && Distinct(Filler(c))
            && (forall k :: 0 <= k < n ==> Filler(c)[k] == Put(h[k].cell, LaneOp(l, h[k], f).d))
  {
    hide CountIn, WordsFit, WordFits, LaneOp, Hits, Filler, WordHits;
    LaneHits(l, b.fill, f, b.cmd.cell, n);
    var c := BufferingOf(l, b, f);
    LaneReads(l, b.wait, f);
    LaneReads(l, b.rest, f);
    LaneLast(l, b.fill, f);
    FillerIs(c);
  }

  lemma LaneReads(l: Layout, ws: seq<Word>, f: nat)
    requires !l.wide && WordsFit(l, ws) && f < l.chips && ReadsOnly(ws)
    ensures Reads(Lane(l, ws, f))
  {
    hide LaneOp, WordFits;
  }

  lemma LaneLast(l: Layout, ws: seq<Word>, f: nat)
    requires !l.wide && WordsFit(l, ws) && f < l.chips && ws != []
    ensures var ops := Lane(l, ws, f); |ops| > 0 && ops[|ops| - 1] == LaneOp(l, ws[|ws| - 1], f)
  {
    hide LaneOp, WordFits;
  }

  lemma FillerIs(c: Buffering)
    ensures Filler(c) == Hits(c.fill, c.base, FlashChip.Size(c))
  {
  }

  lemma LaneOf(l: Layout, b: WordBuffering, f: nat)
    requires !l.wide && f < l.chips && PartsFit(l, b)
    ensures WordsFit(l, WordsOf(b))
    ensures Lane(l, WordsOf(b), f) == Opening(BufferingOf(l, b, f)) + [LaneOp(l, b.last, f)]
  {
    hide LaneOp, WordFits, Lane, WordsFit;
    LaneOne(l, b.cmd, f);
    LaneOne(l, b.count, f);
    LaneOne(l, b.last, f);
    LaneAppend(l, [b.cmd], b.wait, f);
    LaneAppend(l, [b.cmd] + b.wait, [b.count], f);
    LaneAppend(l, [b.cmd] + b.wait + [b.count], b.fill, f);
    LaneAppend(l, [b.cmd] + b.wait + [b.count] + b.fill, b.rest, f);
    LaneAppend(l, [b.cmd] + b.wait + [b.count] + b.fill + b.rest, [b.last], f);
  }

  predicate AllReady(s: Flashes) {
    forall f :: 0 <= f < |s.chips| ==> Ready(s.chips[f])
  }

  lemma HasParts(l: Layout, b: WordBuffering, n: nat)
    requires LayoutOk(l) && !l.wide && WordProgram(l, b, n)
    ensures PartsFit(l, b) && WordsFit(l, WordsOf(b)) && |Window(b, n)| == n && WordsFit(l, Window(b, n))
  {
    hide WordsFit, WordFits, WordsOf, WordHits;
    LaneOf(l, b, 0);
    HitsFit(l, b.fill, b.cmd.cell, n);
  }

  /** The program as chip `f` sees it. */
  lemma WordsOnChip(l: Layout, s: Flashes, b: WordBuffering, n: nat, f: nat)
    requires Good(l, s) && !l.wide && f < l.chips && AllReady(s)
    requires WordProgram(l, b, n) && b.cmd.cell + n <= l.cells
    ensures PartsFit(l, b) && WordsFit(l, WordsOf(b)) && AllAddressed(l, AllWordUnits(l, WordsOf(b)))
    ensures var (r, c) := (Acts(l, s, AllWordUnits(l, WordsOf(b))), BufferingOf(l, b, f));
            && r.chips[f].state == ReadArray
            && (b.last.data[f] != CONFIRM ==> View(l, r.host, f) == View(l, s.host, f))
            && (b.last.data[f] == CONFIRM ==> ProgrammedIn(l, s, r, f, b.cmd.cell, n, Filler(c)))
  {
    hide Acts, Ok, Distinct, Filler, FlashChip.Size, Opening, WellFormed, Run, Project, View, ProgrammedIn, WordProgram;
    hide Ready, HostSize, AllWordUnits, WordFits, WordsFit, WordsOf, Lane, AllAddressed, LaneOp;
    HasParts(l, b, n);
    WordsAddressed(l, WordsOf(b));
    WordsProject(l, WordsOf(b), f);
    LaneOpens(l, b, n, f);
    LaneOf(l, b, f);
    var last := LaneOp(l, b.last, f);
    InterleavedProgram(l, s, AllWordUnits(l, WordsOf(b)), f, BufferingOf(l, b, f), last.offset, last.d);
  }

  lemma HostAt(l: Layout, host: seq<Byte>, f: nat, o: nat)
    requires HostOk(l, host) && !l.wide && f < l.chips && o < l.cells
    ensures Index(l, f, o) < |host| && View(l, host, f)[o] == Datum(0, host[Index(l, f, o)])
  {
    IndexFits(l, f, o);
  }

  /**
   * Word by word. Every device access reaches all the chips, a write with one
   * byte for each. After the window is completed and one more word written, each
   * chip whose byte of that word confirms holds its bytes of the window; every
   * other byte of the array is as it was.
   */
  lemma WordsProgrammed(l: Layout, s: Flashes, b: WordBuffering, n: nat)
    requires Good(l, s) && !l.wide && AllReady(s)
    requires WordProgram(l, b, n) && b.cmd.cell + n <= l.cells
    ensures WordsFit(l, WordsOf(b)) && AllAddressed(l, AllWordUnits(l, WordsOf(b)))
    ensures AllInReadArray(Acts(l, s, AllWordUnits(l, WordsOf(b))))
    ensures forall f: nat, k: nat :: f < l.chips && k < n ==> WordStored(l, s, b, n, f, k)
    ensures forall i: nat :: i < |s.host| ==> OthersKept(l, s, b, n, i)
  {
    hide Acts, ProgrammedIn, WordProgram, AllWordUnits, WordsOf, AllAddressed, WordsFit, WordFits, AllReady, WordStored;
    hide OthersKept, LayoutOk, HostSize;
    HasParts(l, b, n);
    WordsAddressed(l, WordsOf(b));
    forall f: nat | f < l.chips
      ensures Acts(l, s, AllWordUnits(l, WordsOf(b))).chips[f].state == ReadArray
    {
      WordsOnChip(l, s, b, n, f);
    }
    forall f: nat, k: nat | f < l.chips && k < n
      ensures WordStored(l, s, b, n, f, k)
    {
      StoredWord(l, s, b, n, f, k);
    }
    forall i: nat | i < |s.host|
      ensures OthersKept(l, s, b, n, i)
    {
      KeptByte(l, s, b, n, i);
    }
  }

  /** Byte `f` of the `k`-th word of the window, if it was confirmed. */
  ghost predicate WordStored(l: Layout, s: Flashes, b: WordBuffering, n: nat, f: nat, k: nat)
    requires Good(l, s) && !l.wide && WordProgram(l, b, n) && f < l.chips && k < n
    requires WordsFit(l, WordsOf(b)) && AllAddressed(l, AllWordUnits(l, WordsOf(b)))
  {
    HasParts(l, b, n);
    var (r, w) := (Acts(l, s, AllWordUnits(l, WordsOf(b))), Window(b, n)[k]);
    var i := Index(l, f, w.cell);
    b.last.data[f] == CONFIRM ==> i < |r.host| && r.host[i] == w.data[f]
  }

  /** Byte `i` of the array is as before, unless it is in the window of a chip that was confirmed. */
  ghost predicate OthersKept(l: Layout, s: Flashes, b: WordBuffering, n: nat, i: nat)
    requires Good(l, s) && !l.wide && WordProgram(l, b, n) && i < |s.host|
    requires WordsFit(l, WordsOf(b)) && AllAddressed(l, AllWordUnits(l, WordsOf(b)))
  {
    var (r, f, o) := (Acts(l, s, AllWordUnits(l, WordsOf(b))), ChipOf(l, i), CellOf(l, i));
    ChipExists(l, i);
    r.host[i] != s.host[i] ==> b.last.data[f] == CONFIRM && b.cmd.cell <= o < b.cmd.cell + n
  }

  lemma StoredWord(l: Layout, s: Flashes, b: WordBuffering, n: nat, f: nat, k: nat)
    requires Good(l, s) && !l.wide && AllReady(s) && f < l.chips && k < n
    requires WordProgram(l, b, n) && b.cmd.cell + n <= l.cells
    requires WordsFit(l, WordsOf(b)) && AllAddressed(l, AllWordUnits(l, WordsOf(b)))
    ensures WordStored(l, s, b, n, f, k)
  {
    hide Acts, WordProgram, AllWordUnits, WordsOf, AllAddressed, AllReady, HostSize, LayoutOk, Index, View, LaneOp;
    hide BufferingOf, Filler, Hit, Window;
    HasParts(l, b, n);
    var (r, w) := (Acts(l, s, AllWordUnits(l, WordsOf(b))), Window(b, n)[k]);
    if b.last.data[f] == CONFIRM {
      WordsOnChip(l, s, b, n, f);
      LaneOpens(l, b, n, f);
      WindowWrites(b, n, k);
      assert Filler(BufferingOf(l, b, f))[k] == Put(w.cell, LaneOp(l, w, f).d);
      HostAt(l, r.host, f, w.cell);
    }
  }

  lemma WindowWrites(b: WordBuffering, n: nat, k: nat)
    requires k < |Window(b, n)|
    ensures Window(b, n)[k].WriteWord?
  {
  }

  lemma KeptByte(l: Layout, s: Flashes, b: WordBuffering, n: nat, i: nat)
    requires Good(l, s) && !l.wide && AllReady(s) && i < |s.host|
    requires WordProgram(l, b, n) && b.cmd.cell + n <= l.cells
    requires WordsFit(l, WordsOf(b)) && AllAddressed(l, AllWordUnits(l, WordsOf(b)))
    ensures OthersKept(l, s, b, n, i)
  {
    hide Acts, WordProgram, AllWordUnits, WordsOf, AllAddressed, AllReady, HostSize, LayoutOk, Index, View, LaneOp;
    hide BufferingOf, Filler, Hit, ChipOf, CellOf, Window;
    ChipExists(l, i);
    IndexOf(l, i);
    HasParts(l, b, n);
    var (r, f, o) := (Acts(l, s, AllWordUnits(l, WordsOf(b))), ChipOf(l, i), CellOf(l, i));
    WordsOnChip(l, s, b, n, f);
    HostAt(l, r.host, f, o);
    HostAt(l, s.host, f, o);
  }

  class FlashSet {
    const layout: Layout
    const host: array<Byte>
    const flash: array<Chip>

    ghost predicate Valid()
      reads this, host, flash
    {
      && LayoutOk(layout)
      && host.Length == HostSize(layout)
      && flash.Length == layout.chips
      && (host as object) != flash
      && forall f :: 0 <= f < flash.Length ==> Ok(flash[f])
    }

    ghost function State(): (s: Flashes)
      requires Valid()
      reads this, host, flash
      ensures Good(layout, s)
    {
      Flashes(flash[..], host[..])
    }

    constructor (l: Layout, image: seq<Byte>)
      requires LayoutOk(l) && |image| == HostSize(l)
      ensures Valid() && layout == l && host[..] == image
      ensures AllInReadArray(State())
      ensures fresh(host) && fresh(flash)
    {
      layout := l;
      host := new Byte[|image|](i requires 0 <= i < |image| => image[i]);
      flash := new Chip[l.chips](_ => FRESH);
      new;
      assert host[..] == image;
    }

    method FlashRead(fi: nat, o: nat) returns (d: Datum)
      requires Valid() && fi < layout.chips && o < layout.cells
      ensures d == Load(layout, host[..], fi, o)
    {
      IndexFits(layout, fi, o);
      var i := Index(layout, fi, o);
      if layout.wide {
        d := Datum(host[i], host[i + 1]);
      } else {
        d := Datum(0, host[i]);
      }
    }

    method FlashWrite(fi: nat, o: nat, d: Datum)
      requires Valid() && fi < layout.chips && o < layout.cells
      modifies host
      ensures Valid() && host[..] == Save(layout, old(host[..]), fi, o, d)
    {
      IndexFits(layout, fi, o);
      var i := Index(layout, fi, o);
      if layout.wide {
        host[i] := d.hi;
        host[i + 1] := d.lo;
      } else {
        host[i] := d.lo;
      }
    }

    method FlashCmd(fi: nat, offset: nat, cmd: Byte)
      requires Valid() && fi < layout.chips
      modifies flash
      ensures Valid() && flash[..] == old(flash[..])[fi := Command(old(flash[fi]), offset, cmd)]
    {
      var d := flash[fi];
      if cmd == 0x40 || cmd == 0x10 {
        d := d.(state := Program);
      } else if cmd == 0xe8 {
        d := d.(state := BufCount, wbOffset := offset, wbCount := 0, wbRemain := 0);
      } else if cmd == 0x70 {
        d := d.(state := ReadStatus);
      } else if cmd == 0x50 || cmd == 0xff {
        d := d.(state := ReadArray);
      } else if cmd == 0x90 {
        d := d.(state := ReadId);
      } else if cmd == 0x20 {
        d := d.(state := Erase);
      }
      flash[fi] := d;
    }

    /** Write cells one after the other: the buffer's, or a block of ones. */
    method WriteCells(fi: nat, puts: seq<Put>)
      requires Valid() && fi < layout.chips
      requires forall k :: 0 <= k < |puts| ==> puts[k].offset < layout.cells
      modifies host
      ensures Valid() && host[..] == SaveAll(layout, old(host[..]), fi, puts)
    {
      hide Save, HostSize;
      for i := 0 to |puts|
        invariant Valid() && host[..] == SaveAll(layout, old(host[..]), fi, puts[..i])
      {
        assert puts[..i + 1][..i] == puts[..i];
        FlashWrite(fi, puts[i].offset, puts[i].d);
      }
      assert puts[..|puts|] == puts;
    }

    /** `flash_access`, reading. */
    method FlashAccessRead(fi: nat, offset: nat) returns (data: Datum)
      requires Valid() && Addressed(layout, Access(fi, FlashChip.Op.Read(offset)))
      modifies flash
      ensures Valid() && flash[..] == old(flash[..])[fi := Next(old(flash[fi]), FlashChip.Op.Read(offset))]
      ensures data == Answer(old(flash[fi]), offset, Load(layout, host[..], fi, offset), layout.ids)
    {
      hide Load, HostSize;
      data := Datum(0, 0);
      match flash[fi].state
      case ReadArray =>
        data := FlashRead(fi, offset);
      case ReadId =>
        if offset == 0 {
          data := Datum(0, layout.ids.manufacturer);
        } else if offset == 1 {
          data := Datum(0, layout.ids.device);
        }
      case ReadStatus =>
        data := BUSY_DONE;
        flash[fi] := flash[fi].(state := ReadArray);
      case Program =>
      case _ =>
        data := BUSY_DONE;
    }

    /** A write to the buffer's window, and the end of the fill. */
    method FillBuffer(fi: nat, offset: nat, d: Datum)
      requires Valid() && fi < layout.chips && flash[fi].state == BufData
      modifies flash
      ensures Valid()
      ensures flash[..] == old(flash[..])[fi := Next(old(flash[fi]), FlashChip.Op.Write(offset, d))]
    {
      hide HostSize;
      var c := flash[fi];
      if c.wbOffset <= offset < c.wbOffset + c.wbCount {
        c := c.(wbuf := c.wbuf[offset - c.wbOffset := d], wbRemain := c.wbRemain - 1);
        if c.wbRemain == 0 {
          c := c.(state := BufConfirm);
        }
        flash[fi] := c;
      }
    }

    /** `flash_access`, writing. */
    method FlashAccessWrite(fi: nat, offset: nat, d: Datum)
      requires Valid() && Addressed(layout, Access(fi, FlashChip.Op.Write(offset, d)))
      requires InRange(layout, State(), Access(fi, FlashChip.Op.Write(offset, d)))
      modifies host, flash
      ensures Valid()
      ensures var (c, op) := (old(flash[fi]), FlashChip.Op.Write(offset, d));
              && flash[..] == old(flash[..])[fi := Next(c, op)]
              && host[..] == SaveAll(layout, old(host[..]), fi, Writes(c, op, layout.blkSize))
    {
      hide Load, Save, Command, CountIn, HostSize, SaveAll, Flush, Fill, Buffered;
      SavesFew(layout, host[..], fi, Put(offset, d));
      match flash[fi].state
      case ReadStatus =>
        flash[fi] := flash[fi].(state := ReadArray);
      case BufCount =>
        flash[fi] := flash[fi].(wbCount := CountIn(d.lo), wbRemain := CountIn(d.lo), state := BufData);
      case BufData =>
        FillBuffer(fi, offset, d);
      case BufConfirm =>
        if d.lo == 0xd0 {
          WriteCells(fi, Flush(flash[fi]));
        }
        flash[fi] := flash[fi].(state := ReadArray);
      case Program =>
        FlashWrite(fi, offset, d);
        flash[fi] := flash[fi].(state := ProgramDone);
      case Erase =>
        if d.lo == 0xd0 {
          WriteCells(fi, Fill(offset, layout.blkSize));
          flash[fi] := flash[fi].(state := EraseDone);
        }
      case _ =>
        FlashCmd(fi, offset, d.lo);
    }

    method FlashAccess(fi: nat, op: Op) returns (data: Datum)
      requires Valid() && Addressed(layout, Access(fi, op)) && InRange(layout, State(), Access(fi, op))
      modifies host, flash
      ensures Valid() && State() == Act(layout, old(State()), Access(fi, op))
      ensures op.Read? ==> data == AnswerOf(layout, old(State()), Access(fi, op))
    {
      hide Load, Next, HostSize, Answer, Ok;
      if op.Read? {
        data := FlashAccessRead(fi, op.offset);
        assert SaveAll(layout, host[..], fi, []) == host[..];
      } else {
        data := op.d;
        FlashAccessWrite(fi, op.offset, op.d);
      }
    }

    /** `dev_bootflash_access` reading: the value's bytes, most significant first. */
    method Read(a: nat, size: nat) returns (data: seq<Byte>)
      requires Valid() && AccessFits(layout, a, size)
      modifies host, flash
      ensures Valid() && AllAddressed(layout, ReadUnits(layout, a, Units(layout, size)))
      ensures State() == Acts(layout, old(State()), ReadUnits(layout, a, Units(layout, size)))
      ensures data == ReadValue(layout, old(State()), a, Units(layout, size))
    {
      hide AccessFits, UnitAt, ChipOf, CellOf, HostSize, Act, AnswerOf, Units, Ok;
      data := [];
      var n := Units(layout, size);
      ghost var s := State();
      ReadsAddressed(layout, a, size, n);
      ReadsAddressed(layout, a, size, 0);
      for k := 0 to n
        invariant Valid() && AllAddressed(layout, ReadUnits(layout, a, k))
        invariant State() == Acts(layout, s, ReadUnits(layout, a, k))
        invariant data == ReadValue(layout, s, a, k)
      {
        ReadsAddressed(layout, a, size, k + 1);
        ReadsPrefix(layout, a, k + 1);
        var u := ReadUnit(layout, a, k);
        assert (ReadUnits(layout, a, k) + [u])[..k] == ReadUnits(layout, a, k);
        var d := FlashAccess(u.fi, u.op);
        data := data + BytesOf(layout, d);
      }
    }

    /** `dev_bootflash_access` writing; no chip may be made to write past its end. */
    method Write(a: nat, data: seq<Byte>)
      requires Valid() && AccessFits(layout, a, |data|)
      requires AllAddressed(layout, WriteUnits(layout, a, data, Units(layout, |data|)))
      requires AllInRange(layout, State(), WriteUnits(layout, a, data, Units(layout, |data|)))
      modifies host, flash
      ensures Valid()
      ensures State() == Acts(layout, old(State()), WriteUnits(layout, a, data, Units(layout, |data|)))
    {
      hide AccessFits, UnitAt, ChipOf, CellOf, HostSize, Act, UnitData, Units, Ok, InRange;
      var n := Units(layout, |data|);
      ghost var s := State();
      WritesAddressed(layout, a, data, 0);
      for k := 0 to n
        invariant Valid() && AllAddressed(layout, WriteUnits(layout, a, data, k))
        invariant State() == Acts(layout, s, WriteUnits(layout, a, data, k))
      {
        WritesAddressed(layout, a, data, k + 1);
        WritesInRange(layout, s, a, data, k + 1, n);
        var u := WriteUnit(layout, a, data, k);
        assert WriteUnits(layout, a, data, k + 1)[k] == u;
        assert (WriteUnits(layout, a, data, k) + [u])[..k] == WriteUnits(layout, a, data, k);
        var _ := FlashAccess(u.fi, u.op);
      }
    }
  }

  lemma {:induction false} WritesInRange(l: Layout, s: Flashes, a: nat, data: seq<Byte>, k: nat, n: nat)
    requires Good(l, s) && AccessFits(l, a, |data|) && k <= n <= Units(l, |data|)
    requires AllAddressed(l, WriteUnits(l, a, data, n)) && AllInRange(l, s, WriteUnits(l, a, data, n))
    ensures AllAddressed(l, WriteUnits(l, a, data, k)) && AllInRange(l, s, WriteUnits(l, a, data, k))
    decreases n - k
  {
    hide AccessFits, Units, Acts, InRange, WriteUnit, Good;
    if k < n {
      WritesAddressed(l, a, data, n - 1);
      var (w, p) := (WriteUnits(l, a, data, n), WriteUnits(l, a, data, n - 1));
      assert w[..n - 1] == p;
      WritesInRange(l, s, a, data, k, n - 1);
    }
  }
}
