/** One flash chip of the bootflash: its command state machine and its cells (common/dev_bootflash.c). */
module FlashChip {
  import opened Bytes

  const BUF_SIZE: nat := 32

  /** What one access carries: a byte in `lo`, or a 16-bit word when the chip is in word mode. */
  datatype Datum = Datum(hi: Byte, lo: Byte)

  /** The second write of a buffered program or of an erase; only the low byte of a datum is a command. */
  const CONFIRM: Byte := 0xd0

  const BUSY_DONE: Datum := Datum(0, 0x80)
  const ERASED: Datum := Datum(0xff, 0xff)

  datatype State =
    | ReadArray | ReadId | ReadStatus
    | BufCount | BufData | BufConfirm
    | Program | ProgramDone
    | Erase | EraseDone

  /** `wbOffset`, `wbCount` and `wbRemain` describe the write buffer's window. */
  datatype Chip = Chip(state: State, wbOffset: nat, wbCount: nat, wbRemain: nat, wbuf: seq<Datum>)

  datatype Op = Read(offset: nat) | Write(offset: nat, d: Datum)

  /** A cell being written. */
  datatype Put = Put(offset: nat, d: Datum)

  predicate Ok(c: Chip) {
    && |c.wbuf| == BUF_SIZE
    && c.wbCount <= BUF_SIZE
    && c.wbRemain <= c.wbCount
    && (c.state == BufData ==> c.wbRemain > 0)
  }

  const FRESH: Chip := Chip(ReadArray, 0, 0, 0, seq(BUF_SIZE, _ => Datum(0, 0)))

  /** `(data & 0x1F) + 1`. */
  function CountIn(b: Byte): (n: nat)
    ensures 1 <= n <= BUF_SIZE
  {
    (if b & 0x10 != 0 then 16 else 0) + NibbleValue(Lo(b)) + 1
  }

  /** `flash_cmd`. */
  function Command(c: Chip, offset: nat, cmd: Byte): Chip {
    if cmd == 0x40 || cmd == 0x10 then c.(state := Program)
    else if cmd == 0xe8 then c.(state := BufCount, wbOffset := offset, wbCount := 0, wbRemain := 0)
    else if cmd == 0x70 then c.(state := ReadStatus)
    else if cmd == 0x50 then c.(state := ReadArray)
    else if cmd == 0x90 then c.(state := ReadId)
    else if cmd == 0x20 then c.(state := Erase)
    else if cmd == 0xff then c.(state := ReadArray)
    else c
  }

  /** The offset lies in the write buffer's window. */
  predicate InWindow(c: Chip, offset: nat) {
    c.wbOffset <= offset < c.wbOffset + c.wbCount
  }

  function Buffered(c: Chip, offset: nat, d: Datum): Chip
    requires Ok(c) && c.state == BufData && InWindow(c, offset)
  {
    c.(wbuf := c.wbuf[offset - c.wbOffset := d],
       wbRemain := c.wbRemain - 1,
       state := if c.wbRemain == 1 then BufConfirm else BufData)
  }

  /** The chip after one access. */
  function Next(c: Chip, op: Op): (n: Chip)
    requires Ok(c)
    ensures Ok(n)
  {
    match op
    case Read(_) => if c.state == ReadStatus then c.(state := ReadArray) else c
    case Write(offset, d) =>
      match c.state
      case ReadArray => Command(c, offset, d.lo)
      case ReadId => Command(c, offset, d.lo)
      case ReadStatus => c.(state := ReadArray)
      case BufCount => c.(wbCount := CountIn(d.lo), wbRemain := CountIn(d.lo), state := BufData)
      case BufData => if InWindow(c, offset) then Buffered(c, offset, d) else c
      case BufConfirm => c.(state := ReadArray)
      case Program => c.(state := ProgramDone)
      case ProgramDone => Command(c, offset, d.lo)
      case Erase => if d.lo == CONFIRM then c.(state := EraseDone) else c
      case EraseDone => Command(c, offset, d.lo)
  }

  function Fill(offset: nat, n: nat): (s: seq<Put>)
    ensures |s| == n
  {
    seq(n, i requires 0 <= i < n => Put(offset + i, ERASED))
  }

  function Flush(c: Chip): seq<Put>
    requires Ok(c)
  {
    seq(c.wbCount, i requires 0 <= i < c.wbCount => Put(c.wbOffset + i, c.wbuf[i]))
  }

  /** The cells one access writes, in order. */
  function Writes(c: Chip, op: Op, blkSize: nat): seq<Put>
    requires Ok(c)
  {
    if op.Read? then []
    else if c.state == Program then [Put(op.offset, op.d)]
    else if c.state == BufConfirm && op.d.lo == CONFIRM then Flush(c)
    else if c.state == Erase && op.d.lo == CONFIRM then Fill(op.offset, blkSize)
    else []
  }

  /** Identifier of the chip: the manufacturer's at offset 0, the device's at offset 1. */
  datatype Ids = Ids(manufacturer: Byte, device: Byte)

  /** What a read returns; `cell` is the addressed cell. */
  function Answer(c: Chip, offset: nat, cell: Datum, ids: Ids): Datum {
    match c.state
    case ReadArray => cell
    case ReadId => Datum(0, if offset == 0 then ids.manufacturer else if offset == 1 then ids.device else 0)
    case Program => Datum(0, 0)
    case _ => BUSY_DONE
  }

  // ---- A chip with its cells ----

  /** A byte-mode cell has no high half. */
  function Kept(d: Datum, wide: bool): Datum {
    if wide then d else Datum(0, d.lo)
  }

  function Stored(cells: seq<Datum>, puts: seq<Put>, wide: bool): (r: seq<Datum>)
    ensures |r| == |cells|
    decreases puts
  {
    if puts == [] then cells
    else
      var (before, last) := (Stored(cells, puts[..|puts| - 1], wide), puts[|puts| - 1]);
      if last.offset < |cells| then before[last.offset := Kept(last.d, wide)] else before
  }

  datatype Device = Device(chip: Chip, cells: seq<Datum>)

  function Step(v: Device, op: Op, blkSize: nat, wide: bool): (r: Device)
    requires Ok(v.chip)
    ensures Ok(r.chip) && |r.cells| == |v.cells|
  {
    Device(Next(v.chip, op), Stored(v.cells, Writes(v.chip, op, blkSize), wide))
  }

  function Run(v: Device, ops: seq<Op>, blkSize: nat, wide: bool): (r: Device)
    requires Ok(v.chip)
    ensures Ok(r.chip) && |r.cells| == |v.cells|
    decreases ops
  {
    if ops == [] then v
    else Step(Run(v, ops[..|ops| - 1], blkSize, wide), ops[|ops| - 1], blkSize, wide)
  }

  lemma {:induction false} RunAppend(v: Device, a: seq<Op>, b: seq<Op>, blkSize: nat, wide: bool)
    requires Ok(v.chip)
    ensures Run(v, a + b, blkSize, wide) == Run(Run(v, a, blkSize, wide), b, blkSize, wide)
    decreases b
  {
    hide Step, Ok;
    if b == [] {
      assert a + b == a;
    } else {
      assert (a + b)[..|a + b| - 1] == a + b[..|b| - 1];
      RunAppend(v, a, b[..|b| - 1], blkSize, wide);
    }
  }

  lemma RunOne(v: Device, op: Op, blkSize: nat, wide: bool)
    requires Ok(v.chip)
    ensures Run(v, [op], blkSize, wide) == Step(v, op, blkSize, wide)
  {
    hide Step, Ok;
    assert [op][..0] == [];
    assert Run(v, [], blkSize, wide) == v;
  }

  // ---- Which cells a list of writes changes ----

  lemma {:induction false} StoredElsewhere(cells: seq<Datum>, puts: seq<Put>, wide: bool, o: nat)
    requires o < |cells|
    requires forall k :: 0 <= k < |puts| ==> puts[k].offset != o
    ensures Stored(cells, puts, wide)[o] == cells[o]
    decreases puts
  {
    hide Kept;
    if puts != [] {
      var init := puts[..|puts| - 1];
      assert forall k :: 0 <= k < |init| ==> init[k] == puts[k];
      StoredElsewhere(cells, init, wide, o);
    }
  }

  /** The last write to a cell stays. */
  lemma {:induction false} StoredLast(cells: seq<Datum>, puts: seq<Put>, wide: bool, k: nat)
    requires k < |puts| && puts[k].offset < |cells|
    requires forall j :: k < j < |puts| ==> puts[j].offset != puts[k].offset
    ensures Stored(cells, puts, wide)[puts[k].offset] == Kept(puts[k].d, wide)
    decreases puts
  {
    hide Kept;
    if k < |puts| - 1 {
      var init := puts[..|puts| - 1];
      assert init[k] == puts[k];
      StoredLast(cells, init, wide, k);
    }
  }

  /** A step changes the array only while programming, confirming a buffer, or confirming an erase. */
  lemma OnlyProgramming(v: Device, op: Op, blkSize: nat, wide: bool)
    requires Ok(v.chip)
    requires op.Write? ==> v.chip.state != Program && !(v.chip.state in {BufConfirm, Erase} && op.d.lo == CONFIRM)
    ensures Step(v, op, blkSize, wide).cells == v.cells
  {
    hide Ok;
  }

  // ---- The buffered program ----

  /** Cell `o` after the window has been filled with `buf`. */
  lemma FlushIs(v: Device, blkSize: nat, wide: bool, at: nat, d: Datum)
    requires Ok(v.chip) && v.chip.state == BufConfirm && d.lo == CONFIRM
    requires v.chip.wbOffset + v.chip.wbCount <= |v.cells|
    ensures var (r, c) := (Step(v, Write(at, d), blkSize, wide), v.chip);
            && r.chip.state == ReadArray
            && (forall i :: 0 <= i < c.wbCount ==> r.cells[c.wbOffset + i] == Kept(c.wbuf[i], wide))
            && (forall o :: 0 <= o < |v.cells| && !InWindow(c, o) ==> r.cells[o] == v.cells[o])
  {
    hide Kept, Stored;
    var (c, puts) := (v.chip, Flush(v.chip));
    var r := Step(v, Write(at, d), blkSize, wide);
    assert r.cells == Stored(v.cells, puts, wide);
    forall i: nat | i < c.wbCount
      ensures r.cells[c.wbOffset + i] == Kept(c.wbuf[i], wide)
    {
      assert puts[i] == Put(c.wbOffset + i, c.wbuf[i]);
      StoredLast(v.cells, puts, wide, i);
    }
    forall o: nat | o < |v.cells| && !InWindow(c, o)
      ensures r.cells[o] == v.cells[o]
    {
      StoredElsewhere(v.cells, puts, wide, o);
    }
  }

  /** The writes of `ops` that fall into the window of `n` cells at `base`, in order. */
  function Hits(ops: seq<Op>, base: nat, n: nat): (h: seq<Put>)
    ensures |h| <= |ops|
    ensures forall k :: 0 <= k < |h| ==> base <= h[k].offset < base + n
    decreases ops
  {
    if ops == [] then []
    else
      var (h, op) := (Hits(ops[..|ops| - 1], base, n), ops[|ops| - 1]);
      if op.Write? && base <= op.offset < base + n then h + [Put(op.offset, op.d)] else h
  }

  /** The buffer after writes to the window. */
  function Overlay(buf: seq<Datum>, base: nat, hits: seq<Put>): (r: seq<Datum>)
    requires forall k :: 0 <= k < |hits| ==> base <= hits[k].offset < base + |buf|
    ensures |r| == |buf|
    decreases hits
  {
    if hits == [] then buf
    else
      var (init, last) := (hits[..|hits| - 1], hits[|hits| - 1]);
      Overlay(buf, base, init)[last.offset - base := last.d]
  }

  /** One access while the buffer is filling, and not the one that completes it. */
  lemma FillStep(v: Device, op: Op, blkSize: nat, wide: bool)
    requires Ok(v.chip) && v.chip.state == BufData
    requires op.Write? && InWindow(v.chip, op.offset) ==> v.chip.wbRemain > 1
    ensures var (r, c) := (Step(v, op, blkSize, wide), v.chip);
            && r.cells == v.cells
            && r.chip == (if op.Write? && InWindow(c, op.offset)
                          then c.(wbuf := c.wbuf[op.offset - c.wbOffset := op.d], wbRemain := c.wbRemain - 1)
                          else c)
  {
    NoWrites(v, op, blkSize, wide);
  }

  lemma HitsStep(ops: seq<Op>, base: nat, n: nat)
    requires ops != []
    ensures var (h, g, op) := (Hits(ops, base, n), Hits(ops[..|ops| - 1], base, n), ops[|ops| - 1]);
            h == if op.Write? && base <= op.offset < base + n then g + [Put(op.offset, op.d)] else g
  {
  }

  lemma OverlayNext(buf: seq<Datum>, base: nat, hits: seq<Put>, p: Put)
    requires forall k :: 0 <= k < |hits| ==> base <= hits[k].offset < base + |buf|
    requires base <= p.offset < base + |buf|
    ensures Overlay(buf, base, hits + [p]) == Overlay(buf, base, hits)[p.offset - base := p.d]
  {
    assert (hits + [p])[..|hits + [p]| - 1] == hits;
  }

  /** While fewer than `wbCount` writes have hit the window, every access only fills the buffer. */
  lemma {:induction false} Filling(v: Device, ops: seq<Op>, blkSize: nat, wide: bool)
    requires Ok(v.chip) && v.chip.state == BufData
    requires |Hits(ops, v.chip.wbOffset, v.chip.wbCount)| < v.chip.wbRemain
    ensures var (r, c) := (Run(v, ops, blkSize, wide), v.chip);
            var hits := Hits(ops, c.wbOffset, c.wbCount);
            && r.chip == c.(wbuf := Overlay(c.wbuf, c.wbOffset, hits), wbRemain := c.wbRemain - |hits|)
            && r.cells == v.cells
    decreases ops
  {
    hide Run, Step, Hits, Overlay, Ok;
    var (base, n, buf) := (v.chip.wbOffset, v.chip.wbCount, v.chip.wbuf);
    OkBuffer(v.chip);
    if ops == [] {
      FillStart(v, blkSize, wide);
    } else {
      var (init, op) := (ops[..|ops| - 1], ops[|ops| - 1]);
      HitsStep(ops, base, n);
      if op.Write? && InWindow(v.chip, op.offset) {
        OverlayNext(buf, base, Hits(init, base, n), Put(op.offset, op.d));
      }
      Filling(v, init, blkSize, wide);
      RunNext(v, ops, blkSize, wide);
      FillStep(Run(v, init, blkSize, wide), op, blkSize, wide);
    }
  }

  lemma FillStart(v: Device, blkSize: nat, wide: bool)
    requires Ok(v.chip)
    ensures Run(v, [], blkSize, wide) == v
    ensures Hits([], v.chip.wbOffset, v.chip.wbCount) == []
    ensures Overlay(v.chip.wbuf, v.chip.wbOffset, []) == v.chip.wbuf
  {
  }

  lemma RunNext(v: Device, ops: seq<Op>, blkSize: nat, wide: bool)
    requires Ok(v.chip) && ops != []
    ensures Run(v, ops, blkSize, wide) == Step(Run(v, ops[..|ops| - 1], blkSize, wide), ops[|ops| - 1], blkSize, wide)
  {
  }

  lemma {:induction false} OverlayElsewhere(buf: seq<Datum>, base: nat, hits: seq<Put>, i: nat)
    requires i < |buf|
    requires forall k :: 0 <= k < |hits| ==> base <= hits[k].offset < base + |buf|
    requires forall k :: 0 <= k < |hits| ==> hits[k].offset != base + i
    ensures Overlay(buf, base, hits)[i] == buf[i]
    decreases hits
  {
    if hits != [] {
      var init := hits[..|hits| - 1];
      assert forall k :: 0 <= k < |init| ==> init[k] == hits[k];
      OverlayElsewhere(buf, base, init, i);
    }
  }

  lemma {:induction false} OverlayHit(buf: seq<Datum>, base: nat, hits: seq<Put>, k: nat)
    requires forall j :: 0 <= j < |hits| ==> base <= hits[j].offset < base + |buf|
    requires k < |hits|
    requires forall j :: k < j < |hits| ==> hits[j].offset != hits[k].offset
    ensures Overlay(buf, base, hits)[hits[k].offset - base] == hits[k].d
    decreases hits
  {
    if k < |hits| - 1 {
      var init := hits[..|hits| - 1];
      assert init[k] == hits[k];
      OverlayHit(buf, base, init, k);
    }
  }

  /** No two writes hit the same cell. */
  predicate Distinct(hits: seq<Put>) {
    forall j, k :: 0 <= j < k < |hits| ==> hits[j].offset != hits[k].offset
  }

  /** The cells from `base`, `n` of them. */
  ghost function Window(base: nat, n: nat): (w: set<nat>)
    ensures |w| == n
    ensures forall o: nat :: o in w <==> base <= o < base + n
  {
    if n == 0 then {} else Window(base, n - 1) + {base + n - 1}
  }

  predicate Hit(hits: seq<Put>, o: nat) {
    exists k :: 0 <= k < |hits| && hits[k].offset == o
  }

  /** As many distinct hits as the window has cells cover it. */
  lemma Covering(hits: seq<Put>, base: nat, n: nat, o: nat)
    requires |hits| == n && Distinct(hits)
    requires forall j :: 0 <= j < |hits| ==> base <= hits[j].offset < base + n
    requires base <= o < base + n
    ensures Hit(hits, o)
  {
    if !Hit(hits, o) {
      var seen: set<nat> := set j | 0 <= j < |hits| :: hits[j].offset;
      DistinctSize(hits);
      var window := Window(base, n);
      assert seen <= window - {o};
      SubsetSize(seen, window - {o});
    }
  }

  lemma {:induction false} SubsetSize(a: set<nat>, b: set<nat>)
    requires a <= b
    ensures |a| <= |b|
    decreases a
  {
    if a != {} {
      var x :| x in a;
      SubsetSize(a - {x}, b - {x});
    }
  }

  lemma {:induction false} DistinctSize(hits: seq<Put>)
    requires Distinct(hits)
    ensures |set j | 0 <= j < |hits| :: hits[j].offset| == |hits|
    decreases hits
  {
    var all := set j | 0 <= j < |hits| :: hits[j].offset;
    if hits == [] {
      assert all == {};
    } else {
      var init := hits[..|hits| - 1];
      assert forall j :: 0 <= j < |init| ==> init[j] == hits[j];
      DistinctSize(init);
      var some := set j | 0 <= j < |init| :: init[j].offset;
      var last := hits[|hits| - 1].offset;
      assert all == some + {last} by {
        assert forall x :: x in all ==> x in some + {last};
        forall x | x in some
          ensures x in all
        {
          var j :| 0 <= j < |init| && init[j].offset == x;
          assert hits[j].offset == x;
        }
        assert hits[|hits| - 1].offset in all;
      }
    }
  }

  /** A chip that takes commands. */
  predicate Ready(c: Chip) {
    c.state in {ReadArray, ReadId, ProgramDone, EraseDone}
  }

  /**
   * The fill phase of a buffered program ends with the write that completes the
   * window; writes outside the window and reads may come anywhere before it.
   */
  predicate Completes(fill: seq<Op>, base: nat, n: nat) {
    && |fill| > 0
    && |Hits(fill, base, n)| == n
    && fill[|fill| - 1].Write? && base <= fill[|fill| - 1].offset < base + n
  }

  /**
   * A buffered program up to its confirmation: the command at the window's base,
   * the count, accesses among which the last one completes the window. Reads may
   * come in the two gaps; of command and count only the low byte matters.
   */
  datatype Buffering =
    Buffering(base: nat, cmd: Datum, wait: seq<Op>, countAt: nat, count: Datum, fill: seq<Op>, rest: seq<Op>)

  predicate Reads(ops: seq<Op>) {
    forall k :: 0 <= k < |ops| ==> ops[k].Read?
  }

  /** The number of cells in the window. */
  function Size(b: Buffering): (n: nat)
    ensures 1 <= n <= BUF_SIZE
  {
    CountIn(b.count.lo)
  }

  predicate WellFormed(b: Buffering) {
    b.cmd.lo == 0xe8 && Reads(b.wait) && Completes(b.fill, b.base, Size(b)) && Reads(b.rest)
  }

  function Opening(b: Buffering): seq<Op> {
    [Write(b.base, b.cmd)] + b.wait + [Write(b.countAt, b.count)] + b.fill + b.rest
  }

  /** The writes that filled the window. */
  function Filler(b: Buffering): (h: seq<Put>)
    ensures forall k :: 0 <= k < |h| ==> b.base <= h[k].offset < b.base + Size(b)
    ensures WellFormed(b) ==> |h| == Size(b)
  {
    Hits(b.fill, b.base, Size(b))
  }

  /** Reads change nothing, except that one brings the chip back from its status. */
  lemma {:induction false} IdleReads(v: Device, ops: seq<Op>, blkSize: nat, wide: bool)
    requires Ok(v.chip) && v.chip.state != ReadStatus && Reads(ops)
    ensures Run(v, ops, blkSize, wide) == v
    decreases ops
  {
    hide Ok;
    if ops != [] {
      IdleReads(v, ops[..|ops| - 1], blkSize, wide);
    }
  }

  /** Up to the count: the buffer is open. */
  lemma Opened(v: Device, b: Buffering, blkSize: nat, wide: bool)
    requires Ok(v.chip) && Ready(v.chip) && b.cmd.lo == 0xe8 && Reads(b.wait)
    ensures Run(v, [Write(b.base, b.cmd)] + b.wait + [Write(b.countAt, b.count)], blkSize, wide)
         == Device(Chip(BufData, b.base, Size(b), Size(b), v.chip.wbuf), v.cells)
  {
    hide CountIn, Run, Ok, Reads;
    var (cmd, count) := (Write(b.base, b.cmd), Write(b.countAt, b.count));
    RunOne(v, cmd, blkSize, wide);
    var w := Step(v, cmd, blkSize, wide);
    RunAppend(v, [cmd], b.wait, blkSize, wide);
    IdleReads(w, b.wait, blkSize, wide);
    RunAppend(v, [cmd] + b.wait, [count], blkSize, wide);
    RunOne(w, count, blkSize, wide);
  }

  /** The buffer is full after the last hit, and waits for its confirmation. */
  lemma Filled(v: Device, b: Buffering, blkSize: nat, wide: bool)
    requires Ok(v.chip) && Ready(v.chip) && WellFormed(b)
    ensures Run(v, Opening(b), blkSize, wide)
         == Device(Chip(BufConfirm, b.base, Size(b), 0, Overlay(v.chip.wbuf, b.base, Filler(b))), v.cells)
  {
    hide Run, Step, Hits, Overlay, Ok, Ready, Reads, Size;
    var (n, buf) := (Size(b), v.chip.wbuf);
    var start := [Write(b.base, b.cmd)] + b.wait + [Write(b.countAt, b.count)];
    Opened(v, b, blkSize, wide);
    var w := Run(v, start, blkSize, wide);
    var (init, last) := (b.fill[..|b.fill| - 1], b.fill[|b.fill| - 1]);
    OkBuffer(v.chip);
    HitsStep(b.fill, b.base, n);
    OverlayNext(buf, b.base, Hits(init, b.base, n), Put(last.offset, last.d));
    Filling(w, init, blkSize, wide);
    RunNext(w, b.fill, blkSize, wide);
    CompletingStep(Run(w, init, blkSize, wide), last, blkSize, wide);
    RunAppend(v, start, b.fill, blkSize, wide);
    RunAppend(v, start + b.fill, b.rest, blkSize, wide);
    IdleReads(Run(w, b.fill, blkSize, wide), b.rest, blkSize, wide);
  }

  lemma OkBuffer(c: Chip)
    requires Ok(c)
    ensures |c.wbuf| == BUF_SIZE && c.wbCount <= BUF_SIZE
  {
  }

  lemma CompletingStep(v: Device, op: Op, blkSize: nat, wide: bool)
    requires Ok(v.chip) && v.chip.state == BufData && v.chip.wbRemain == 1
    requires op.Write? && InWindow(v.chip, op.offset)
    ensures var (r, c) := (Step(v, op, blkSize, wide), v.chip);
            && r.cells == v.cells
            && r.chip == Chip(BufConfirm, c.wbOffset, c.wbCount, 0, c.wbuf[op.offset - c.wbOffset := op.d])
  {
    NoWrites(v, op, blkSize, wide);
  }

  lemma NoWrites(v: Device, op: Op, blkSize: nat, wide: bool)
    requires Ok(v.chip) && v.chip.state == BufData
    ensures Step(v, op, blkSize, wide) == Device(Next(v.chip, op), v.cells)
  {
  }

  /**
   * The window of a buffered program is hit once in each cell, and is programmed:
   * exactly those cells have exactly the values written to them.
   */
  ghost predicate Programmed(before: seq<Datum>, after: seq<Datum>, base: nat, n: nat, hits: seq<Put>, wide: bool) {
    && |after| == |before| && |hits| == n
    && (forall k :: 0 <= k < n ==>
          base <= hits[k].offset < |after| && after[hits[k].offset] == Kept(hits[k].d, wide))
    && (forall o: nat :: base <= o < base + n ==> Hit(hits, o))
    && (forall o :: 0 <= o < |before| && !(base <= o < base + n) ==> after[o] == before[o])
  }

  /**
   * Buffered program. Nothing changes before the first write that follows the
   * completed window, and that write decides: confirmed, exactly the window is
   * programmed; anything else drops the buffer. Both ways the chip is back in
   * read-array.
   */
  lemma BufferedProgram(v: Device, b: Buffering, at: nat, d: Datum, blkSize: nat, wide: bool)
    requires Ok(v.chip) && Ready(v.chip) && WellFormed(b)
    ensures Run(v, Opening(b), blkSize, wide).cells == v.cells
    ensures var r := Run(v, Opening(b) + [Write(at, d)], blkSize, wide);
            && r.chip.state == ReadArray
            && (d.lo != CONFIRM ==> r.cells == v.cells)
            && (d.lo == CONFIRM && Distinct(Filler(b)) && b.base + Size(b) <= |v.cells| ==>
                  Programmed(v.cells, r.cells, b.base, Size(b), Filler(b), wide))
  {
    hide Run, Step, Size, WellFormed, Overlay, Ready, Opening, Distinct, Programmed;
    Filled(v, b, blkSize, wide);
    var w := Run(v, Opening(b), blkSize, wide);
    RunAppend(v, Opening(b), [Write(at, d)], blkSize, wide);
    RunOne(w, Write(at, d), blkSize, wide);
    Deciding(w, at, d, blkSize, wide);
    if d.lo == CONFIRM && Distinct(Filler(b)) && b.base + Size(b) <= |v.cells| {
      Confirmed(v, b, w, at, d, blkSize, wide);
    }
  }

  lemma Deciding(v: Device, at: nat, d: Datum, blkSize: nat, wide: bool)
    requires Ok(v.chip) && v.chip.state == BufConfirm
    ensures var r := Step(v, Write(at, d), blkSize, wide);
            r.chip.state == ReadArray && (d.lo != CONFIRM ==> r.cells == v.cells)
  {
  }

  lemma Confirmed(v: Device, b: Buffering, w: Device, at: nat, d: Datum, blkSize: nat, wide: bool)
    requires Ok(v.chip) && Ok(w.chip) && WellFormed(b) && d.lo == CONFIRM
    requires w == Device(Chip(BufConfirm, b.base, Size(b), 0, Overlay(v.chip.wbuf, b.base, Filler(b))), v.cells)
    requires Distinct(Filler(b)) && b.base + Size(b) <= |v.cells|
    ensures Programmed(v.cells, Step(w, Write(at, d), blkSize, wide).cells, b.base, Size(b), Filler(b), wide)
  {
    hide Step, Size, WellFormed, Kept, Overlay, Filler;
    var (hits, n) := (Filler(b), Size(b));
    var r := Step(w, Write(at, d), blkSize, wide);
    FlushIs(w, blkSize, wide, at, d);
    forall k | 0 <= k < n
      ensures r.cells[hits[k].offset] == Kept(hits[k].d, wide)
    {
      OverlayHit(v.chip.wbuf, b.base, hits, k);
      var i := hits[k].offset - b.base;
      assert r.cells[b.base + i] == Kept(w.chip.wbuf[i], wide);
    }
    forall o: nat | b.base <= o < b.base + n
      ensures Hit(hits, o)
    {
      Covering(hits, b.base, n, o);
    }
  }

  // ---- The single program, and what reads return ----

  lemma Commanded(v: Device, at: nat, c: Datum, wait: seq<Op>, blkSize: nat, wide: bool)
    requires Ok(v.chip) && Ready(v.chip) && Reads(wait) && Command(v.chip, at, c.lo).state != ReadStatus
    ensures Run(v, [Write(at, c)] + wait, blkSize, wide) == Device(Command(v.chip, at, c.lo), v.cells)
  {
    hide Run, Reads, Command, Ok;
    RunOne(v, Write(at, c), blkSize, wide);
    RunAppend(v, [Write(at, c)], wait, blkSize, wide);
    StoredNone(v.cells, wide);
    IdleReads(Step(v, Write(at, c), blkSize, wide), wait, blkSize, wide);
  }

  lemma StoredOne(cells: seq<Datum>, p: Put, wide: bool)
    ensures Stored(cells, [p], wide)
         == if p.offset < |cells| then cells[p.offset := Kept(p.d, wide)] else cells
  {
    assert [p][..0] == [];
  }

  /**
   * Byte or word program: nothing changes before the write that follows the
   * command, reads between them included; that write stores its datum in its
   * cell, whatever the datum, and changes no other.
   */
  lemma SingleProgram(v: Device, at: nat, c: Datum, wait: seq<Op>, o: nat, d: Datum, blkSize: nat, wide: bool)
    requires Ok(v.chip) && Ready(v.chip) && (c.lo == 0x40 || c.lo == 0x10) && Reads(wait)
    ensures Run(v, [Write(at, c)] + wait, blkSize, wide) == Device(v.chip.(state := Program), v.cells)
    ensures Run(v, [Write(at, c)] + wait + [Write(o, d)], blkSize, wide)
         == Device(v.chip.(state := ProgramDone),
                   if o < |v.cells| then v.cells[o := Kept(d, wide)] else v.cells)
  {
    hide Run, Reads, Ready, Kept, Ok;
    Commanded(v, at, c, wait, blkSize, wide);
    var w := Run(v, [Write(at, c)] + wait, blkSize, wide);
    RunAppend(v, [Write(at, c)] + wait, [Write(o, d)], blkSize, wide);
    RunOne(w, Write(o, d), blkSize, wide);
    StoredOne(v.cells, Put(o, d), wide);
  }

  /**
   * What a read returns after a command, and after any reads that follow it: the
   * identifiers, the cell, zero while a datum is awaited, 0x80 while a count or
   * a confirmation is. A command the chip does not know changes nothing.
   */
  lemma CommandAnswers(v: Device, at: nat, c: Datum, wait: seq<Op>, o: nat, ids: Ids, blkSize: nat, wide: bool)
    requires Ok(v.chip) && Ready(v.chip) && Reads(wait) && c.lo != 0x70 && o < |v.cells|
    ensures var r := Run(v, [Write(at, c)] + wait, blkSize, wide);
            var a := Answer(r.chip, o, r.cells[o], ids);
            && (c.lo == 0xff || c.lo == 0x50 ==> a == v.cells[o])
            && (c.lo == 0x90 && o == 0 ==> a == Datum(0, ids.manufacturer))
            && (c.lo == 0x90 && o == 1 ==> a == Datum(0, ids.device))
            && (c.lo == 0x90 && o > 1 ==> a == Datum(0, 0))
            && (c.lo == 0x40 || c.lo == 0x10 ==> a == Datum(0, 0))
            && (c.lo == 0xe8 || c.lo == 0x20 ==> a == Datum(0, 0x80))
            && (c.lo !in {0xff, 0x50, 0x90, 0x40, 0x10, 0xe8, 0x20} ==> r == v)
  {
    hide Run, Reads, Ok;
    Commanded(v, at, c, wait, blkSize, wide);
  }

  /** The status is read once; the access after the command, be it a write, only leads back to the array. */
  lemma StatusOnce(v: Device, at: nat, c: Datum, op: Op, o: nat, ids: Ids, blkSize: nat, wide: bool)
    requires Ok(v.chip) && Ready(v.chip) && c.lo == 0x70 && o < |v.cells|
    ensures var r := Run(v, [Write(at, c)], blkSize, wide);
            Answer(r.chip, o, r.cells[o], ids) == Datum(0, 0x80)
    ensures var r := Run(v, [Write(at, c)] + [op], blkSize, wide);
            r == Device(v.chip.(state := ReadArray), v.cells) && Answer(r.chip, o, r.cells[o], ids) == v.cells[o]
  {
    hide Run, Ok;
    RunOne(v, Write(at, c), blkSize, wide);
    StoredNone(v.cells, wide);
    var w := Step(v, Write(at, c), blkSize, wide);
    RunAppend(v, [Write(at, c)], [op], blkSize, wide);
    RunOne(w, op, blkSize, wide);
  }

  /** A buffered program answers 0x80 from its count to the decision, and with the array after it. */
  lemma BufferAnswers(v: Device, b: Buffering, at: nat, d: Datum, o: nat, ids: Ids, blkSize: nat, wide: bool)
    requires Ok(v.chip) && Ready(v.chip) && WellFormed(b) && o < |v.cells|
    ensures var r := Run(v, [Write(b.base, b.cmd)] + b.wait + [Write(b.countAt, b.count)], blkSize, wide);
            Answer(r.chip, o, r.cells[o], ids) == Datum(0, 0x80)
    ensures var r := Run(v, Opening(b), blkSize, wide);
            Answer(r.chip, o, r.cells[o], ids) == Datum(0, 0x80)
    ensures var r := Run(v, Opening(b) + [Write(at, d)], blkSize, wide);
            Answer(r.chip, o, r.cells[o], ids) == r.cells[o]
  {
    hide Run, Overlay, Ready, Opening, Distinct, Programmed, Filler, Size, Ok;
    Opened(v, b, blkSize, wide);
    Filled(v, b, blkSize, wide);
    BufferedProgram(v, b, at, d, blkSize, wide);
  }

  /** A finished program or erase answers 0x80, however often it is read. */
  lemma DoneAnswers(v: Device, polls: seq<Op>, o: nat, ids: Ids, blkSize: nat, wide: bool)
    requires Ok(v.chip) && v.chip.state in {ProgramDone, EraseDone} && Reads(polls) && o < |v.cells|
    ensures var r := Run(v, polls, blkSize, wide);
            r == v && Answer(r.chip, o, r.cells[o], ids) == Datum(0, 0x80)
  {
    hide Run, Reads, Ok;
    IdleReads(v, polls, blkSize, wide);
  }

  /** The count is the number in the low five bits, and one. */
  lemma CountIs(b: Byte)
    ensures CountIn(b) == Value(b) % 32 + 1
  {
    hide Lo;
    HighOdd(b);
  }

  lemma HighOdd(b: Byte)
    ensures b & 0x10 != 0 <==> NibbleValue(Hi(b)) % 2 == 1
  {
  }

  /** No write of `ops` confirms. */
  predicate Unconfirmed(ops: seq<Op>) {
    forall k :: 0 <= k < |ops| ==> ops[k].Write? ==> ops[k].d.lo != CONFIRM
  }

  /** A pending erase waits through reads and through writes that do not confirm it. */
  lemma {:induction false} ErasePending(v: Device, ops: seq<Op>, blkSize: nat, wide: bool)
    requires Ok(v.chip) && v.chip.state == Erase && Unconfirmed(ops)
    ensures Run(v, ops, blkSize, wide) == v
    decreases ops
  {
    hide Ok;
    if ops != [] {
      ErasePending(v, ops[..|ops| - 1], blkSize, wide);
    }
  }

  /** Erase: nothing changes before the confirmation; then its block reads all ones, and nothing else changes. */
  lemma Erasing(v: Device, at: nat, c: Datum, wait: seq<Op>, o: nat, d: Datum, blkSize: nat, wide: bool)
    requires Ok(v.chip) && Ready(v.chip) && o + blkSize <= |v.cells|
    requires c.lo == 0x20 && Unconfirmed(wait) && d.lo == CONFIRM
    ensures Run(v, [Write(at, c)] + wait, blkSize, wide).cells == v.cells
    ensures var r := Run(v, [Write(at, c)] + wait + [Write(o, d)], blkSize, wide);
            && r.chip.state == EraseDone
            && (forall p :: 0 <= p < |v.cells| ==>
                  r.cells[p] == if o <= p < o + blkSize then Datum(if wide then 0xff else 0, 0xff) else v.cells[p])
  {
    hide Stored, Kept, Unconfirmed, Run;
    assert Kept(ERASED, wide) == Datum(if wide then 0xff else 0, 0xff) by { KeptErased(wide); }
    var (a, b) := (Write(at, c), Write(o, d));
    RunOne(v, a, blkSize, wide);
    RunAppend(v, [a], wait, blkSize, wide);
    RunAppend(v, [a] + wait, [b], blkSize, wide);
    assert Stored(v.cells, [], wide) == v.cells by { StoredNone(v.cells, wide); }
    var w := Step(v, a, blkSize, wide);
    ErasePending(w, wait, blkSize, wide);
    RunOne(w, b, blkSize, wide);
    var r := Step(w, b, blkSize, wide);
    var puts := Fill(o, blkSize);
    assert r.cells == Stored(v.cells, puts, wide);
    forall p: nat | p < |v.cells|
      ensures r.cells[p] == if o <= p < o + blkSize then Kept(ERASED, wide) else v.cells[p]
    {
      if o <= p < o + blkSize {
        assert puts[p - o] == Put(p, ERASED);
        StoredLast(v.cells, puts, wide, p - o);
      } else {
        StoredElsewhere(v.cells, puts, wide, p);
      }
    }
  }

  lemma KeptErased(wide: bool)
    ensures Kept(ERASED, wide) == Datum(if wide then 0xff else 0, 0xff)
  {
  }

  lemma StoredNone(cells: seq<Datum>, wide: bool)
    ensures Stored(cells, [], wide) == cells
  {
  }
}
