/**
 * The virtual ATM switch (common/atm.c): VP and VC connections in two hash
 * tables, header rewriting, references on NetIO descriptors, and the printed
 * configuration.
 */
module AtmSwitch {
  import opened Bytes
  import opened Hec
  import opened AtmCell
  import opened HashBuckets
  import opened NioRegistry

  const VP_HASH_SIZE: nat := 256
  const VC_HASH_SIZE: nat := 1024

  datatype VpKey = VpKey(input: string, vpi: UInt)
  datatype VcKey = VcKey(input: string, vpi: UInt, vci: UInt)

  datatype VpConn = VpConn(input: string, vpiIn: UInt, output: string, vpiOut: UInt, cellCnt: Counter)
  datatype VcConn =
    VcConn(input: string, vpiIn: UInt, vciIn: UInt, output: string, vpiOut: UInt, vciOut: UInt, cellCnt: Counter)

  /** A 64-bit statistics counter; it goes up by one and wraps around. */
  datatype Counter = Counter(bits: bv64)

  const ZERO_COUNT := Counter(0)

  function Tick(n: Counter): Counter {
    Counter(n.bits + 1)
  }

  function KeyOfVp(c: VpConn): VpKey {
    VpKey(c.input, c.vpiIn)
  }

  function KeyOfVc(c: VcConn): VcKey {
    VcKey(c.input, c.vpiIn, c.vciIn)
  }

  /** `atmsw_vpc_hash`. */
  function VpHash(k: VpKey): (b: nat)
    ensures b < VP_HASH_SIZE
  {
    ((k.vpi.bits ^ (k.vpi.bits >> 8)) & 0xff) as bv8 as int
  }

  /** `atmsw_vcc_hash`. */
  function VcHash(k: VcKey): (b: nat)
    ensures b < VC_HASH_SIZE
  {
    ((k.vpi.bits ^ k.vci.bits) & 0x3ff) as bv10 as int
  }

  // ---- The switch as two maps ----

  datatype Tables = Tables(vps: map<VpKey, VpConn>, vcs: map<VcKey, VcConn>)

  const EMPTY := Tables(map[], map[])

  datatype Command =
    | CreateVpc(input: string, vpiIn: UInt, output: string, vpiOut: UInt)
    | CreateVcc(input: string, vpiIn: UInt, vciIn: UInt, output: string, vpiOut: UInt, vciOut: UInt)

  /** Whether a creation command is accepted, given the registered descriptors. */
  predicate Accepts(names: set<string>, t: Tables, c: Command) {
    && c.input in names && c.output in names
    && VpKey(c.input, c.vpiIn) !in t.vps
    && (c.CreateVcc? ==> VcKey(c.input, c.vpiIn, c.vciIn) !in t.vcs)
  }

  function Created(t: Tables, c: Command): Tables {
    match c
    case CreateVpc(input, vpiIn, output, vpiOut) =>
      t.(vps := t.vps[VpKey(input, vpiIn) := VpConn(input, vpiIn, output, vpiOut, ZERO_COUNT)])
    case CreateVcc(input, vpiIn, vciIn, output, vpiOut, vciOut) =>
      t.(vcs := t.vcs[VcKey(input, vpiIn, vciIn) := VcConn(input, vpiIn, vciIn, output, vpiOut, vciOut, ZERO_COUNT)])
  }

  /** A creation command, refused or not. */
  function Apply(names: set<string>, t: Tables, c: Command): Tables {
    if Accepts(names, t, c) then Created(t, c) else t
  }

  /** The connections, and who is listened to. */
  datatype Board = Board(tables: Tables, listeners: map<string, nat>)

  /** A call that changes connections; `alloc` and `listener` are the outcomes of `mp_alloc` and `netio_rxl_add`. */
  datatype Request =
    | Create(c: Command, alloc: bool, listener: bool)
    | DeleteVp(vp: VpKey, output: string, vpiOut: UInt)
    | DeleteVc(vc: VcKey, output: string, vpiOut: UInt, vciOut: UInt)

  /** A creation that is refused after its input was found still drops a listener of that input. */
  function Serve(names: set<string>, b: Board, q: Request): Board {
    match q
    case Create(c, alloc, listener) =>
      if alloc && listener && Accepts(names, b.tables, c)
      then Board(Created(b.tables, c), Listened(b.listeners, c.input))
      else if alloc && c.input in names then b.(listeners := Unheard(b.listeners, c.input))
      else b
    case DeleteVp(k, output, vpiOut) =>
      if k in b.tables.vps && VpLeads(b.tables.vps[k], output, vpiOut)
      then Board(b.tables.(vps := b.tables.vps - {k}), Unheard(b.listeners, b.tables.vps[k].input))
      else b
    case DeleteVc(k, output, vpiOut, vciOut) =>
      if k in b.tables.vcs && VcLeads(b.tables.vcs[k], output, vpiOut, vciOut)
      then Board(b.tables.(vcs := b.tables.vcs - {k}), Unheard(b.listeners, b.tables.vcs[k].input))
      else b
  }

  /** Where a connection leads. */
  predicate VpLeads(c: VpConn, output: string, vpiOut: UInt) {
    c.output == output && c.vpiOut == vpiOut
  }

  predicate VcLeads(c: VcConn, output: string, vpiOut: UInt, vciOut: UInt) {
    c.output == output && c.vpiOut == vpiOut && c.vciOut == vciOut
  }

  /** `atmsw_vp_switch`: the header with a new VPI. */
  function WithVpi(h: bv32, vpi: UInt): bv32 {
    (h & !0xfff0_0000) | (vpi.bits << 20)
  }

  /** `atmsw_vc_switch`: the header with a new VPI and VCI. */
  function WithVpiVci(h: bv32, vpi: UInt, vci: UInt): bv32 {
    ((h & !(0xfff0_0000 | 0x000f_fff0)) | (vpi.bits << 20)) | (vci.bits << 4)
  }

  datatype Forwarding = Dropped | Forwarded(output: string, cell: seq<Byte>)

  /** Where a cell goes and what it looks like then: VP lookup wins over VC lookup. */
  function Forward(t: Tables, input: string, cell: seq<Byte>): Forwarding
    requires |cell| == CELL_SIZE
  {
    var h := HdrOf(cell);
    var vp := VpKey(input, UInt(VpiOf(h)));
    var vc := VcKey(input, UInt(VpiOf(h)), UInt(VciOf(h)));
    if vp in t.vps then Forwarded(t.vps[vp].output, Cell(WithVpi(h, t.vps[vp].vpiOut), cell[HDR_SIZE..]))
    else if vc in t.vcs then
      Forwarded(t.vcs[vc].output, Cell(WithVpiVci(h, t.vcs[vc].vpiOut, t.vcs[vc].vciOut), cell[HDR_SIZE..]))
    else Dropped
  }

  // ---- What switching leaves of a header ----

  lemma VpRewrites(h: bv32, vpi: UInt)
    ensures WithVpi(h, vpi) & 0x000f_ffff == h & 0x000f_ffff
    ensures VpiOf(WithVpi(h, vpi)) == vpi.bits & 0xfff
  {
    VpiWritten(h, vpi.bits);
  }

  lemma VpiWritten(h: bv32, v: bv32)
    ensures WithVpi(h, UInt(v)) & 0x000f_ffff == h & 0x000f_ffff
    ensures VpiOf(WithVpi(h, UInt(v))) == v & 0xfff
  {
  }

  lemma VcRewrites(h: bv32, vpi: UInt, vci: UInt)
    ensures var w := WithVpiVci(h, vpi, vci);
            && w & 0xf == h & 0xf
            && VciOf(w) == vci.bits & 0xffff && VpiOf(w) == (vpi.bits | (vci.bits >> 16)) & 0xfff
  {
    VciWritten(h, vpi.bits, vci.bits);
  }

  lemma VciWritten(h: bv32, v: bv32, c: bv32)
    ensures var w := WithVpiVci(h, UInt(v), UInt(c));
            w & 0xf == h & 0xf && VciOf(w) == c & 0xffff && VpiOf(w) == (v | (c >> 16)) & 0xfff
  {
  }

  lemma FieldsThatFit(v: bv32, c: bv32)
    requires InWidth(v, c)
    ensures v & 0xfff == v && c & 0xffff == c && (v | (c >> 16)) & 0xfff == v
  {
  }

  /**
   * A cell through a VP connection keeps its payload and the low 20 bits of its
   * header, VCI, payload type and loss priority among them, and takes the
   * connection's VPI; its check byte is right again.
   */
  lemma ThroughVp(t: Tables, input: string, cell: seq<Byte>)
    requires |cell| == CELL_SIZE && VpKey(input, UInt(VpiOf(HdrOf(cell)))) in t.vps
    ensures var (f, c) := (Forward(t, input, cell), t.vps[VpKey(input, UInt(VpiOf(HdrOf(cell))))]);
            && f.Forwarded? && f.output == c.output
            && |f.cell| == CELL_SIZE && f.cell[HDR_SIZE..] == cell[HDR_SIZE..] && Protected(f.cell[..5])
            && HdrOf(f.cell) & 0x000f_ffff == HdrOf(cell) & 0x000f_ffff
            && VpiOf(HdrOf(f.cell)) == c.vpiOut.bits & 0xfff
  {
    hide HdrOf, VpiOf, VciOf, Cell, WithVpi, WithVpiVci, Protected;
    var (h, c) := (HdrOf(cell), t.vps[VpKey(input, UInt(VpiOf(HdrOf(cell))))]);
    VpRewrites(h, c.vpiOut);
    CellHeader(WithVpi(h, c.vpiOut), cell[HDR_SIZE..]);
  }

  /**
   * Through a VC connection, taken only where no VP connection is, a cell keeps
   * its payload and the low four bits of its header and takes the connection's
   * VPI and VCI; what a VCI is too wide by spills into the VPI.
   */
  lemma ThroughVc(t: Tables, input: string, cell: seq<Byte>)
    requires |cell| == CELL_SIZE && VpKey(input, UInt(VpiOf(HdrOf(cell)))) !in t.vps
    requires VcKey(input, UInt(VpiOf(HdrOf(cell))), UInt(VciOf(HdrOf(cell)))) in t.vcs
    ensures var (f, h) := (Forward(t, input, cell), HdrOf(cell));
            var c := t.vcs[VcKey(input, UInt(VpiOf(h)), UInt(VciOf(h)))];
            var (v, w) := (c.vpiOut.bits, c.vciOut.bits);
            && f.Forwarded? && f.output == c.output
            && |f.cell| == CELL_SIZE && f.cell[HDR_SIZE..] == cell[HDR_SIZE..] && Protected(f.cell[..5])
            && HdrOf(f.cell) & 0xf == h & 0xf
            && VciOf(HdrOf(f.cell)) == w & 0xffff && VpiOf(HdrOf(f.cell)) == (v | (w >> 16)) & 0xfff
  {
    hide HdrOf, VpiOf, VciOf, Cell, WithVpi, WithVpiVci, Protected;
    var h := HdrOf(cell);
    var c := t.vcs[VcKey(input, UInt(VpiOf(h)), UInt(VciOf(h)))];
    VcRewrites(h, c.vpiOut, c.vciOut);
    CellHeader(WithVpiVci(h, c.vpiOut, c.vciOut), cell[HDR_SIZE..]);
  }

  /** A VPI and a VCI that fit their fields are taken as they are. */
  lemma FieldsTaken(t: Tables, input: string, cell: seq<Byte>)
    requires |cell| == CELL_SIZE && VpKey(input, UInt(VpiOf(HdrOf(cell)))) !in t.vps
    requires VcKey(input, UInt(VpiOf(HdrOf(cell))), UInt(VciOf(HdrOf(cell)))) in t.vcs
    requires var c := t.vcs[VcKey(input, UInt(VpiOf(HdrOf(cell))), UInt(VciOf(HdrOf(cell))))];
             InWidth(c.vpiOut.bits, c.vciOut.bits)
    ensures var (f, h) := (Forward(t, input, cell), HdrOf(cell));
            var c := t.vcs[VcKey(input, UInt(VpiOf(h)), UInt(VciOf(h)))];
            f.Forwarded? && VpiOf(HdrOf(f.cell)) == c.vpiOut.bits && VciOf(HdrOf(f.cell)) == c.vciOut.bits
  {
    hide Forward, HdrOf, VpiOf, VciOf, Protected, InWidth;
    var c := t.vcs[VcKey(input, UInt(VpiOf(HdrOf(cell))), UInt(VciOf(HdrOf(cell))))];
    ThroughVc(t, input, cell);
    FieldsThatFit(c.vpiOut.bits, c.vciOut.bits);
  }

  /** A cell is dropped exactly if neither its VPI nor its VPI and VCI are connected at its input. */
  lemma DroppedIff(t: Tables, input: string, cell: seq<Byte>)
    requires |cell| == CELL_SIZE
    ensures var (v, c) := (UInt(VpiOf(HdrOf(cell))), UInt(VciOf(HdrOf(cell))));
            Forward(t, input, cell) == Dropped <==> VpKey(input, v) !in t.vps && VcKey(input, v, c) !in t.vcs
  {
    hide HdrOf, VpiOf, VciOf, Cell, WithVpi, WithVpiVci;
  }

  /** The statistics counter that goes up, if any. */
  function Counted(t: Tables, input: string, cell: seq<Byte>): Tables
    requires |cell| == CELL_SIZE
  {
    var h := HdrOf(cell);
    var vp := VpKey(input, UInt(VpiOf(h)));
    var vc := VcKey(input, UInt(VpiOf(h)), UInt(VciOf(h)));
    if vp in t.vps then t.(vps := t.vps[vp := t.vps[vp].(cellCnt := Tick(t.vps[vp].cellCnt))])
    else if vc in t.vcs then t.(vcs := t.vcs[vc := t.vcs[vc].(cellCnt := Tick(t.vcs[vc].cellCnt))])
    else t
  }

  // ---- Cells one after the other ----

  /** A packet on an input; `accepted` says whether the output descriptor takes the cell it becomes. */
  datatype Arrival = Arrival(input: string, cell: seq<Byte>, accepted: bool)

  /** The tables and everything handed to `netio_send`, with the descriptor it was handed to. */
  datatype Traffic = Traffic(tables: Tables, sent: seq<(string, seq<Byte>)>)

  /** `atmsw_recv_cell`: packets of another size are not looked at. */
  function Carried(s: Traffic, a: Arrival): Traffic {
    if |a.cell| != CELL_SIZE then s
    else
      Traffic(Counted(s.tables, a.input, a.cell),
              match Forward(s.tables, a.input, a.cell)
              case Dropped => s.sent
              case Forwarded(output, cell) => if a.accepted then s.sent + [(output, cell)] else s.sent)
  }

  function CarriedAll(s: Traffic, arrivals: seq<Arrival>): Traffic
    decreases arrivals
  {
    if arrivals == [] then s
    else Carried(CarriedAll(s, arrivals[..|arrivals| - 1]), arrivals[|arrivals| - 1])
  }

  /** Counting a cell changes no forwarding, of no cell on no input. */
  lemma CountedForwards(t: Tables, input: string, cell: seq<Byte>, other: string, next: seq<Byte>)
    requires |cell| == CELL_SIZE && |next| == CELL_SIZE
    ensures Forward(Counted(t, input, cell), other, next) == Forward(t, other, next)
  {
    hide HdrOf, VpiOf, VciOf, Cell, WithVpi, WithVpiVci, Tick;
  }

  /** Whatever cells went through, the next one is forwarded as by the tables at the start. */
  lemma {:induction false} CarriedForwards(s: Traffic, arrivals: seq<Arrival>, input: string, cell: seq<Byte>)
    requires |cell| == CELL_SIZE
    ensures Forward(CarriedAll(s, arrivals).tables, input, cell) == Forward(s.tables, input, cell)
    decreases arrivals
  {
    hide Forward, Counted;
    if arrivals != [] {
      var (before, a) := (CarriedAll(s, arrivals[..|arrivals| - 1]), arrivals[|arrivals| - 1]);
      CarriedForwards(s, arrivals[..|arrivals| - 1], input, cell);
      if |a.cell| == CELL_SIZE {
        CountedForwards(before.tables, a.input, a.cell, input, cell);
      }
    }
  }

  // ---- What the counters tell ----

  /** A counter after `k` steps, modulo 2^64. */
  function Stepped(n: Counter, k: nat): Counter {
    if k == 0 then n else Counter(Stepped(n, k - 1).bits + 1)
  }

  lemma SteppedNext(n: Counter, k: nat)
    ensures Stepped(n, 0) == n && Stepped(n, k + 1) == Tick(Stepped(n, k))
  {
  }

  predicate OnVp(k: VpKey, a: Arrival) {
    |a.cell| == CELL_SIZE && a.input == k.input && VpiOf(HdrOf(a.cell)) == k.vpi.bits
  }

  predicate OnVc(k: VcKey, a: Arrival) {
    OnVp(VpKey(k.input, k.vpi), a) && VciOf(HdrOf(a.cell)) == k.vci.bits
  }

  /** How many of the arrivals are cells on a VP, or on a VC. */
  function VpArrivals(k: VpKey, arrivals: seq<Arrival>): nat
    decreases arrivals
  {
    if arrivals == [] then 0
    else VpArrivals(k, arrivals[..|arrivals| - 1]) + if OnVp(k, arrivals[|arrivals| - 1]) then 1 else 0
  }

  function VcArrivals(k: VcKey, arrivals: seq<Arrival>): nat
    decreases arrivals
  {
    if arrivals == [] then 0
    else VcArrivals(k, arrivals[..|arrivals| - 1]) + if OnVc(k, arrivals[|arrivals| - 1]) then 1 else 0
  }

  lemma KeysOnce(s: Traffic, a: Arrival)
    ensures var r := Carried(s, a).tables; r.vps.Keys == s.tables.vps.Keys && r.vcs.Keys == s.tables.vcs.Keys
  {
    hide Forward, HdrOf, VpiOf, VciOf, Tick;
  }

  lemma VpCountsOnce(s: Traffic, a: Arrival, k: VpKey)
    requires k in s.tables.vps
    ensures var (r, c) := (Carried(s, a).tables, s.tables.vps[k]);
            k in r.vps && r.vps[k] == if OnVp(k, a) then c.(cellCnt := Tick(c.cellCnt)) else c
  {
    hide Forward, HdrOf, VpiOf, VciOf, Tick;
  }

  lemma VcCountsOnce(s: Traffic, a: Arrival, k: VcKey)
    requires k in s.tables.vcs
    ensures var (r, c) := (Carried(s, a).tables, s.tables.vcs[k]);
            var on := OnVc(k, a) && VpKey(k.input, k.vpi) !in s.tables.vps;
            k in r.vcs && r.vcs[k] == if on then c.(cellCnt := Tick(c.cellCnt)) else c
  {
    hide Forward, HdrOf, VpiOf, VciOf, Tick;
  }

  lemma {:induction false} CarriedKeys(s: Traffic, arrivals: seq<Arrival>)
    ensures var r := CarriedAll(s, arrivals).tables;
            r.vps.Keys == s.tables.vps.Keys && r.vcs.Keys == s.tables.vcs.Keys
    decreases arrivals
  {
    hide Carried;
    if arrivals != [] {
      var init := arrivals[..|arrivals| - 1];
      CarriedKeys(s, init);
      KeysOnce(CarriedAll(s, init), arrivals[|arrivals| - 1]);
    }
  }

  /** The counter of a VP connection goes up by one for each cell that arrived on it, and nothing else of it changes. */
  lemma {:induction false} VpCounts(s: Traffic, arrivals: seq<Arrival>, k: VpKey)
    requires k in s.tables.vps
    ensures var (r, c) := (CarriedAll(s, arrivals).tables, s.tables.vps[k]);
            k in r.vps && r.vps[k] == c.(cellCnt := Stepped(c.cellCnt, VpArrivals(k, arrivals)))
    decreases arrivals
  {
    hide Carried, OnVp, Tick, Stepped;
    SteppedNext(s.tables.vps[k].cellCnt, 0);
    if arrivals != [] {
      var init := arrivals[..|arrivals| - 1];
      VpCounts(s, init, k);
      VpCountsOnce(CarriedAll(s, init), arrivals[|arrivals| - 1], k);
      SteppedNext(s.tables.vps[k].cellCnt, VpArrivals(k, init));
    }
  }

  /** So does the counter of a VC connection, unless a VP connection takes its cells. */
  lemma {:induction false} VcCounts(s: Traffic, arrivals: seq<Arrival>, k: VcKey)
    requires k in s.tables.vcs
    ensures var (r, c) := (CarriedAll(s, arrivals).tables, s.tables.vcs[k]);
            var n := if VpKey(k.input, k.vpi) in s.tables.vps then 0 else VcArrivals(k, arrivals);
            k in r.vcs && r.vcs[k] == c.(cellCnt := Stepped(c.cellCnt, n))
    decreases arrivals
  {
    hide Carried, OnVc, Tick, Stepped;
    SteppedNext(s.tables.vcs[k].cellCnt, 0);
    if arrivals != [] {
      var init := arrivals[..|arrivals| - 1];
      VcCounts(s, init, k);
      CarriedKeys(s, init);
      VcCountsOnce(CarriedAll(s, init), arrivals[|arrivals| - 1], k);
      SteppedNext(s.tables.vcs[k].cellCnt, VcArrivals(k, init));
    }
  }

  // ---- References held on descriptors ----

  /** The number of connection endpoints at a descriptor. */
  ghost function Endpoints(t: Tables, n: string): nat {
    Count(t.vps, (c: VpConn) => c.input == n) + Count(t.vps, (c: VpConn) => c.output == n)
    + Count(t.vcs, (c: VcConn) => c.input == n) + Count(t.vcs, (c: VcConn) => c.output == n)
  }

  /** Every name is held once for each connection endpoint, besides its other holders. */
  ghost predicate RefsMatch(refs: map<string, int>, others: map<string, int>, t: Tables) {
    && refs.Keys == others.Keys
    && (forall n :: n in others ==> refs[n] == others[n] + Endpoints(t, n))
    && (forall k :: k in t.vps ==> t.vps[k].input in others && t.vps[k].output in others)
    && (forall k :: k in t.vcs ==> t.vcs[k].input in others && t.vcs[k].output in others)
  }

  lemma EndpointsCreated(names: set<string>, t: Tables, c: Command, n: string)
    requires Accepts(names, t, c)
    ensures Endpoints(Created(t, c), n)
         == Endpoints(t, n) + Ends(n, c.input, c.output)
  {
    match c
    case CreateVpc(input, vpiIn, output, vpiOut) =>
      var e := VpConn(input, vpiIn, output, vpiOut, ZERO_COUNT);
      CountInserted(t.vps, KeyOfVp(e), e, (c: VpConn) => c.input == n);
      CountInserted(t.vps, KeyOfVp(e), e, (c: VpConn) => c.output == n);
    case CreateVcc(input, vpiIn, vciIn, output, vpiOut, vciOut) =>
      var e := VcConn(input, vpiIn, vciIn, output, vpiOut, vciOut, ZERO_COUNT);
      CountInserted(t.vcs, KeyOfVc(e), e, (c: VcConn) => c.input == n);
      CountInserted(t.vcs, KeyOfVc(e), e, (c: VcConn) => c.output == n);
  }

  lemma RefsCreated(refs: map<string, int>, others: map<string, int>, t: Tables, c: Command, refs': map<string, int>)
    requires RefsMatch(refs, others, t) && Accepts(refs.Keys, t, c)
    requires refs'.Keys == refs.Keys && forall n :: n in refs' ==> refs'[n] == refs[n] + Ends(n, c.input, c.output)
    ensures RefsMatch(refs', others, Created(t, c))
  {
    hide Endpoints, Ends;
    forall n | n in others
      ensures refs'[n] == others[n] + Endpoints(Created(t, c), n)
    {
      EndpointsCreated(refs.Keys, t, c, n);
    }
  }

  lemma OthersNamed(refs: map<string, int>, others: map<string, int>, t: Tables, name: string)
    requires RefsMatch(refs, others, t) && name in refs
    ensures name in others
  {
  }

  /** Somebody else takes or gives back a reference. */
  lemma RefsElsewhere(refs: map<string, int>, others: map<string, int>, t: Tables, name: string, d: int)
    requires RefsMatch(refs, others, t) && name in refs
    ensures RefsMatch(refs[name := refs[name] + d], others[name := others[name] + d], t)
  {
    hide Endpoints;
  }

  lemma EndpointsVpDeleted(t: Tables, k: VpKey, n: string)
    requires k in t.vps
    ensures Endpoints(t.(vps := t.vps - {k}), n)
         == Endpoints(t, n) - Ends(n, t.vps[k].input, t.vps[k].output)
  {
    CountRemoved(t.vps, k, (c: VpConn) => c.input == n);
    CountRemoved(t.vps, k, (c: VpConn) => c.output == n);
  }

  lemma RefsVpDeleted(refs: map<string, int>, others: map<string, int>, t: Tables, k: VpKey, refs': map<string, int>)
    requires RefsMatch(refs, others, t) && k in t.vps
    requires refs'.Keys == refs.Keys
    requires forall n :: n in refs' ==> refs'[n] == refs[n] - Ends(n, t.vps[k].input, t.vps[k].output)
    ensures RefsMatch(refs', others, t.(vps := t.vps - {k}))
  {
    hide Endpoints, Ends;
    forall n | n in others
      ensures refs'[n] == others[n] + Endpoints(t.(vps := t.vps - {k}), n)
    {
      EndpointsVpDeleted(t, k, n);
    }
  }

  lemma EndpointsVcDeleted(t: Tables, k: VcKey, n: string)
    requires k in t.vcs
    ensures Endpoints(t.(vcs := t.vcs - {k}), n)
         == Endpoints(t, n) - Ends(n, t.vcs[k].input, t.vcs[k].output)
  {
    CountRemoved(t.vcs, k, (c: VcConn) => c.input == n);
    CountRemoved(t.vcs, k, (c: VcConn) => c.output == n);
  }

  lemma RefsVcDeleted(refs: map<string, int>, others: map<string, int>, t: Tables, k: VcKey, refs': map<string, int>)
    requires RefsMatch(refs, others, t) && k in t.vcs
    requires refs'.Keys == refs.Keys
    requires forall n :: n in refs' ==> refs'[n] == refs[n] - Ends(n, t.vcs[k].input, t.vcs[k].output)
    ensures RefsMatch(refs', others, t.(vcs := t.vcs - {k}))
  {
    hide Endpoints, Ends;
    forall n | n in others
      ensures refs'[n] == others[n] + Endpoints(t.(vcs := t.vcs - {k}), n)
    {
      EndpointsVcDeleted(t, k, n);
    }
  }

  lemma EndpointsVpCounted(t: Tables, k: VpKey, e: VpConn, n: string)
    requires k in t.vps && e.input == t.vps[k].input && e.output == t.vps[k].output
    ensures Endpoints(t.(vps := t.vps[k := e]), n) == Endpoints(t, n)
  {
    CountReplaced(t.vps, k, e, (c: VpConn) => c.input == n);
    CountReplaced(t.vps, k, e, (c: VpConn) => c.output == n);
  }

  /** A counter going up moves no reference. */
  lemma RefsVpCounted(refs: map<string, int>, others: map<string, int>, t: Tables, k: VpKey, e: VpConn)
    requires RefsMatch(refs, others, t)
    requires k in t.vps && e.input == t.vps[k].input && e.output == t.vps[k].output
    ensures RefsMatch(refs, others, t.(vps := t.vps[k := e]))
  {
    hide Endpoints;
    forall n | n in others
      ensures Endpoints(t.(vps := t.vps[k := e]), n) == Endpoints(t, n)
    {
      EndpointsVpCounted(t, k, e, n);
    }
  }

  lemma EndpointsVcCounted(t: Tables, k: VcKey, e: VcConn, n: string)
    requires k in t.vcs && e.input == t.vcs[k].input && e.output == t.vcs[k].output
    ensures Endpoints(t.(vcs := t.vcs[k := e]), n) == Endpoints(t, n)
  {
    CountReplaced(t.vcs, k, e, (c: VcConn) => c.input == n);
    CountReplaced(t.vcs, k, e, (c: VcConn) => c.output == n);
  }

  /** A counter going up moves no reference. */
  lemma RefsVcCounted(refs: map<string, int>, others: map<string, int>, t: Tables, k: VcKey, e: VcConn)
    requires RefsMatch(refs, others, t)
    requires k in t.vcs && e.input == t.vcs[k].input && e.output == t.vcs[k].output
    ensures RefsMatch(refs, others, t.(vcs := t.vcs[k := e]))
  {
    hide Endpoints;
    forall n | n in others
      ensures Endpoints(t.(vcs := t.vcs[k := e]), n) == Endpoints(t, n)
    {
      EndpointsVcCounted(t, k, e, n);
    }
  }

  class Switch {
    const registry: Registry
    const rxl: RxList
    const hecTable: array<Byte>
    const vpTable: array<seq<VpConn>>
    const vcTable: array<seq<VcConn>>
    var cellDrop: Counter
    /** Cells the descriptors accepted, in order. */
    var sent: seq<(string, seq<Byte>)>

    /** The two tables as maps, and the references held by everyone else. */
    ghost var tables: Tables
    ghost var others: map<string, int>

    ghost predicate TablesMatch()
      reads this, vpTable, vcTable
    {
      && vpTable.Length == VP_HASH_SIZE && vcTable.Length == VC_HASH_SIZE
      && vpTable as object != vcTable && vpTable as object != hecTable && vcTable as object != hecTable
      && Refines(vpTable[..], tables.vps, KeyOfVp, VpHash)
      && Refines(vcTable[..], tables.vcs, KeyOfVc, VcHash)
    }

    ghost predicate Valid()
      reads this, registry, hecTable, vpTable, vcTable
    {
      && TablesMatch()
      && RefsMatch(registry.refs, others, tables)
      && IsSyndromeTable(hecTable[..])
    }

    /** `atmsw_create_table`. */
    constructor (registry: Registry, rxl: RxList, hecTable: array<Byte>)
      requires IsSyndromeTable(hecTable[..])
      ensures Valid() && tables == EMPTY && others == registry.refs
      ensures this.registry == registry && this.rxl == rxl && this.hecTable == hecTable
      ensures fresh(vpTable) && fresh(vcTable)
      ensures cellDrop == ZERO_COUNT && sent == []
    {
      this.registry, this.rxl, this.hecTable, this.others := registry, rxl, hecTable, registry.refs;
      vpTable := new seq<VpConn>[VP_HASH_SIZE](_ => []);
      vcTable := new seq<VcConn>[VC_HASH_SIZE](_ => []);
      cellDrop, sent, tables := ZERO_COUNT, [], EMPTY;
      new;
      EmptyRefines(vpTable[..], KeyOfVp, VpHash);
      EmptyRefines(vcTable[..], KeyOfVc, VcHash);
      forall n
        ensures Endpoints(EMPTY, n) == 0
      {
        NoEndpoints(n);
      }
    }

    /**
     * The registry is shared: after another holder's acquire (`d` is 1) or
     * release (-1) the switch is as it was, with that holder's count moved.
     */
    ghost method Follow(name: string, d: int)
      requires TablesMatch() && IsSyndromeTable(hecTable[..]) && name in registry.refs
      requires RefsMatch(registry.refs[name := registry.refs[name] - d], others, tables)
      modifies this`others
      ensures Valid() && name in old(others) && others == old(others)[name := old(others)[name] + d]
    {
      hide Refines, RefsMatch, VpHash, VcHash;
      ghost var refs := registry.refs[name := registry.refs[name] - d];
      RefsElsewhere(refs, others, tables, name, d);
      assert refs[name := refs[name] + d] == registry.refs;
      OthersNamed(refs, others, tables, name);
      others := others[name := others[name] + d];
    }

    /** `atmsw_vp_lookup`: the place in the bucket, or -1. */
    method VpLookup(k: VpKey) returns (pos: int)
      requires TablesMatch()
      ensures -1 <= pos < |vpTable[VpHash(k)]|
      ensures pos >= 0 <==> k in tables.vps
      ensures pos >= 0 ==> vpTable[VpHash(k)][pos] == tables.vps[k]
    {
      hide VpHash, VcHash, RefsMatch;
      var bucket := vpTable[VpHash(k)];
      for i := 0 to |bucket|
        invariant forall j :: 0 <= j < i ==> KeyOfVp(bucket[j]) != k
      {
        if bucket[i].input == k.input && bucket[i].vpiIn == k.vpi {
          assert vpTable[..][VpHash(k)][i] == bucket[i];
          return i;
        }
      }
      Absent(vpTable[..], tables.vps, KeyOfVp, VpHash, k);
      return -1;
    }

    /** `atmsw_vc_lookup`. */
    method VcLookup(k: VcKey) returns (pos: int)
      requires TablesMatch()
      ensures -1 <= pos < |vcTable[VcHash(k)]|
      ensures pos >= 0 <==> k in tables.vcs
      ensures pos >= 0 ==> vcTable[VcHash(k)][pos] == tables.vcs[k]
    {
      hide VpHash, VcHash, RefsMatch;
      var bucket := vcTable[VcHash(k)];
      for i := 0 to |bucket|
        invariant forall j :: 0 <= j < i ==> KeyOfVc(bucket[j]) != k
      {
        if bucket[i].input == k.input && bucket[i].vpiIn == k.vpi && bucket[i].vciIn == k.vci {
          assert vcTable[..][VcHash(k)][i] == bucket[i];
          return i;
        }
      }
      Absent(vcTable[..], tables.vcs, KeyOfVc, VcHash, k);
      return -1;
    }

    /** The new entry at the head of its bucket. */
    method LinkVp(e: VpConn)
      requires TablesMatch() && KeyOfVp(e) !in tables.vps
      modifies this`tables, vpTable
      ensures TablesMatch()
      ensures tables == old(tables).(vps := old(tables).vps[KeyOfVp(e) := e])
    {
      hide VpHash, VcHash, Refines;
      var h := VpHash(KeyOfVp(e));
      Inserted(vpTable[..], tables.vps, KeyOfVp, VpHash, e);
      vpTable[h] := [e] + vpTable[h];
      assert vpTable[..] == old(vpTable[..])[h := [e] + old(vpTable[..])[h]];
      tables := tables.(vps := tables.vps[KeyOfVp(e) := e]);
    }

    /** The new entry at the head of its bucket. */
    method LinkVc(e: VcConn)
      requires TablesMatch() && KeyOfVc(e) !in tables.vcs
      modifies this`tables, vcTable
      ensures TablesMatch()
      ensures tables == old(tables).(vcs := old(tables).vcs[KeyOfVc(e) := e])
    {
      hide VpHash, VcHash, Refines;
      var h := VcHash(KeyOfVc(e));
      Inserted(vcTable[..], tables.vcs, KeyOfVc, VcHash, e);
      vcTable[h] := [e] + vcTable[h];
      assert vcTable[..] == old(vcTable[..])[h := [e] + old(vcTable[..])[h]];
      tables := tables.(vcs := tables.vcs[KeyOfVc(e) := e]);
    }

    /** `atmsw_release_vpc` and `atmsw_release_vcc`: the ends that were found, and the input's listener. */
    method ReleaseConn(input: string, inputFound: bool, output: string, outputFound: bool)
      requires inputFound == (input in registry.refs) && outputFound == (output in registry.refs)
      modifies registry, rxl
      ensures registry.refs.Keys == old(registry.refs).Keys
      ensures forall n :: n in registry.refs ==> registry.refs[n] == old(registry.refs)[n] - Ends(n, input, output)
      ensures rxl.counts == if inputFound then Unheard(old(rxl.counts), input) else old(rxl.counts)
    {
      hide Ends;
      if inputFound {
        rxl.Remove(input);
      }
      registry.ReleaseEnds(input, inputFound, output, outputFound);
    }

    /**
     * `atmsw_create_vpc`. The flags are the outcomes of `mp_alloc` and
     * `netio_rxl_add`.
     */
    method CreateVpc(input: string, vpiIn: UInt, output: string, vpiOut: UInt, alloc: bool, listener: bool)
      returns (res: int)
      requires Valid()
      modifies this`tables, registry, rxl, vpTable
      ensures Valid() && registry.refs.Keys == old(registry.refs).Keys
      ensures var q := Create(Command.CreateVpc(input, vpiIn, output, vpiOut), alloc, listener);
              Board(tables, rxl.counts) == Serve(registry.refs.Keys, old(Board(tables, rxl.counts)), q)
      ensures var c := Command.CreateVpc(input, vpiIn, output, vpiOut);
              res == (if alloc && listener && Accepts(registry.refs.Keys, old(tables), c) then 0 else -1)
              && tables == (if res == 0 then Created(old(tables), c) else old(tables))
      ensures res != 0 ==> vpTable[..] == old(vpTable[..]) && registry.refs == old(registry.refs)
    {
      hide Refines, RefsMatch, Ends, VpHash, VcHash;
      ghost var c := Command.CreateVpc(input, vpiIn, output, vpiOut);
      if !alloc {
        return -1;
      }
      ghost var refs0 := registry.refs;
      var inputFound, outputFound := registry.AcquireEnds(input, output);
      var ok := inputFound && outputFound;
      if ok {
        var pos := VpLookup(VpKey(input, vpiIn));
        ok := pos < 0 && listener;
      }
      if !ok {
        ReleaseConn(input, inputFound, output, outputFound);
        assert registry.refs == refs0;
        return -1;
      }
      rxl.Add(input);
      RefsCreated(refs0, others, tables, c, registry.refs);
      LinkVp(VpConn(input, vpiIn, output, vpiOut, ZERO_COUNT));
      assert tables == Created(old(tables), c);
      return 0;
    }

    /** `atmsw_create_vcc`: refused when the VPI is already switched as a whole. */
    method CreateVcc(input: string, vpiIn: UInt, vciIn: UInt, output: string, vpiOut: UInt, vciOut: UInt,
                     alloc: bool, listener: bool) returns (res: int)
      requires Valid()
      modifies this`tables, registry, rxl, vcTable
      ensures Valid() && registry.refs.Keys == old(registry.refs).Keys
      ensures var q := Create(Command.CreateVcc(input, vpiIn, vciIn, output, vpiOut, vciOut), alloc, listener);
              Board(tables, rxl.counts) == Serve(registry.refs.Keys, old(Board(tables, rxl.counts)), q)
      ensures var c := Command.CreateVcc(input, vpiIn, vciIn, output, vpiOut, vciOut);
              res == (if alloc && listener && Accepts(registry.refs.Keys, old(tables), c) then 0 else -1)
              && tables == (if res == 0 then Created(old(tables), c) else old(tables))
      ensures res != 0 ==> vcTable[..] == old(vcTable[..]) && registry.refs == old(registry.refs)
    {
      hide Refines, RefsMatch, Ends, VpHash, VcHash;
      ghost var c := Command.CreateVcc(input, vpiIn, vciIn, output, vpiOut, vciOut);
      if !alloc {
        return -1;
      }
      ghost var refs0 := registry.refs;
      var inputFound, outputFound := registry.AcquireEnds(input, output);
      var ok := true;
      if inputFound {
        var pos := VpLookup(VpKey(input, vpiIn));
        ok := pos < 0;
      }
      if ok {
        ok := inputFound && outputFound;
        if ok {
          var pos := VcLookup(VcKey(input, vpiIn, vciIn));
          ok := pos < 0 && listener;
        }
      }
      if !ok {
        ReleaseConn(input, inputFound, output, outputFound);
        assert registry.refs == refs0;
        return -1;
      }
      rxl.Add(input);
      RefsCreated(refs0, others, tables, c, registry.refs);
      LinkVc(VcConn(input, vpiIn, vciIn, output, vpiOut, vciOut, ZERO_COUNT));
      assert tables == Created(old(tables), c);
      return 0;
    }

    /** Take one entry out of its bucket. */
    method UnlinkVp(h: nat, i: nat)
      requires TablesMatch() && h < vpTable.Length && i < |vpTable[h]|
      modifies this`tables, vpTable
      ensures TablesMatch()
      ensures tables == old(tables).(vps := old(tables).vps - {KeyOfVp(old(vpTable[h][i]))})
    {
      hide VpHash, VcHash, Refines;
      Removed(vpTable[..], tables.vps, KeyOfVp, VpHash, h, i);
      tables := tables.(vps := tables.vps - {KeyOfVp(vpTable[h][i])});
      vpTable[h] := Cut(vpTable[h], i);
      assert vpTable[..] == old(vpTable[..])[h := Cut(old(vpTable[..])[h], i)];
    }

    /** Step the counter of one entry. */
    method CountVp(h: nat, i: nat)
      requires TablesMatch() && h < vpTable.Length && i < |vpTable[h]|
      modifies this`tables, vpTable
      ensures TablesMatch()
      ensures var e := old(vpTable[h][i]);
              tables == old(tables).(vps := old(tables).vps[KeyOfVp(e) := e.(cellCnt := Tick(e.cellCnt))])
    {
      hide Tick, VpHash, VcHash, Refines;
      var e := vpTable[h][i];
      Replaced(vpTable[..], tables.vps, KeyOfVp, VpHash, h, i, e.(cellCnt := Tick(e.cellCnt)));
      tables := tables.(vps := tables.vps[KeyOfVp(e) := e.(cellCnt := Tick(e.cellCnt))]);
      vpTable[h] := vpTable[h][i := e.(cellCnt := Tick(e.cellCnt))];
      assert vpTable[..] == old(vpTable[..])[h := old(vpTable[..])[h][i := e.(cellCnt := Tick(e.cellCnt))]];
    }

    /** Take one entry out of its bucket. */
    method UnlinkVc(h: nat, i: nat)
      requires TablesMatch() && h < vcTable.Length && i < |vcTable[h]|
      modifies this`tables, vcTable
      ensures TablesMatch()
      ensures tables == old(tables).(vcs := old(tables).vcs - {KeyOfVc(old(vcTable[h][i]))})
    {
      hide VpHash, VcHash, Refines;
      Removed(vcTable[..], tables.vcs, KeyOfVc, VcHash, h, i);
      tables := tables.(vcs := tables.vcs - {KeyOfVc(vcTable[h][i])});
      vcTable[h] := Cut(vcTable[h], i);
      assert vcTable[..] == old(vcTable[..])[h := Cut(old(vcTable[..])[h], i)];
    }

    /** Step the counter of one entry. */
    method CountVc(h: nat, i: nat)
      requires TablesMatch() && h < vcTable.Length && i < |vcTable[h]|
      modifies this`tables, vcTable
      ensures TablesMatch()
      ensures var e := old(vcTable[h][i]);
              tables == old(tables).(vcs := old(tables).vcs[KeyOfVc(e) := e.(cellCnt := Tick(e.cellCnt))])
    {
      hide Tick, VpHash, VcHash, Refines;
      var e := vcTable[h][i];
      Replaced(vcTable[..], tables.vcs, KeyOfVc, VcHash, h, i, e.(cellCnt := Tick(e.cellCnt)));
      tables := tables.(vcs := tables.vcs[KeyOfVc(e) := e.(cellCnt := Tick(e.cellCnt))]);
      vcTable[h] := vcTable[h][i := e.(cellCnt := Tick(e.cellCnt))];
      assert vcTable[..] == old(vcTable[..])[h := old(vcTable[..])[h][i := e.(cellCnt := Tick(e.cellCnt))]];
    }

    /** The place of the entry that matches in every value, or -1. */
    method FindVp(input: string, vpiIn: UInt, output: string, vpiOut: UInt, known: bool) returns (pos: int)
      requires TablesMatch()
      ensures -1 <= pos < |vpTable[VpHash(VpKey(input, vpiIn))]|
      ensures var k := VpKey(input, vpiIn);
              pos >= 0 <==> known && k in tables.vps && VpLeads(tables.vps[k], output, vpiOut)
      ensures pos >= 0 ==> vpTable[VpHash(VpKey(input, vpiIn))][pos] == tables.vps[VpKey(input, vpiIn)]
    {
      hide VpHash, VcHash;
      var k := VpKey(input, vpiIn);
      var h := VpHash(k);
      var bucket := vpTable[h];
      for i := 0 to |bucket|
        invariant forall j :: 0 <= j < i ==> !(known && KeyOfVp(bucket[j]) == k && VpLeads(bucket[j], output, vpiOut))
      {
        if known && KeyOfVp(bucket[i]) == k && VpLeads(bucket[i], output, vpiOut) {
          assert vpTable[..][h][i] == bucket[i];
          return i;
        }
      }
      assert k in tables.vps ==> tables.vps[k] in vpTable[..][h];
      return -1;
    }

    /** The place of the entry that matches in every value, or -1. */
    method FindVc(input: string, vpiIn: UInt, vciIn: UInt, output: string, vpiOut: UInt, vciOut: UInt, known: bool)
      returns (pos: int)
      requires TablesMatch()
      ensures -1 <= pos < |vcTable[VcHash(VcKey(input, vpiIn, vciIn))]|
      ensures var k := VcKey(input, vpiIn, vciIn);
              pos >= 0 <==> known && k in tables.vcs && VcLeads(tables.vcs[k], output, vpiOut, vciOut)
      ensures pos >= 0 ==> vcTable[VcHash(VcKey(input, vpiIn, vciIn))][pos] == tables.vcs[VcKey(input, vpiIn, vciIn)]
    {
      hide VpHash, VcHash;
      var k := VcKey(input, vpiIn, vciIn);
      var h := VcHash(k);
      var bucket := vcTable[h];
      for i := 0 to |bucket|
        invariant forall j :: 0 <= j < i ==>
                    !(known && KeyOfVc(bucket[j]) == k && VcLeads(bucket[j], output, vpiOut, vciOut))
      {
        if known && KeyOfVc(bucket[i]) == k && VcLeads(bucket[i], output, vpiOut, vciOut) {
          assert vcTable[..][h][i] == bucket[i];
          return i;
        }
      }
      assert k in tables.vcs ==> tables.vcs[k] in vcTable[..][h];
      return -1;
    }

    /** `atmsw_delete_vpc`: all four values must match. */
    method DeleteVpc(input: string, vpiIn: UInt, output: string, vpiOut: UInt) returns (res: int)
      requires Valid()
      modifies this`tables, registry, rxl, vpTable
      ensures Valid() && registry.refs.Keys == old(registry.refs).Keys
      ensures var q := DeleteVp(VpKey(input, vpiIn), output, vpiOut);
              Board(tables, rxl.counts) == Serve(registry.refs.Keys, old(Board(tables, rxl.counts)), q)
      ensures var k := VpKey(input, vpiIn);
              && res == (if k in old(tables).vps && VpLeads(old(tables).vps[k], output, vpiOut) then 0 else -1)
              && tables == (if res == 0 then old(tables).(vps := old(tables).vps - {k}) else old(tables))
      ensures res != 0 ==> vpTable[..] == old(vpTable[..]) && registry.refs == old(registry.refs)
    {
      hide Refines, RefsMatch, Ends, VpHash, VcHash;
      ghost var refs0 := registry.refs;
      ConnectionsRegistered(registry.refs, others, tables);
      KeysMatch(vpTable[..], tables.vps, KeyOfVp, VpHash);
      if input !in registry.refs || output !in registry.refs {
        return -1;
      }
      var pos := FindVp(input, vpiIn, output, vpiOut, true);
      if pos < 0 {
        return -1;
      }
      UnlinkVp(VpHash(VpKey(input, vpiIn)), pos);
      ReleaseConn(input, true, output, true);
      RefsVpDeleted(refs0, others, old(tables), VpKey(input, vpiIn), registry.refs);
      return 0;
    }

    /** `atmsw_delete_vcc`. */
    method DeleteVcc(input: string, vpiIn: UInt, vciIn: UInt, output: string, vpiOut: UInt, vciOut: UInt)
      returns (res: int)
      requires Valid()
      modifies this`tables, registry, rxl, vcTable
      ensures Valid() && registry.refs.Keys == old(registry.refs).Keys
      ensures var q := DeleteVc(VcKey(input, vpiIn, vciIn), output, vpiOut, vciOut);
              Board(tables, rxl.counts) == Serve(registry.refs.Keys, old(Board(tables, rxl.counts)), q)
      ensures var k := VcKey(input, vpiIn, vciIn);
              && res == (if k in old(tables).vcs && VcLeads(old(tables).vcs[k], output, vpiOut, vciOut) then 0 else -1)
              && tables == (if res == 0 then old(tables).(vcs := old(tables).vcs - {k}) else old(tables))
      ensures res != 0 ==> vcTable[..] == old(vcTable[..]) && registry.refs == old(registry.refs)
    {
      hide Refines, RefsMatch, Ends, VpHash, VcHash;
      ghost var refs0 := registry.refs;
      ConnectionsRegistered(registry.refs, others, tables);
      KeysMatch(vcTable[..], tables.vcs, KeyOfVc, VcHash);
      var known := input in registry.refs && output in registry.refs;
      var pos := FindVc(input, vpiIn, vciIn, output, vpiOut, vciOut, known);
      if pos < 0 {
        return -1;
      }
      UnlinkVc(VcHash(VcKey(input, vpiIn, vciIn)), pos);
      ReleaseConn(input, true, output, true);
      RefsVcDeleted(refs0, others, old(tables), VcKey(input, vpiIn, vciIn), registry.refs);
      return 0;
    }

    /** The header word of a cell replaced, and its check byte with it. */
    method Rewrite(cell: array<Byte>, h: bv32)
      requires Valid() && cell.Length == CELL_SIZE && cell != hecTable
      modifies cell
      ensures cell[..] == Cell(h, old(cell[HDR_SIZE..]))
    {
      hide Hton32, CheckByte;
      var b := Hton32(h);
      cell[0], cell[1], cell[2], cell[3] := b[0], b[1], b[2], b[3];
      assert cell[..4] == b;
      InsertHec(hecTable, cell);
    }

    /** `atmsw_vp_switch` on the connection at one place of a bucket. */
    method VpSwitch(k: VpKey, pos: nat, cell: array<Byte>)
      requires Valid() && cell.Length == CELL_SIZE && cell != hecTable
      requires cell as object != vpTable && cell as object != vcTable
      requires pos < |vpTable[VpHash(k)]| && k in tables.vps && vpTable[VpHash(k)][pos] == tables.vps[k]
      modifies this`tables, vpTable, cell
      ensures Valid()
      ensures var e := old(tables).vps[k];
              && tables == old(tables).(vps := old(tables).vps[k := e.(cellCnt := Tick(e.cellCnt))])
              && cell[..] == Cell(WithVpi(HdrOf(old(cell[..])), e.vpiOut), old(cell[..])[HDR_SIZE..])
    {
      hide Tick, HdrOf, VpHash, VcHash, Cell, WithVpi, WithVpiVci, RefsMatch, Refines;
      assert cell[..][HDR_SIZE..] == cell[HDR_SIZE..];
      var e := vpTable[VpHash(k)][pos];
      KeysMatch(vpTable[..], tables.vps, KeyOfVp, VpHash);
      RefsVpCounted(registry.refs, others, tables, k, e.(cellCnt := Tick(e.cellCnt)));
      Rewrite(cell, WithVpi(HdrOf(cell[..]), e.vpiOut));
      CountVp(VpHash(k), pos);
    }

    /** `atmsw_vc_switch`. */
    method VcSwitch(k: VcKey, pos: nat, cell: array<Byte>)
      requires Valid() && cell.Length == CELL_SIZE && cell != hecTable
      requires cell as object != vpTable && cell as object != vcTable
      requires pos < |vcTable[VcHash(k)]| && k in tables.vcs && vcTable[VcHash(k)][pos] == tables.vcs[k]
      modifies this`tables, vcTable, cell
      ensures Valid()
      ensures var e := old(tables).vcs[k];
              && tables == old(tables).(vcs := old(tables).vcs[k := e.(cellCnt := Tick(e.cellCnt))])
              && cell[..] == Cell(WithVpiVci(HdrOf(old(cell[..])), e.vpiOut, e.vciOut), old(cell[..])[HDR_SIZE..])
    {
      hide Tick, HdrOf, VpHash, VcHash, Cell, WithVpi, WithVpiVci, RefsMatch, Refines;
      assert cell[..][HDR_SIZE..] == cell[HDR_SIZE..];
      var e := vcTable[VcHash(k)][pos];
      KeysMatch(vcTable[..], tables.vcs, KeyOfVc, VcHash);
      RefsVcCounted(registry.refs, others, tables, k, e.(cellCnt := Tick(e.cellCnt)));
      Rewrite(cell, WithVpiVci(HdrOf(cell[..]), e.vpiOut, e.vciOut));
      CountVc(VcHash(k), pos);
    }

    /** The lookups of `atmsw_handle_cell`. */
    method SwitchCell(input: string, cell: array<Byte>) returns (found: bool, output: string)
      requires Valid() && cell.Length == CELL_SIZE && cell != hecTable
      requires cell as object != vpTable && cell as object != vcTable
      modifies this`tables, vpTable, vcTable, cell
      ensures Valid() && tables == Counted(old(tables), input, old(cell[..]))
      ensures Forward(old(tables), input, old(cell[..])) == if found then Forwarded(output, cell[..]) else Dropped
      ensures !found ==> cell[..] == old(cell[..])
    {
      hide Tick, HdrOf, VpiOf, VciOf, VpHash, VcHash, Cell, WithVpi, WithVpiVci, RefsMatch, Refines;
      var hdr := HdrOf(cell[..]);
      var vp, vc := VpKey(input, UInt(VpiOf(hdr))), VcKey(input, UInt(VpiOf(hdr)), UInt(VciOf(hdr)));
      var pos := VpLookup(vp);
      if pos >= 0 {
        output := vpTable[VpHash(vp)][pos].output;
        VpSwitch(vp, pos, cell);
        return true, output;
      }
      pos := VcLookup(vc);
      if pos >= 0 {
        output := vcTable[VcHash(vc)][pos].output;
        VcSwitch(vc, pos, cell);
        return true, output;
      }
      return false, "";
    }

    /** `atmsw_handle_cell`; the flag says whether the output descriptor takes the cell. */
    method HandleCell(input: string, cell: array<Byte>, accepted: bool) returns (res: int)
      requires Valid() && cell.Length == CELL_SIZE && cell != hecTable
      requires cell as object != vpTable && cell as object != vcTable
      modifies this`tables, this`cellDrop, this`sent, vpTable, vcTable, cell
      ensures Valid() && tables == Counted(old(tables), input, old(cell[..]))
      ensures match Forward(old(tables), input, old(cell[..]))
              case Dropped => res == -1 && sent == old(sent) && cell[..] == old(cell[..])
              case Forwarded(output, rewritten) =>
                && cell[..] == rewritten
                && res == (if accepted then 0 else -1)
                && sent == old(sent) + (if accepted then [(output, rewritten)] else [])
      ensures cellDrop == if res == 0 then old(cellDrop) else Tick(old(cellDrop))
    {
      hide Tick, Forward, Counted, Refines, RefsMatch;
      var found, output := SwitchCell(input, cell);
      if found && accepted {
        sent := sent + [(output, cell[..])];
        return 0;
      }
      cellDrop := Tick(cellDrop);
      return -1;
    }

    /** `atmsw_recv_cell`. */
    method RecvCell(input: string, cell: array<Byte>, accepted: bool) returns (res: int)
      requires Valid() && cell != hecTable && cell as object != vpTable && cell as object != vcTable
      modifies this`tables, this`cellDrop, this`sent, vpTable, vcTable, cell
      ensures Valid()
      ensures Traffic(tables, sent) == Carried(old(Traffic(tables, sent)), Arrival(input, old(cell[..]), accepted))
      ensures res == 0 <==> |sent| > |old(sent)|
    {
      hide Forward, Counted, Tick, Refines, RefsMatch;
      if cell.Length != CELL_SIZE {
        return -1;
      }
      res := HandleCell(input, cell, accepted);
    }

    method SaveVps() returns (lines: seq<Command>)
      requires TablesMatch()
      ensures lines == VpLines(Walk(vpTable[..]))
    {
      hide Refines;
      lines := [];
      for b := 0 to VP_HASH_SIZE
        invariant lines == VpLines(Walk(vpTable[..b]))
      {
        WalkSnoc(vpTable[..], b);
        assert Walk(vpTable[..b]) + vpTable[b][..0] == Walk(vpTable[..b]);
        for i := 0 to |vpTable[b]|
          invariant lines == VpLines(Walk(vpTable[..b]) + vpTable[b][..i])
        {
          lines := lines + [VpLine(vpTable[b][i])];
          assert Walk(vpTable[..b]) + vpTable[b][..i + 1] == (Walk(vpTable[..b]) + vpTable[b][..i]) + [vpTable[b][i]];
        }
        assert vpTable[b][..|vpTable[b]|] == vpTable[b];
        assert vpTable[..][..b] == vpTable[..b] && vpTable[..][..b + 1] == vpTable[..b + 1];
      }
      assert vpTable[..VP_HASH_SIZE] == vpTable[..];
    }

    method SaveVcs() returns (lines: seq<Command>)
      requires TablesMatch()
      ensures lines == VcLines(Walk(vcTable[..]))
    {
      hide Refines;
      lines := [];
      for b := 0 to VC_HASH_SIZE
        invariant lines == VcLines(Walk(vcTable[..b]))
      {
        WalkSnoc(vcTable[..], b);
        assert Walk(vcTable[..b]) + vcTable[b][..0] == Walk(vcTable[..b]);
        for i := 0 to |vcTable[b]|
          invariant lines == VcLines(Walk(vcTable[..b]) + vcTable[b][..i])
        {
          lines := lines + [VcLine(vcTable[b][i])];
          assert Walk(vcTable[..b]) + vcTable[b][..i + 1] == (Walk(vcTable[..b]) + vcTable[b][..i]) + [vcTable[b][i]];
        }
        assert vcTable[b][..|vcTable[b]|] == vcTable[b];
        assert vcTable[..][..b] == vcTable[..b] && vcTable[..][..b + 1] == vcTable[..b + 1];
      }
      assert vcTable[..VC_HASH_SIZE] == vcTable[..];
    }

    /** `atmsw_save_config`: one creation command for each entry, bucket by bucket. */
    method SaveConfig() returns (lines: seq<Command>)
      requires Valid()
      ensures lines == VpLines(Walk(vpTable[..])) + VcLines(Walk(vcTable[..]))
      ensures Lists(Walk(vpTable[..]), tables.vps, KeyOfVp)
      ensures Lists(Walk(vcTable[..]), tables.vcs, KeyOfVc)
      ensures Registered(registry.refs.Keys, tables)
    {
      hide Refines, RefsMatch, Lists;
      var vpLines := SaveVps();
      var vcLines := SaveVcs();
      lines := vpLines + vcLines;
      WalkLists(vpTable[..], tables.vps, KeyOfVp, VpHash);
      WalkLists(vcTable[..], tables.vcs, KeyOfVc, VcHash);
      ConnectionsRegistered(registry.refs, others, tables);
    }
  }

  lemma ConnectionsRegistered(refs: map<string, int>, others: map<string, int>, t: Tables)
    requires RefsMatch(refs, others, t)
    ensures forall k :: k in t.vps ==> t.vps[k].input in refs && t.vps[k].output in refs
    ensures forall k :: k in t.vcs ==> t.vcs[k].input in refs && t.vcs[k].output in refs
  {
  }

  lemma NoEndpoints(n: string)
    ensures Endpoints(EMPTY, n) == 0
  {
    assert Count<VpKey, VpConn>(map[], (c: VpConn) => c.input == n) == 0;
    assert Count<VpKey, VpConn>(map[], (c: VpConn) => c.output == n) == 0;
    assert Count<VcKey, VcConn>(map[], (c: VcConn) => c.input == n) == 0;
    assert Count<VcKey, VcConn>(map[], (c: VcConn) => c.output == n) == 0;
  }

  // ---- The saved configuration and its replay ----

  function VpLine(c: VpConn): Command {
    CreateVpc(c.input, c.vpiIn, c.output, c.vpiOut)
  }

  function VcLine(c: VcConn): Command {
    CreateVcc(c.input, c.vpiIn, c.vciIn, c.output, c.vpiOut, c.vciOut)
  }

  function VpLines(s: seq<VpConn>): seq<Command> {
    seq(|s|, i requires 0 <= i < |s| => VpLine(s[i]))
  }

  function VcLines(s: seq<VcConn>): seq<Command> {
    seq(|s|, i requires 0 <= i < |s| => VcLine(s[i]))
  }

  /** The commands run one after the other. */
  function Replay(names: set<string>, t: Tables, lines: seq<Command>): Tables {
    if lines == [] then t
    else Apply(names, Replay(names, t, lines[..|lines| - 1]), lines[|lines| - 1])
  }

  /** A VC connection that a VP connection of the same input and VPI hides. */
  predicate Shadowed(t: Tables, k: VcKey) {
    VpKey(k.input, k.vpi) in t.vps
  }

  /** What a replay rebuilds: everything but the shadowed connections and the counts. */
  function Rebuilt(t: Tables): Tables {
    Tables(map k | k in t.vps :: t.vps[k].(cellCnt := ZERO_COUNT),
           map k | k in t.vcs && !Shadowed(t, k) :: t.vcs[k].(cellCnt := ZERO_COUNT))
  }

  ghost predicate Registered(names: set<string>, t: Tables) {
    && (forall k :: k in t.vps ==> t.vps[k].input in names && t.vps[k].output in names)
    && (forall k :: k in t.vcs ==> t.vcs[k].input in names && t.vcs[k].output in names)
  }

  function ZeroVps(vs: seq<VpConn>): seq<VpConn> {
    seq(|vs|, i requires 0 <= i < |vs| => vs[i].(cellCnt := ZERO_COUNT))
  }

  /** The VC lines that get through next to the VP connections `v`. */
  function KeptVcs(v: map<VpKey, VpConn>, cs: seq<VcConn>): seq<VcConn> {
    if cs == [] then []
    else
      var c := cs[|cs| - 1];
      KeptVcs(v, cs[..|cs| - 1]) + (if VpKey(c.input, c.vpiIn) in v then [] else [c.(cellCnt := ZERO_COUNT)])
  }

  lemma {:induction false} KeptFacts(v: map<VpKey, VpConn>, cs: seq<VcConn>)
    ensures forall e :: e in KeptVcs(v, cs) ==>
              VpKey(e.input, e.vpiIn) !in v && exists c :: c in cs && c.(cellCnt := ZERO_COUNT) == e
    ensures forall c :: c in cs && VpKey(c.input, c.vpiIn) !in v ==> c.(cellCnt := ZERO_COUNT) in KeptVcs(v, cs)
  {
    if cs != [] {
      KeptFacts(v, cs[..|cs| - 1]);
      assert cs == cs[..|cs| - 1] + [cs[|cs| - 1]];
    }
  }

  lemma ReplaySnoc(names: set<string>, t: Tables, lines: seq<Command>, c: Command)
    ensures Replay(names, t, lines + [c]) == Apply(names, Replay(names, t, lines), c)
  {
    assert (lines + [c])[..|lines|] == lines;
  }

  lemma NewVpKey(vs: seq<VpConn>, n: nat)
    requires n < |vs| && DistinctKeys(vs, KeyOfVp)
    ensures KeyOfVp(vs[n]) !in MapOf(ZeroVps(vs[..n]), KeyOfVp)
  {
    hide MapOf;
    MapOfFacts(ZeroVps(vs[..n]), KeyOfVp);
  }

  lemma VpSnoc(vs: seq<VpConn>, c: VpConn)
    ensures VpLines(vs + [c]) == VpLines(vs) + [VpLine(c)]
    ensures ZeroVps(vs + [c]) == ZeroVps(vs) + [c.(cellCnt := ZERO_COUNT)]
  {
  }

  lemma VcSnoc(cs: seq<VcConn>, c: VcConn)
    ensures VcLines(cs + [c]) == VcLines(cs) + [VcLine(c)]
  {
  }

  ghost predicate ReplayableVps(names: set<string>, vs: seq<VpConn>) {
    DistinctKeys(vs, KeyOfVp) && forall i :: 0 <= i < |vs| ==> vs[i].input in names && vs[i].output in names
  }

  ghost predicate ReplayableVcs(names: set<string>, cs: seq<VcConn>) {
    DistinctKeys(cs, KeyOfVc) && forall i :: 0 <= i < |cs| ==> cs[i].input in names && cs[i].output in names
  }

  lemma VpInit(names: set<string>, vs: seq<VpConn>)
    requires vs != [] && ReplayableVps(names, vs)
    ensures var n := |vs| - 1;
            ReplayableVps(names, vs[..n]) && vs == vs[..n] + [vs[n]] && vs[n].input in names && vs[n].output in names
  {
  }

  lemma VcInit(names: set<string>, cs: seq<VcConn>)
    requires cs != [] && ReplayableVcs(names, cs)
    ensures var n := |cs| - 1;
            ReplayableVcs(names, cs[..n]) && cs == cs[..n] + [cs[n]] && cs[n].input in names && cs[n].output in names
  {
  }

  lemma {:induction false} ReplayVps(names: set<string>, vs: seq<VpConn>)
    requires ReplayableVps(names, vs)
    ensures Replay(names, EMPTY, VpLines(vs)) == Tables(MapOf(ZeroVps(vs), KeyOfVp), map[])
  {
    if vs != [] {
      var (c, init) := (vs[|vs| - 1], vs[..|vs| - 1]);
      hide Replay, MapOf, VpLines, ZeroVps;
      NewVpKey(vs, |vs| - 1);
      VpInit(names, vs);
      ReplayVps(names, init);
      VpSnoc(init, c);
      ReplaySnoc(names, EMPTY, VpLines(init), VpLine(c));
      MapOfSnoc(ZeroVps(init), KeyOfVp, c.(cellCnt := ZERO_COUNT));
    }
  }

  lemma NewVcKey(v: map<VpKey, VpConn>, cs: seq<VcConn>, n: nat)
    requires n < |cs| && DistinctKeys(cs, KeyOfVc)
    ensures KeyOfVc(cs[n]) !in MapOf(KeptVcs(v, cs[..n]), KeyOfVc)
  {
    hide MapOf, KeptVcs;
    KeptFacts(v, cs[..n]);
    MapOfFacts(KeptVcs(v, cs[..n]), KeyOfVc);
  }

  lemma KeptSnoc(v: map<VpKey, VpConn>, cs: seq<VcConn>, c: VcConn)
    ensures KeptVcs(v, cs + [c])
         == if VpKey(c.input, c.vpiIn) in v then KeptVcs(v, cs) else KeptVcs(v, cs) + [c.(cellCnt := ZERO_COUNT)]
  {
    assert (cs + [c])[..|cs|] == cs;
  }

  /** One VC line: refused if shadowed, else added. */
  lemma VcStep(names: set<string>, v: map<VpKey, VpConn>, m: map<VcKey, VcConn>, c: VcConn)
    requires c.input in names && c.output in names && KeyOfVc(c) !in m
    ensures Apply(names, Tables(v, m), VcLine(c))
         == Tables(v, if VpKey(c.input, c.vpiIn) in v then m else m[KeyOfVc(c) := c.(cellCnt := ZERO_COUNT)])
  {
  }

  lemma LinesSnoc(a: seq<Command>, b: seq<Command>, c: Command)
    ensures a + (b + [c]) == (a + b) + [c]
  {
  }

  lemma NoVcs(names: set<string>, v: map<VpKey, VpConn>, vpLines: seq<Command>)
    ensures vpLines + VcLines([]) == vpLines && MapOf(KeptVcs(v, []), KeyOfVc) == map[]
  {
  }

  lemma {:induction false} ReplayVcs(names: set<string>, v: map<VpKey, VpConn>, vpLines: seq<Command>, cs: seq<VcConn>)
    requires Replay(names, EMPTY, vpLines) == Tables(v, map[])
    requires ReplayableVcs(names, cs)
    ensures Replay(names, EMPTY, vpLines + VcLines(cs)) == Tables(v, MapOf(KeptVcs(v, cs), KeyOfVc))
  {
    hide *;
    if cs == [] {
      NoVcs(names, v, vpLines);
    } else {
      var (c, init) := (cs[|cs| - 1], cs[..|cs| - 1]);
      VcInit(names, cs);
      FreshVc(names, v, cs);
      ReplayVcs(names, v, vpLines, init);
      VcSnoc(init, c);
      LinesSnoc(vpLines, VcLines(init), VcLine(c));
      ReplaySnoc(names, EMPTY, vpLines + VcLines(init), VcLine(c));
      KeptSnoc(v, init, c);
      VcStep(names, v, MapOf(KeptVcs(v, init), KeyOfVc), c);
      MapOfSnoc(KeptVcs(v, init), KeyOfVc, c.(cellCnt := ZERO_COUNT));
      ZeroKey(c);
    }
  }

  lemma ZeroKey(c: VcConn)
    ensures KeyOfVc(c.(cellCnt := ZERO_COUNT)) == KeyOfVc(c)
  {
  }

  lemma FreshVc(names: set<string>, v: map<VpKey, VpConn>, cs: seq<VcConn>)
    requires cs != [] && ReplayableVcs(names, cs)
    ensures KeyOfVc(cs[|cs| - 1]) !in MapOf(KeptVcs(v, cs[..|cs| - 1]), KeyOfVc)
  {
    NewVcKey(v, cs, |cs| - 1);
  }

  lemma RebuiltVps(t: Tables, vs: seq<VpConn>)
    requires Lists(vs, t.vps, KeyOfVp)
    ensures MapOf(ZeroVps(vs), KeyOfVp) == Rebuilt(t).vps
  {
    var (z, m) := (ZeroVps(vs), Rebuilt(t).vps);
    forall i | 0 <= i < |z|
      ensures KeyOfVp(z[i]) in m && m[KeyOfVp(z[i])] == z[i]
    {
      assert KeyOfVp(vs[i]) in t.vps;
    }
    forall i, j | 0 <= i < j < |z|
      ensures KeyOfVp(z[i]) != KeyOfVp(z[j])
    {
      assert KeyOfVp(vs[i]) != KeyOfVp(vs[j]);
    }
    forall k | k in m
      ensures m[k] in z
    {
      var j :| 0 <= j < |vs| && vs[j] == t.vps[k];
      assert z[j] == m[k];
    }
    ListingRebuilds(z, m, KeyOfVp);
  }

  lemma KeptAreListed(t: Tables, v: map<VpKey, VpConn>, cs: seq<VcConn>, e: VcConn)
    requires Lists(cs, t.vcs, KeyOfVc) && e in KeptVcs(v, cs)
    ensures var k := KeyOfVc(e);
            k in t.vcs && VpKey(k.input, k.vpi) !in v && t.vcs[k].(cellCnt := ZERO_COUNT) == e
  {
    hide KeptVcs;
    KeptFacts(v, cs);
    var c :| c in cs && c.(cellCnt := ZERO_COUNT) == e;
    var j :| 0 <= j < |cs| && cs[j] == c;
  }

  lemma ListedAreKept(t: Tables, v: map<VpKey, VpConn>, cs: seq<VcConn>, k: VcKey)
    requires Lists(cs, t.vcs, KeyOfVc) && k in t.vcs && VpKey(k.input, k.vpi) !in v
    ensures k in MapOf(KeptVcs(v, cs), KeyOfVc)
  {
    hide KeptVcs, MapOf;
    KeptFacts(v, cs);
    MapOfFacts(KeptVcs(v, cs), KeyOfVc);
    assert t.vcs[k] in cs && t.vcs[k].(cellCnt := ZERO_COUNT) in KeptVcs(v, cs);
  }

  lemma RebuiltVcs(t: Tables, cs: seq<VcConn>)
    requires Lists(cs, t.vcs, KeyOfVc)
    ensures MapOf(KeptVcs(Rebuilt(t).vps, cs), KeyOfVc) == Rebuilt(t).vcs
  {
    hide MapOf, KeptVcs, Lists;
    var (v, m) := (Rebuilt(t).vps, Rebuilt(t).vcs);
    var r := MapOf(KeptVcs(v, cs), KeyOfVc);
    MapOfFacts(KeptVcs(v, cs), KeyOfVc);
    forall k | k in r
      ensures k in m && r[k] == m[k]
    {
      KeptAreListed(t, v, cs, r[k]);
    }
    forall k | k in m
      ensures k in r
    {
      ListedAreKept(t, v, cs, k);
    }
  }

  /** Replaying a saved configuration into an empty switch. */
  lemma ReplayRebuilds(names: set<string>, t: Tables, vs: seq<VpConn>, cs: seq<VcConn>)
    requires Lists(vs, t.vps, KeyOfVp) && Lists(cs, t.vcs, KeyOfVc) && Registered(names, t)
    ensures Replay(names, EMPTY, VpLines(vs) + VcLines(cs)) == Rebuilt(t)
  {
    hide Replay, Rebuilt, MapOf, KeptVcs, ZeroVps;
    ReplayVps(names, vs);
    ReplayVcs(names, MapOf(ZeroVps(vs), KeyOfVp), VpLines(vs), cs);
    RebuiltVps(t, vs);
    RebuiltVcs(t, cs);
  }

  /** The rebuilt switch forwards every cell on every input as the old one did. */
  lemma RebuiltForwards(t: Tables, input: string, cell: seq<Byte>)
    requires |cell| == CELL_SIZE
    ensures Forward(Rebuilt(t), input, cell) == Forward(t, input, cell)
  {
    hide HdrOf, VpiOf, VciOf, Cell, WithVpi, WithVpiVci;
  }

  /**
   * Save and replay: whatever order the tables were printed in, the replayed
   * switch forwards every cell it is given like the saved one, although a VC
   * connection hidden by a later VP connection is refused. Whether it is given
   * the cells depends on the listeners, see `AtmListeners`.
   */
  lemma SaveReplay(names: set<string>, t: Tables, vs: seq<VpConn>, cs: seq<VcConn>, input: string, cell: seq<Byte>)
    requires Lists(vs, t.vps, KeyOfVp) && Lists(cs, t.vcs, KeyOfVc) && Registered(names, t)
    requires |cell| == CELL_SIZE
    ensures Forward(Replay(names, EMPTY, VpLines(vs) + VcLines(cs)), input, cell) == Forward(t, input, cell)
  {
    hide Replay, Forward, Rebuilt, Lists;
    ReplayRebuilds(names, t, vs, cs);
    RebuiltForwards(t, input, cell);
  }

  /** All connections come back if and only if none is shadowed. */
  lemma ReplayLosesShadowed(names: set<string>, t: Tables, vs: seq<VpConn>, cs: seq<VcConn>)
    requires Lists(vs, t.vps, KeyOfVp) && Lists(cs, t.vcs, KeyOfVc) && Registered(names, t)
    ensures var r := Replay(names, EMPTY, VpLines(vs) + VcLines(cs));
            r.vps.Keys == t.vps.Keys
            && (r.vcs.Keys == t.vcs.Keys <==> forall k :: k in t.vcs ==> !Shadowed(t, k))
  {
    ReplayRebuilds(names, t, vs, cs);
  }
}
