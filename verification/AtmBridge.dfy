/**
 * The RFC 1483 bridge (common/atm_bridge.c): Ethernet frames carried over one
 * ATM virtual circuit in bridged encapsulation (section 4.2 of RFC 1483).
 */
module AtmBridge {
  import opened Bytes
  import opened Hec
  import opened AtmCell
  import opened NetIos
  import opened AtmVsar

  const RFC1483B_HLEN: nat := 10

  const RFC1483B_HEADER: seq<Byte> := [0xaa, 0xaa, 0x03, 0x00, 0x80, 0xc2, 0x00, 0x07, 0x00, 0x00]

  /** The longest frame a bridge can carry. */
  const MAX_FRAME: nat := 16350

  function Encapsulate(frame: seq<Byte>): seq<Byte> {
    RFC1483B_HEADER + frame
  }

  /** The cells a bridge sends for one frame, and for a run of frames. */
  function FrameCells(vpi: bv32, vci: bv32, frame: seq<Byte>): seq<seq<Byte>> {
    PacketCells(MakeHdr(vpi, vci), Encapsulate(frame))
  }

  function AllCells(vpi: bv32, vci: bv32, frames: seq<seq<Byte>>): seq<seq<Byte>> {
    if frames == [] then []
    else AllCells(vpi, vci, frames[..|frames| - 1]) + FrameCells(vpi, vci, frames[|frames| - 1])
  }

  // ---- One cell ----

  /** Cells that `atm_bridge_recv_cell` drops before they reach the buffer. */
  predicate OffCircuit(vpi: bv32, vci: bv32, cell: seq<Byte>) {
    |cell| != CELL_SIZE || VpiOf(HdrOf(cell)) != vpi || VciOf(HdrOf(cell)) != vci
  }

  /** What a finished packet puts on the Ethernet side. */
  function Deliver(r: Reas): seq<seq<Byte>>
    requires r.len <= |r.data|
  {
    if r.len > RFC1483B_HLEN && r.data[..RFC1483B_HLEN] == RFC1483B_HEADER then [r.data[RFC1483B_HLEN..r.len]] else []
  }

  datatype Result = Result(arc: Reas, out: seq<seq<Byte>>, res: int)

  /** `atm_bridge_recv_cell`. */
  function RecvCellStep(vpi: bv32, vci: bv32, arc: Reas, cell: seq<Byte>): Result {
    if |cell| != CELL_SIZE then Result(arc, [], -1)
    else if OffCircuit(vpi, vci, cell) then Result(arc, [], 0)
    else
      var (arc', status) := RecvStep(arc, cell);
      if status == 1 then Result(RESET, Deliver(arc'), 0)
      else if status < 0 then Result(RESET, [], -1)
      else Result(arc', [], 0)
  }

  /** A run over a stream of cells: the final context and the frames emitted. */
  function Run(vpi: bv32, vci: bv32, arc: Reas, stream: seq<seq<Byte>>): Result {
    if stream == [] then Result(arc, [], 0)
    else
      var before := Run(vpi, vci, arc, stream[..|stream| - 1]);
      var step := RecvCellStep(vpi, vci, before.arc, stream[|stream| - 1]);
      Result(step.arc, before.out + step.out, step.res)
  }

  class AtmBridge {
    const ethNio: NetIo
    const atmNio: NetIo
    const hecTable: array<Byte>
    const vpi: bv32
    const vci: bv32
    const arc: ReasContext

    ghost predicate Valid()
      reads this, arc, hecTable
    {
      && arc.Valid()
      && arc.buffer != hecTable
      && IsSyndromeTable(hecTable[..])
      && ethNio != atmNio
    }

    /** `atm_bridge_create` and `atm_bridge_configure`. */
    constructor (ethNio: NetIo, atmNio: NetIo, hecTable: array<Byte>, vpi: bv32, vci: bv32)
      requires IsSyndromeTable(hecTable[..]) && ethNio != atmNio
      ensures Valid() && arc.State() == RESET && fresh(arc) && fresh(arc.buffer)
      ensures this.ethNio == ethNio && this.atmNio == atmNio && this.vpi == vpi && this.vci == vci
    {
      this.ethNio, this.atmNio, this.hecTable, this.vpi, this.vci := ethNio, atmNio, hecTable, vpi, vci;
      var a := new ReasContext();
      arc := a;
    }

    /** `atm_bridge_recv_cell`. */
    method RecvCell(cell: array<Byte>) returns (res: int)
      requires Valid() && cell != arc.buffer
      modifies arc, arc.buffer, ethNio
      ensures Valid()
      ensures var step := RecvCellStep(vpi, vci, old(arc.State()), cell[..]);
              arc.State() == step.arc && ethNio.sent == old(ethNio.sent) + step.out && res == step.res
    {
      hide HdrOf, VpiOf, VciOf, RecvStep;
      ghost var c := cell[..];
      res := 0;
      if cell.Length != CELL_SIZE {
        return -1;
      }
      var hdr := HdrOf(cell[..]);
      if VpiOf(hdr) != vpi || VciOf(hdr) != vci {
        return 0;
      }
      ghost var before := arc.State();
      var status := arc.Recv(cell);
      RecvStatus(before, c);
      if status == 1 {
        if arc.len > RFC1483B_HLEN && arc.buffer[..RFC1483B_HLEN] == RFC1483B_HEADER {
          assert arc.State().data[..RFC1483B_HLEN] == arc.buffer[..RFC1483B_HLEN];
          assert arc.State().data[RFC1483B_HLEN..arc.len] == arc.buffer[RFC1483B_HLEN..arc.len];
          ethNio.Send(arc.buffer[RFC1483B_HLEN..arc.len]);
        }
        arc.Reset();
      } else if status < 0 {
        arc.Reset();
        res := -1;
      }
    }

    /** `atm_bridge_recv_pkt`. */
    method RecvPkt(pkt: seq<Byte>) returns (res: int)
      requires Valid()
      modifies atmNio
      ensures res == 0
      ensures atmNio.sent == old(atmNio.sent) + FrameCells(vpi, vci, pkt)
    {
      res := Aal5Send(atmNio, hecTable, vpi, vci, [RFC1483B_HEADER, pkt]);
      assert Flatten([RFC1483B_HEADER, pkt]) == Encapsulate(pkt) by {
        FlattenAppend([RFC1483B_HEADER], [pkt]);
      }
    }
  }

  lemma RecvStatus(r: Reas, cell: seq<Byte>)
    requires |cell| == CELL_SIZE
    ensures RecvStep(r, cell).1 == 1 ==> RecvStep(r, cell).0.len <= |RecvStep(r, cell).0.data|
  {
    hide IsEop, IsNetwork, HdrOf, Ntoh16;
  }

  // ---- Runs ----

  lemma {:induction false} RunAppend(vpi: bv32, vci: bv32, arc: Reas, a: seq<seq<Byte>>, b: seq<seq<Byte>>)
    ensures Run(vpi, vci, arc, a + b).arc == Run(vpi, vci, Run(vpi, vci, arc, a).arc, b).arc
    ensures Run(vpi, vci, arc, a + b).out == Run(vpi, vci, arc, a).out + Run(vpi, vci, Run(vpi, vci, arc, a).arc, b).out
    decreases |b|
  {
    hide RecvCellStep;
    if b == [] {
      assert a + b == a;
    } else {
      var n := |b| - 1;
      assert (a + b)[..|a + b| - 1] == a + b[..n] && (a + b)[|a + b| - 1] == b[n];
      RunAppend(vpi, vci, arc, a, b[..n]);
    }
  }

  lemma RunOne(vpi: bv32, vci: bv32, arc: Reas, c: seq<Byte>)
    ensures Run(vpi, vci, arc, [c]).arc == RecvCellStep(vpi, vci, arc, c).arc
    ensures Run(vpi, vci, arc, [c]).out == RecvCellStep(vpi, vci, arc, c).out
  {
    hide RecvCellStep;
    assert [c][..0] == [];
  }

  /** The state between cells: whole chunks, room for the last one, no length. */
  ghost predicate Sound(arc: Reas) {
    |arc.data| % 48 == 0 && |arc.data| <= 16368 && arc.len == 0
  }

  /** Under any cell whatever the context stays sound. */
  lemma StepKeepsSound(vpi: bv32, vci: bv32, arc: Reas, cell: seq<Byte>)
    requires Sound(arc)
    ensures Sound(RecvCellStep(vpi, vci, arc, cell).arc)
  {
    hide IsEop, IsNetwork, HdrOf, Ntoh16, VpiOf, VciOf;
  }

  /** Any stream, from a fresh bridge: `buf_pos` is a multiple of 48 and at most 16368. */
  lemma {:induction false} RunKeepsSound(vpi: bv32, vci: bv32, arc: Reas, stream: seq<seq<Byte>>)
    requires Sound(arc)
    ensures Sound(Run(vpi, vci, arc, stream).arc)
  {
    hide RecvCellStep, Sound;
    if stream != [] {
      RunKeepsSound(vpi, vci, arc, stream[..|stream| - 1]);
      StepKeepsSound(vpi, vci, Run(vpi, vci, arc, stream[..|stream| - 1]).arc, stream[|stream| - 1]);
    }
  }

  /** A cell of the circuit that closes a packet. */
  predicate ClosesPacket(vpi: bv32, vci: bv32, cell: seq<Byte>) {
    !OffCircuit(vpi, vci, cell) && !IsNetwork(HdrOf(cell)) && IsEop(HdrOf(cell))
  }

  /** Whatever the context held, a closing cell leaves it reset. */
  lemma ClosingCellResets(vpi: bv32, vci: bv32, arc: Reas, cell: seq<Byte>)
    requires ClosesPacket(vpi, vci, cell)
    ensures RecvCellStep(vpi, vci, arc, cell).arc == RESET
  {
    hide IsEop, IsNetwork, HdrOf, Ntoh16, VpiOf, VciOf;
  }

  // ---- What one cell can make a bridge emit ----

  lemma FrameStart(vpi: bv32, vci: bv32, frame: seq<Byte>)
    ensures |FrameCells(vpi, vci, frame)| > 0 && |FrameCells(vpi, vci, frame)[0]| == CELL_SIZE
    ensures FrameCells(vpi, vci, frame)[0][HDR_SIZE..][..10] == Encapsulate(frame)[..10]
  {
    hide Cell, MakeHdr, WithEop, Pdu;
    PduStarts(Encapsulate(frame));
    var (pdu, chunk) := (Pdu(Encapsulate(frame)), Chunk(Pdu(Encapsulate(frame)), 0));
    assert chunk[..10] == pdu[..10] == Encapsulate(frame)[..10];
  }

  /** The payload of a frame's first cell begins with the header of bridged Ethernet without its check sequence. */
  lemma EncapsulationSent(vpi: bv32, vci: bv32, frame: seq<Byte>)
    ensures |FrameCells(vpi, vci, frame)| > 0 && |FrameCells(vpi, vci, frame)[0]| == CELL_SIZE
    ensures FrameCells(vpi, vci, frame)[0][HDR_SIZE..][..10]
         == [0xaa, 0xaa, 0x03, 0x00, 0x80, 0xc2, 0x00, 0x07, 0x00, 0x00]
  {
    hide FrameCells;
    FrameStart(vpi, vci, frame);
  }

  /** The context after the cell, if the cell is appended to it. */
  function Appended(arc: Reas, cell: seq<Byte>): (d: seq<Byte>)
    requires |cell| == CELL_SIZE
    ensures |d| == |arc.data| + 48
  {
    arc.data + cell[HDR_SIZE..]
  }

  /** The length a closing cell tells: the last two bytes of its trailer before the CRC. */
  function ToldLength(cell: seq<Byte>): nat
    requires |cell| == CELL_SIZE
  {
    0x100 * Value(cell[47]) + Value(cell[48])
  }

  /** There is room for the cell, and it is the last one of a packet of the circuit. */
  predicate Completes(vpi: bv32, vci: bv32, arc: Reas, cell: seq<Byte>) {
    ClosesPacket(vpi, vci, cell) && |arc.data| + 48 <= 16384
  }

  /**
   * What a bridge emits for a cell, for every context and every cell: nothing,
   * unless the cell completes a packet that is at least as long as its trailer
   * says, longer than ten bytes, and begins with the encapsulation; then what
   * follows the encapsulation, up to the length.
   */
  lemma EmittedIff(vpi: bv32, vci: bv32, arc: Reas, cell: seq<Byte>)
    ensures var out := RecvCellStep(vpi, vci, arc, cell).out;
            if Completes(vpi, vci, arc, cell) && 10 < ToldLength(cell) <= |Appended(arc, cell)|
               && Appended(arc, cell)[..10] == [0xaa, 0xaa, 0x03, 0x00, 0x80, 0xc2, 0x00, 0x07, 0x00, 0x00]
            then out == [Appended(arc, cell)[10..ToldLength(cell)]]
            else out == []
  {
    hide HdrOf, VpiOf, VciOf, IsNetwork, IsEop, Value;
  }

  /**
   * When a cell is answered with an error: if it is of another size, and on the
   * circuit if there is no room for it, whatever it carries, or if it closes a
   * packet shorter than its trailer says. The context is then given up, except
   * for the wrong size.
   */
  lemma RefusedIff(vpi: bv32, vci: bv32, arc: Reas, cell: seq<Byte>)
    ensures var r := RecvCellStep(vpi, vci, arc, cell);
            && (r.res == -1 <==>
                  || |cell| != CELL_SIZE
                  || (!OffCircuit(vpi, vci, cell) && |arc.data| + 48 > 16384)
                  || (Completes(vpi, vci, arc, cell) && ToldLength(cell) > |Appended(arc, cell)|))
            && (r.res == -1 || r.res == 0)
            && (r.res == -1 && |cell| == CELL_SIZE ==> r.arc == RESET)
  {
    hide HdrOf, VpiOf, VciOf, IsNetwork, IsEop, Value;
  }

  // ---- One packet ----

  lemma OnCircuit(vpi: bv32, vci: bv32, chunk: seq<Byte>)
    requires InWidth(vpi, vci) && |chunk| == 48
    ensures !OffCircuit(vpi, vci, Cell(MakeHdr(vpi, vci), chunk))
    ensures !OffCircuit(vpi, vci, Cell(WithEop(MakeHdr(vpi, vci)), chunk))
    ensures !IsNetwork(HdrOf(Cell(MakeHdr(vpi, vci), chunk)))
    ensures !IsNetwork(HdrOf(Cell(WithEop(MakeHdr(vpi, vci)), chunk)))
  {
    hide IsEop, IsNetwork, HdrOf, VpiOf, VciOf, MakeHdr, WithEop, Cell, InWidth;
    MadeVpi(vpi, vci);
    MadeVci(vpi, vci);
    MadeHeader(vpi, vci);
    EopKeepsFields(MakeHdr(vpi, vci));
    CellHeader(MakeHdr(vpi, vci), chunk);
    CellHeader(WithEop(MakeHdr(vpi, vci)), chunk);
  }

  lemma MiddleStep(vpi: bv32, vci: bv32, arc: Reas, chunk: seq<Byte>)
    requires InWidth(vpi, vci) && |chunk| == 48 && |arc.data| + 48 <= REAS_MAX_SIZE
    ensures RecvCellStep(vpi, vci, arc, Cell(MakeHdr(vpi, vci), chunk))
         == Result(Reas(arc.data + chunk, arc.len), [], 0)
  {
    hide IsEop, IsNetwork, OffCircuit, MakeHdr, WithEop, Cell, RecvStep, InWidth;
    OnCircuit(vpi, vci, chunk);
    MadeHeader(vpi, vci);
    MiddleCell(arc, MakeHdr(vpi, vci), chunk);
  }

  /** The first `k` cells of a packet, as long as they fit. */
  lemma {:induction false} MiddleRun(vpi: bv32, vci: bv32, pdu: seq<Byte>, k: nat)
    requires InWidth(vpi, vci) && 48 * k <= |pdu| && 48 * k <= REAS_MAX_SIZE
    ensures Run(vpi, vci, RESET, Cells(MakeHdr(vpi, vci), pdu, k)).arc == Reas(pdu[..48 * k], 0)
    ensures Run(vpi, vci, RESET, Cells(MakeHdr(vpi, vci), pdu, k)).out == []
  {
    hide MakeHdr, Cell, RecvCellStep, InWidth;
    if k > 0 {
      MiddleRun(vpi, vci, pdu, k - 1);
      var cells := Cells(MakeHdr(vpi, vci), pdu, k);
      assert cells[..k - 1] == Cells(MakeHdr(vpi, vci), pdu, k - 1);
      MiddleStep(vpi, vci, Reas(pdu[..48 * (k - 1)], 0), Chunk(pdu, k - 1));
      assert pdu[..48 * (k - 1)] + Chunk(pdu, k - 1) == pdu[..48 * k];
    }
  }

  /** The last cell delivers the packet and leaves the context reset. */
  lemma LastStep(vpi: bv32, vci: bv32, data: seq<Byte>, n: nat)
    requires InWidth(vpi, vci) && n == CellCount(|data|) && 0 < n && 48 * n <= REAS_MAX_SIZE
    ensures RecvCellStep(vpi, vci, Reas(Pdu(data)[..48 * (n - 1)], 0),
                         Cell(WithEop(MakeHdr(vpi, vci)), Chunk(Pdu(data), n - 1)))
         == Result(RESET, Deliver(Reas(Pdu(data), |data|)), 0)
  {
    hide IsEop, IsNetwork, OffCircuit, MakeHdr, WithEop, Cell, RecvStep, InWidth, Pdu;
    OnCircuit(vpi, vci, Chunk(Pdu(data), n - 1));
    MadeHeader(vpi, vci);
    LastCellReceived(Reas(Pdu(data)[..48 * (n - 1)], 0), WithEop(MakeHdr(vpi, vci)), data, n);
  }

  lemma DeliverPacket(frame: seq<Byte>)
    ensures Deliver(Reas(Pdu(Encapsulate(frame)), |Encapsulate(frame)|)) == if frame == [] then [] else [frame]
  {
    hide Pdu;
    var data := Encapsulate(frame);
    PduStarts(data);
    assert Pdu(data)[..RFC1483B_HLEN] == data[..RFC1483B_HLEN] == RFC1483B_HEADER;
    assert Pdu(data)[RFC1483B_HLEN..|data|] == data[RFC1483B_HLEN..] == frame;
  }

  /** Every prefix of a packet leaves room for one more cell, and the whole is delivered. */
  lemma PacketRun(vpi: bv32, vci: bv32, frame: seq<Byte>, k: nat)
    requires InWidth(vpi, vci) && |frame| <= MAX_FRAME && k <= |FrameCells(vpi, vci, frame)|
    ensures var r := Run(vpi, vci, RESET, FrameCells(vpi, vci, frame)[..k]);
            if k < |FrameCells(vpi, vci, frame)| then |r.arc.data| + 48 <= REAS_MAX_SIZE && r.out == []
            else r.arc == RESET && r.out == if frame == [] then [] else [frame]
  {
    hide MakeHdr, WithEop, Cell, RecvCellStep, InWidth, Run, Pdu;
    var data := Encapsulate(frame);
    var (h, n) := (MakeHdr(vpi, vci), CellCount(|data|));
    var cells := FrameCells(vpi, vci, frame);
    if k < n {
      assert cells[..k] == Cells(h, Pdu(data), k);
      MiddleRun(vpi, vci, Pdu(data), k);
    } else {
      var c := Cell(WithEop(h), Chunk(Pdu(data), n - 1));
      assert cells[..k] == Cells(h, Pdu(data), n - 1) + [c];
      MiddleRun(vpi, vci, Pdu(data), n - 1);
      RunAppend(vpi, vci, RESET, Cells(h, Pdu(data), n - 1), [c]);
      RunOne(vpi, vci, Reas(Pdu(data)[..48 * (n - 1)], 0), c);
      LastStep(vpi, vci, data, n);
      DeliverPacket(frame);
    }
  }

  // ---- Interleaving ----

  /** Cells that carry nothing for this circuit: wrong size, other circuit, or "network" PTI. */
  predicate Noise(vpi: bv32, vci: bv32, cell: seq<Byte>) {
    OffCircuit(vpi, vci, cell) || IsNetwork(HdrOf(cell))
  }

  /** The stream without its noise. */
  function Signal(vpi: bv32, vci: bv32, stream: seq<seq<Byte>>): seq<seq<Byte>> {
    if stream == [] then []
    else
      var c := stream[|stream| - 1];
      Signal(vpi, vci, stream[..|stream| - 1]) + (if Noise(vpi, vci, c) then [] else [c])
  }

  /** With room for a cell, noise changes nothing. */
  lemma NoiseStep(vpi: bv32, vci: bv32, arc: Reas, cell: seq<Byte>)
    requires Noise(vpi, vci, cell) && |arc.data| + 48 <= REAS_MAX_SIZE
    ensures RecvCellStep(vpi, vci, arc, cell).arc == arc && RecvCellStep(vpi, vci, arc, cell).out == []
  {
    hide IsEop, IsNetwork, HdrOf, VpiOf, VciOf;
  }

  ghost predicate RoomThroughout(vpi: bv32, vci: bv32, arc: Reas, cells: seq<seq<Byte>>) {
    forall k :: 0 <= k <= |cells| ==> |Run(vpi, vci, arc, cells[..k]).arc.data| + 48 <= REAS_MAX_SIZE
  }

  /** A stream behaves like its signal. */
  lemma {:induction false} NoiseIsTransparent(vpi: bv32, vci: bv32, arc: Reas, stream: seq<seq<Byte>>)
    requires RoomThroughout(vpi, vci, arc, Signal(vpi, vci, stream))
    ensures Run(vpi, vci, arc, stream).arc == Run(vpi, vci, arc, Signal(vpi, vci, stream)).arc
    ensures Run(vpi, vci, arc, stream).out == Run(vpi, vci, arc, Signal(vpi, vci, stream)).out
  {
    hide RecvCellStep, Noise;
    if stream != [] {
      var n := |stream| - 1;
      var cells := Signal(vpi, vci, stream);
      var shorter := Signal(vpi, vci, stream[..n]);
      forall k | 0 <= k <= |shorter|
        ensures |Run(vpi, vci, arc, shorter[..k]).arc.data| + 48 <= REAS_MAX_SIZE
      {
        assert shorter[..k] == cells[..k];
      }
      NoiseIsTransparent(vpi, vci, arc, stream[..n]);
      if Noise(vpi, vci, stream[n]) {
        assert shorter == shorter[..|shorter|];
        NoiseStep(vpi, vci, Run(vpi, vci, arc, shorter).arc, stream[n]);
        assert cells == shorter;
      } else {
        assert cells[..|cells| - 1] == shorter;
      }
    }
  }

  ghost predicate Carriable(frames: seq<seq<Byte>>) {
    forall f :: f in frames ==> 1 <= |f| <= MAX_FRAME
  }

  /** One more frame after a run that ended in a reset context. */
  lemma OneMoreFrame(vpi: bv32, vci: bv32, first: seq<seq<Byte>>, frame: seq<Byte>, k: nat)
    requires InWidth(vpi, vci) && 1 <= |frame| <= MAX_FRAME && k <= |FrameCells(vpi, vci, frame)|
    requires Run(vpi, vci, RESET, first).arc == RESET
    ensures var r := Run(vpi, vci, RESET, first + FrameCells(vpi, vci, frame)[..k]);
            if k < |FrameCells(vpi, vci, frame)| then |r.arc.data| + 48 <= REAS_MAX_SIZE
            else r.arc == RESET && r.out == Run(vpi, vci, RESET, first).out + [frame]
  {
    hide FrameCells, InWidth, Run;
    RunAppend(vpi, vci, RESET, first, FrameCells(vpi, vci, frame)[..k]);
    PacketRun(vpi, vci, frame, k);
  }

  /** Whole frames after one another are delivered in order. */
  lemma AllCellsNext(vpi: bv32, vci: bv32, frames: seq<seq<Byte>>)
    requires frames != []
    ensures var n := |frames| - 1;
            AllCells(vpi, vci, frames) == AllCells(vpi, vci, frames[..n]) + FrameCells(vpi, vci, frames[n])
  {
    hide FrameCells;
  }

  lemma NothingRun(vpi: bv32, vci: bv32)
    ensures AllCells(vpi, vci, []) == [] && Run(vpi, vci, RESET, []).arc == RESET && Run(vpi, vci, RESET, []).out == []
  {
  }

  lemma CarriableInit(frames: seq<seq<Byte>>)
    requires frames != [] && Carriable(frames)
    ensures var n := |frames| - 1;
            Carriable(frames[..n]) && frames[n] != [] && |frames[n]| <= MAX_FRAME && frames[..n] + [frames[n]] == frames
  {
  }

  lemma {:induction false} FramesDelivered(vpi: bv32, vci: bv32, frames: seq<seq<Byte>>)
    requires InWidth(vpi, vci) && Carriable(frames)
    ensures Run(vpi, vci, RESET, AllCells(vpi, vci, frames)).arc == RESET
    ensures Run(vpi, vci, RESET, AllCells(vpi, vci, frames)).out == frames
  {
    hide FrameCells, InWidth, Run, AllCells, Carriable;
    if frames == [] {
      NothingRun(vpi, vci);
    } else {
      var n := |frames| - 1;
      var last := FrameCells(vpi, vci, frames[n]);
      AllCellsNext(vpi, vci, frames);
      CarriableInit(frames);
      FramesDelivered(vpi, vci, frames[..n]);
      OneMoreFrame(vpi, vci, AllCells(vpi, vci, frames[..n]), frames[n], |last|);
      assert last[..|last|] == last;
    }
  }

  /** There is room for a cell before every cell of the run. */
  lemma {:induction false} FramesRoom(vpi: bv32, vci: bv32, frames: seq<seq<Byte>>, k: nat)
    requires InWidth(vpi, vci) && Carriable(frames) && k <= |AllCells(vpi, vci, frames)|
    ensures |Run(vpi, vci, RESET, AllCells(vpi, vci, frames)[..k]).arc.data| + 48 <= REAS_MAX_SIZE
    decreases |frames|
  {
    hide FrameCells, InWidth, Run, AllCells, Carriable;
    if frames == [] {
      NothingRun(vpi, vci);
      assert AllCells(vpi, vci, frames)[..k] == [];
    } else {
      var n := |frames| - 1;
      var first := AllCells(vpi, vci, frames[..n]);
      var last := FrameCells(vpi, vci, frames[n]);
      AllCellsNext(vpi, vci, frames);
      CarriableInit(frames);
      if k <= |first| {
        FramesRoom(vpi, vci, frames[..n], k);
        assert (first + last)[..k] == first[..k];
      } else {
        FramesDelivered(vpi, vci, frames[..n]);
        assert (first + last)[..k] == first + last[..k - |first|];
        OneMoreFrame(vpi, vci, first, frames[n], k - |first|);
      }
    }
  }

  /**
   * End to end: a stream whose signal is the cells one bridge sends for some
   * frames makes a bridge with the same circuit emit exactly those frames,
   * once each and in order, wherever noise was mixed in.
   */
  lemma EndToEnd(vpi: bv32, vci: bv32, frames: seq<seq<Byte>>, stream: seq<seq<Byte>>)
    requires InWidth(vpi, vci) && Carriable(frames)
    requires Signal(vpi, vci, stream) == AllCells(vpi, vci, frames)
    ensures Run(vpi, vci, RESET, stream).arc == RESET
    ensures Run(vpi, vci, RESET, stream).out == frames
  {
    hide Run, InWidth;
    var cells := AllCells(vpi, vci, frames);
    forall k | 0 <= k <= |cells|
      ensures |Run(vpi, vci, RESET, cells[..k]).arc.data| + 48 <= REAS_MAX_SIZE
    {
      FramesRoom(vpi, vci, frames, k);
    }
    FramesDelivered(vpi, vci, frames);
    NoiseIsTransparent(vpi, vci, RESET, stream);
  }

  /**
   * Resynchronisation: after any stream at all, from any context at all, one
   * closing cell is enough; the frames sent after it arrive intact.
   */
  lemma Resynchronises(vpi: bv32, vci: bv32, arc: Reas, before: seq<seq<Byte>>, closing: seq<Byte>,
                       frames: seq<seq<Byte>>, after: seq<seq<Byte>>)
    requires InWidth(vpi, vci) && Carriable(frames) && ClosesPacket(vpi, vci, closing)
    requires Signal(vpi, vci, after) == AllCells(vpi, vci, frames)
    ensures Run(vpi, vci, arc, before + [closing] + after).arc == RESET
    ensures Run(vpi, vci, arc, before + [closing] + after).out == Run(vpi, vci, arc, before + [closing]).out + frames
  {
    hide Run, InWidth, ClosesPacket, RecvCellStep, Signal, AllCells;
    RunAppend(vpi, vci, arc, before, [closing]);
    RunOne(vpi, vci, Run(vpi, vci, arc, before).arc, closing);
    ClosingCellResets(vpi, vci, Run(vpi, vci, arc, before).arc, closing);
    RunAppend(vpi, vci, arc, before + [closing], after);
    EndToEnd(vpi, vci, frames, after);
  }

  /** What a bridge sends is all signal. */
  lemma {:induction false} SentIsSignal(vpi: bv32, vci: bv32, frames: seq<seq<Byte>>)
    requires InWidth(vpi, vci)
    ensures Signal(vpi, vci, AllCells(vpi, vci, frames)) == AllCells(vpi, vci, frames)
  {
    hide FrameCells, InWidth, Noise;
    if frames != [] {
      var n := |frames| - 1;
      SentIsSignal(vpi, vci, frames[..n]);
      SignalAppend(vpi, vci, AllCells(vpi, vci, frames[..n]), FrameCells(vpi, vci, frames[n]));
      FrameIsSignal(vpi, vci, frames[n]);
      AllSignal(vpi, vci, FrameCells(vpi, vci, frames[n]));
    }
  }

  lemma {:induction false} SignalAppend(vpi: bv32, vci: bv32, a: seq<seq<Byte>>, b: seq<seq<Byte>>)
    ensures Signal(vpi, vci, a + b) == Signal(vpi, vci, a) + Signal(vpi, vci, b)
    decreases |b|
  {
    hide Noise;
    if b == [] {
      assert a + b == a;
    } else {
      var n := |b| - 1;
      assert (a + b)[..|a + b| - 1] == a + b[..n] && (a + b)[|a + b| - 1] == b[n];
      SignalAppend(vpi, vci, a, b[..n]);
    }
  }

  lemma {:induction false} AllSignal(vpi: bv32, vci: bv32, cells: seq<seq<Byte>>)
    requires forall c :: c in cells ==> !Noise(vpi, vci, c)
    ensures Signal(vpi, vci, cells) == cells
  {
    hide Noise;
    if cells != [] {
      AllSignal(vpi, vci, cells[..|cells| - 1]);
      assert cells[..|cells| - 1] + [cells[|cells| - 1]] == cells;
    }
  }

  lemma FrameIsSignal(vpi: bv32, vci: bv32, frame: seq<Byte>)
    requires InWidth(vpi, vci)
    ensures forall c :: c in FrameCells(vpi, vci, frame) ==> !Noise(vpi, vci, c)
  {
    hide MakeHdr, WithEop, Cell, OffCircuit, IsNetwork, HdrOf, InWidth, Pdu;
    var pdu := Pdu(Encapsulate(frame));
    forall i | 0 <= i < |FrameCells(vpi, vci, frame)|
      ensures !Noise(vpi, vci, FrameCells(vpi, vci, frame)[i])
    {
      OnCircuit(vpi, vci, Chunk(pdu, i));
    }
  }

  // ---- Exactly which frames arrive ----

  /** A circuit outside the field width never receives anything. */
  lemma {:induction false} OutOfWidth(vpi: bv32, vci: bv32, arc: Reas, stream: seq<seq<Byte>>)
    requires !InWidth(vpi, vci)
    ensures Run(vpi, vci, arc, stream).arc == arc && Run(vpi, vci, arc, stream).out == []
  {
    hide InWidth, RecvStep, VpiOf, VciOf, HdrOf;
    if stream != [] {
      OutOfWidth(vpi, vci, arc, stream[..|stream| - 1]);
      var c := stream[|stream| - 1];
      if |c| == CELL_SIZE { FieldsInWidth(HdrOf(c)); }
    }
  }

  /** Nothing longer than the buffer less the encapsulation is ever emitted. */
  lemma {:induction false} EmittedLength(vpi: bv32, vci: bv32, arc: Reas, stream: seq<seq<Byte>>)
    requires Sound(arc)
    ensures forall f :: f in Run(vpi, vci, arc, stream).out ==> |f| <= REAS_MAX_SIZE - RFC1483B_HLEN
  {
    hide Sound, RecvCellStep;
    if stream != [] {
      var n := |stream| - 1;
      EmittedLength(vpi, vci, arc, stream[..n]);
      RunKeepsSound(vpi, vci, arc, stream[..n]);
      StepLength(vpi, vci, Run(vpi, vci, arc, stream[..n]).arc, stream[n]);
    }
  }

  lemma StepLength(vpi: bv32, vci: bv32, arc: Reas, cell: seq<Byte>)
    ensures forall f :: f in RecvCellStep(vpi, vci, arc, cell).out ==> |f| <= REAS_MAX_SIZE - RFC1483B_HLEN
  {
    hide IsEop, IsNetwork, HdrOf, Ntoh16, VpiOf, VciOf;
  }

  /** The 342nd cell of a packet finds no room and throws everything away. */
  lemma OverflowStep(vpi: bv32, vci: bv32, arc: Reas, cell: seq<Byte>)
    requires |arc.data| + 48 > REAS_MAX_SIZE
    ensures RecvCellStep(vpi, vci, arc, cell).out == []
  {
    hide IsEop, IsNetwork, HdrOf, Ntoh16, VpiOf, VciOf;
  }

  lemma TooLong(vpi: bv32, vci: bv32, frame: seq<Byte>)
    requires InWidth(vpi, vci) && |frame| > MAX_FRAME
    ensures Run(vpi, vci, RESET, FrameCells(vpi, vci, frame)).out != [frame]
  {
    hide MakeHdr, WithEop, Cell, RecvCellStep, InWidth, Run, Pdu, Sound;
    if |frame| > REAS_MAX_SIZE - RFC1483B_HLEN {
      ResetIsSound();
      EmittedLength(vpi, vci, RESET, FrameCells(vpi, vci, frame));
      assert frame in [frame];
    } else {
      var data := Encapsulate(frame);
      var (h, n) := (MakeHdr(vpi, vci), CellCount(|data|));
      assert n == 342;
      var c := Cell(WithEop(h), Chunk(Pdu(data), 341));
      MiddleRun(vpi, vci, Pdu(data), 341);
      RunAppend(vpi, vci, RESET, Cells(h, Pdu(data), 341), [c]);
      RunOne(vpi, vci, Reas(Pdu(data)[..48 * 341], 0), c);
      OverflowStep(vpi, vci, Reas(Pdu(data)[..48 * 341], 0), c);
    }
  }

  lemma ResetIsSound()
    ensures Sound(RESET)
  {
  }

  /**
   * One frame through a pair of bridges arrives if and only if the circuit
   * numbers fit their fields and the frame has between 1 and 16350 bytes.
   */
  lemma DeliveredIff(vpi: bv32, vci: bv32, frame: seq<Byte>)
    ensures Run(vpi, vci, RESET, FrameCells(vpi, vci, frame)).out == [frame]
            <==> InWidth(vpi, vci) && 1 <= |frame| <= MAX_FRAME
  {
    hide Run, FrameCells, InWidth;
    if !InWidth(vpi, vci) {
      OutOfWidth(vpi, vci, RESET, FrameCells(vpi, vci, frame));
    } else if |frame| > MAX_FRAME {
      TooLong(vpi, vci, frame);
    } else {
      var cells := FrameCells(vpi, vci, frame);
      PacketRun(vpi, vci, frame, |cells|);
      assert cells[..|cells|] == cells;
    }
  }
}
