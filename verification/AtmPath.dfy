/**
 * Two bridges joined by a switch: the frames that enter one come out of the
 * other, although every cell had its header rewritten on the way.
 */
module AtmPath {
  import opened Bytes
  import opened Hec
  import opened AtmCell
  import opened AtmVsar
  import opened AtmBridge
  import opened AtmSwitch

  lemma RewrittenVc(a: bv32, b: bv32, c: bv32, d: bv32)
    ensures WithVpiVci(MakeHdr(a, b), UInt(c), UInt(d)) == MakeHdr(c, d)
  {
  }

  lemma RewrittenVcEop(h: bv32, c: bv32, d: bv32)
    ensures WithVpiVci(WithEop(h), UInt(c), UInt(d)) == WithEop(WithVpiVci(h, UInt(c), UInt(d)))
  {
  }

  lemma RewrittenVp(a: bv32, b: bv32, c: bv32)
    requires InWidth(a, b)
    ensures WithVpi(MakeHdr(a, b), UInt(c)) == MakeHdr(c, b)
  {
  }

  lemma RewrittenVpEop(h: bv32, c: bv32)
    ensures WithVpi(WithEop(h), UInt(c)) == WithEop(WithVpi(h, UInt(c)))
  {
  }

  /** The switch sends cells of one circuit out of `output` on another circuit. */
  ghost predicate Routes(t: Tables, input: string, vpi: bv32, vci: bv32, output: string, vpi': bv32, vci': bv32) {
    var vp := VpKey(input, UInt(vpi));
    var vc := VcKey(input, UInt(vpi), UInt(vci));
    if vp in t.vps then t.vps[vp].output == output && t.vps[vp].vpiOut == UInt(vpi') && vci' == vci
    else vc in t.vcs && t.vcs[vc].output == output && t.vcs[vc].vpiOut == UInt(vpi') && t.vcs[vc].vciOut == UInt(vci')
  }

  /** The cells that leave through `output`, in order (`atmsw_recv_cell` skips other sizes). */
  ghost function SentThrough(t: Tables, input: string, output: string, cells: seq<seq<Byte>>): seq<seq<Byte>> {
    if cells == [] then []
    else
      var c := cells[|cells| - 1];
      SentThrough(t, input, output, cells[..|cells| - 1])
      + (if |c| == CELL_SIZE && Forward(t, input, c).Forwarded? && Forward(t, input, c).output == output
         then [Forward(t, input, c).cell] else [])
  }

  lemma RoutedCell(t: Tables, input: string, vpi: bv32, vci: bv32, output: string, vpi': bv32, vci': bv32,
                   chunk: seq<Byte>)
    requires InWidth(vpi, vci) && |chunk| == 48 && Routes(t, input, vpi, vci, output, vpi', vci')
    ensures Forward(t, input, Cell(MakeHdr(vpi, vci), chunk)) == Forwarded(output, Cell(MakeHdr(vpi', vci'), chunk))
    ensures Forward(t, input, Cell(WithEop(MakeHdr(vpi, vci)), chunk))
         == Forwarded(output, Cell(WithEop(MakeHdr(vpi', vci')), chunk))
  {
    hide MakeHdr, WithEop, VpiOf, VciOf, HdrOf, Cell, WithVpi, WithVpiVci, InWidth;
    var h := MakeHdr(vpi, vci);
    MadeVpi(vpi, vci);
    MadeVci(vpi, vci);
    EopKeepsFields(h);
    CellHeader(h, chunk);
    CellHeader(WithEop(h), chunk);
    RewrittenVp(vpi, vci, vpi');
    RewrittenVpEop(h, vpi');
    RewrittenVc(vpi, vci, vpi', vci');
    RewrittenVcEop(h, vpi', vci');
  }

  lemma RoutedFrame(t: Tables, input: string, vpi: bv32, vci: bv32, output: string, vpi': bv32, vci': bv32,
                    frame: seq<Byte>, i: nat)
    requires InWidth(vpi, vci) && Routes(t, input, vpi, vci, output, vpi', vci') && i < |FrameCells(vpi, vci, frame)|
    ensures |FrameCells(vpi', vci', frame)| == |FrameCells(vpi, vci, frame)|
    ensures |FrameCells(vpi, vci, frame)[i]| == CELL_SIZE
    ensures Forward(t, input, FrameCells(vpi, vci, frame)[i]) == Forwarded(output, FrameCells(vpi', vci', frame)[i])
  {
    hide MakeHdr, WithEop, Cell, InWidth, Routes, Forward, Pdu;
    RoutedCell(t, input, vpi, vci, output, vpi', vci', Chunk(Pdu(Encapsulate(frame)), i));
  }

  lemma {:induction false} SentThroughAppend(t: Tables, input: string, output: string,
                                             a: seq<seq<Byte>>, b: seq<seq<Byte>>)
    ensures SentThrough(t, input, output, a + b) == SentThrough(t, input, output, a) + SentThrough(t, input, output, b)
    decreases |b|
  {
    hide Forward;
    if b == [] {
      assert a + b == a;
    } else {
      var n := |b| - 1;
      assert (a + b)[..|a + b| - 1] == a + b[..n] && (a + b)[|a + b| - 1] == b[n];
      SentThroughAppend(t, input, output, a, b[..n]);
    }
  }

  /** Cells forwarded one for one. */
  lemma {:induction false} SentOneForOne(t: Tables, input: string, output: string, a: seq<seq<Byte>>, b: seq<seq<Byte>>)
    requires |a| == |b|
    requires forall i :: 0 <= i < |a| ==> |a[i]| == CELL_SIZE && Forward(t, input, a[i]) == Forwarded(output, b[i])
    ensures SentThrough(t, input, output, a) == b
  {
    hide Forward;
    if a != [] {
      var n := |a| - 1;
      SentOneForOne(t, input, output, a[..n], b[..n]);
      assert b == b[..n] + [b[n]];
    }
  }

  /** The cells of some frames, switched, are the cells of the same frames on the new circuit. */
  lemma {:induction false} RoutedFrames(t: Tables, input: string, vpi: bv32, vci: bv32,
                                        output: string, vpi': bv32, vci': bv32, frames: seq<seq<Byte>>)
    requires InWidth(vpi, vci) && Routes(t, input, vpi, vci, output, vpi', vci')
    ensures SentThrough(t, input, output, AllCells(vpi, vci, frames)) == AllCells(vpi', vci', frames)
    decreases |frames|
  {
    hide FrameCells, InWidth, Routes, Forward;
    if frames != [] {
      var n := |frames| - 1;
      RoutedFrames(t, input, vpi, vci, output, vpi', vci', frames[..n]);
      SentThroughAppend(t, input, output, AllCells(vpi, vci, frames[..n]), FrameCells(vpi, vci, frames[n]));
      SameCellCount(vpi, vci, vpi', vci', frames[n]);
      forall i | 0 <= i < |FrameCells(vpi, vci, frames[n])|
        ensures |FrameCells(vpi, vci, frames[n])[i]| == CELL_SIZE
        ensures Forward(t, input, FrameCells(vpi, vci, frames[n])[i])
             == Forwarded(output, FrameCells(vpi', vci', frames[n])[i])
      {
        RoutedFrame(t, input, vpi, vci, output, vpi', vci', frames[n], i);
      }
      SentOneForOne(t, input, output, FrameCells(vpi, vci, frames[n]), FrameCells(vpi', vci', frames[n]));
    }
  }

  lemma SameCellCount(vpi: bv32, vci: bv32, vpi': bv32, vci': bv32, frame: seq<Byte>)
    ensures |FrameCells(vpi', vci', frame)| == |FrameCells(vpi, vci, frame)|
  {
  }

  // ---- The switch in traffic ----

  /** What arrived on one input. */
  function Arrived(arrivals: seq<Arrival>, input: string): seq<seq<Byte>>
    decreases arrivals
  {
    if arrivals == [] then []
    else
      var a := arrivals[|arrivals| - 1];
      Arrived(arrivals[..|arrivals| - 1], input) + (if a.input == input then [a.cell] else [])
  }

  /** What was handed to one descriptor. */
  function Leaving(sent: seq<(string, seq<Byte>)>, output: string): seq<seq<Byte>>
    decreases sent
  {
    if sent == [] then []
    else
      var (to, cell) := sent[|sent| - 1];
      Leaving(sent[..|sent| - 1], output) + (if to == output then [cell] else [])
  }

  /** What the cell becomes, if it is handed to `output`, is not a cell of the circuit there. */
  predicate StaysOff(t: Tables, output: string, vpi': bv32, vci': bv32, a: Arrival) {
    |a.cell| == CELL_SIZE ==>
      (match Forward(t, a.input, a.cell)
       case Dropped => true
       case Forwarded(to, cell) => to == output && a.accepted ==> Noise(vpi', vci', cell))
  }

  /** Cells of the circuit are taken; no other cell, of this input or another, comes out on the circuit. */
  predicate Undisturbed(t: Tables, input: string, vpi: bv32, vci: bv32, output: string, vpi': bv32, vci': bv32,
                        a: Arrival)
  {
    if a.input == input && !Noise(vpi, vci, a.cell) then a.accepted else StaysOff(t, output, vpi', vci', a)
  }

  lemma LeavingNext(sent: seq<(string, seq<Byte>)>, to: string, cell: seq<Byte>, output: string)
    ensures Leaving(sent + [(to, cell)], output)
         == if to == output then Leaving(sent, output) + [cell] else Leaving(sent, output)
  {
    assert (sent + [(to, cell)])[..|sent|] == sent;
  }

  lemma SentNext(t: Tables, input: string, output: string, cells: seq<seq<Byte>>, c: seq<Byte>)
    ensures SentThrough(t, input, output, cells + [c])
         == if |c| == CELL_SIZE && Forward(t, input, c).Forwarded? && Forward(t, input, c).output == output
            then SentThrough(t, input, output, cells) + [Forward(t, input, c).cell]
            else SentThrough(t, input, output, cells)
  {
    hide Forward;
    assert (cells + [c])[..|cells|] == cells;
  }

  lemma SignalNext(vpi: bv32, vci: bv32, stream: seq<seq<Byte>>, c: seq<Byte>)
    ensures Signal(vpi, vci, stream + [c])
         == if Noise(vpi, vci, c) then Signal(vpi, vci, stream) else Signal(vpi, vci, stream) + [c]
  {
    hide Noise;
    assert (stream + [c])[..|stream|] == stream;
  }

  /**
   * One switch that counts every cell and serves every input: what it hands to
   * `output` carries on the circuit exactly what the tables at the start make of
   * the circuit's cells on `input`.
   */
  lemma {:induction false} SwitchedSignal(t: Tables, input: string, vpi: bv32, vci: bv32,
                                          output: string, vpi': bv32, vci': bv32, arrivals: seq<Arrival>)
    requires forall k :: 0 <= k < |arrivals| ==> Undisturbed(t, input, vpi, vci, output, vpi', vci', arrivals[k])
    ensures Signal(vpi', vci', Leaving(CarriedAll(Traffic(t, []), arrivals).sent, output))
         == Signal(vpi', vci', SentThrough(t, input, output, Signal(vpi, vci, Arrived(arrivals, input))))
    decreases arrivals
  {
    hide Forward, Counted, Noise, Signal, SentThrough, Leaving;
    if arrivals == [] {
      NothingSent(t, input, output, vpi, vci);
    } else {
      var (init, a) := (arrivals[..|arrivals| - 1], arrivals[|arrivals| - 1]);
      assert forall k :: 0 <= k < |init| ==> init[k] == arrivals[k];
      SwitchedSignal(t, input, vpi, vci, output, vpi', vci', init);
      var (s, cells) := (CarriedAll(Traffic(t, []), init), Arrived(init, input));
      assert Arrived(arrivals, input) == if a.input == input then cells + [a.cell] else cells;
      SignalNext(vpi, vci, cells, a.cell);
      SentNext(t, input, output, Signal(vpi, vci, cells), a.cell);
      WrongSize(vpi, vci, a.cell);
      if |a.cell| == CELL_SIZE {
        CarriedForwards(Traffic(t, []), init, a.input, a.cell);
        var f := Forward(t, a.input, a.cell);
        if f.Forwarded? {
          LeavingNext(s.sent, f.output, f.cell, output);
          SignalNext(vpi', vci', Leaving(s.sent, output), f.cell);
          SignalNext(vpi', vci', SentThrough(t, input, output, Signal(vpi, vci, cells)), f.cell);
        }
      }
    }
  }

  lemma WrongSize(vpi: bv32, vci: bv32, cell: seq<Byte>)
    ensures |cell| != CELL_SIZE ==> Noise(vpi, vci, cell)
  {
  }

  lemma NothingSent(t: Tables, input: string, output: string, vpi: bv32, vci: bv32)
    ensures Leaving([], output) == [] == SentThrough(t, input, output, Signal(vpi, vci, []))
  {
  }

  /**
   * A bridge, a switch that routes its circuit, and a bridge on the other
   * circuit: exactly the frames sent are received, in order, whatever else the
   * sending port, the switch and the receiving port carry.
   */
  lemma BridgedThroughSwitch(t: Tables, input: string, vpi: bv32, vci: bv32, output: string, vpi': bv32, vci': bv32,
                             frames: seq<seq<Byte>>, arrivals: seq<Arrival>, stream: seq<seq<Byte>>)
    requires InWidth(vpi, vci) && InWidth(vpi', vci') && Routes(t, input, vpi, vci, output, vpi', vci')
    requires Carriable(frames) && Signal(vpi, vci, Arrived(arrivals, input)) == AllCells(vpi, vci, frames)
    requires forall k :: 0 <= k < |arrivals| ==> Undisturbed(t, input, vpi, vci, output, vpi', vci', arrivals[k])
    requires Signal(vpi', vci', stream)
          == Signal(vpi', vci', Leaving(CarriedAll(Traffic(t, []), arrivals).sent, output))
    ensures Run(vpi', vci', RESET, stream).out == frames
  {
    hide *;
    SwitchedSignal(t, input, vpi, vci, output, vpi', vci', arrivals);
    RoutedFrames(t, input, vpi, vci, output, vpi', vci', frames);
    SentIsSignal(vpi', vci', frames);
    EndToEnd(vpi', vci', frames, stream);
  }

  // ---- Tables that keep the circuit apart ----

  /** The VPI a VP connection writes into a header. */
  function OutVpi(v: UInt): bv32 {
    VpiOf(WithVpi(0, v))
  }

  /** The fields a VC connection writes; a VCI too wide for its field spills into the VPI. */
  function OutFields(v: UInt, c: UInt): (bv32, bv32) {
    (VpiOf(WithVpiVci(0, v, c)), VciOf(WithVpiVci(0, v, c)))
  }

  /** Only the connection of the circuit itself leads to that circuit of the output. */
  predicate SoleRoute(t: Tables, input: string, vpi: bv32, vci: bv32, output: string, vpi': bv32, vci': bv32) {
    && (forall k :: k in t.vps && t.vps[k].output == output && OutVpi(t.vps[k].vpiOut) == vpi' ==>
          k == VpKey(input, UInt(vpi)))
    && (forall k :: k in t.vcs && t.vcs[k].output == output
                    && OutFields(t.vcs[k].vpiOut, t.vcs[k].vciOut) == (vpi', vci') ==>
          k == VcKey(input, UInt(vpi), UInt(vci)))
  }

  lemma VpFields(h: bv32, v: UInt)
    ensures VpiOf(WithVpi(h, v)) == OutVpi(v) && VciOf(WithVpi(h, v)) == VciOf(h)
    ensures IsNetwork(WithVpi(h, v)) <==> IsNetwork(h)
  {
  }

  lemma VcFields(h: bv32, v: UInt, c: UInt)
    ensures VpiOf(WithVpiVci(h, v, c)) == OutFields(v, c).0
    ensures VciOf(WithVpiVci(h, v, c)) == OutFields(v, c).1
    ensures IsNetwork(WithVpiVci(h, v, c)) <==> IsNetwork(h)
  {
  }

  /** Then nothing can disturb the circuit: its own network cells stay network cells, all others miss it. */
  lemma SoleRouteUndisturbed(t: Tables, input: string, vpi: bv32, vci: bv32, output: string, vpi': bv32, vci': bv32,
                             a: Arrival)
    requires Routes(t, input, vpi, vci, output, vpi', vci') && SoleRoute(t, input, vpi, vci, output, vpi', vci')
    requires a.input == input && !Noise(vpi, vci, a.cell) ==> a.accepted
    ensures Undisturbed(t, input, vpi, vci, output, vpi', vci', a)
  {
    hide VpiOf, VciOf, HdrOf, IsNetwork, Cell, WithVpi, WithVpiVci, OutVpi, OutFields;
    if |a.cell| == CELL_SIZE {
      var (h, payload) := (HdrOf(a.cell), a.cell[HDR_SIZE..]);
      var (vp, vc) := (VpKey(a.input, UInt(VpiOf(h))), VcKey(a.input, UInt(VpiOf(h)), UInt(VciOf(h))));
      if vp in t.vps {
        var v := t.vps[vp].vpiOut;
        VpFields(h, v);
        CellHeader(WithVpi(h, v), payload);
      } else if vc in t.vcs {
        var (v, c) := (t.vcs[vc].vpiOut, t.vcs[vc].vciOut);
        VcFields(h, v, c);
        CellHeader(WithVpiVci(h, v, c), payload);
      }
    }
  }
}
