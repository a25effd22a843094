/**
 * The AAL5 segmentation and reassembly engine (common/atm_vsar.c): a packet
 * given in scattered pieces leaves as 48-byte cells with padding, a length
 * field and a CRC computed cell by cell, and is put together again in a fixed
 * buffer (AAL5 frame format in section 3 of RFC 1483).
 */
module AtmVsar {
  import opened Bytes
  import opened Crc
  import opened Hec
  import opened AtmCell
  import opened NetIos

  const REAS_MAX_SIZE: nat := 16384

  /** The longest packet whose cells all fit the reassembly buffer. */
  const MAX_PACKET: nat := 16360

  // ---- What is sent ----

  /** The number of cells of a packet, with room for the trailer. */
  function CellCount(len: nat): nat {
    (len + 55) / 48
  }

  function PadLen(len: nat): nat {
    48 * CellCount(len) - 8 - len
  }

  /** Control field and length: the low 32 bits of the packet length. */
  function LenField(len: nat): (s: seq<Byte>)
    ensures |s| == 4
  {
    [AsByte(len / 0x100_0000 % 256), AsByte(len / 0x1_0000 % 256), AsByte(len / 0x100 % 256), AsByte(len % 256)]
  }

  /** `m_ntoh16`. */
  function Ntoh16(hi: Byte, lo: Byte): nat {
    256 * Value(hi) + Value(lo)
  }

  lemma LenFieldRoundTrip(len: nat)
    ensures Ntoh16(LenField(len)[2], LenField(len)[3]) == len % 0x1_0000
  {
    hide AsByte, Value;
    ValueOfByte(len / 0x100 % 256);
    ValueOfByte(len % 256);
    TwoDigits(len);
  }

  lemma TwoDigits(len: nat)
    ensures 256 * (len / 0x100 % 256) + len % 256 == len % 0x1_0000
  {
  }

  /** The finished CRC of a byte string, the way the engine starts it. */
  function PduCrc(data: seq<Byte>): Reg32 {
    Crc32Compute(Not(Reg32(0)), data)
  }

  /** Everything the CRC covers: packet, padding, control field and length. */
  function Body(data: seq<Byte>): (s: seq<Byte>)
    ensures |s| == 48 * CellCount(|data|) - 4
  {
    data + Zeros(PadLen(|data|)) + LenField(|data|)
  }

  /** The whole AAL5 PDU. */
  function Pdu(data: seq<Byte>): (s: seq<Byte>)
    ensures |s| == 48 * CellCount(|data|)
  {
    Body(data) + Hton32(PduCrc(Body(data)).bits)
  }

  /** The payload of cell `i` of a PDU. */
  function Chunk(pdu: seq<Byte>, i: nat): (s: seq<Byte>)
    requires 48 * i + 48 <= |pdu|
    ensures |s| == 48
  {
    pdu[48 * i..48 * i + 48]
  }

  /** The first `n` cells of a PDU, none marked as the last. */
  function Cells(h: bv32, pdu: seq<Byte>, n: nat): (s: seq<seq<Byte>>)
    requires 48 * n <= |pdu|
    ensures |s| == n
  {
    seq(n, i requires 0 <= i < n => Cell(h, Chunk(pdu, i)))
  }

  /** The cells of a packet: only the last one carries the end-of-packet mark. */
  function PacketCells(h: bv32, data: seq<Byte>): (s: seq<seq<Byte>>)
    ensures |s| == CellCount(|data|)
  {
    var n := CellCount(|data|);
    Cells(h, Pdu(data), n - 1) + [Cell(WithEop(h), Chunk(Pdu(data), n - 1))]
  }

  // ---- The segmentation context ----

  class SegContext {
    const nio: NetIo
    const hecTable: array<Byte>
    const txfifoCell: array<Byte>
    var txfifoPos: nat
    var txfifoAvail: nat
    var aal5Len: nat
    var aal5Crc: Reg32
    var atmHdr: bv32
    /** What is left of the piece being stored (`buffer` and `buf_len`). */
    var buffer: seq<Byte>

    /** The PDU bytes sent so far, and what the descriptor had sent before. */
    ghost var gone: seq<Byte>
    ghost const base: seq<seq<Byte>>

    ghost predicate Valid()
      reads this, hecTable, txfifoCell
    {
      && txfifoCell.Length == CELL_SIZE
      && txfifoCell != hecTable
      && IsSyndromeTable(hecTable[..])
      && HDR_SIZE <= txfifoPos
      && txfifoPos + txfifoAvail == CELL_SIZE
    }

    /** The bytes waiting in the FIFO. */
    ghost function Fifo(): seq<Byte>
      reads this, txfifoCell
      requires txfifoCell.Length == CELL_SIZE && HDR_SIZE <= txfifoPos <= CELL_SIZE
    {
      txfifoCell[HDR_SIZE..txfifoPos]
    }

    /** The PDU bytes that have entered the FIFO. */
    ghost function Fed(): seq<Byte>
      reads this, txfifoCell
      requires txfifoCell.Length == CELL_SIZE && HDR_SIZE <= txfifoPos <= CELL_SIZE
    {
      gone + Fifo()
    }

    /** The cells sent and the running CRC tell of the same bytes. */
    ghost predicate Consistent()
      reads this, hecTable, txfifoCell, nio
    {
      && Valid()
      && |gone| % 48 == 0
      && nio.sent == base + Cells(atmHdr, gone, |gone| / 48)
      && aal5Crc == PduCrc(gone)
    }

    constructor (nio: NetIo, hecTable: array<Byte>, vpi: bv32, vci: bv32)
      requires IsSyndromeTable(hecTable[..])
      ensures this.nio == nio && this.hecTable == hecTable && base == nio.sent
      ensures fresh(txfifoCell)
      ensures Consistent() && Fed() == [] && txfifoAvail == PAYLOAD_SIZE
      ensures aal5Len == 0 && atmHdr == MakeHdr(vpi, vci)
    {
      this.nio, this.hecTable, this.base := nio, hecTable, nio.sent;
      txfifoCell := new Byte[CELL_SIZE](_ => 0);
      txfifoPos, txfifoAvail := HDR_SIZE, PAYLOAD_SIZE;
      aal5Len, aal5Crc, atmHdr := 0, Reg32(0), MakeHdr(vpi, vci);
      buffer, gone := [], [];
      new;
      EmptyCrc();
    }

    /** `atm_send_cell`. */
    method SendCell()
      requires Valid()
      modifies txfifoCell, nio
      ensures Valid()
      ensures txfifoCell[HDR_SIZE..] == old(txfifoCell[HDR_SIZE..])
      ensures nio.sent == old(nio.sent) + [Cell(atmHdr, old(txfifoCell[HDR_SIZE..]))]
    {
      hide Hton32, CheckByte;
      var b := Hton32(atmHdr);
      txfifoCell[0], txfifoCell[1], txfifoCell[2], txfifoCell[3] := b[0], b[1], b[2], b[3];
      assert txfifoCell[..4] == b;
      InsertHec(hecTable, txfifoCell);
      assert txfifoCell[..] == Cell(atmHdr, old(txfifoCell[HDR_SIZE..]));
      nio.Send(txfifoCell[..]);
    }

    /** `atm_clear_tx_fifo`. */
    method ClearTxFifo()
      requires Valid()
      modifies this`txfifoAvail, this`txfifoPos, txfifoCell
      ensures Valid() && txfifoAvail == PAYLOAD_SIZE
      ensures txfifoCell[..] == Zeros(CELL_SIZE)
    {
      txfifoAvail, txfifoPos := PAYLOAD_SIZE, HDR_SIZE;
      forall k | 0 <= k < CELL_SIZE {
        txfifoCell[k] := 0;
      }
    }

    /** The `memset` or `memcpy` at `txfifo_pos`, with the bookkeeping after it. */
    method Put(bytes: seq<Byte>)
      requires Valid() && |bytes| <= txfifoAvail
      modifies this`txfifoAvail, this`txfifoPos, txfifoCell
      ensures Valid() && txfifoAvail == old(txfifoAvail) - |bytes|
      ensures Fifo() == old(Fifo()) + bytes
    {
      forall k | 0 <= k < |bytes| {
        txfifoCell[txfifoPos + k] := bytes[k];
      }
      assert forall k :: HDR_SIZE <= k < txfifoPos ==> txfifoCell[k] == old(txfifoCell[k]);
      assert txfifoCell[HDR_SIZE..txfifoPos] == old(Fifo());
      assert txfifoCell[txfifoPos..txfifoPos + |bytes|] == bytes;
      txfifoPos, txfifoAvail := txfifoPos + |bytes|, txfifoAvail - |bytes|;
    }

    /** `atm_add_tx_padding`. */
    method AddTxPadding(len: nat)
      requires Consistent()
      modifies this`txfifoAvail, this`txfifoPos, txfifoCell
      ensures Consistent()
      ensures txfifoAvail == old(txfifoAvail) - (if len > old(txfifoAvail) then old(txfifoAvail) else len)
      ensures Fed() == old(Fed()) + Zeros(old(txfifoAvail) - txfifoAvail)
    {
      Put(Zeros(if len > txfifoAvail then txfifoAvail else len));
    }

    /** `atm_send_fifo`. */
    method SendFifo()
      requires Consistent()
      modifies this`txfifoAvail, this`txfifoPos, this`aal5Crc, this`gone, txfifoCell, nio
      ensures Consistent()
      ensures Fed() == old(Fed())
      ensures txfifoAvail == if old(txfifoAvail) == 0 then PAYLOAD_SIZE else old(txfifoAvail)
    {
      hide Not, Crc32Compute, Cell;
      if txfifoAvail == 0 {
        ghost var waiting := Fifo();
        assert txfifoCell[HDR_SIZE..] == waiting;
        aal5Crc := Crc32Compute(Not(aal5Crc), txfifoCell[HDR_SIZE..]);
        ComputeComposes(Not(Reg32(0)), gone, waiting);
        CellsAppend(atmHdr, gone, waiting);
        SendCell();
        ClearTxFifo();
        gone := gone + waiting;
      }
    }

    /** `atm_store_fifo`: true when it filled and sent a cell. */
    method StoreFifo() returns (sent: bool)
      requires Consistent() && txfifoAvail > 0
      modifies this`txfifoAvail, this`txfifoPos, this`aal5Crc, this`gone, this`buffer, txfifoCell, nio
      ensures Consistent() && txfifoAvail > 0
      ensures Fed() + buffer == old(Fed()) + old(buffer)
      ensures |old(buffer)| > 0 ==> |buffer| < |old(buffer)|
      ensures sent <==> |old(buffer)| >= old(txfifoAvail)
    {
      hide PduCrc, Cell;
      var len := if |buffer| < txfifoAvail then |buffer| else txfifoAvail;
      Put(buffer[..len]);
      buffer := buffer[len..];
      if txfifoAvail == 0 {
        SendFifo();
        return true;
      }
      return false;
    }

    /** `atm_aal5_add_trailer`, at the end of a cell whose other bytes are in place. */
    method AddTrailer()
      requires Consistent() && txfifoAvail == TRAILER_SIZE
      modifies this`txfifoAvail, this`aal5Crc, this`txfifoPos, txfifoCell
      ensures Valid() && txfifoAvail == 0
      ensures aal5Crc == PduCrc(old(Fed()) + LenField(aal5Len))
      ensures txfifoCell[HDR_SIZE..] == old(Fifo()) + LenField(aal5Len) + Hton32(aal5Crc.bits)
    {
      hide Not, Crc32Compute, Hton32, AsByte;
      ghost var waiting := Fifo();
      var t := LenField(aal5Len);
      forall k | 0 <= k < 4 {
        txfifoCell[TRAILER_POS + k] := t[k];
      }
      assert txfifoCell[HDR_SIZE..CELL_SIZE - 4] == waiting + t;
      aal5Crc := Crc32Compute(Not(aal5Crc), txfifoCell[HDR_SIZE..CELL_SIZE - 4]);
      ComputeComposes(Not(Reg32(0)), gone, waiting + t);
      assert gone + (waiting + t) == gone + waiting + t;
      var c := Hton32(aal5Crc.bits);
      forall k | 0 <= k < 4 {
        txfifoCell[TRAILER_POS + 4 + k] := c[k];
      }
      txfifoPos, txfifoAvail := CELL_SIZE, 0;
      assert txfifoCell[HDR_SIZE..] == waiting + t + c;
    }

    /** One piece of the packet: the inner loop of `atm_aal5_send`. */
    method StorePiece(piece: seq<Byte>)
      requires Consistent() && txfifoAvail > 0
      modifies this`txfifoAvail, this`txfifoPos, this`aal5Crc, this`gone, this`buffer, this`aal5Len, txfifoCell, nio
      ensures Consistent() && txfifoAvail > 0
      ensures Fed() == old(Fed()) + piece && aal5Len == old(aal5Len) + |piece|
    {
      buffer := piece;
      aal5Len := aal5Len + |piece|;
      while |buffer| > 0
        invariant Consistent() && txfifoAvail > 0
        invariant Fed() + buffer == old(Fed()) + piece
        invariant aal5Len == old(aal5Len) + |piece|
        decreases |buffer|
      {
        hide *;
        var sent := StoreFifo();
      }
    }

    /** The FIFO's free space says how far the last cell is filled. */
    lemma FedLength()
      requires Consistent()
      ensures (|Fed()| + txfifoAvail) % 48 == 0
    {
      hide PduCrc, Cells, IsSyndromeTable;
    }

    /** The padding, in one cell or over the end of one. */
    method PadToTrailer()
      requires Consistent() && txfifoAvail > 0
      modifies this`txfifoAvail, this`txfifoPos, this`aal5Crc, this`gone, txfifoCell, nio
      ensures Consistent() && txfifoAvail == TRAILER_SIZE
      ensures Fed() == old(Fed()) + Zeros(PadLen(|old(Fed())|))
    {
      hide PduCrc, Cell, Cells, IsSyndromeTable, Fed, Zeros, PadLen;
      ghost var (data, over) := (Fed(), if txfifoAvail < TRAILER_SIZE then txfifoAvail else 0);
      if txfifoAvail < TRAILER_SIZE {
        AddTxPadding(txfifoAvail);
        SendFifo();
      }
      var rest := txfifoAvail - TRAILER_SIZE;
      AddTxPadding(rest);
      PadsJoin(data, over, rest);
      FedLength();
      PadIsUnique(|data|, over + rest);
    }

    /** Padding and trailer: the end of `atm_aal5_send`. */
    method Finish()
      requires Consistent() && txfifoAvail > 0 && aal5Len == |Fed()|
      modifies this, txfifoCell, nio
      ensures nio.sent == base + PacketCells(old(atmHdr), old(Fed()))
    {
      hide PduCrc, WithEop, Cell, LenField, Hton32;
      ghost var data := Fed();
      PadToTrailer();
      ghost var waiting := Fifo();
      AddTrailer();
      LastCell(atmHdr, data, gone, waiting);
      atmHdr := WithEop(atmHdr);
      SendCell();
    }
  }

  /**
   * `atm_aal5_send`: whatever the split of the packet into pieces, the cells
   * sent are those of the concatenation.
   */
  method Aal5Send(nio: NetIo, hecTable: array<Byte>, vpi: bv32, vci: bv32, iov: seq<seq<Byte>>) returns (res: int)
    requires IsSyndromeTable(hecTable[..])
    modifies nio
    ensures res == 0
    ensures nio.sent == old(nio.sent) + PacketCells(MakeHdr(vpi, vci), Flatten(iov))
  {
    hide PacketCells, MakeHdr;
    var asc := new SegContext(nio, hecTable, vpi, vci);
    for i := 0 to |iov|
      invariant asc.Consistent() && asc.txfifoAvail > 0
      invariant asc.Fed() == Flatten(iov[..i]) && asc.aal5Len == |asc.Fed()|
      invariant asc.atmHdr == MakeHdr(vpi, vci)
      invariant fresh(asc) && fresh(asc.txfifoCell)
    {
      asc.StorePiece(iov[i]);
      FlattenSnoc(iov, i);
    }
    assert iov[..|iov|] == iov;
    asc.Finish();
    res := 0;
  }

  // ---- Lemmas for the sender ----

  lemma EmptyCrc()
    ensures PduCrc([]) == Reg32(0)
  {
    hide Not;
    DoubleComplement(Reg32(0));
  }

  lemma FlattenSnoc(parts: seq<seq<Byte>>, i: nat)
    requires i < |parts|
    ensures Flatten(parts[..i + 1]) == Flatten(parts[..i]) + parts[i]
  {
    FlattenAppend(parts[..i], [parts[i]]);
    assert parts[..i + 1] == parts[..i] + [parts[i]];
    assert Flatten([parts[i]]) == parts[i];
  }

  lemma CellsAppend(h: bv32, gone: seq<Byte>, waiting: seq<Byte>)
    requires |gone| % 48 == 0 && |waiting| == 48
    ensures Cells(h, gone + waiting, |gone + waiting| / 48) == Cells(h, gone, |gone| / 48) + [Cell(h, waiting)]
  {
    hide Cell;
    var n := |gone| / 48;
    assert Chunk(gone + waiting, n) == waiting;
    forall i | 0 <= i < n
      ensures Chunk(gone + waiting, i) == Chunk(gone, i)
    {
    }
  }

  lemma PadIsUnique(len: nat, pad: nat)
    requires pad < 48 && (len + pad + 8) % 48 == 0
    ensures pad == PadLen(len)
  {
  }

  lemma PadsJoin(data: seq<Byte>, a: nat, b: nat)
    ensures data + Zeros(0) == data && data + Zeros(a) + Zeros(b) == data + Zeros(a + b)
    ensures |data + Zeros(a + b)| == |data| + a + b
  {
    assert Zeros(a) + Zeros(b) == Zeros(a + b);
  }

  lemma LastCell(h: bv32, data: seq<Byte>, gone: seq<Byte>, waiting: seq<Byte>)
    requires gone + waiting == data + Zeros(PadLen(|data|))
    requires |gone| % 48 == 0 && |waiting| == 40
    ensures PacketCells(h, data)
         == Cells(h, gone, |gone| / 48)
          + [Cell(WithEop(h), waiting + LenField(|data|) + Hton32(PduCrc(Body(data)).bits))]
  {
    hide Cell, PduCrc, Hton32, LenField, WithEop;
    var n := CellCount(|data|);
    var tail := waiting + LenField(|data|) + Hton32(PduCrc(Body(data)).bits);
    assert Pdu(data) == gone + tail;
    assert n - 1 == |gone| / 48;
    assert Chunk(gone + tail, n - 1) == tail;
    forall i | 0 <= i < n - 1
      ensures Chunk(gone + tail, i) == Chunk(gone, i)
    {
    }
  }

  /** The shape of the cells sent, whatever the packet. */
  lemma PacketShape(vpi: bv32, vci: bv32, data: seq<Byte>, i: nat)
    requires i < CellCount(|data|)
    ensures 48 * (CellCount(|data|) - 1) < |data| + TRAILER_SIZE <= 48 * CellCount(|data|)
    ensures var c := PacketCells(MakeHdr(vpi, vci), data)[i];
            && Protected(c[..5])
            && c[HDR_SIZE..] == Chunk(Pdu(data), i)
            && (IsEop(HdrOf(c)) <==> i == CellCount(|data|) - 1)
            && !IsNetwork(HdrOf(c))
    ensures Pdu(data)[..|data|] == data
    ensures forall k :: |data| <= k < 48 * CellCount(|data|) - 8 ==> Pdu(data)[k] == 0
  {
    hide IsEop, IsNetwork, Cell, MakeHdr, WithEop, HdrOf, Protected, LenField, PduCrc, Hton32;
    MadeHeader(vpi, vci);
    var (h, chunk) := (MakeHdr(vpi, vci), Chunk(Pdu(data), i));
    CellHeader(h, chunk);
    CellHeader(WithEop(h), chunk);
  }

  lemma FourDigits(n: nat)
    ensures 0x100_0000 * (n / 0x100_0000 % 256) + 0x1_0000 * (n / 0x1_0000 % 256) + 0x100 * (n / 0x100 % 256) + n % 256
         == n % 0x1_0000_0000
  {
    TwoDigits(n);
    TwoDigits(n / 0x1_0000);
    UpperHalf(n);
  }

  lemma UpperHalf(n: nat)
    ensures n / 0x100_0000 == n / 0x1_0000 / 0x100
    ensures n % 0x1_0000_0000 == 0x1_0000 * (n / 0x1_0000 % 0x1_0000) + n % 0x1_0000
  {
    var (q, r) := (n / 0x1_0000, n % 0x1_0000);
    SplitTop(n, q, r, q / 0x100, q % 0x100);
    SplitWhole(n, q, r, q / 0x1_0000, q % 0x1_0000);
  }

  lemma SplitTop(n: nat, q: nat, r: nat, a: nat, b: nat)
    requires n == 0x1_0000 * q + r && q == 0x100 * a + b && r < 0x1_0000 && b < 0x100
    ensures n / 0x100_0000 == a
  {
  }

  lemma SplitWhole(n: nat, q: nat, r: nat, a: nat, b: nat)
    requires n == 0x1_0000 * q + r && q == 0x1_0000 * a + b && r < 0x1_0000 && b < 0x1_0000
    ensures n % 0x1_0000_0000 == 0x1_0000 * b + r
  {
  }

  lemma LenFieldNumber(n: nat)
    ensures var t := LenField(n);
            && Number32(t[0], t[1], t[2], t[3]) == n % 0x1_0000_0000
            && (n < 0x1_0000 ==> t[0] == 0 && t[1] == 0)
  {
    hide AsByte, Value;
    ValueOfByte(n / 0x100_0000 % 256);
    ValueOfByte(n / 0x1_0000 % 256);
    ValueOfByte(n / 0x100 % 256);
    ValueOfByte(n % 256);
    FourDigits(n);
    ZeroByte();
  }

  lemma ZeroByte()
    ensures AsByte(0) == 0
  {
  }

  lemma CrcIs(data: seq<Byte>)
    requires |data| > 0
    ensures PduCrc(data).bits == !FeedAll(Reg32(0xffff_ffff), data).bits
  {
    hide FeedAll;
    DoubleComplement(Reg32(0));
    AllOnes();
  }

  lemma AllOnes()
    ensures Not(Reg32(0)) == Reg32(0xffff_ffff)
  {
  }

  lemma PduTail(data: seq<Byte>)
    ensures var (p, n) := (Pdu(data), 48 * CellCount(|data|));
            && p[..n - 4] == Body(data) && n > 8
            && p[n - 8..n - 4] == LenField(|data|)
            && p[n - 4..] == Hton32(PduCrc(p[..n - 4]).bits)
  {
    hide LenField, PduCrc, Hton32;
  }

  /** The control field and the length of a PDU: one big-endian number, whose first two bytes are zero below 65536. */
  lemma TrailerLength(data: seq<Byte>)
    ensures var (p, n) := (Pdu(data), 48 * CellCount(|data|));
            && Number32(p[n - 8], p[n - 7], p[n - 6], p[n - 5]) == |data| % 0x1_0000_0000
            && (|data| < 0x1_0000 ==> p[n - 8] == 0 && p[n - 7] == 0)
  {
    hide Pdu, CellCount, LenField, Number32;
    var (p, n) := (Pdu(data), 48 * CellCount(|data|));
    PduTail(data);
    LenFieldNumber(|data|);
    var t := p[n - 8..n - 4];
    assert t[0] == p[n - 8] && t[1] == p[n - 7] && t[2] == p[n - 6] && t[3] == p[n - 5];
  }

  /** The last four bytes of a PDU: the complemented bitwise CRC, started with all ones, of everything before them. */
  lemma TrailerCrc(data: seq<Byte>)
    ensures var (p, n) := (Pdu(data), 48 * CellCount(|data|));
            Ntoh32(p[n - 4], p[n - 3], p[n - 2], p[n - 1]) == !FeedAll(Reg32(0xffff_ffff), p[..n - 4]).bits
  {
    hide Pdu, CellCount, PduCrc, Hton32, Ntoh32, FeedAll;
    var (p, n) := (Pdu(data), 48 * CellCount(|data|));
    PduTail(data);
    var c := p[n - 4..];
    assert c[0] == p[n - 4] && c[1] == p[n - 3] && c[2] == p[n - 2] && c[3] == p[n - 1];
    CrcIs(p[..n - 4]);
    Hton32RoundTrip(PduCrc(p[..n - 4]).bits);
  }

  // ---- Reassembly ----

  /** The filled part of the reassembly buffer and the length field. */
  datatype Reas = Reas(data: seq<Byte>, len: nat)

  const RESET := Reas([], 0)

  /** What `atm_aal5_recv` makes of a cell: the new context and the status. */
  function RecvStep(r: Reas, cell: seq<Byte>): (Reas, int)
    requires |cell| == CELL_SIZE
  {
    if |r.data| + PAYLOAD_SIZE > REAS_MAX_SIZE then (RESET, -1)
    else if IsNetwork(HdrOf(cell)) then (r, 2)
    else
      var data := r.data + cell[HDR_SIZE..];
      if IsEop(HdrOf(cell)) then
        var len := Ntoh16(cell[TRAILER_POS + 2], cell[TRAILER_POS + 3]);
        (Reas(data, len), if len <= |data| then 1 else -2)
      else (Reas(data, r.len), 0)
  }

  /**
   * The five answers, for every context and cell: -1 without room for the cell,
   * whatever it carries; 2 for a network cell; -2 or 1 for a last cell, as its
   * length is more than has been received or not; else 0.
   */
  lemma StatusIs(r: Reas, cell: seq<Byte>)
    requires |cell| == CELL_SIZE
    ensures var (room, h) := (|r.data| + 48 <= 16384, HdrOf(cell));
            var (s, long) := (RecvStep(r, cell).1, 0x100 * Value(cell[47]) + Value(cell[48]) > |r.data| + 48);
            && (s == -1 <==> !room)
            && (s == 2 <==> room && IsNetwork(h))
            && (s == -2 <==> room && !IsNetwork(h) && IsEop(h) && long)
            && (s == 1 <==> room && !IsNetwork(h) && IsEop(h) && !long)
            && (s == 0 <==> room && !IsNetwork(h) && !IsEop(h))
    ensures var (n, s) := RecvStep(r, cell);
            && (s == -1 ==> n == RESET)
            && (s == 2 ==> n == r)
            && (s == 0 ==> n == Reas(r.data + cell[5..], r.len))
            && (s == 1 || s == -2 ==>
                  n == Reas(r.data + cell[5..], 0x100 * Value(cell[47]) + Value(cell[48])))
  {
    hide HdrOf, IsNetwork, IsEop, Value;
  }

  class ReasContext {
    const buffer: array<Byte>
    var bufPos: nat
    var len: nat

    ghost predicate Valid()
      reads this
    {
      buffer.Length == REAS_MAX_SIZE && bufPos <= REAS_MAX_SIZE
    }

    ghost function State(): Reas
      reads this, buffer
      requires Valid()
    {
      Reas(buffer[..bufPos], len)
    }

    constructor ()
      ensures Valid() && fresh(buffer) && State() == RESET
    {
      buffer := new Byte[REAS_MAX_SIZE](_ => 0);
      bufPos, len := 0, 0;
    }

    /** `atm_aal5_recv_reset`. */
    method Reset()
      requires Valid()
      modifies this
      ensures Valid() && State() == RESET
    {
      bufPos, len := 0, 0;
    }

    /** `atm_aal5_recv`. */
    method Recv(cell: array<Byte>) returns (status: int)
      requires Valid() && cell.Length == CELL_SIZE && cell != buffer
      modifies this, buffer
      ensures Valid()
      ensures (State(), status) == RecvStep(old(State()), cell[..])
    {
      hide IsNetwork, IsEop, HdrOf, Ntoh16;
      ghost var c := cell[..];
      if bufPos + PAYLOAD_SIZE > REAS_MAX_SIZE {
        Reset();
        return -1;
      }
      var hdr := HdrOf(cell[..]);
      if IsNetwork(hdr) {
        return 2;
      }
      forall k | 0 <= k < PAYLOAD_SIZE {
        buffer[bufPos + k] := cell[HDR_SIZE + k];
      }
      bufPos := bufPos + PAYLOAD_SIZE;
      assert cell[..] == c;
      assert buffer[..bufPos] == old(State()).data + c[HDR_SIZE..];
      if IsEop(hdr) {
        len := Ntoh16(cell[TRAILER_POS + 2], cell[TRAILER_POS + 3]);
        assert c[TRAILER_POS + 2] == cell[TRAILER_POS + 2] && c[TRAILER_POS + 3] == cell[TRAILER_POS + 3];
        return if len <= bufPos then 1 else -2;
      }
      return 0;
    }
  }

  /** A whole run of the receiver: the final context and every status. */
  function RecvAll(r: Reas, cells: seq<seq<Byte>>): (Reas, seq<int>)
    requires forall c :: c in cells ==> |c| == CELL_SIZE
  {
    if cells == [] then (r, [])
    else
      var (r', statuses) := RecvAll(r, cells[..|cells| - 1]);
      var (r'', status) := RecvStep(r', cells[|cells| - 1]);
      (r'', statuses + [status])
  }

  // ---- The round trip ----

  lemma CellSizes(h: bv32, pdu: seq<Byte>, n: nat)
    requires 48 * n <= |pdu|
    ensures forall c :: c in Cells(h, pdu, n) ==> |c| == CELL_SIZE
  {
  }

  lemma PacketCellSizes(h: bv32, data: seq<Byte>)
    ensures forall c :: c in PacketCells(h, data) ==> |c| == CELL_SIZE
  {
    CellSizes(h, Pdu(data), CellCount(|data|) - 1);
  }

  /** A cell in the middle of a packet is appended. */
  lemma MiddleCell(r: Reas, h: bv32, chunk: seq<Byte>)
    requires |chunk| == 48 && |r.data| + 48 <= REAS_MAX_SIZE
    requires !IsEop(h) && !IsNetwork(h)
    ensures RecvStep(r, Cell(h, chunk)) == (Reas(r.data + chunk, r.len), 0)
  {
    hide IsEop, IsNetwork, HdrOf, Cell;
    CellHeader(h, chunk);
  }

  /** The last 48 bytes of a PDU: they complete it, and hold its length field. */
  lemma LastChunk(data: seq<Byte>, n: nat)
    requires n == CellCount(|data|) && n > 0
    ensures 48 * n == |Pdu(data)| && Pdu(data)[..48 * (n - 1)] + Chunk(Pdu(data), n - 1) == Pdu(data)
    ensures var chunk := Chunk(Pdu(data), n - 1);
            chunk[42] == LenField(|data|)[2] && chunk[43] == LenField(|data|)[3]
  {
    hide PduCrc, Hton32, AsByte;
  }

  lemma CellTail(h: bv32, chunk: seq<Byte>)
    requires |chunk| == 48
    ensures var c := Cell(h, chunk); c[HDR_SIZE..] == chunk && c[47] == chunk[42] && c[48] == chunk[43]
  {
    hide Cell;
    var c := Cell(h, chunk);
    assert c[HDR_SIZE..][42] == c[47] && c[HDR_SIZE..][43] == c[48];
  }

  lemma FitsCells(len: nat)
    ensures len <= 48 * CellCount(len)
  {
  }

  lemma ClosingStep(r: Reas, cell: seq<Byte>)
    requires |cell| == CELL_SIZE && |r.data| + 48 <= REAS_MAX_SIZE
    requires IsEop(HdrOf(cell)) && !IsNetwork(HdrOf(cell))
    ensures var (d, len) := (r.data + cell[HDR_SIZE..], Ntoh16(cell[47], cell[48]));
            RecvStep(r, cell) == (Reas(d, len), if len <= |d| then 1 else -2)
  {
    hide IsEop, IsNetwork, HdrOf, Ntoh16;
  }

  /** The last cell is appended and gives up the length. */
  lemma LastCellReceived(r: Reas, h: bv32, data: seq<Byte>, n: nat)
    requires n == CellCount(|data|) && 0 < n && 48 * n <= REAS_MAX_SIZE
    requires r == Reas(Pdu(data)[..48 * (n - 1)], 0)
    requires IsEop(h) && !IsNetwork(h)
    ensures RecvStep(r, Cell(h, Chunk(Pdu(data), n - 1))) == (Reas(Pdu(data), |data|), 1)
  {
    hide IsEop, IsNetwork, HdrOf, Cell, Pdu, Chunk, LenField, Ntoh16, RecvStep, CellCount;
    var chunk := Chunk(Pdu(data), n - 1);
    LastChunk(data, n);
    FitsCells(|data|);
    CellHeader(h, chunk);
    ClosingStep(r, Cell(h, chunk));
    LenFieldRoundTrip(|data|);
    CellTail(h, chunk);
  }

  lemma RecvAllSnoc(r: Reas, cells: seq<seq<Byte>>, c: seq<Byte>)
    requires |c| == CELL_SIZE && forall c :: c in cells ==> |c| == CELL_SIZE
    ensures RecvAll(r, cells + [c])
         == (RecvStep(RecvAll(r, cells).0, c).0, RecvAll(r, cells).1 + [RecvStep(RecvAll(r, cells).0, c).1])
  {
    hide RecvStep;
    assert (cells + [c])[..|cells|] == cells;
  }

  /** The answers to `k` middle cells. */
  function Middles(k: nat): (s: seq<int>)
    ensures |s| == k && forall i :: 0 <= i < k ==> s[i] == 0
  {
    if k == 0 then [] else Middles(k - 1) + [0]
  }

  lemma CellsNext(h: bv32, pdu: seq<Byte>, k: nat)
    requires 48 * (k + 1) <= |pdu|
    ensures Cells(h, pdu, k + 1) == Cells(h, pdu, k) + [Cell(h, Chunk(pdu, k))]
    ensures pdu[..48 * k] + Chunk(pdu, k) == pdu[..48 * (k + 1)]
  {
    hide Cell;
  }

  lemma NoCells(r: Reas, h: bv32, pdu: seq<Byte>)
    ensures Cells(h, pdu, 0) == [] && RecvAll(r, []) == (r, Middles(0)) && pdu[..0] == []
  {
    hide Cell, RecvStep;
  }

  /** After `k` middle cells the buffer holds the first `k` chunks. */
  lemma {:induction false} MiddleCells(h: bv32, pdu: seq<Byte>, k: nat)
    requires 48 * k <= |pdu| && 48 * k <= REAS_MAX_SIZE
    requires !IsEop(h) && !IsNetwork(h)
    ensures forall c :: c in Cells(h, pdu, k) ==> |c| == CELL_SIZE
    ensures RecvAll(RESET, Cells(h, pdu, k)) == (Reas(pdu[..48 * k], 0), Middles(k))
  {
    hide IsEop, IsNetwork, Cell, Cells, Chunk, RecvStep, RecvAll;
    CellSizes(h, pdu, k);
    if k == 0 {
      NoCells(RESET, h, pdu);
    } else {
      var (cells, chunk) := (Cells(h, pdu, k - 1), Chunk(pdu, k - 1));
      MiddleCells(h, pdu, k - 1);
      CellsNext(h, pdu, k - 1);
      RecvAllSnoc(RESET, cells, Cell(h, chunk));
      MiddleCell(Reas(pdu[..48 * (k - 1)], 0), h, chunk);
    }
  }

  lemma PduStarts(data: seq<Byte>)
    ensures Pdu(data)[..|data|] == data
  {
  }

  /**
   * The cells of any packet of at most 16360 bytes, fed to a reset context:
   * status 0 for each cell but the last, then 1, and the context holds the
   * length and the packet.
   */
  lemma Aal5RoundTrip(vpi: bv32, vci: bv32, data: seq<Byte>)
    requires |data| <= MAX_PACKET
    ensures forall c :: c in PacketCells(MakeHdr(vpi, vci), data) ==> |c| == CELL_SIZE
    ensures RecvAll(RESET, PacketCells(MakeHdr(vpi, vci), data))
         == (Reas(Pdu(data), |data|), Middles(CellCount(|data|) - 1) + [1])
    ensures Pdu(data)[..|data|] == data
  {
    hide IsEop, IsNetwork, Cell, Cells, Chunk, RecvStep, RecvAll, MakeHdr, WithEop, Pdu, Middles;
    var (h, n) := (MakeHdr(vpi, vci), CellCount(|data|));
    var cells := PacketCells(h, data);
    MadeHeader(vpi, vci);
    PacketCellSizes(h, data);
    MiddleCells(h, Pdu(data), n - 1);
    RecvAllSnoc(RESET, Cells(h, Pdu(data), n - 1), Cell(WithEop(h), Chunk(Pdu(data), n - 1)));
    PduStarts(data);
    LastCellReceived(Reas(Pdu(data)[..48 * (n - 1)], 0), WithEop(h), data, n);
  }
}
