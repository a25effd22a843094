/** ATM cells: sizes, header fields and check byte. */
module AtmCell {
  import opened Bytes
  import opened Hec

  const HDR_SIZE: nat := 5
  const PAYLOAD_SIZE: nat := 48
  const CELL_SIZE: nat := 53
  const TRAILER_SIZE: nat := 8
  const TRAILER_POS: nat := 45

  /** A C `u_int`, wrapped so that comparing keys does not open its bits. */
  datatype UInt = UInt(bits: bv32)

  // ---- The header word ----

  function MakeHdr(vpi: bv32, vci: bv32): bv32 {
    (vpi << 20) | (vci << 4)
  }

  function WithEop(h: bv32): bv32 {
    h | 0x0000_0002
  }

  function VpiOf(h: bv32): bv32 {
    (h & 0xfff0_0000) >> 20
  }

  function VciOf(h: bv32): bv32 {
    (h & 0x000f_fff0) >> 4
  }

  predicate IsEop(h: bv32) {
    h & 0x0000_0002 != 0
  }

  predicate IsNetwork(h: bv32) {
    h & 0x0000_0008 != 0
  }

  /** VPI and VCI fit the 12 and 16 bits the header has for them. */
  predicate InWidth(vpi: bv32, vci: bv32) {
    vpi < 0x1000 && vci < 0x1_0000
  }

  lemma MadeHeader(vpi: bv32, vci: bv32)
    ensures !IsEop(MakeHdr(vpi, vci)) && !IsNetwork(MakeHdr(vpi, vci))
    ensures IsEop(WithEop(MakeHdr(vpi, vci))) && !IsNetwork(WithEop(MakeHdr(vpi, vci)))
  {
  }

  lemma MadeVpi(vpi: bv32, vci: bv32)
    requires InWidth(vpi, vci)
    ensures VpiOf(MakeHdr(vpi, vci)) == vpi
  {
  }

  lemma MadeVci(vpi: bv32, vci: bv32)
    requires InWidth(vpi, vci)
    ensures VciOf(MakeHdr(vpi, vci)) == vci
  {
  }

  lemma EopKeepsFields(h: bv32)
    ensures VpiOf(WithEop(h)) == VpiOf(h) && VciOf(WithEop(h)) == VciOf(h)
  {
  }

  lemma FieldsInWidth(h: bv32)
    ensures InWidth(VpiOf(h), VciOf(h))
  {
  }

  /** The bytes of a header made: VPI, VCI, and the payload type in bits 1 to 3 of the last byte. */
  lemma MadeBytes(vpi: bv32, vci: bv32)
    requires InWidth(vpi, vci)
    ensures Hton32(MakeHdr(vpi, vci))
         == [(vpi >> 4) as Byte, (((vpi & 0xf) << 4) | (vci >> 12)) as Byte, ((vci >> 4) & 0xff) as Byte,
             ((vci & 0xf) << 4) as Byte]
  {
  }

  lemma PayloadTypeBits(h: bv32)
    ensures Hton32(WithEop(h)) == Hton32(h)[3 := Hton32(h)[3] | 0x2]
    ensures (IsEop(h) <==> Hton32(h)[3] & 0x2 != 0) && (IsNetwork(h) <==> Hton32(h)[3] & 0x8 != 0)
  {
  }

  // ---- Cells ----

  /** The header word a cell starts with. */
  function HdrOf(cell: seq<Byte>): bv32
    requires |cell| >= 4
  {
    Ntoh32(cell[0], cell[1], cell[2], cell[3])
  }

  /** A cell as the segmentation engine and the switch send it. */
  function Cell(h: bv32, payload: seq<Byte>): (c: seq<Byte>)
    ensures |c| == HDR_SIZE + |payload|
    ensures c[HDR_SIZE..] == payload
  {
    Hton32(h) + [CheckByte(Hton32(h))] + payload
  }

  lemma CellHeader(h: bv32, payload: seq<Byte>)
    ensures HdrOf(Cell(h, payload)) == h
    ensures Protected(Cell(h, payload)[..5])
  {
    hide Ntoh32, Hton32, CheckByte;
    Hton32RoundTrip(h);
    assert Cell(h, payload)[..5][..4] == Hton32(h);
  }
}
