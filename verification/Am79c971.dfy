/** The Am79c971 Ethernet controller (common/dev_am79c971.c). */
module Am79c971 {
  import opened Bytes
  import opened PhysMem
  import opened Wrappers
  import opened NetIos
  import opened Am79Desc
  import opened Am79Ring
  import opened Am79Regs
  import Rx = Am79Rx
  import Tx = Am79Tx

  /** The software style in BCR20; 0 stands for the styles the device does not know. */
  function StyleOf(bcr20: Word): nat {
    if bcr20.bits & 0xff == 2 then 2 else if bcr20.bits & 0xff == 3 then 3 else 0
  }

  function Pow2(n: nat): (p: nat)
    ensures p >= 1
  {
    if n == 0 then 1 else 2 * Pow2(n - 1)
  }

  /** `am79c971_update_rx_tx_len`: ring sizes are powers of two, at most 512. */
  function RingLen(l2: nat): (n: nat)
    ensures 1 <= n <= 512
  {
    if Pow2(l2) > 512 then 512 else Pow2(l2)
  }

  // ---- The initialization block ----

  datatype InitBlock = InitBlock(mode: Word, addr0: Word, addr1: Word, rx: Word, tx: Word)

  function InitAddr(csr1: Word, csr2: Word): Word {
    Word((csr2.bits << 16) | csr1.bits)
  }

  function BlockAt(m: Mem, a: nat): InitBlock {
    InitBlock(Load32(m, a), Load32(m, a + 4), Load32(m, a + 8), Load32(m, a + 20), Load32(m, a + 24))
  }

  /** The block CSR1 and CSR2 point at; none at address zero. */
  function BlockIn(m: Mem, csr1: Word, csr2: Word): Option<InitBlock> {
    var a := InitAddr(csr1, csr2);
    if a == Word(0) then None else Some(BlockAt(m, Address(a)))
  }

  function High16(w: Word): Word {
    Word(w.bits >> 16)
  }

  function MacOf(b: InitBlock): seq<Byte> {
    var (h, l) := (Hton32(b.addr0.bits), Hton32(b.addr1.bits));
    [h[3], h[2], h[1], h[0], l[3], l[2]]
  }

  function L2At20(w: Word): nat {
    NibbleValue(((w.bits >> 20) & 0xf) as bv4)
  }

  function L2At28(w: Word): nat {
    NibbleValue(((w.bits >> 28) & 0xf) as bv4)
  }

  function L2At8(w: Word): nat {
    NibbleValue(((w.bits >> 8) & 0xf) as bv4)
  }

  function L2At12(w: Word): nat {
    NibbleValue(((w.bits >> 12) & 0xf) as bv4)
  }

  /** What else a block sets: ring addresses and sizes, and the station address. */
  datatype Setup = Setup(rxStart: Word, txStart: Word, rxL2: nat, txL2: nat, rxLen: nat, txLen: nat,
                         mac: seq<Byte>, csr12: Word, csr13: Word, csr14: Word)

  function SetupOf(b: InitBlock): Setup {
    Setup(b.rx, b.tx, L2At20(b.mode), L2At28(b.mode), RingLen(L2At20(b.mode)), RingLen(L2At28(b.mode)),
          MacOf(b), Low16(b.addr0), High16(b.addr0), Low16(b.addr1))
  }

  // ---- The block byte by byte ----

  lemma LengthNibbles(b: bv32)
    ensures L2At20(Word(b)) == NibbleValue(Hi(Hton32(b)[1])) && L2At28(Word(b)) == NibbleValue(Hi(Hton32(b)[0]))
    ensures L2At8(Word(b)) == NibbleValue(Lo(Hton32(b)[2])) && L2At12(Word(b)) == NibbleValue(Hi(Hton32(b)[2]))
  {
    hide NibbleValue;
  }

  lemma HalfBytes(b: bv32)
    ensures Hton32(b & 0xffff) == [0, 0] + Hton32(b)[2..] && Hton32(b >> 16) == [0, 0] + Hton32(b)[..2]
  {
  }

  /**
   * What an initialization block at `a` sets, in bytes of guest memory: the mode
   * is bytes 2 and 3; the upper halves of bytes 1 and 0 are the logarithms of
   * the ring sizes; the rings are the words at 20 and 24.
   */
  lemma BlockRings(m: Mem, a: nat)
    ensures var s := SetupOf(BlockAt(m, a));
            && Hton32(Low16(BlockAt(m, a).mode).bits) == [0, 0, Load8(m, a + 2), Load8(m, a + 3)]
            && s.rxL2 == NibbleValue(Hi(Load8(m, a + 1))) && s.rxLen == RingLen(s.rxL2)
            && s.txL2 == NibbleValue(Hi(Load8(m, a))) && s.txLen == RingLen(s.txL2)
            && s.rxStart == Load32(m, a + 20) && s.txStart == Load32(m, a + 24)
  {
    hide Load8, Load32, Hton32, NibbleValue, Hi, L2At20, L2At28, RingLen, Low16, High16, MacOf;
    var b := BlockAt(m, a);
    BytesOfWord(m, a);
    LengthNibbles(b.mode.bits);
    HalvesOf(b.mode);
  }

  /** The station address is stored from byte 4, each word with its first byte last. */
  lemma BlockStation(m: Mem, a: nat)
    ensures var s := SetupOf(BlockAt(m, a));
            && s.mac == [Load8(m, a + 7), Load8(m, a + 6), Load8(m, a + 5), Load8(m, a + 4),
                         Load8(m, a + 11), Load8(m, a + 10)]
            && Hton32(s.csr12.bits) == [0, 0, Load8(m, a + 6), Load8(m, a + 7)]
            && Hton32(s.csr13.bits) == [0, 0, Load8(m, a + 4), Load8(m, a + 5)]
            && Hton32(s.csr14.bits) == [0, 0, Load8(m, a + 10), Load8(m, a + 11)]
  {
    hide Load8, Load32, Hton32, L2At20, L2At28, RingLen, Low16, High16, MacOf;
    var b := BlockAt(m, a);
    BytesOfWord(m, a + 4);
    BytesOfWord(m, a + 8);
    HalvesOf(b.addr0);
    HalvesOf(b.addr1);
    MacBytes(b);
  }

  lemma HalvesOf(w: Word)
    ensures Hton32(Low16(w).bits) == [0, 0] + Hton32(w.bits)[2..]
    ensures Hton32(High16(w).bits) == [0, 0] + Hton32(w.bits)[..2]
  {
    hide Hton32;
    HalfBytes(w.bits);
  }

  lemma MacBytes(b: InitBlock)
    ensures var (h, l) := (Hton32(b.addr0.bits), Hton32(b.addr1.bits));
            MacOf(b) == [h[3], h[2], h[1], h[0], l[3], l[2]]
  {
    hide Hton32;
  }

  lemma NinePowers()
    ensures Pow2(9) == 512
  {
    assert Pow2(9) == 2 * Pow2(8) == 4 * Pow2(7) == 8 * Pow2(6) == 16 * Pow2(5) == 32 * Pow2(4);
    assert Pow2(4) == 2 * Pow2(3) == 4 * Pow2(2) == 8 * Pow2(1) == 16;
  }

  /** Ring sizes: one, and twice as much for each step of the logarithm, but never more than 512. */
  lemma RingSizes(l2: nat)
    ensures RingLen(0) == 1
    ensures RingLen(l2 + 1) == if RingLen(l2) < 512 then 2 * RingLen(l2) else 512
    ensures RingLen(9) == 512
  {
    hide Pow2;
    NinePowers();
    PowersNext(l2);
    if l2 >= 9 {
      PowersMonotone(9, l2);
    } else {
      PowersMonotone(l2 + 1, 9);
    }
  }

  lemma PowersNext(l2: nat)
    ensures Pow2(0) == 1 && Pow2(l2 + 1) == 2 * Pow2(l2)
  {
  }

  lemma {:induction false} PowersMonotone(j: nat, k: nat)
    requires j <= k
    ensures Pow2(j) <= Pow2(k)
    decreases k
  {
    if j < k {
      PowersMonotone(j, k - 1);
    }
  }

  lemma JoinHalves(lo: bv32, hi: bv32)
    requires lo < 0x1_0000
    ensures Hton32((hi << 16) | lo) == Hton32(hi)[2..] + Hton32(lo)[2..]
  {
  }

  lemma BothZero(lo: bv32, hi: bv32)
    ensures (hi << 16) | lo == 0 <==> lo == 0 && Hton32(hi)[2] == 0 && Hton32(hi)[3] == 0
  {
  }

  /** There is no block exactly if CSR1 and the lower half of CSR2 are zero. */
  lemma NoBlockIff(m: Mem, csr1: Word, csr2: Word)
    ensures BlockIn(m, csr1, csr2) == None
       <==> csr1 == Word(0) && Hton32(csr2.bits)[2] == 0 && Hton32(csr2.bits)[3] == 0
  {
    hide Hton32, BlockAt, Address;
    BothZero(csr1.bits, csr2.bits);
  }

  lemma InitAddrIs(csr1: Word, csr2: Word)
    requires csr1.bits < 0x1_0000
    ensures var (a, l, h) := (Hton32(InitAddr(csr1, csr2).bits), Hton32(csr1.bits), Hton32(csr2.bits));
            a[0] == h[2] && a[1] == h[3] && a[2] == l[2] && a[3] == l[3]
  {
    hide Hton32;
    JoinHalves(csr1.bits, csr2.bits);
  }

  /** Else CSR2 and CSR1, of sixteen bits each, are the upper and the lower half of its address. */
  lemma BlockAddress(m: Mem, csr1: Word, csr2: Word)
    requires csr1.bits < 0x1_0000 && BlockIn(m, csr1, csr2).Some?
    ensures var (l, h) := (Hton32(csr1.bits), Hton32(csr2.bits));
            BlockIn(m, csr1, csr2).value
            == BlockAt(m, Number32(h[2], h[3], l[2], l[3]))
  {
    hide Hton32, BlockAt, Number32, InitAddr;
    InitAddrIs(csr1, csr2);
  }

  /** The part of the block the registers' steps depend on. */
  function ModeIn(b: Option<InitBlock>): Option<Word> {
    if b.Some? then Some(b.value.mode) else None
  }

  /** What a write of `v` to the data port is, given the register pointer. */
  function EventOf(rap: nat, v: Word, block: Option<Word>): Event {
    if rap == 0 then Write0(v, block)
    else if rap == 3 then Write3(v)
    else if rap == 15 then Write15(v)
    else OtherAccess
  }

  /** A frame is for the guest: promiscuous mode, a group address, or the device's own address. */
  predicate Accepts(csr15: Word, mac: seq<Byte>, pkt: seq<Byte>)
    requires |pkt| >= 6
  {
    Prom(csr15) || pkt[0] & 1 != 0 || pkt[..6] == mac
  }

  lemma OddByte(b: Byte)
    ensures b & 1 != 0 <==> NibbleValue(Lo(b)) % 2 == 1
  {
  }

  /** Accepted are all frames in promiscuous mode, else those to odd first bytes and to the station, byte for byte. */
  lemma AcceptsIff(csr15: Word, mac: seq<Byte>, pkt: seq<Byte>)
    requires |pkt| >= 6 && |mac| == 6
    ensures Accepts(csr15, mac, pkt)
       <==> csr15.bits & 0x8000 != 0 || Value(pkt[0]) % 2 == 1 || forall i :: 0 <= i < 6 ==> pkt[i] == mac[i]
  {
    hide Lo, Hi;
    OddByte(pkt[0]);
  }

  /** The style is the low byte of BCR20, if the device knows it. */
  lemma StyleIs(bcr20: Word)
    ensures StyleOf(bcr20) == 2 <==> Hton32(bcr20.bits)[3] == 2
    ensures StyleOf(bcr20) == 3 <==> Hton32(bcr20.bits)[3] == 3
    ensures StyleOf(bcr20) in {0, 2, 3}
  {
    LowByte(bcr20.bits);
  }

  lemma LowByte(b: bv32)
    ensures Hton32(b)[3] == 2 <==> b & 0xff == 2
    ensures Hton32(b)[3] == 3 <==> b & 0xff == 3
  {
  }

  class Am79c971 {
    const csr: array<Word>
    const bcr: array<Word>
    const mem: Memory
    const nio: NetIo
    /** `cisco_isl_rewrite`, which changes bytes of a packet and not its length. */
    const isl: seq<Byte> -> seq<Byte>
    var rap: nat
    var clearCount: nat
    var rxStart: Word
    var txStart: Word
    var rxL2: nat
    var txL2: nat
    var rxLen: nat
    var txLen: nat
    var rxPos: nat
    var txPos: nat
    var mac: seq<Byte>
    /** The PCI interrupt line. */
    var irq: bool

    ghost predicate Shape()
      reads this, csr, bcr, mem
    {
      && csr.Length == 256 && bcr.Length == 256 && csr != bcr
      && rap < 256 && clearCount < 3
      && mem.Valid()
      && (this as object) != mem && (this as object) != nio && (mem as object) != nio
    }

    ghost function Registers(): Regs
      requires csr.Length == 256
      reads this, csr
    {
      Regs(csr[0], csr[3], csr[15], clearCount, irq)
    }

    ghost predicate Valid()
      reads this, csr, bcr, mem
    {
      Shape() && OnSound(Registers()) && LineSound(Registers())
    }

    /** The receive ring as the registers describe it. */
    function RxRing(): Ring
      requires bcr.Length == 256
      reads this, bcr
    {
      Ring(Address(rxStart), rxLen, rxPos, StyleOf(bcr[20]))
    }

    function TxRing(): Ring
      requires bcr.Length == 256
      reads this, bcr
    {
      Ring(Address(txStart), txLen, txPos, StyleOf(bcr[20]))
    }

    /** Both rings, from the registers: addresses as big-endian numbers, the style from the low byte of BCR20. */
    lemma RingsAre()
      requires bcr.Length == 256
      ensures var (r, t, b) := (RxRing(), TxRing(), Hton32(bcr[20].bits)[3]);
              var (x, y) := (Hton32(rxStart.bits), Hton32(txStart.bits));
              && r.len == rxLen && r.pos == rxPos && t.len == txLen && t.pos == txPos
              && r.style == t.style == (if b == 2 then 2 else if b == 3 then 3 else 0)
              && r.start == Number32(x[0], x[1], x[2], x[3]) && t.start == Number32(y[0], y[1], y[2], y[3])
    {
      hide StyleOf, Hton32, Number32;
      StyleIs(bcr[20]);
    }

    constructor (mem: Memory, nio: NetIo, isl: seq<Byte> -> seq<Byte>)
      requires mem.Valid() && (mem as object) != nio
      ensures Valid() && Registers() == RESET
      ensures this.mem == mem && this.nio == nio && this.isl == isl
      ensures rxPos == 0 && txPos == 0 && rxStart == Word(0) && txStart == Word(0)
    {
      this.csr := new Word[256](_ => Word(0));
      this.bcr := new Word[256](_ => Word(0));
      this.mem := mem;
      this.nio := nio;
      this.isl := isl;
      rap, clearCount, rxL2, txL2, rxLen, txLen, rxPos, txPos := 0, 0, 0, 0, 0, 0, 0, 0;
      rxStart, txStart, mac, irq := Word(0), Word(0), Zeros(6), false;
      new;
      ResetIsSound();
    }

    method UpdateIrqStatus()
      requires Shape()
      modifies `irq, csr
      ensures Shape() && Registers() == IrqStatus(old(Registers()))
      ensures forall i :: 0 < i < 256 ==> csr[i] == old(csr[i])
    {
      if Unmasked(csr[0], csr[3]) {
        csr[0] := SetIntr(csr[0]);
      } else {
        csr[0] := ClearIntr(csr[0]);
      }
      irq := Intr(csr[0]) && Iena(csr[0]);
    }

    method UpdateRxTxOnBits()
      requires Shape()
      modifies csr
      ensures Shape() && csr[0] == OnBits(old(csr[0]), csr[15])
      ensures forall i :: 0 < i < 256 ==> csr[i] == old(csr[i])
    {
      csr[0] := ClearOn(csr[0]);
      if Strt(csr[0]) {
        if !Drx(csr[15]) { csr[0] := SetRxon(csr[0]); }
        if !Dtx(csr[15]) { csr[0] := SetTxon(csr[0]); }
      }
    }

    method UpdateRxTxLen()
      modifies `rxLen, `txLen
      ensures rxLen == RingLen(rxL2) && txLen == RingLen(txL2)
    {
      rxLen := RingLen(rxL2);
      txLen := RingLen(txL2);
    }

    ghost function CurrentSetup(): Setup
      requires csr.Length == 256
      reads this, csr
    {
      Setup(rxStart, txStart, rxL2, txL2, rxLen, txLen, mac, csr[12], csr[13], csr[14])
    }

    /** Ring addresses and sizes of the initialization block. */
    method StoreRings(ib: InitBlock)
      modifies this`rxStart, this`txStart, this`rxL2, this`txL2, this`rxLen, this`txLen
      ensures rxStart == ib.rx && txStart == ib.tx && rxL2 == L2At20(ib.mode) && txL2 == L2At28(ib.mode)
      ensures rxLen == RingLen(rxL2) && txLen == RingLen(txL2)
    {
      hide L2At20, L2At28, RingLen;
      rxStart := ib.rx;
      txStart := ib.tx;
      rxL2 := L2At20(ib.mode);
      txL2 := L2At28(ib.mode);
      UpdateRxTxLen();
    }

    method StoreSetup(ib: InitBlock)
      requires Shape()
      modifies this`rxStart, this`txStart, this`rxL2, this`txL2, this`rxLen, this`txLen, this`mac, csr
      ensures Shape() && CurrentSetup() == SetupOf(ib)
      ensures csr[15] == Low16(ib.mode)
      ensures forall i :: 0 <= i < 12 || 15 < i < 256 ==> csr[i] == old(csr[i])
    {
      hide L2At20, L2At28, MacOf, Low16, High16, RingLen;
      StoreRings(ib);
      csr[12], csr[13], csr[14], csr[15] := Low16(ib.addr0), High16(ib.addr0), Low16(ib.addr1), Low16(ib.mode);
      mac := MacOf(ib);
    }

    method FetchInitBlock() returns (ok: bool)
      requires Shape()
      modifies this`rxStart, this`txStart, this`rxL2, this`txL2, this`rxLen, this`txLen, this`mac, csr
      ensures Shape()
      ensures Registers() == Fetched(old(Registers()), ModeIn(BlockIn(mem.bytes, old(csr[1]), old(csr[2]))))
      ensures forall i :: 0 < i < 12 || 15 < i < 256 ==> csr[i] == old(csr[i])
      ensures var b := BlockIn(mem.bytes, old(csr[1]), old(csr[2]));
              ok == b.Some? && CurrentSetup() == if ok then SetupOf(b.value) else old(CurrentSetup())
    {
      hide BlockIn, OnBits, SetIdon, SetupOf, Low16;
      var b := BlockIn(mem.bytes, csr[1], csr[2]);
      ok := b.Some?;
      if ok {
        StoreSetup(b.value);
        csr[0] := SetIdon(csr[0]);
        UpdateRxTxOnBits();
      }
    }

    /** Clear what `v` acknowledges, and take over the Interrupt Enable bit. */
    method AcknowledgeStatus(v: Word)
      requires Shape()
      modifies this`clearCount, csr
      ensures Shape()
      ensures var third := old(clearCount) + 1 == 3;
              Registers() == old(Registers()).(csr0 := SaveIena(Acknowledged(old(csr[0]), v, third), v),
                                               count := if third then 0 else old(clearCount) + 1)
      ensures forall i :: 0 < i < 256 ==> csr[i] == old(csr[i])
    {
      hide SaveIena, Acknowledged;
      clearCount := clearCount + 1;
      var third := clearCount == 3;
      if third {
        clearCount := 0;
      }
      csr[0] := Acknowledged(csr[0], v, third);
      csr[0] := SaveIena(csr[0], v);
    }

    /** The INIT and STRT bits of a written value. */
    method StartAsTold(v: Word)
      requires Shape()
      modifies this`rxStart, this`txStart, this`rxL2, this`txL2, this`rxLen, this`txLen, this`mac, csr
      ensures Shape()
      ensures Registers() == Started(old(Registers()), v, ModeIn(BlockIn(mem.bytes, old(csr[1]), old(csr[2]))))
      ensures forall i :: 0 < i < 12 || 15 < i < 256 ==> csr[i] == old(csr[i])
      ensures var b := BlockIn(mem.bytes, old(csr[1]), old(csr[2]));
              CurrentSetup() == if InitBit(v) && b.Some? then SetupOf(b.value) else old(CurrentSetup())
    {
      hide OnBits, SetupOf, InitBit, Strt, SetInit, SetStrt, BlockIn, Fetched;
      if InitBit(v) {
        csr[0] := SetInit(csr[0]);
        var _ := FetchInitBlock();
      }
      if Strt(v) {
        csr[0] := SetStrt(csr[0]);
        UpdateRxTxOnBits();
      }
    }

    /** The STOP bit: everything else is cleared, and both rings start over. */
    method StopDevice()
      requires Shape()
      modifies `txPos, `rxPos, `irq, csr
      ensures Shape() && Registers() == IrqStatus(old(Registers()).(csr0 := STOPPED))
      ensures rxPos == 0 && txPos == 0
      ensures forall i :: 0 < i < 256 ==> csr[i] == old(csr[i])
    {
      hide IrqStatus;
      csr[0] := STOPPED;
      txPos, rxPos := 0, 0;
      UpdateIrqStatus();
    }

    /** A write to CSR0. */
    method WriteCsr0(v: Word)
      requires Shape()
      modifies this, csr
      ensures Shape() && rap == old(rap)
      ensures Registers() == Written0(old(Registers()), v, ModeIn(BlockIn(mem.bytes, old(csr[1]), old(csr[2]))))
      ensures forall i :: 0 < i < 12 || 15 < i < 256 ==> csr[i] == old(csr[i])
      ensures rxPos == (if StopBit(v) then 0 else old(rxPos)) && txPos == (if StopBit(v) then 0 else old(txPos))
      ensures var b := BlockIn(mem.bytes, old(csr[1]), old(csr[2]));
              CurrentSetup() == if !StopBit(v) && InitBit(v) && b.Some? then SetupOf(b.value) else old(CurrentSetup())
    {
      hide SetupOf, IrqStatus, StopBit, InitBit, SaveIena, Acknowledged, BlockIn, Started;
      if StopBit(v) {
        StopDevice();
      } else {
        AcknowledgeStatus(v);
        StartAsTold(v);
        UpdateIrqStatus();
      }
    }

    /** `am79c971_rdp_access`, the write side: the register the pointer selects. */
    method WriteRdp(v: Word)
      requires Valid()
      modifies this, csr
      ensures Valid() && rap == old(rap)
      ensures Registers()
           == Step(old(Registers()), EventOf(rap, v, ModeIn(BlockIn(mem.bytes, old(csr[1]), old(csr[2])))))
      ensures rap == 0 ==>
                Registers() == Step(old(Registers()), Write0(v, ModeIn(BlockIn(mem.bytes, old(csr[1]), old(csr[2])))))
      ensures rap == 15 ==> csr[15] == v && Registers() == Step(old(Registers()), Write15(v))
      ensures rap != 0 && rap != 15 ==> csr[0] == old(csr[0]) && csr[15] == old(csr[15]) && irq == old(irq)
      ensures forall i :: 0 < i < 256 && i != 15 && (rap != 0 || i < 12 || 14 < i) ==>
                csr[i] == if i == rap && i != 6 && i != 88 then v else old(csr[i])
      ensures var b := BlockIn(mem.bytes, old(csr[1]), old(csr[2]));
              rap == 0 ==>
                CurrentSetup() == if !StopBit(v) && InitBit(v) && b.Some? then SetupOf(b.value) else old(CurrentSetup())
      ensures rap != 0 ==> rxStart == old(rxStart) && txStart == old(txStart) && mac == old(mac)
      ensures rap == 6 ==> rxL2 == L2At8(v) && txL2 == L2At12(v) && rxLen == RingLen(rxL2) && txLen == RingLen(txL2)
      ensures rap != 0 && rap != 6 ==>
                rxL2 == old(rxL2) && txL2 == old(txL2) && rxLen == old(rxLen) && txLen == old(txLen)
      ensures rap == 0 && StopBit(v) ==> rxPos == 0 && txPos == 0
      ensures !(rap == 0 && StopBit(v)) ==> rxPos == old(rxPos) && txPos == old(txPos)
    {
      hide Written0, OnBits, OnSound, LineSound, L2At8, L2At12, StopBit, BlockIn, SetupOf, RingLen;
      ghost var e := EventOf(rap, v, ModeIn(BlockIn(mem.bytes, csr[1], csr[2])));
      StepKeepsOn(Registers(), e);
      StepKeepsLine(Registers(), e);
      if rap == 0 {
        WriteCsr0(v);
      } else if rap == 6 {
        rxL2 := L2At8(v);
        txL2 := L2At12(v);
        UpdateRxTxLen();
      } else if rap == 15 {
        csr[15] := v;
        UpdateRxTxOnBits();
      } else if rap != 88 {
        csr[rap] := v;
      }
    }

    // ---- Receiving ----

    /** `rxdesc_set_next`. */
    method RxSetNext()
      requires rxPos < rxLen
      modifies `rxPos
      ensures rxPos == NextSlot(old(rxPos), rxLen)
    {
      rxPos := rxPos + 1;
      if rxPos == rxLen {
        rxPos := 0;
      }
    }

    /** The packet is complete: end of packet, then the byte count. */
    method EndOfPacket(cur: nat, rxdc: Desc, n: nat, ghost r0: Ring, ghost p: Rx.Scan, ghost i: nat)
      returns (flags: Word)
      requires Shape() && r0.len > 0 && cur == Slot(r0, i) && n <= MAX_PKT_SIZE
      requires RxRing() == r0.(pos := rxPos) && mem.bytes == Rx.PutAt(r0, p, i) && Rx.Stored(r0, p, i)
      requires rxdc == At(p.mem, r0, i).(flags := Rx.Kept(i, At(p.mem, r0, i).flags))
      modifies mem
      ensures Shape() && flags == Rx.ClosingFlags(r0, p, i)
      ensures mem.bytes == Rx.Counted(r0, p, i, n)
      ensures mem.trace == old(mem.trace) + [Rx.Ended(r0, p, i), Rx.Counted(r0, p, i, n)]
    {
      hide Slot, At, Store32, SetEnp, SetErrBuff, WithCount, StyleOf, Address, Rx.PutAt, Rx.Kept, Rx.Stored;
      flags := SetEnp(rxdc.flags);
      mem.CopyU32To(FlagsAddr(RxRing(), cur), flags);
      mem.CopyU32To(AuxAddr(RxRing(), cur), WithCount(rxdc.aux, n + 4));
    }

    /** The next descriptor is not ours: error, buffer error, end of packet. */
    method EndOfChain(cur: nat, rxdc: Desc, n: nat, ghost r0: Ring, ghost p: Rx.Scan, ghost i: nat)
      returns (flags: Word)
      requires Shape() && r0.len > 0 && cur == Slot(r0, i) && n <= MAX_PKT_SIZE
      requires RxRing() == r0.(pos := rxPos) && mem.bytes == Rx.PutAt(r0, p, i) && !Rx.Stored(r0, p, i)
      requires rxdc == At(p.mem, r0, i).(flags := Rx.Kept(i, At(p.mem, r0, i).flags))
      modifies mem
      ensures Shape() && flags == Rx.ClosingFlags(r0, p, i)
      ensures mem.bytes == Rx.Counted(r0, p, i, n)
      ensures mem.trace == old(mem.trace) + [Rx.Ended(r0, p, i)]
    {
      hide Slot, At, Store32, SetEnp, SetErrBuff, WithCount, StyleOf, Address, Rx.PutAt, Rx.Kept, Rx.Stored;
      flags := SetEnp(SetErrBuff(rxdc.flags));
      mem.CopyU32To(FlagsAddr(RxRing(), cur), flags);
    }

    /** The loop over the descriptors; `first` is the word it holds of the first one at the end. */
    method ScatterPkt(pkt: seq<Byte>, rxd0: Desc) returns (first: Word)
      requires Shape() && Usable(RxRing())
      requires rxd0 == At(mem.bytes, RxRing(), 0)
      modifies `rxPos, mem
      ensures Shape()
      ensures var (r, m) := (old(RxRing()), old(mem.bytes));
              var l := Rx.Last(r, m, pkt);
              && mem.bytes == Rx.Counted(r, Rx.After(r, m, pkt, l), l, Rx.Truncated(|pkt|))
              && mem.trace == old(mem.trace) + Rx.Log(r, m, pkt)
              && SetStp(ClearOwn(first)) == Rx.FirstFlags(r, m, Rx.After(r, m, pkt, l), l)
              && rxPos == Slot(r, l + 1)
    {
      hide Own, ClearOwn, SetEnp, SetErrBuff, SetStp, WithCount, BufLen, Words, Slot, Usable;
      hide Store32, StoreBlock, Load32;
      hide NextSlot, StyleOf, Address, FlagsAddr, AuxAddr, Rx.After, Rx.LogTo, Rx.Last;
      hide Rx.Counted, Rx.Ended, Rx.ClosingFlags, Rx.Log;
      ghost var m, t := mem.bytes, mem.trace;
      var r := RxRing();
      RingFacts(r);
      SlotFirst(r);
      ghost var l := Rx.Last(r, m, pkt);
      Rx.LastEnds(r, m, pkt);
      Rx.LogEnds(r, m, pkt, t);
      Rx.AfterNext(r, m, pkt, 0);
      var i, cur, left, rxdc := 0, rxPos, pkt, rxd0;
      while true
        invariant Shape() && 0 <= i <= l && RxRing() == r.(pos := rxPos)
        invariant Rx.Scan(mem.bytes, left) == Rx.After(r, m, pkt, i)
        invariant mem.trace == t + Rx.LogTo(r, m, pkt, i)
        invariant rxPos == cur == Slot(r, i) && rxdc == At(mem.bytes, r, i)
        decreases l - i
      {
        ghost var p := Rx.Scan(mem.bytes, left);
        mem.CopyTo(Address(rxdc.addr), Rx.Piece(rxdc, left));
        left := left[|Rx.Piece(rxdc, left)|..];
        RxSetNext();
        SlotNext(r, i);
        Rx.AfterNext(r, m, pkt, i);
        if i != 0 {
          rxdc := rxdc.(flags := ClearOwn(rxdc.flags));
        }
        if |left| == 0 {
          var w := EndOfPacket(cur, rxdc, Rx.Truncated(|pkt|), r, p, i);
          rxdc := rxdc.(flags := w);
          break;
        }
        var next := Words(mem.bytes, r, rxPos);
        if !Own(next.flags) {
          var w := EndOfChain(cur, rxdc, Rx.Truncated(|pkt|), r, p, i);
          rxdc := rxdc.(flags := w);
          break;
        }
        ghost var filled := mem.bytes;
        mem.CopyU32To(FlagsAddr(r, cur), rxdc.flags);
        Rx.LogGrows(t, Rx.LogTo(r, m, pkt, i), filled, mem.bytes);
        rxdc := Words(mem.bytes, r, rxPos);
        cur, i := rxPos, i + 1;
      }
      first := if i == 0 then rxdc.flags else rxd0.flags;
    }

    lemma RingFacts(r: Ring)
      requires Usable(r)
      ensures 0 < r.len && r.pos < r.len && r.start + 16 * r.len <= 0x1_0000_0000
    {
    }

    /**
     * `am79c971_receive_pkt`. It ends for every ring; what it leaves is stated
     * by `Received` and `Log`, and the theorems about them say what that is.
     */
    method ReceivePkt(pkt: seq<Byte>) returns (ok: bool)
      requires Valid() && Usable(RxRing())
      modifies this, csr, mem
      ensures Valid()
      ensures ok == Rx.FirstHeld(old(RxRing()), old(mem.bytes))
      ensures !ok ==> mem.bytes == old(mem.bytes) && mem.trace == old(mem.trace)
      ensures !ok ==> rxPos == old(rxPos) && Registers() == old(Registers())
      ensures ok ==>
                (var (r, m) := (old(RxRing()), old(mem.bytes));
                 && mem.bytes == Rx.Received(r, m, pkt)
                 && mem.trace == old(mem.trace) + Rx.Log(r, m, pkt) + [mem.bytes]
                 && rxPos == Slot(r, Rx.Last(r, m, pkt) + 1)
                 && Registers() == Step(old(Registers()), PacketReceived))
      ensures CurrentSetup() == old(CurrentSetup()) && txPos == old(txPos) && rap == old(rap)
      ensures forall i :: 0 < i < 256 ==> csr[i] == old(csr[i])
    {
      hide Own, ClearOwn, SetStp, Words, Store32, Slot, Usable, StyleOf, Address, FlagsAddr;
      hide OnSound, LineSound, IrqStatus, SetRint, Rx.Last, Rx.Counted, Rx.FirstFlags, Rx.Log;
      var r := RxRing();
      SlotFirst(r) by { RingFacts(r); }
      RingFacts(r);
      var rxd0 := Words(mem.bytes, r, rxPos);
      if !Own(rxd0.flags) {
        return false;
      }
      StepKeepsOn(Registers(), PacketReceived);
      StepKeepsLine(Registers(), PacketReceived);
      var first := ScatterPkt(pkt, rxd0);
      mem.CopyU32To(FlagsAddr(r, r.pos), SetStp(ClearOwn(first)));
      csr[0] := SetRint(csr[0]);
      UpdateIrqStatus();
      ok := true;
    }

    /** `am79c971_handle_rxring`: reception must be set up and on, and the frame for this station. */
    method HandleRxRing(pkt: seq<Byte>) returns (ok: bool)
      requires Valid() && 6 <= |pkt|
      requires rxStart != Word(0) && Rxon(csr[0]) ==> Usable(RxRing())
      modifies this, csr, mem
      ensures Valid()
      ensures ok == (old(rxStart) != Word(0) && Rxon(old(csr[0])))
      ensures ok <==> old(rxStart) != Word(0) && Strt(old(csr[0])) && !Drx(old(csr[15]))
      ensures var take := old(rxStart) != Word(0) && Rxon(old(csr[0]))
                      && Accepts(old(csr[15]), old(mac), pkt)
                      && Own(Words(old(mem.bytes), old(RxRing()), old(rxPos)).flags);
              && mem.bytes == (if take then Rx.Received(old(RxRing()), old(mem.bytes), pkt) else old(mem.bytes))
              && Registers() == (if take then Step(old(Registers()), PacketReceived) else old(Registers()))
              && rxPos == (if take then Slot(old(RxRing()), Rx.Last(old(RxRing()), old(mem.bytes), pkt) + 1)
                           else old(rxPos))
              && mem.trace == old(mem.trace)
                 + (if take then Rx.Log(old(RxRing()), old(mem.bytes), pkt) + [mem.bytes] else [])
    {
      hide Rxon, Txon, Strt, Drx, Dtx, Accepts, Usable, Step, Own, Words, Slot;
      hide Rx.Received, Rx.Log, Rx.Last;
      if rxStart == Word(0) || !Rxon(csr[0]) {
        return false;
      }
      if Accepts(csr[15], mac, pkt) {
        RingFacts(RxRing());
        SlotFirst(RxRing());
        var _ := ReceivePkt(pkt);
      }
      ok := true;
    }

    // ---- Transmitting ----

    /** `txdesc_set_next`. */
    method TxSetNext()
      requires txPos < txLen
      modifies `txPos
      ensures txPos == NextSlot(old(txPos), txLen)
    {
      txPos := txPos + 1;
      if txPos == txLen {
        txPos := 0;
      }
    }

    /**
     * The loop over the descriptors. `sent` tells an end of packet from an
     * underflow; `first` is the word it holds of the first descriptor.
     */
    method GatherPkt(txd0: Desc) returns (sent: bool, pkt: seq<Byte>, first: Word)
      requires Shape() && Usable(TxRing()) && Tx.Sendable(TxRing(), mem.bytes)
      requires txd0 == At(mem.bytes, TxRing(), 0) && Own(txd0.flags)
      modifies `txPos, mem
      ensures Shape()
      ensures var (r, m) := (old(TxRing()), old(mem.bytes));
              var k := Tx.ChainLength(r, m);
              && sent == Tx.Complete(r, m)
              && mem.bytes == Tx.After(r, m, k).mem
              && mem.trace == old(mem.trace) + Tx.Log(r, m, k)
              && pkt == Tx.Packet(r, m) && |pkt| == Room(m, r, k)
              && first == Tx.FlagsIn(r, m, 1, 0)
              && txPos == Slot(r, k)
    {
      hide Own, Enp, Stp, ClearOwn, BufLen, Words, Slot, Usable, NextSlot, StyleOf, Room;
      hide Store32, LoadBlock, Load32, Address, FlagsAddr;
      hide Tx.After, Tx.Log, Tx.ChainLength, Tx.Complete, Tx.Spinning;
      ghost var m, t := mem.bytes, mem.trace;
      var r := TxRing();
      RingFacts(r);
      SlotFirst(r);
      ghost var k := Tx.ChainLength(r, m);
      Tx.ChainLengthBounds(r, m);
      Tx.AfterNext(r, m, 0);
      Tx.DataLength(r, m, k);
      var cur, ctxd := txPos, txd0;
      pkt, first := [], txd0.flags;
      var atFirst := true;
      ghost var i := 0;
      while true
        invariant Shape() && 0 <= i < k && TxRing() == r.(pos := txPos)
        invariant Tx.Scan(mem.bytes, pkt) == Tx.After(r, m, i)
        invariant mem.trace == t + Tx.Log(r, m, i)
        invariant txPos == cur == Slot(r, i) && ctxd == At(mem.bytes, r, i)
        invariant atFirst == (i == 0)
        invariant first == if i == 0 then At(m, r, 0).flags else Tx.FlagsIn(r, m, 1, 0)
        decreases k - i
      {
        Tx.AfterNext(r, m, i);
        Tx.FlagsInEnp(r, m, i);
        pkt := pkt + LoadBlock(mem.bytes, Address(ctxd.addr), BufLen(ctxd.flags));
        if !Stp(ctxd.flags) {
          ctxd := ctxd.(flags := ClearOwn(ctxd.flags));
          mem.CopyU32To(FlagsAddr(r, cur), ctxd.flags);
        }
        if atFirst {
          first := ctxd.flags;
        }
        TxSetNext();
        SlotNext(r, i);
        Tx.ChainStep(r, m, i + 1);
        if Enp(ctxd.flags) {
          sent := true;
          break;
        }
        cur := txPos;
        var next := Words(mem.bytes, r, cur);
        if !Own(next.flags) {
          sent := false;
          break;
        }
        ctxd, atFirst := next, false;
        i := i + 1;
      }
    }

    /** The packet at the current position, whose first descriptor is the device's. */
    method TransmitPkt(txd0: Desc) returns (ok: bool)
      requires Valid() && Usable(TxRing()) && Tx.Sendable(TxRing(), mem.bytes)
      requires txd0 == At(mem.bytes, TxRing(), 0) && Own(txd0.flags)
      modifies this, csr, mem, nio
      ensures Valid()
      ensures var (r, m) := (old(TxRing()), old(mem.bytes));
              var k := Tx.ChainLength(r, m);
              && ok == Tx.Complete(r, m)
              && mem.bytes == Tx.Sent(r, m)
              && mem.trace == old(mem.trace) + Tx.Log(r, m, k) + (if ok then [mem.bytes] else [])
              && txPos == Slot(r, k)
              && nio.sent == old(nio.sent) + (if ok && Room(m, r, k) > 0 then [isl(Tx.Packet(r, m))] else [])
              && Registers() == if ok then Step(old(Registers()), PacketSent) else old(Registers())
      ensures CurrentSetup() == old(CurrentSetup()) && rxPos == old(rxPos) && rap == old(rap)
      ensures forall i :: 0 < i < 256 ==> csr[i] == old(csr[i])
    {
      hide Own, ClearOwn, Stp, Words, Store32, Slot, Usable, StyleOf, Address, FlagsAddr, Txon, Rxon;
      hide OnSound, LineSound, IrqStatus, SetTint, Room;
      hide Tx.After, Tx.ChainLength, Tx.Complete, Tx.Log, Tx.FlagsIn, Tx.Sendable, Tx.Packet;
      var r := TxRing();
      RingFacts(r);
      SlotFirst(r);
      StepKeepsOn(Registers(), PacketSent);
      StepKeepsLine(Registers(), PacketSent);
      var pkt, first;
      ok, pkt, first := GatherPkt(txd0);
      if !ok {
        return;
      }
      if |pkt| != 0 {
        nio.Send(isl(pkt));
      }
      mem.CopyU32To(FlagsAddr(r, r.pos), ClearOwn(first));
      csr[0] := SetTint(csr[0]);
      UpdateIrqStatus();
    }

    /** `am79c971_handle_txring_single`: at most one packet. */
    method HandleTxRingSingle(canTransmit: bool) returns (ok: bool)
      requires Valid()
      requires txStart != Word(0) && Txon(csr[0]) && canTransmit ==>
                 Usable(TxRing()) && (Own(At(mem.bytes, TxRing(), 0).flags) ==> Tx.Sendable(TxRing(), mem.bytes))
      modifies this, csr, mem, nio
      ensures Valid()
      ensures var (r, m) := (old(TxRing()), old(mem.bytes));
              var ready := old(txStart) != Word(0) && Txon(old(csr[0])) && canTransmit && Own(At(m, r, 0).flags);
              if !ready then
                !ok && mem.bytes == m && mem.trace == old(mem.trace) && txPos == old(txPos)
                && nio.sent == old(nio.sent) && Registers() == old(Registers())
              else
                (var k := Tx.ChainLength(r, m);
                 && ok == Tx.Complete(r, m)
                 && mem.bytes == Tx.Sent(r, m)
                 && mem.trace == old(mem.trace) + Tx.Log(r, m, k) + (if ok then [mem.bytes] else [])
                 && txPos == Slot(r, k)
                 && nio.sent == old(nio.sent) + (if ok && Room(m, r, k) > 0 then [isl(Tx.Packet(r, m))] else [])
                 && Registers() == if ok then Step(old(Registers()), PacketSent) else old(Registers()))
      ensures CurrentSetup() == old(CurrentSetup()) && rxPos == old(rxPos) && rap == old(rap)
      ensures forall i :: 0 < i < 256 ==> csr[i] == old(csr[i])
    {
      hide Own, Words, Slot, Usable, StyleOf, Address, Txon, OnSound, LineSound, Step, Room;
      hide Tx.ChainLength, Tx.Complete, Tx.Log, Tx.Sent, Tx.Sendable, Tx.Packet;
      ok := false;
      if txStart != Word(0) && Txon(csr[0]) && canTransmit {
        RingFacts(TxRing());
        SlotFirst(TxRing());
        var txd0 := Words(mem.bytes, TxRing(), txPos);
        if Own(txd0.flags) {
          ok := TransmitPkt(txd0);
        }
      }
    }
  }
}
