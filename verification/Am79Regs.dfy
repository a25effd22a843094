/**
 * The status register CSR0 of the Am79c971, the bits derived from it, and the
 * interrupt line (common/dev_am79c971.c).
 */
module Am79Regs {
  import opened PhysMem
  import opened Wrappers

  // ---- Bits ----

  function Masked(b: bv32, k: bv32): bv32 { b & k }

  predicate Test(b: bv32, k: bv32) { Masked(b, k) != 0 }

  function Or(b: bv32, s: bv32): bv32 { b | s }

  function Clear(b: bv32, s: bv32): bv32 { b & !s }

  predicate Intr(csr0: Word) { Test(csr0.bits, 0x80) }

  predicate Iena(csr0: Word) { Test(csr0.bits, 0x40) }

  predicate Rxon(csr0: Word) { Test(csr0.bits, 0x20) }

  predicate Txon(csr0: Word) { Test(csr0.bits, 0x10) }

  predicate StopBit(w: Word) { Test(w.bits, 0x4) }

  predicate Strt(w: Word) { Test(w.bits, 0x2) }

  predicate InitBit(w: Word) { Test(w.bits, 0x1) }

  predicate Dtx(csr15: Word) { Test(csr15.bits, 0x2) }

  predicate Drx(csr15: Word) { Test(csr15.bits, 0x1) }

  predicate Prom(csr15: Word) { Test(csr15.bits, 0x8000) }

  predicate Rint(csr0: Word) { Test(csr0.bits, 0x400) }

  predicate Tint(csr0: Word) { Test(csr0.bits, 0x200) }

  /** The interrupts CSR3 does not disable. */
  function EnabledMask(csr3: bv32): bv32 { 0x7f00 & !(csr3 & 0x7f00) }

  /** An event whose bit in CSR3 does not disable it is pending. */
  predicate Unmasked(csr0: Word, csr3: Word) { Test(csr0.bits, EnabledMask(csr3.bits)) }

  function SetIntr(w: Word): Word { Word(Or(w.bits, 0x80)) }

  function ClearIntr(w: Word): Word { Word(Clear(w.bits, 0x80)) }

  function ClearOn(w: Word): Word { Word(Clear(w.bits, 0x20 | 0x10)) }

  function SetRxon(w: Word): Word { Word(Or(w.bits, 0x20)) }

  function SetTxon(w: Word): Word { Word(Or(w.bits, 0x10)) }

  function SetRint(w: Word): Word { Word(Or(w.bits, 0x400)) }

  function SetTint(w: Word): Word { Word(Or(w.bits, 0x200)) }

  function SetIdon(w: Word): Word { Word(Or(w.bits, 0x100)) }

  const STOPPED: Word := Word(0x4)

  function AckMask(v: bv32, third: bool): bv32 { v & (if third then 0x7f00 else 0x7900) }

  function IenaMask(v: bv32): bv32 { v & 0x40 }

  /** `&= ~(data & mask)`: status bits written as one are cleared; RINT and TINT only every third time. */
  function Acknowledged(w: Word, v: Word, third: bool): Word {
    Word(Clear(w.bits, AckMask(v.bits, third)))
  }

  /** The Interrupt Enable bit is only ever added. */
  function SaveIena(w: Word, v: Word): Word { Word(Or(w.bits, IenaMask(v.bits))) }

  function SetInit(w: Word): Word { Word(Clear(Or(w.bits, 0x1), 0x4)) }

  function SetStrt(w: Word): Word { Word(Clear(Or(w.bits, 0x2), 0x4)) }

  function Low16(w: Word): Word { Word(w.bits & 0xffff) }

  /** `am79c971_update_rx_tx_on_bits`. */
  function OnBits(csr0: Word, csr15: Word): Word {
    var a := ClearOn(csr0);
    if !Strt(a) then a
    else
      var b := if Drx(csr15) then a else SetRxon(a);
      if Dtx(csr15) then b else SetTxon(b)
  }

  // ---- State and steps ----

  /** `count` is the number of CSR0 writes since RINT and TINT could last be cleared. */
  datatype Regs = Regs(csr0: Word, csr3: Word, csr15: Word, count: nat, irq: bool)

  /** `am79c971_update_irq_status`. */
  function IrqStatus(r: Regs): Regs {
    var c := if Unmasked(r.csr0, r.csr3) then SetIntr(r.csr0) else ClearIntr(r.csr0);
    r.(csr0 := c, irq := Intr(c) && Iena(c))
  }

  /** `am79c971_fetch_init_block`; no block when its address is zero. */
  function Fetched(r: Regs, block: Option<Word>): Regs {
    match block
    case None => r
    case Some(mode) => r.(csr15 := Low16(mode), csr0 := OnBits(SetIdon(r.csr0), Low16(mode)))
  }

  /** The INIT and STRT bits of a written value; INIT comes first. */
  function Started(r: Regs, v: Word, block: Option<Word>): Regs {
    var b := if InitBit(v) then Fetched(r.(csr0 := SetInit(r.csr0)), block) else r;
    if Strt(v) then b.(csr0 := OnBits(SetStrt(b.csr0), b.csr15)) else b
  }

  /** A write of `v` to CSR0. */
  function Written0(r: Regs, v: Word, block: Option<Word>): Regs {
    if StopBit(v) then IrqStatus(r.(csr0 := STOPPED))
    else
      var third := r.count + 1 == 3;
      var a := r.(csr0 := SaveIena(Acknowledged(r.csr0, v, third), v), count := if third then 0 else r.count + 1);
      IrqStatus(Started(a, v, block))
  }

  datatype Event =
    | Write0(v: Word, block: Option<Word>)
    | Write3(v: Word)
    | Write15(v: Word)
    | PacketReceived
    | PacketSent
    | OtherAccess

  function Step(r: Regs, e: Event): Regs {
    match e
    case Write0(v, block) => Written0(r, v, block)
    case Write3(v) => r.(csr3 := v)
    case Write15(v) => r.(csr15 := v, csr0 := OnBits(r.csr0, v))
    case PacketReceived => IrqStatus(r.(csr0 := SetRint(r.csr0)))
    case PacketSent => IrqStatus(r.(csr0 := SetTint(r.csr0)))
    case OtherAccess => r
  }

  function Run(r: Regs, events: seq<Event>): Regs {
    if events == [] then r else Step(Run(r, events[..|events| - 1]), events[|events| - 1])
  }

  /** The device as it is created: everything zero. */
  const RESET: Regs := Regs(Word(0), Word(0), Word(0), 0, false)

  // ---- Invariants ----

  predicate OnSound(r: Regs) {
    && (Rxon(r.csr0) <==> Strt(r.csr0) && !Drx(r.csr15))
    && (Txon(r.csr0) <==> Strt(r.csr0) && !Dtx(r.csr15))
  }

  predicate LineSound(r: Regs) {
    r.irq <==> Intr(r.csr0) && Iena(r.csr0)
  }

  predicate IntrSound(r: Regs) {
    Intr(r.csr0) <==> Unmasked(r.csr0, r.csr3)
  }

  // Setting or clearing bits, and testing the same or other bits.

  lemma SetBits(b: bv32, s: bv32, k: bv32)
    requires s & k == 0
    ensures Masked(Or(b, s), k) == Masked(b, k)
  {
  }

  lemma ClearedBits(b: bv32, s: bv32, k: bv32)
    requires s & k == 0
    ensures Masked(Clear(b, s), k) == Masked(b, k)
  {
  }

  lemma SetOther(b: bv32, s: bv32, k: bv32)
    requires s & k == 0
    ensures Test(Or(b, s), k) == Test(b, k)
  {
    hide Masked, Or;
    SetBits(b, s, k);
  }

  lemma ClearOther(b: bv32, s: bv32, k: bv32)
    requires s & k == 0
    ensures Test(Clear(b, s), k) == Test(b, k)
  {
    hide Masked, Clear;
    ClearedBits(b, s, k);
  }

  lemma SetSame(b: bv32, s: bv32)
    requires s != 0
    ensures Test(Or(b, s), s)
  {
  }

  lemma ClearSame(b: bv32, s: bv32, k: bv32)
    requires k & !s == 0
    ensures !Test(Clear(b, s), k)
  {
  }

  lemma LowBitsOf(csr3: bv32, s: bv32)
    requires s & 0xff == s
    ensures s & EnabledMask(csr3) == 0
  {
  }

  /** Bits below 0x100 do not matter to what is pending. */
  lemma LowBitsKeepPending(w: Word, s: bv32, csr3: Word)
    requires s & 0xff == s
    ensures Unmasked(Word(Or(w.bits, s)), csr3) <==> Unmasked(w, csr3)
    ensures Unmasked(Word(Clear(w.bits, s)), csr3) <==> Unmasked(w, csr3)
  {
    hide EnabledMask, Test, Or, Clear;
    LowBitsOf(csr3.bits, s);
    SetOther(w.bits, s, EnabledMask(csr3.bits));
    ClearOther(w.bits, s, EnabledMask(csr3.bits));
  }

  lemma ClearOnBits(w: Word)
    ensures !Rxon(ClearOn(w)) && !Txon(ClearOn(w)) && (Strt(ClearOn(w)) <==> Strt(w))
    ensures (Intr(ClearOn(w)) <==> Intr(w)) && (Iena(ClearOn(w)) <==> Iena(w))
  {
    hide Test, Or, Clear;
    ClearSame(w.bits, 0x30, 0x20);
    ClearSame(w.bits, 0x30, 0x10);
    ClearOther(w.bits, 0x30, 0x2);
    ClearOther(w.bits, 0x30, 0x80);
    ClearOther(w.bits, 0x30, 0x40);
  }

  lemma SetRxonBits(w: Word)
    ensures Rxon(SetRxon(w)) && (Txon(SetRxon(w)) <==> Txon(w)) && (Strt(SetRxon(w)) <==> Strt(w))
    ensures (Intr(SetRxon(w)) <==> Intr(w)) && (Iena(SetRxon(w)) <==> Iena(w))
  {
    hide Test, Or, Clear;
    SetSame(w.bits, 0x20);
    SetOther(w.bits, 0x20, 0x10);
    SetOther(w.bits, 0x20, 0x2);
    SetOther(w.bits, 0x20, 0x80);
    SetOther(w.bits, 0x20, 0x40);
  }

  lemma SetTxonBits(w: Word)
    ensures Txon(SetTxon(w)) && (Rxon(SetTxon(w)) <==> Rxon(w)) && (Strt(SetTxon(w)) <==> Strt(w))
    ensures (Intr(SetTxon(w)) <==> Intr(w)) && (Iena(SetTxon(w)) <==> Iena(w))
  {
    hide Test, Or, Clear;
    SetSame(w.bits, 0x10);
    SetOther(w.bits, 0x10, 0x20);
    SetOther(w.bits, 0x10, 0x2);
    SetOther(w.bits, 0x10, 0x80);
    SetOther(w.bits, 0x10, 0x40);
  }

  lemma OnKeepsPending(w: Word, csr3: Word)
    ensures Unmasked(ClearOn(w), csr3) <==> Unmasked(w, csr3)
    ensures Unmasked(SetRxon(w), csr3) <==> Unmasked(w, csr3)
    ensures Unmasked(SetTxon(w), csr3) <==> Unmasked(w, csr3)
  {
    hide Unmasked, Or, Clear;
    LowBitsKeepPending(w, 0x20 | 0x10, csr3);
    LowBitsKeepPending(w, 0x20, csr3);
    LowBitsKeepPending(w, 0x10, csr3);
  }

  lemma OnBitsIs(csr0: Word, csr15: Word, csr3: Word)
    ensures var c := OnBits(csr0, csr15);
            && (Rxon(c) <==> Strt(csr0) && !Drx(csr15))
            && (Txon(c) <==> Strt(csr0) && !Dtx(csr15))
            && (Strt(c) <==> Strt(csr0))
            && (Intr(c) <==> Intr(csr0))
            && (Iena(c) <==> Iena(csr0))
            && (Unmasked(c, csr3) <==> Unmasked(csr0, csr3))
  {
    hide ClearOn, SetRxon, SetTxon, Strt, Drx, Dtx, Rxon, Txon, Intr, Iena, Unmasked;
    var a := ClearOn(csr0);
    var b := if Drx(csr15) then a else SetRxon(a);
    ClearOnBits(csr0);
    SetRxonBits(a);
    SetTxonBits(b);
    OnKeepsPending(csr0, csr3);
    OnKeepsPending(a, csr3);
    OnKeepsPending(b, csr3);
  }

  lemma IntrBits(w: Word, csr3: Word)
    ensures Intr(SetIntr(w)) && !Intr(ClearIntr(w))
    ensures Unmasked(SetIntr(w), csr3) <==> Unmasked(w, csr3)
    ensures Unmasked(ClearIntr(w), csr3) <==> Unmasked(w, csr3)
  {
    hide Unmasked, Test, Or, Clear;
    SetSame(w.bits, 0x80);
    ClearSame(w.bits, 0x80, 0x80);
    LowBitsKeepPending(w, 0x80, csr3);
  }

  predicate SameOn(v: Word, w: Word) {
    (Rxon(v) <==> Rxon(w)) && (Txon(v) <==> Txon(w)) && (Strt(v) <==> Strt(w))
  }

  lemma PartsOf(s: bv32, k: bv32, part: bv32)
    requires s & k == 0 && part & k == part
    ensures s & part == 0
  {
  }

  /** Changing bits other than RXON, TXON and STRT. */
  lemma OthersKeepOn(w: Word, s: bv32)
    requires s & 0x32 == 0
    ensures SameOn(Word(Or(w.bits, s)), w) && SameOn(Word(Clear(w.bits, s)), w)
  {
    hide Test, Or, Clear;
    PartsOf(s, 0x32, 0x20);
    PartsOf(s, 0x32, 0x10);
    PartsOf(s, 0x32, 0x2);
    SetOther(w.bits, s, 0x20);
    SetOther(w.bits, s, 0x10);
    SetOther(w.bits, s, 0x2);
    ClearOther(w.bits, s, 0x20);
    ClearOther(w.bits, s, 0x10);
    ClearOther(w.bits, s, 0x2);
  }

  lemma IntrKeepsOn(w: Word)
    ensures SameOn(SetIntr(w), w) && SameOn(ClearIntr(w), w)
  {
    hide Or, Clear, SameOn;
    OthersKeepOn(w, 0x80);
  }

  /** Whatever was there before, the update leaves the flag and the line right. */
  lemma IrqStatusIs(r: Regs)
    ensures LineSound(IrqStatus(r)) && IntrSound(IrqStatus(r))
    ensures OnSound(r) ==> OnSound(IrqStatus(r))
  {
    hide SetIntr, ClearIntr, Intr, Iena, Unmasked, Rxon, Txon, Strt, Drx, Dtx;
    IntrBits(r.csr0, r.csr3);
    IntrKeepsOn(r.csr0);
  }

  lemma WrittenMasks(v: bv32, third: bool)
    ensures AckMask(v, third) & 0x32 == 0 && IenaMask(v) & 0x32 == 0
  {
  }

  lemma StatusKeepsOn(w: Word, v: Word, third: bool)
    ensures SameOn(SaveIena(Acknowledged(w, v, third), v), w)
  {
    hide Or, Clear, Rxon, Txon, Strt, AckMask, IenaMask;
    WrittenMasks(v.bits, third);
    OthersKeepOn(w, AckMask(v.bits, third));
    OthersKeepOn(Acknowledged(w, v, third), IenaMask(v.bits));
  }

  lemma EventsKeepOn(w: Word)
    ensures SameOn(SetRint(w), w) && SameOn(SetTint(w), w) && SameOn(SetInit(w), w)
  {
    hide Or, Clear, Rxon, Txon, Strt;
    OthersKeepOn(w, 0x400);
    OthersKeepOn(w, 0x200);
    OthersKeepOn(w, 0x1);
    OthersKeepOn(Word(Or(w.bits, 0x1)), 0x4);
  }

  lemma StoppedIsOff()
    ensures !Rxon(STOPPED) && !Txon(STOPPED) && !Strt(STOPPED)
  {
  }

  /** RXON and TXON follow STRT, DRX and DTX through every step. */
  lemma StepKeepsOn(r: Regs, e: Event)
    requires OnSound(r)
    ensures OnSound(Step(r, e))
  {
    hide Rxon, Txon, Strt, Drx, Dtx, OnBits, SaveIena, Acknowledged, SetInit, SetStrt, SetRint, SetTint, SetIdon;
    hide IrqStatus, StopBit, InitBit, Low16;
    match e
    case Write0(v, block) =>
      if StopBit(v) {
        StoppedIsOff();
        IrqStatusIs(r.(csr0 := STOPPED));
      } else {
        var third := r.count + 1 == 3;
        StatusKeepsOn(r.csr0, v, third);
        var a := r.(csr0 := SaveIena(Acknowledged(r.csr0, v, third), v), count := if third then 0 else r.count + 1);
        EventsKeepOn(a.csr0);
        var b := if InitBit(v) then Fetched(a.(csr0 := SetInit(a.csr0)), block) else a;
        if block.Some? { OnBitsIs(SetIdon(SetInit(a.csr0)), Low16(block.value), r.csr3); }
        assert OnSound(b);
        var c := if Strt(v) then b.(csr0 := OnBits(SetStrt(b.csr0), b.csr15)) else b;
        OnBitsIs(SetStrt(b.csr0), b.csr15, r.csr3);
        IrqStatusIs(c);
      }
    case Write3(v) =>
    case Write15(v) =>
      OnBitsIs(r.csr0, v, r.csr3);
    case PacketReceived =>
      EventsKeepOn(r.csr0);
      IrqStatusIs(r.(csr0 := SetRint(r.csr0)));
    case PacketSent =>
      EventsKeepOn(r.csr0);
      IrqStatusIs(r.(csr0 := SetTint(r.csr0)));
    case OtherAccess =>
  }

  /** The interrupt line follows INTR and IENA through every step. */
  lemma StepKeepsLine(r: Regs, e: Event)
    requires LineSound(r)
    ensures LineSound(Step(r, e))
  {
    hide IrqStatus, OnBits, Intr, Iena, Unmasked, Rxon, Txon, Strt, Drx, Dtx, SetRint, SetTint;
    match e
    case Write0(v, block) => WrittenIsUpdated(r, v, block);
    case Write3(v) =>
    case Write15(v) => OnBitsIs(r.csr0, v, r.csr3);
    case PacketReceived => IrqStatusIs(r.(csr0 := SetRint(r.csr0)));
    case PacketSent => IrqStatusIs(r.(csr0 := SetTint(r.csr0)));
    case OtherAccess =>
  }

  /** A CSR0 write ends with an update, so it puts flag and line right whatever came before. */
  lemma WrittenIsUpdated(r: Regs, v: Word, block: Option<Word>)
    ensures LineSound(Written0(r, v, block)) && IntrSound(Written0(r, v, block))
  {
    hide IrqStatus, OnBits, Intr, Iena, Unmasked, Strt, StopBit, InitBit, Fetched, LineSound, IntrSound;
    hide SaveIena, Acknowledged, SetInit, SetStrt;
    if StopBit(v) {
      IrqStatusIs(r.(csr0 := STOPPED));
    } else {
      var third := r.count + 1 == 3;
      var a := r.(csr0 := SaveIena(Acknowledged(r.csr0, v, third), v), count := if third then 0 else r.count + 1);
      var b := if InitBit(v) then Fetched(a.(csr0 := SetInit(a.csr0)), block) else a;
      var c := if Strt(v) then b.(csr0 := OnBits(SetStrt(b.csr0), b.csr15)) else b;
      IrqStatusIs(c);
    }
  }

  /**
   * INTR after a step: every step but a CSR3 write keeps it right, and a CSR3
   * write keeps it right exactly when it does not change whether an event is
   * pending, since nothing recomputes the flag there.
   */
  lemma StepKeepsIntr(r: Regs, e: Event)
    requires IntrSound(r)
    ensures IntrSound(Step(r, e)) <==> (e.Write3? ==> (Unmasked(r.csr0, e.v) <==> Unmasked(r.csr0, r.csr3)))
  {
    hide IrqStatus, OnBits, Intr, Iena, Unmasked, Rxon, Txon, Strt, Drx, Dtx, SetRint, SetTint;
    match e
    case Write0(v, block) => WrittenIsUpdated(r, v, block);
    case Write3(v) =>
    case Write15(v) => OnBitsIs(r.csr0, v, r.csr3);
    case PacketReceived => IrqStatusIs(r.(csr0 := SetRint(r.csr0)));
    case PacketSent => IrqStatusIs(r.(csr0 := SetTint(r.csr0)));
    case OtherAccess =>
  }

  lemma ResetIsSound()
    ensures OnSound(RESET) && LineSound(RESET) && IntrSound(RESET)
  {
  }

  /** Every reachable state. */
  lemma {:induction false} RunIsSound(events: seq<Event>)
    ensures OnSound(Run(RESET, events)) && LineSound(Run(RESET, events))
    ensures (forall i :: 0 <= i < |events| ==> !events[i].Write3?) ==> IntrSound(Run(RESET, events))
  {
    hide Step, OnSound, LineSound, IntrSound;
    ResetIsSound();
    if events != [] {
      var (init, e) := (events[..|events| - 1], events[|events| - 1]);
      RunIsSound(init);
      StepKeepsOn(Run(RESET, init), e);
      StepKeepsLine(Run(RESET, init), e);
      if forall i :: 0 <= i < |events| ==> !events[i].Write3? {
        assert forall i :: 0 <= i < |init| ==> init[i] == events[i];
        StepKeepsIntr(Run(RESET, init), e);
      }
    }
  }

  /** The flag is right again after the next CSR0 write or packet, whatever was written to CSR3. */
  lemma IntrRecovers(r: Regs, e: Event)
    requires e.Write0? || e.PacketReceived? || e.PacketSent?
    ensures IntrSound(Step(r, e)) && LineSound(Step(r, e))
  {
    hide IrqStatus, OnBits, Intr, Iena, Unmasked, SetRint, SetTint, Written0, IntrSound, LineSound;
    match e
    case Write0(v, block) => WrittenIsUpdated(r, v, block);
    case PacketReceived => IrqStatusIs(r.(csr0 := SetRint(r.csr0)));
    case PacketSent => IrqStatusIs(r.(csr0 := SetTint(r.csr0)));
  }

  /** A run that leaves INTR set for an event that is masked: receive a packet, then mask RINT. */
  lemma StaleIntr()
    ensures !IntrSound(Run(RESET, [PacketReceived, Write3(Word(0x400))]))
  {
    var r1 := Step(RESET, PacketReceived);
    assert r1.csr0 == Word(0x480);
    var run1 := [PacketReceived];
    assert run1[..0] == [];
    assert Run(RESET, run1) == r1;
    var run2 := [PacketReceived, Write3(Word(0x400))];
    assert run2[..1] == run1;
    assert Run(RESET, run2) == r1.(csr3 := Word(0x400));
  }

  /**
   * Acknowledging takes three writes: a CSR0 write without STOP clears RINT
   * exactly if it has that bit and is the third since the last that could, and
   * never sets it; the same for TINT.
   */
  lemma SlowAcknowledge(r: Regs, v: Word, block: Option<Word>)
    requires !StopBit(v)
    ensures var w := Written0(r, v, block);
            && (Rint(w.csr0) <==> Rint(r.csr0) && !(r.count + 1 == 3 && Rint(v)))
            && (Tint(w.csr0) <==> Tint(r.csr0) && !(r.count + 1 == 3 && Tint(v)))
            && w.count == if r.count + 1 == 3 then 0 else r.count + 1
  {
    hide OnBits, Strt, InitBit, Rint, Tint, SaveIena, Acknowledged, SetInit, SetStrt, SetIdon, Intr, Iena, Unmasked;
    hide SetIntr, ClearIntr, Low16;
    var third := r.count + 1 == 3;
    var a := SaveIena(Acknowledged(r.csr0, v, third), v);
    EventsAcknowledged(r.csr0, v, third);
    EventKept(a);
    EventKept(SetInit(a));
    if block.Some? { EventOn(SetIdon(SetInit(a)), Low16(block.value)); }
    var s := r.(csr0 := a, count := if third then 0 else r.count + 1);
    var b := if InitBit(v) then Fetched(s.(csr0 := SetInit(a)), block) else s;
    EventKept(b.csr0);
    EventOn(SetStrt(b.csr0), b.csr15);
    var c := if Strt(v) then OnBits(SetStrt(b.csr0), b.csr15) else b.csr0;
    EventKept(c);
  }

  /** The counter of every reachable state is below three, so a third write always comes. */
  lemma {:induction false} CountsToThree(events: seq<Event>)
    ensures Run(RESET, events).count < 3
    decreases events
  {
    hide OnBits, IrqStatus, SaveIena, Acknowledged, SetInit, SetStrt, Strt, InitBit, StopBit;
    if events != [] {
      var (before, e) := (Run(RESET, events[..|events| - 1]), events[|events| - 1]);
      CountsToThree(events[..|events| - 1]);
      StepCounts(before, e);
    }
  }

  lemma StepCounts(r: Regs, e: Event)
    ensures Step(r, e).count
         == if !e.Write0? || StopBit(e.v) then r.count else if r.count + 1 == 3 then 0 else r.count + 1
  {
    hide OnBits, Unmasked, SaveIena, Acknowledged, SetInit, SetStrt, SetIdon, Strt, InitBit, StopBit;
  }

  /** Three such writes one after the other always clear what they acknowledge. */
  lemma ThreeAcknowledge(r: Regs, u: Word, v: Word, w: Word, a: Option<Word>, b: Option<Word>, c: Option<Word>)
    requires r.count < 3 && !StopBit(u) && !StopBit(v) && !StopBit(w)
    ensures var s := Written0(Written0(Written0(r, u, a), v, b), w, c);
            && (Rint(u) && Rint(v) && Rint(w) ==> !Rint(s.csr0))
            && (Tint(u) && Tint(v) && Tint(w) ==> !Tint(s.csr0))
  {
    hide StopBit, Rint, Tint, Written0;
    SlowAcknowledge(r, u, a);
    SlowAcknowledge(Written0(r, u, a), v, b);
    SlowAcknowledge(Written0(Written0(r, u, a), v, b), w, c);
  }

  predicate SameEvents(v: Word, w: Word) {
    (Rint(v) <==> Rint(w)) && (Tint(v) <==> Tint(w))
  }

  lemma OthersKeepEvents(w: Word, s: bv32)
    requires s & 0x600 == 0
    ensures SameEvents(Word(Or(w.bits, s)), w) && SameEvents(Word(Clear(w.bits, s)), w)
  {
    hide Test, Or, Clear;
    PartsOf(s, 0x600, 0x400);
    PartsOf(s, 0x600, 0x200);
    SetOther(w.bits, s, 0x400);
    SetOther(w.bits, s, 0x200);
    ClearOther(w.bits, s, 0x400);
    ClearOther(w.bits, s, 0x200);
  }

  lemma AcknowledgedBit(b: bv32, v: bv32, third: bool, k: bv32)
    requires k == 0x400 || k == 0x200
    ensures Test(Clear(b, AckMask(v, third)), k) <==> Test(b, k) && !(third && Test(v, k))
  {
  }

  lemma IenaOther(v: bv32)
    ensures IenaMask(v) & 0x600 == 0
  {
  }

  lemma EventsAcknowledged(w: Word, v: Word, third: bool)
    ensures var a := SaveIena(Acknowledged(w, v, third), v);
            && (Rint(a) <==> Rint(w) && !(third && Rint(v)))
            && (Tint(a) <==> Tint(w) && !(third && Tint(v)))
  {
    hide Or, Clear, Test, AckMask, IenaMask;
    IenaOther(v.bits);
    AcknowledgedBit(w.bits, v.bits, third, 0x400);
    AcknowledgedBit(w.bits, v.bits, third, 0x200);
    OthersKeepEvents(Acknowledged(w, v, third), IenaMask(v.bits));
  }

  lemma EventKept(w: Word)
    ensures SameEvents(SetInit(w), w) && SameEvents(SetStrt(w), w) && SameEvents(SetIdon(w), w)
    ensures SameEvents(SetIntr(w), w) && SameEvents(ClearIntr(w), w)
  {
    hide Or, Clear, Rint, Tint;
    OthersKeepEvents(w, 0x1);
    OthersKeepEvents(w, 0x2);
    OthersKeepEvents(Word(Or(w.bits, 0x1)), 0x4);
    OthersKeepEvents(Word(Or(w.bits, 0x2)), 0x4);
    OthersKeepEvents(w, 0x100);
    OthersKeepEvents(w, 0x80);
  }

  lemma EventOn(w: Word, csr15: Word)
    ensures SameEvents(OnBits(w, csr15), w)
  {
    hide Or, Clear, Rint, Tint, Strt, Drx, Dtx;
    var a := ClearOn(w);
    var b := if Drx(csr15) then a else SetRxon(a);
    OthersKeepEvents(w, 0x20 | 0x10);
    OthersKeepEvents(a, 0x20);
    OthersKeepEvents(b, 0x10);
  }

  // ---- Every bit after every step ----

  /**
   * CSR0 bit by bit, without the three bits that are derived from others: INTR,
   * RXON and TXON.
   */
  datatype Status =
    Status(init: bool, strt: bool, stop: bool, iena: bool, idon: bool, tint: bool, rint: bool,
           merr: bool, miss: bool, cerr: bool, babl: bool)

  function StatusOf(w: Word): Status {
    Status(Test(w.bits, 0x1), Test(w.bits, 0x2), Test(w.bits, 0x4), Test(w.bits, 0x40), Test(w.bits, 0x100),
           Test(w.bits, 0x200), Test(w.bits, 0x400), Test(w.bits, 0x800), Test(w.bits, 0x1000), Test(w.bits, 0x2000),
           Test(w.bits, 0x4000))
  }

  /** The bits no step touches. */
  function Rest(w: Word): Word {
    Word(Masked(w.bits, 0xffff_8008))
  }

  predicate SameLow(v: Status, w: Status) {
    v.init == w.init && v.strt == w.strt && v.stop == w.stop && v.iena == w.iena
  }

  predicate SameHigh(v: Status, w: Status) {
    && v.idon == w.idon && v.tint == w.tint && v.rint == w.rint && v.merr == w.merr && v.miss == w.miss
    && v.cerr == w.cerr && v.babl == w.babl
  }

  lemma LowKept(w: Word, s: bv32)
    requires s & 0x47 == 0
    ensures SameLow(StatusOf(Word(Or(w.bits, s))), StatusOf(w))
    ensures SameLow(StatusOf(Word(Clear(w.bits, s))), StatusOf(w))
  {
    hide Masked, Test, Or, Clear;
    LowParts(s);
    SetOther(w.bits, s, 0x1);
    SetOther(w.bits, s, 0x2);
    SetOther(w.bits, s, 0x4);
    SetOther(w.bits, s, 0x40);
    ClearOther(w.bits, s, 0x1);
    ClearOther(w.bits, s, 0x2);
    ClearOther(w.bits, s, 0x4);
    ClearOther(w.bits, s, 0x40);
  }

  lemma LowParts(s: bv32)
    requires s & 0x47 == 0
    ensures s & 0x1 == 0 && s & 0x2 == 0 && s & 0x4 == 0 && s & 0x40 == 0
  {
  }

  lemma HighKept(w: Word, s: bv32)
    requires s & 0x7f00 == 0
    ensures SameHigh(StatusOf(Word(Or(w.bits, s))), StatusOf(w))
    ensures SameHigh(StatusOf(Word(Clear(w.bits, s))), StatusOf(w))
  {
    hide Masked, Test, Or, Clear;
    HighKeptOr(w.bits, s);
    HighKeptClear(w.bits, s);
  }

  lemma HighParts(s: bv32)
    requires s & 0x7f00 == 0
    ensures s & 0x100 == 0 && s & 0x200 == 0 && s & 0x400 == 0 && s & 0x800 == 0
    ensures s & 0x1000 == 0 && s & 0x2000 == 0 && s & 0x4000 == 0
  {
  }

  lemma HighKeptOr(b: bv32, s: bv32)
    requires s & 0x7f00 == 0
    ensures SameHigh(StatusOf(Word(Or(b, s))), StatusOf(Word(b)))
  {
    hide Masked, Test, Or, Clear;
    HighParts(s);
    SetOther(b, s, 0x100);
    SetOther(b, s, 0x200);
    SetOther(b, s, 0x400);
    SetOther(b, s, 0x800);
    SetOther(b, s, 0x1000);
    SetOther(b, s, 0x2000);
    SetOther(b, s, 0x4000);
  }

  lemma HighKeptClear(b: bv32, s: bv32)
    requires s & 0x7f00 == 0
    ensures SameHigh(StatusOf(Word(Clear(b, s))), StatusOf(Word(b)))
  {
    hide Masked, Test, Or, Clear;
    HighParts(s);
    ClearOther(b, s, 0x100);
    ClearOther(b, s, 0x200);
    ClearOther(b, s, 0x400);
    ClearOther(b, s, 0x800);
    ClearOther(b, s, 0x1000);
    ClearOther(b, s, 0x2000);
    ClearOther(b, s, 0x4000);
  }

  lemma RestKept(w: Word, s: bv32)
    requires s & 0xffff_8008 == 0
    ensures Rest(Word(Or(w.bits, s))) == Rest(w) && Rest(Word(Clear(w.bits, s))) == Rest(w)
  {
    hide Masked, Or, Clear;
    SetBits(w.bits, s, 0xffff_8008);
    ClearedBits(w.bits, s, 0xffff_8008);
  }

  lemma InitStatus(w: Word)
    ensures StatusOf(SetInit(w)) == StatusOf(w).(init := true, stop := false)
  {
    hide Masked, Test, Or, Clear;
    var a := Or(w.bits, 0x1);
    SetSame(w.bits, 0x1);
    SetOther(w.bits, 0x1, 0x2);
    SetOther(w.bits, 0x1, 0x40);
    HighKept(w, 0x1);
    ClearSame(a, 0x4, 0x4);
    ClearOther(a, 0x4, 0x1);
    ClearOther(a, 0x4, 0x2);
    ClearOther(a, 0x4, 0x40);
    HighKept(Word(a), 0x4);
  }

  lemma StrtStatus(w: Word)
    ensures StatusOf(SetStrt(w)) == StatusOf(w).(strt := true, stop := false)
  {
    hide Masked, Test, Or, Clear;
    var a := Or(w.bits, 0x2);
    SetSame(w.bits, 0x2);
    SetOther(w.bits, 0x2, 0x1);
    SetOther(w.bits, 0x2, 0x40);
    HighKept(w, 0x2);
    ClearSame(a, 0x4, 0x4);
    ClearOther(a, 0x4, 0x1);
    ClearOther(a, 0x4, 0x2);
    ClearOther(a, 0x4, 0x40);
    HighKept(Word(a), 0x4);
  }

  lemma ErrorsKept(b: bv32, s: bv32)
    requires s & 0x7800 == 0
    ensures Test(Or(b, s), 0x800) == Test(b, 0x800) && Test(Or(b, s), 0x1000) == Test(b, 0x1000)
    ensures Test(Or(b, s), 0x2000) == Test(b, 0x2000) && Test(Or(b, s), 0x4000) == Test(b, 0x4000)
  {
    hide Masked, Test, Or, Clear;
    PartsOf(s, 0x7800, 0x800);
    PartsOf(s, 0x7800, 0x1000);
    PartsOf(s, 0x7800, 0x2000);
    PartsOf(s, 0x7800, 0x4000);
    SetOther(b, s, 0x800);
    SetOther(b, s, 0x1000);
    SetOther(b, s, 0x2000);
    SetOther(b, s, 0x4000);
  }

  lemma IdonStatus(w: Word)
    ensures StatusOf(SetIdon(w)) == StatusOf(w).(idon := true)
  {
    hide Masked, Test, Or, Clear;
    SetSame(w.bits, 0x100);
    SetOther(w.bits, 0x100, 0x200);
    SetOther(w.bits, 0x100, 0x400);
    ErrorsKept(w.bits, 0x100);
    LowKept(w, 0x100);
  }

  lemma RintStatus(w: Word)
    ensures StatusOf(SetRint(w)) == StatusOf(w).(rint := true)
  {
    hide Masked, Test, Or, Clear;
    SetSame(w.bits, 0x400);
    SetOther(w.bits, 0x400, 0x100);
    SetOther(w.bits, 0x400, 0x200);
    ErrorsKept(w.bits, 0x400);
    LowKept(w, 0x400);
  }

  lemma TintStatus(w: Word)
    ensures StatusOf(SetTint(w)) == StatusOf(w).(tint := true)
  {
    hide Masked, Test, Or, Clear;
    SetSame(w.bits, 0x200);
    SetOther(w.bits, 0x200, 0x100);
    SetOther(w.bits, 0x200, 0x400);
    ErrorsKept(w.bits, 0x200);
    LowKept(w, 0x200);
  }

  /** Changing bits a status does not hold. */
  lemma DerivedKept(w: Word, s: bv32)
    requires s & 0x7f47 == 0
    ensures StatusOf(Word(Or(w.bits, s))) == StatusOf(w) && StatusOf(Word(Clear(w.bits, s))) == StatusOf(w)
  {
    hide Masked, Test, Or, Clear;
    PartsOf(s, 0x7f47, 0x7f00);
    PartsOf(s, 0x7f47, 0x47);
    LowKept(w, s);
    HighKept(w, s);
  }

  lemma OnStatus(w: Word, csr15: Word)
    ensures StatusOf(OnBits(w, csr15)) == StatusOf(w)
  {
    hide StatusOf, Or, Clear, Strt, Drx, Dtx;
    var a := ClearOn(w);
    var b := if Drx(csr15) then a else SetRxon(a);
    DerivedKept(w, 0x20 | 0x10);
    DerivedKept(a, 0x20);
    DerivedKept(b, 0x10);
  }

  lemma IrqStatusStatus(r: Regs)
    ensures StatusOf(IrqStatus(r).csr0) == StatusOf(r.csr0)
  {
    hide StatusOf, Or, Clear, Unmasked;
    DerivedKept(r.csr0, 0x80);
  }

  lemma IenaBit(b: bv32, v: bv32)
    ensures Test(Or(b, IenaMask(v)), 0x40) <==> Test(b, 0x40) || Test(v, 0x40)
  {
  }

  lemma IenaParts(v: bv32)
    ensures IenaMask(v) & 0x1 == 0 && IenaMask(v) & 0x2 == 0 && IenaMask(v) & 0x4 == 0
    ensures IenaMask(v) & 0x7f00 == 0
  {
  }

  lemma IenaStatus(w: Word, v: Word)
    ensures StatusOf(SaveIena(w, v)) == StatusOf(w).(iena := StatusOf(w).iena || StatusOf(v).iena)
  {
    hide Masked, Test, Or, Clear, IenaMask;
    IenaParts(v.bits);
    IenaBit(w.bits, v.bits);
    SetOther(w.bits, IenaMask(v.bits), 0x1);
    SetOther(w.bits, IenaMask(v.bits), 0x2);
    SetOther(w.bits, IenaMask(v.bits), 0x4);
    HighKept(w, IenaMask(v.bits));
  }

  lemma AckParts(v: bv32, third: bool)
    ensures AckMask(v, third) & 0x47 == 0
  {
  }

  lemma AckedIdon(b: bv32, v: bv32, third: bool)
    ensures Test(Clear(b, AckMask(v, third)), 0x100) <==> Test(b, 0x100) && !Test(v, 0x100)
  {
  }

  lemma AckedMerr(b: bv32, v: bv32, third: bool)
    ensures Test(Clear(b, AckMask(v, third)), 0x800) <==> Test(b, 0x800) && !Test(v, 0x800)
  {
  }

  lemma AckedMiss(b: bv32, v: bv32, third: bool)
    ensures Test(Clear(b, AckMask(v, third)), 0x1000) <==> Test(b, 0x1000) && !Test(v, 0x1000)
  {
  }

  lemma AckedCerr(b: bv32, v: bv32, third: bool)
    ensures Test(Clear(b, AckMask(v, third)), 0x2000) <==> Test(b, 0x2000) && !Test(v, 0x2000)
  {
  }

  lemma AckedBabl(b: bv32, v: bv32, third: bool)
    ensures Test(Clear(b, AckMask(v, third)), 0x4000) <==> Test(b, 0x4000) && !Test(v, 0x4000)
  {
  }

  lemma AckStatus(w: Word, v: Word, third: bool)
    ensures var (b, n) := (StatusOf(w), StatusOf(v));
            StatusOf(Acknowledged(w, v, third))
            == b.(idon := b.idon && !n.idon, tint := b.tint && !(third && n.tint), rint := b.rint && !(third && n.rint),
                  merr := b.merr && !n.merr, miss := b.miss && !n.miss, cerr := b.cerr && !n.cerr,
                  babl := b.babl && !n.babl)
  {
    hide Masked, Test, Or, Clear, AckMask;
    AckParts(v.bits, third);
    LowKept(w, AckMask(v.bits, third));
    AcknowledgedBit(w.bits, v.bits, third, 0x200);
    AcknowledgedBit(w.bits, v.bits, third, 0x400);
    AckedIdon(w.bits, v.bits, third);
    AckedMerr(w.bits, v.bits, third);
    AckedMiss(w.bits, v.bits, third);
    AckedCerr(w.bits, v.bits, third);
    AckedBabl(w.bits, v.bits, third);
  }

  lemma FetchedStatus(r: Regs, block: Option<Word>)
    ensures var (b, f) := (StatusOf(r.csr0), Fetched(r, block));
            StatusOf(f.csr0) == (if block.Some? then b.(idon := true) else b)
  {
    hide StatusOf, OnBits, SetIdon, Low16;
    if block.Some? {
      IdonStatus(r.csr0);
      OnStatus(SetIdon(r.csr0), Low16(block.value));
    }
  }

  // What INIT, a block fetched, and STRT of a written value `n` do to a status.

  function InitTaken(b: Status, n: Status): Status {
    if n.init then b.(init := true, stop := false) else b
  }

  function BlockTaken(b: Status, n: Status, block: Option<Word>): Status {
    if n.init && block.Some? then b.(idon := true) else b
  }

  function StrtTaken(b: Status, n: Status): Status {
    if n.strt then b.(strt := true, stop := false) else b
  }

  /** The three one after the other. */
  function Begun(b: Status, n: Status, block: Option<Word>): Status {
    StrtTaken(BlockTaken(InitTaken(b, n), n, block), n)
  }

  lemma StartedStatus(r: Regs, v: Word, block: Option<Word>)
    ensures StatusOf(Started(r, v, block).csr0) == Begun(StatusOf(r.csr0), StatusOf(v), block)
  {
    hide StatusOf, OnBits, Fetched, SetInit, SetStrt, InitBit, Strt;
    LeadBits(v);
    var i := r.(csr0 := SetInit(r.csr0));
    InitStatus(r.csr0);
    FetchedStatus(i, block);
    var b := if InitBit(v) then Fetched(i, block) else r;
    StrtStatus(b.csr0);
    OnStatus(SetStrt(b.csr0), b.csr15);
  }

  /** What acknowledging and saving IENA do to it; `count` writes since RINT and TINT could last be cleared. */
  function Taken(b: Status, n: Status, count: nat): Status {
    var third := count + 1 == 3;
    Status(b.init, b.strt, b.stop, b.iena || n.iena, b.idon && !n.idon,
           b.tint && !(third && n.tint), b.rint && !(third && n.rint),
           b.merr && !n.merr, b.miss && !n.miss, b.cerr && !n.cerr, b.babl && !n.babl)
  }

  lemma TakenStatus(w: Word, v: Word, count: nat)
    ensures StatusOf(SaveIena(Acknowledged(w, v, count + 1 == 3), v)) == Taken(StatusOf(w), StatusOf(v), count)
  {
    hide StatusOf, Acknowledged, SaveIena;
    AckStatus(w, v, count + 1 == 3);
    IenaStatus(Acknowledged(w, v, count + 1 == 3), v);
  }

  predicate SameOthers(v: Status, w: Status) {
    && v.iena == w.iena && v.tint == w.tint && v.rint == w.rint && v.merr == w.merr && v.miss == w.miss
    && v.cerr == w.cerr && v.babl == w.babl
  }

  lemma InitTakenIs(b: Status, n: Status)
    ensures var r := InitTaken(b, n);
            && (r.init <==> b.init || n.init) && r.strt == b.strt && (r.stop <==> b.stop && !n.init)
            && r.idon == b.idon && SameOthers(r, b)
  {
    if n.init {
      assert InitTaken(b, n) == b.(init := true, stop := false);
    } else {
      assert InitTaken(b, n) == b;
    }
  }

  lemma BlockTakenIs(b: Status, n: Status, block: Option<Word>)
    ensures var r := BlockTaken(b, n, block);
            && r.init == b.init && r.strt == b.strt && r.stop == b.stop
            && (r.idon <==> b.idon || (n.init && block.Some?)) && SameOthers(r, b)
  {
    if n.init && block.Some? {
      assert BlockTaken(b, n, block) == b.(idon := true);
    } else {
      assert BlockTaken(b, n, block) == b;
    }
  }

  lemma StrtTakenIs(b: Status, n: Status)
    ensures var r := StrtTaken(b, n);
            && r.init == b.init && (r.strt <==> b.strt || n.strt) && (r.stop <==> b.stop && !n.strt)
            && r.idon == b.idon && SameOthers(r, b)
  {
    if n.strt {
      assert StrtTaken(b, n) == b.(strt := true, stop := false);
    } else {
      assert StrtTaken(b, n) == b;
    }
  }

  lemma BegunIs(b: Status, n: Status, block: Option<Word>)
    ensures var r := Begun(b, n, block);
            && (r.init <==> b.init || n.init) && (r.strt <==> b.strt || n.strt)
            && (r.stop <==> b.stop && !n.init && !n.strt)
            && (r.idon <==> b.idon || (n.init && block.Some?)) && SameOthers(r, b)
  {
    hide InitTaken, BlockTaken, StrtTaken;
    InitTakenIs(b, n);
    BlockTakenIs(InitTaken(b, n), n, block);
    StrtTakenIs(BlockTaken(InitTaken(b, n), n, block), n);
  }

  lemma WrittenStatus(r: Regs, v: Word, block: Option<Word>)
    requires !StatusOf(v).stop
    ensures StatusOf(Step(r, Write0(v, block)).csr0)
         == Begun(Taken(StatusOf(r.csr0), StatusOf(v), r.count), StatusOf(v), block)
  {
    hide StatusOf, IrqStatus, Acknowledged, SaveIena, Started, StopBit, InitBit, Strt, Taken, Begun;
    LeadBits(v);
    var third := r.count + 1 == 3;
    var a := r.(csr0 := SaveIena(Acknowledged(r.csr0, v, third), v), count := if third then 0 else r.count + 1);
    TakenStatus(r.csr0, v, r.count);
    StartedStatus(a, v, block);
    IrqStatusStatus(Started(a, v, block));
  }

  /**
   * A CSR0 write without STOP, bit by bit. INIT, STRT and IENA are added to and
   * never taken away; STOP goes with INIT or STRT; IDON is set by a block, and
   * else cleared by being written, as are MERR, MISS, CERR and BABL; RINT and
   * TINT only on every third write. For the other bits see `RestStays`; INTR, RXON and TXON
   * are recomputed as `InvariantBits` says.
   */
  lemma StatusWritten(r: Regs, v: Word, block: Option<Word>)
    requires !StatusOf(v).stop
    ensures var (b, n, third) := (StatusOf(r.csr0), StatusOf(v), r.count + 1 == 3);
            var w := StatusOf(Step(r, Write0(v, block)).csr0);
            && (w.init <==> b.init || n.init)
            && (w.strt <==> b.strt || n.strt)
            && (w.stop <==> b.stop && !n.init && !n.strt)
            && (w.iena <==> b.iena || n.iena)
            && (w.idon <==> (b.idon && !n.idon) || (n.init && block.Some?))
            && (w.tint <==> b.tint && !(third && n.tint)) && (w.rint <==> b.rint && !(third && n.rint))
            && (w.merr <==> b.merr && !n.merr) && (w.miss <==> b.miss && !n.miss)
            && (w.cerr <==> b.cerr && !n.cerr) && (w.babl <==> b.babl && !n.babl)
  {
    hide StatusOf, Step, Begun;
    WrittenStatus(r, v, block);
    BegunIs(Taken(StatusOf(r.csr0), StatusOf(v), r.count), StatusOf(v), block);
  }

  /** The bits with names of their own. */
  lemma LeadBits(v: Word)
    ensures StopBit(v) == StatusOf(v).stop && InitBit(v) == StatusOf(v).init && Strt(v) == StatusOf(v).strt
    ensures Iena(v) == StatusOf(v).iena && Rint(v) == StatusOf(v).rint && Tint(v) == StatusOf(v).tint
  {
    hide Test;
  }

  /** The other registers after such a write: the mode of a block fetched by it, and the count of writes. */
  lemma WrittenOther(r: Regs, v: Word, block: Option<Word>)
    requires !StatusOf(v).stop
    ensures var w := Step(r, Write0(v, block));
            && w.csr3 == r.csr3
            && w.csr15 == (if StatusOf(v).init && block.Some? then Low16(block.value) else r.csr15)
            && w.count == (if r.count + 1 == 3 then 0 else r.count + 1)
  {
    hide StatusOf, OnBits, Low16, Strt, InitBit, SaveIena, Acknowledged, SetInit, SetStrt, SetIdon, Unmasked;
    LeadBits(v);
  }

  lemma RestOnBits(w: Word, csr15: Word)
    ensures Rest(OnBits(w, csr15)) == Rest(w)
  {
    hide Rest, Or, Clear, Strt, Drx, Dtx;
    var a := ClearOn(w);
    var b := if Drx(csr15) then a else SetRxon(a);
    RestKept(w, 0x20 | 0x10);
    RestKept(a, 0x20);
    RestKept(b, 0x10);
  }

  lemma RestIrq(r: Regs)
    ensures Rest(IrqStatus(r).csr0) == Rest(r.csr0)
  {
    hide Rest, Or, Clear, Unmasked;
    RestKept(r.csr0, 0x80);
  }

  lemma RestMasks(v: bv32, third: bool)
    ensures AckMask(v, third) & 0xffff_8008 == 0 && IenaMask(v) & 0xffff_8008 == 0
  {
  }

  lemma RestTaken(w: Word, v: Word, third: bool)
    ensures Rest(SaveIena(Acknowledged(w, v, third), v)) == Rest(w)
  {
    hide Rest, Or, Clear, AckMask, IenaMask;
    RestMasks(v.bits, third);
    RestKept(w, AckMask(v.bits, third));
    RestKept(Acknowledged(w, v, third), IenaMask(v.bits));
  }

  lemma RestSet(w: Word)
    ensures Rest(SetInit(w)) == Rest(SetStrt(w)) == Rest(SetIdon(w)) == Rest(SetRint(w)) == Rest(SetTint(w)) == Rest(w)
  {
    hide Rest, Or, Clear;
    RestKept(w, 0x1);
    RestKept(Word(Or(w.bits, 0x1)), 0x4);
    RestKept(w, 0x2);
    RestKept(Word(Or(w.bits, 0x2)), 0x4);
    RestKept(w, 0x100);
    RestKept(w, 0x400);
    RestKept(w, 0x200);
  }

  lemma RestStarted(r: Regs, v: Word, block: Option<Word>)
    ensures Rest(Started(r, v, block).csr0) == Rest(r.csr0)
  {
    hide Rest, OnBits, SetInit, SetStrt, SetIdon, InitBit, Strt, Low16;
    RestSet(r.csr0);
    if block.Some? {
      RestSet(SetInit(r.csr0));
      RestOnBits(SetIdon(SetInit(r.csr0)), Low16(block.value));
    }
    var b := if InitBit(v) then Fetched(r.(csr0 := SetInit(r.csr0)), block) else r;
    RestSet(b.csr0);
    RestOnBits(SetStrt(b.csr0), b.csr15);
  }

  /** TDMD, ERR and the upper half of CSR0 stay in every step but a write of STOP. */
  lemma RestStays(r: Regs, e: Event)
    requires e.Write0? ==> !StatusOf(e.v).stop
    ensures Rest(Step(r, e).csr0) == Rest(r.csr0)
  {
    hide Rest, StatusOf, OnBits, Started, SaveIena, Acknowledged, IrqStatus, SetRint, SetTint, StopBit;
    match e
    case Write0(v, block) =>
      LeadBits(v);
      var third := r.count + 1 == 3;
      var a := r.(csr0 := SaveIena(Acknowledged(r.csr0, v, third), v), count := if third then 0 else r.count + 1);
      RestTaken(r.csr0, v, third);
      RestStarted(a, v, block);
      RestIrq(Started(a, v, block));
    case Write3(v) =>
    case Write15(v) => RestOnBits(r.csr0, v);
    case PacketReceived =>
      RestSet(r.csr0);
      RestIrq(r.(csr0 := SetRint(r.csr0)));
    case PacketSent =>
      RestSet(r.csr0);
      RestIrq(r.(csr0 := SetTint(r.csr0)));
    case OtherAccess =>
  }

  /** STOP leaves nothing but itself, and the line low. */
  lemma Stops(r: Regs, v: Word, block: Option<Word>)
    requires StatusOf(v).stop
    ensures Step(r, Write0(v, block)) == r.(csr0 := Word(0x4), irq := false)
  {
    hide StatusOf, Or, Unmasked;
    LeadBits(v);
    NothingPending(r.csr3);
  }

  lemma NothingPending(csr3: Word)
    ensures !Unmasked(STOPPED, csr3) && ClearIntr(STOPPED) == STOPPED && !Intr(STOPPED)
  {
  }

  /** A packet received or sent sets its own event and moves no other bit; nor does a write of CSR3 or CSR15. */
  lemma OtherEvents(r: Regs, v: Word)
    ensures var b := StatusOf(r.csr0);
            && StatusOf(Step(r, PacketReceived).csr0) == b.(rint := true)
            && StatusOf(Step(r, PacketSent).csr0) == b.(tint := true)
            && StatusOf(Step(r, Write15(v)).csr0) == b
    ensures Step(r, Write3(v)) == r.(csr3 := v) && Step(r, OtherAccess) == r
    ensures var x := Step(r, Write15(v)); x == r.(csr15 := v, csr0 := x.csr0)
    ensures var x := Step(r, PacketReceived); x == r.(csr0 := x.csr0, irq := x.irq)
    ensures var x := Step(r, PacketSent); x == r.(csr0 := x.csr0, irq := x.irq)
  {
    hide StatusOf, OnBits, SetRint, SetTint, Unmasked, SetIntr, ClearIntr, Intr, Iena;
    RintStatus(r.csr0);
    TintStatus(r.csr0);
    IrqStatusStatus(r.(csr0 := SetRint(r.csr0)));
    IrqStatusStatus(r.(csr0 := SetTint(r.csr0)));
    OnStatus(r.csr0, v);
  }

  lemma PendingBits(c: bv32, m: bv32)
    ensures Test(c, EnabledMask(m)) <==> c & !m & 0x7f00 != 0
  {
  }

  /**
   * The invariants in bits: RXON and TXON are STRT without DRX and DTX; INTR
   * says that an event is pending whose bit in CSR3 is clear; the line is high
   * if that is so and IENA is set.
   */
  lemma InvariantBits(r: Regs)
    requires OnSound(r) && LineSound(r) && IntrSound(r)
    ensures var (x, mode, pending) := (r.csr0.bits, r.csr15.bits, r.csr0.bits & !r.csr3.bits & 0x7f00 != 0);
            && (Test(x, 0x20) <==> StatusOf(r.csr0).strt && !Test(mode, 0x1))
            && (Test(x, 0x10) <==> StatusOf(r.csr0).strt && !Test(mode, 0x2))
            && (Test(x, 0x80) <==> pending)
            && (r.irq <==> pending && StatusOf(r.csr0).iena)
  {
    hide Test, EnabledMask;
    PendingBits(r.csr0.bits, r.csr3.bits);
  }

  /** Writing STRT starts whatever the mode does not disable, be it the mode of a block fetched by the same write. */
  lemma Starting(r: Regs, v: Word, block: Option<Word>)
    requires OnSound(r) && !StatusOf(v).stop && StatusOf(v).strt
    ensures var w := Step(r, Write0(v, block));
            && StatusOf(w.csr0).strt
            && (Test(w.csr0.bits, 0x20) <==> !Test(w.csr15.bits, 0x1))
            && (Test(w.csr0.bits, 0x10) <==> !Test(w.csr15.bits, 0x2))
  {
    hide StatusOf, Test, Step, Strt;
    StatusWritten(r, v, block);
    StepKeepsOn(r, Write0(v, block));
    LeadBits(Step(r, Write0(v, block)).csr0);
  }

  /** A device fresh from reset, started: STRT, RXON and TXON, nothing else. */
  lemma StartsUp(block: Option<Word>)
    ensures Step(RESET, Write0(Word(0x2), block)) == RESET.(csr0 := Word(0x32), count := 1)
  {
  }
}
