/**
 * Transmitting: the buffers of a chain of ring descriptors are gathered into
 * one packet (`am79c971_handle_txring_single` in common/dev_am79c971.c).
 */
module Am79Tx {
  import opened Bytes
  import opened PhysMem
  import opened Am79Desc
  import opened Am79Ring

  /** Between two passes of the loop: guest memory and the packet so far. */
  datatype Scan = Scan(mem: Mem, data: seq<Byte>)

  /** A descriptor without STP is given back at once. */
  function Pass(r: Ring, p: Scan, i: nat): Scan
    requires r.len > 0
  {
    var d := At(p.mem, r, i);
    Scan(if Stp(d.flags) then p.mem else Store32(p.mem, FlagsAddr(r, Slot(r, i)), ClearOwn(d.flags)),
         p.data + LoadBlock(p.mem, Address(d.addr), BufLen(d.flags)))
  }

  function After(r: Ring, m: Mem, i: nat): Scan
    requires r.len > 0
  {
    if i == 0 then Scan(m, []) else Pass(r, After(r, m, i - 1), i - 1)
  }

  /** The states memory goes through in the first `i` passes. */
  function Log(r: Ring, m: Mem, i: nat): seq<Mem>
    requires r.len > 0
  {
    if i == 0 then []
    else if Stp(At(After(r, m, i - 1).mem, r, i - 1).flags) then Log(r, m, i - 1)
    else Log(r, m, i - 1) + [After(r, m, i).mem]
  }

  // ---- Where the walk ends ----

  /**
   * The walk is over after `k` passes: the last one met an end of packet, or the
   * next descriptor, as memory then stands, is the driver's.
   */
  predicate Over(r: Ring, m: Mem, k: nat)
    requires r.len > 0 && k > 0
  {
    Enp(At(m, r, k - 1).flags) || !Own(At(After(r, m, k).mem, r, k).flags)
  }

  /** The same, said of the ring as the driver left it: the second time round only STP keeps a descriptor owned. */
  predicate Stops(r: Ring, m: Mem, k: nat)
    requires r.len > 0 && k > 0
  {
    var w := At(m, r, k).flags;
    Enp(At(m, r, k - 1).flags) || !Own(w) || (k >= r.len && !Stp(w))
  }

  /** Every descriptor is owned, starts a packet, and ends none. */
  ghost predicate Spinning(r: Ring, m: Mem)
    requires r.len > 0
  {
    forall j: nat :: j < r.len ==> StartsOnly(At(m, r, j).flags)
  }

  predicate StartsOnly(w: Word) {
    Own(w) && Stp(w) && !Enp(w)
  }

  /** The first pass after which the walk is over, looked for from the `k`-th on and through two turns. */
  function ChainFrom(r: Ring, m: Mem, k: nat): (n: nat)
    requires r.len > 0 && 1 <= k <= 2 * r.len
    ensures k <= n <= 2 * r.len
    decreases 2 * r.len - k
  {
    if k == 2 * r.len || Stops(r, m, k) then k else ChainFrom(r, m, k + 1)
  }

  function ChainLength(r: Ring, m: Mem): nat
    requires r.len > 0
  {
    ChainFrom(r, m, 1)
  }

  /** The chain reaches its end of packet. */
  predicate Complete(r: Ring, m: Mem)
    requires r.len > 0
  {
    Enp(At(m, r, ChainLength(r, m) - 1).flags)
  }

  /** What the device relies on: the walk stops, and what it gathers fits the packet buffer. */
  ghost predicate Sendable(r: Ring, m: Mem)
    requires r.len > 0
  {
    !Spinning(r, m) && Room(m, r, ChainLength(r, m)) <= MAX_PKT_SIZE
  }

  lemma OverIs(r: Ring, m: Mem, k: nat)
    requires Usable(r) && k > 0
    ensures Over(r, m, k) <==> Stops(r, m, k)
  {
    hide Own, Enp, Stp, ClearOwn, Words, Slot, After, Usable;
    UsableLen(r);
    var t := SlotHome(r, k);
    ScanWords(r, m, k, t);
    ClearOwnFlags(At(m, r, t).flags);
  }

  lemma UsableLen(r: Ring)
    requires Usable(r)
    ensures r.len > 0
  {
  }

  /** A ring on which nothing stops the walk in two turns is one on which nothing ever does. */
  lemma TwoTurns(r: Ring, m: Mem)
    requires Usable(r) && Own(At(m, r, 0).flags)
    requires forall k: nat :: 1 <= k < 2 * r.len ==> !Stops(r, m, k)
    ensures Spinning(r, m)
  {
    hide Own, Enp, Stp, At, Slot;
    forall j: nat | j < r.len
      ensures StartsOnly(At(m, r, j).flags)
    {
      assert !Stops(r, m, j + 1);
      assert j > 0 ==> !Stops(r, m, j);
      assert !Stops(r, m, r.len + j);
      SameDesc(r, m, j);
    }
  }

  lemma SameDesc(r: Ring, m: Mem, j: nat)
    requires r.len > 0
    ensures At(m, r, r.len + j) == At(m, r, j)
  {
    hide Slot, Words;
    SlotTurn(r, j);
  }

  lemma {:induction false} SpinsOn(r: Ring, m: Mem, k: nat)
    requires Usable(r) && Spinning(r, m) && k > 0
    ensures !Stops(r, m, k)
  {
    hide Own, Enp, Stp, Words, Slot;
    var t := SlotHome(r, k);
    var u := SlotHome(r, k - 1);
    assert StartsOnly(At(m, r, t).flags) && StartsOnly(At(m, r, u).flags);
  }

  lemma {:induction false} ChainFromEnds(r: Ring, m: Mem, k: nat)
    requires Usable(r) && Own(At(m, r, 0).flags) && !Spinning(r, m) && 1 <= k <= 2 * r.len
    requires forall j: nat :: 1 <= j < k ==> !Stops(r, m, j)
    ensures Stops(r, m, ChainFrom(r, m, k)) && ChainFrom(r, m, k) < 2 * r.len
    ensures forall j: nat :: 1 <= j < ChainFrom(r, m, k) ==> !Stops(r, m, j)
    decreases 2 * r.len - k
  {
    hide Own, At, Stops, Spinning;
    if k == 2 * r.len {
      TwoTurns(r, m);
    } else if !Stops(r, m, k) {
      ChainFromEnds(r, m, k + 1);
    }
  }

  /**
   * The loop stops if and only if some descriptor is not the device's, or does
   * not start a packet, or ends one. Then it does after `ChainLength` passes,
   * less than two turns, and not before.
   */
  lemma StopsIff(r: Ring, m: Mem)
    requires Usable(r) && Own(At(m, r, 0).flags)
    ensures (exists k: nat :: k > 0 && Over(r, m, k)) <==> !Spinning(r, m)
    ensures !Spinning(r, m) ==> 1 <= ChainLength(r, m) < 2 * r.len && Over(r, m, ChainLength(r, m))
    ensures !Spinning(r, m) ==> forall j: nat :: 1 <= j < ChainLength(r, m) ==> !Over(r, m, j)
  {
    hide Own, At, Stops, Over, Spinning;
    forall k: nat | k > 0
      ensures Over(r, m, k) <==> Stops(r, m, k)
    {
      OverIs(r, m, k);
    }
    if Spinning(r, m) {
      forall k: nat | k > 0
        ensures !Over(r, m, k)
      {
        SpinsOn(r, m, k);
      }
    } else {
      ChainFromEnds(r, m, 1);
      assert Over(r, m, ChainLength(r, m));
    }
  }

  /** On a ring that never stops the walk, it also changes nothing: only the packet grows. */
  lemma {:induction false} SpinningWalk(r: Ring, m: Mem, i: nat)
    requires Usable(r) && Spinning(r, m)
    ensures After(r, m, i).mem == m && |After(r, m, i).data| == Room(m, r, i)
  {
    hide Own, Enp, Words, Slot, Stp, Store32, LoadBlock, FlagsAddr, BufLen, Address;
    if i > 0 {
      SpinningWalk(r, m, i - 1);
      var t := SlotHome(r, i - 1);
      assert StartsOnly(At(m, r, t).flags);
    }
  }

  /** A slot met over and over. */
  lemma {:induction false} SlotTurns(r: Ring, j: nat, q: nat) returns (i: nat)
    requires r.len > 0
    ensures i >= q && Slot(r, i) == Slot(r, j)
    decreases q
  {
    hide Slot;
    if q == 0 {
      i := j;
    } else {
      i := SlotTurns(r, j, q - 1);
      SlotTurn(r, i);
      i := i + r.len;
    }
  }

  /** With one buffer that is not empty, going round gathers more than any bound. */
  lemma {:induction false} RoomWithoutBound(r: Ring, m: Mem, j: nat, n: nat) returns (i: nat)
    requires r.len > 0 && Size(m, r, j) > 0
    ensures Room(m, r, i) >= n
    decreases n
  {
    hide Slot, Words, BufLen;
    if n == 0 {
      i := 0;
    } else {
      var b := RoomWithoutBound(r, m, j, n - 1);
      i := SlotTurns(r, j, b);
      RoomGrows(m, r, b, i);
      assert Size(m, r, i) == Size(m, r, j);
      i := i + 1;
    }
  }

  lemma {:induction false} RoomOfNone(r: Ring, m: Mem, i: nat)
    requires r.len > 0 && forall j: nat :: j < r.len ==> Size(m, r, j) == 0
    ensures Room(m, r, i) == 0
  {
    hide Slot, Words, BufLen;
    if i > 0 {
      RoomOfNone(r, m, i - 1);
      var t := SlotHome(r, i - 1);
      assert Size(m, r, t) == Size(m, r, i - 1);
    }
  }

  /** `i` passes are made: the walk was not over before. */
  ghost predicate Made(r: Ring, m: Mem, i: nat)
    requires r.len > 0
  {
    forall k: nat :: 1 <= k < i ==> !Over(r, m, k)
  }

  /** What is gathered stays within the packet buffer. */
  ghost predicate Fits(r: Ring, m: Mem)
    requires r.len > 0
  {
    forall i: nat :: Made(r, m, i) ==> |After(r, m, i).data| <= MAX_PKT_SIZE
  }

  /** Where the walk stops, it fits exactly if the chain does; where it does not, only if there is nothing to gather. */
  lemma FitsIff(r: Ring, m: Mem)
    requires Usable(r) && Own(At(m, r, 0).flags)
    ensures !Spinning(r, m) ==> (Fits(r, m) <==> Room(m, r, ChainLength(r, m)) <= MAX_PKT_SIZE)
    ensures Spinning(r, m) ==> (Fits(r, m) <==> forall j: nat :: j < r.len ==> Size(m, r, j) == 0)
  {
    hide Own, At, Over, Spinning, Room, After, ChainLength, Usable;
    UsableLen(r);
    StopsIff(r, m);
    forall i: nat
      ensures |After(r, m, i).data| == Room(m, r, i)
    {
      DataLength(r, m, i);
    }
    if Spinning(r, m) {
      if j: nat :| j < r.len && Size(m, r, j) > 0 {
        var i := RoomWithoutBound(r, m, j, MAX_PKT_SIZE + 1);
        assert Made(r, m, i) && |After(r, m, i).data| > MAX_PKT_SIZE;
      } else {
        forall i: nat { RoomOfNone(r, m, i); }
      }
    } else {
      var k := ChainLength(r, m);
      assert Made(r, m, k);
      forall i: nat | Made(r, m, i)
        ensures Room(m, r, i) <= Room(m, r, k)
      {
        RoomGrows(m, r, i, k);
      }
    }
  }

  /** Owned descriptors without an end of packet: the walk goes on to the first one met again without STP. */
  lemma SecondTurn(r: Ring, m: Mem, j: nat)
    requires Usable(r) && j < r.len && !Stp(At(m, r, j).flags)
    requires forall i: nat :: i < r.len ==> Own(At(m, r, i).flags) && !Enp(At(m, r, i).flags)
    requires forall i: nat :: i < j ==> Stp(At(m, r, i).flags)
    ensures !Spinning(r, m) && ChainLength(r, m) == r.len + j && !Complete(r, m)
  {
    hide Own, Enp, Stp, Words, Slot;
    assert !StartsOnly(At(m, r, j).flags);
    SameDesc(r, m, j);
    forall k: nat | 1 <= k < r.len + j
      ensures !Stops(r, m, k)
    {
      var t := SlotHome(r, k);
      var u := SlotHome(r, k - 1);
      assert At(m, r, t) == At(m, r, k) && At(m, r, u) == At(m, r, k - 1);
      if k >= r.len {
        SameDesc(r, m, k - r.len);
      }
    }
    ChainFromReaches(r, m, r.len + j, 1);
    var u := SlotHome(r, r.len + j - 1);
    assert At(m, r, u) == At(m, r, r.len + j - 1);
  }

  lemma {:induction false} ChainFromReaches(r: Ring, m: Mem, k: nat, i: nat)
    requires r.len > 0 && 1 <= i <= k <= 2 * r.len && Stops(r, m, k)
    requires forall j: nat :: i <= j < k ==> !Stops(r, m, j)
    ensures ChainFrom(r, m, i) == k
    decreases k - i
  {
    hide Stops;
    if i < k {
      ChainFromReaches(r, m, k, i + 1);
    }
  }

  /** The chain is what the flags say it is: `k` owned descriptors of which only the last has ENP. */
  lemma ChainLengthIs(r: Ring, m: Mem, k: nat)
    requires r.len > 0 && 1 <= k <= r.len
    requires forall j: nat :: 1 <= j < k ==> Own(At(m, r, j).flags)
    requires forall j: nat :: j < k - 1 ==> !Enp(At(m, r, j).flags)
    requires Enp(At(m, r, k - 1).flags)
    ensures ChainLength(r, m) == k && Complete(r, m)
  {
    hide Own, Enp, At;
    forall j: nat | 1 <= j < k
      ensures !Stops(r, m, j)
    {
      assert !Enp(At(m, r, j - 1).flags);
    }
    ChainFromReaches(r, m, k, 1);
  }

  /** What the loop sees after its `i`-th pass: the end of the chain, or one more owned descriptor. */
  lemma ChainStep(r: Ring, m: Mem, i: nat)
    requires Usable(r) && Own(At(m, r, 0).flags) && !Spinning(r, m) && 1 <= i <= ChainLength(r, m)
    ensures i == ChainLength(r, m) <==> Enp(At(m, r, i - 1).flags) || !Own(At(After(r, m, i).mem, r, i).flags)
    ensures Enp(At(m, r, i - 1).flags) ==> Complete(r, m)
    ensures i == ChainLength(r, m) && !Enp(At(m, r, i - 1).flags) ==> !Complete(r, m)
  {
    hide Own, Enp, At, After, Usable, Spinning, ChainLength;
    StopsIff(r, m);
    assert i < ChainLength(r, m) ==> !Over(r, m, i);
  }

  lemma FlagsInEnp(r: Ring, m: Mem, i: nat)
    requires Usable(r)
    ensures FlagsIn(r, m, 1, 0) == if Stp(At(m, r, 0).flags) then At(m, r, 0).flags else ClearOwn(At(m, r, 0).flags)
    ensures var w := At(After(r, m, i).mem, r, i).flags;
            && (Stp(w) <==> Stp(At(m, r, i).flags))
            && (Enp(ClearOwn(w)) <==> Enp(w))
            && (Enp(w) <==> Enp(At(m, r, i).flags))
  {
    hide Enp, Own, ClearOwn, Stp, Words, After, Slot, Usable;
    UsableLen(r);
    var t := SlotHome(r, i);
    ScanWords(r, m, i, t);
    ClearOwnFlags(At(m, r, t).flags);
    ClearOwnFlags(At(After(r, m, i).mem, r, i).flags);
  }

  lemma AfterNext(r: Ring, m: Mem, i: nat)
    requires r.len > 0
    ensures After(r, m, 0) == Scan(m, []) && Log(r, m, 0) == []
    ensures var p := After(r, m, i);
            && After(r, m, i + 1) == Pass(r, p, i)
            && Log(r, m, i + 1) == Log(r, m, i) + (if Stp(At(p.mem, r, i).flags) then [] else [Pass(r, p, i).mem])
  {
  }

  // ---- The ring and the packet while the loop runs ----

  /** The flags word of descriptor `j` after `i` passes. */
  function FlagsIn(r: Ring, m: Mem, i: nat, j: nat): Word
    requires r.len > 0
  {
    var w := At(m, r, j).flags;
    if j < i && !Stp(w) then ClearOwn(w) else w
  }

  /** One pass, on one descriptor: the one that is met loses OWN unless it has STP. */
  lemma PassWords(r: Ring, p: Scan, i: nat, j: nat)
    requires r.len > 0
    ensures var d := At(p.mem, r, j);
            At(Pass(r, p, i).mem, r, j)
            == if Slot(r, j) == Slot(r, i) && !Stp(d.flags) then d.(flags := ClearOwn(d.flags)) else d
  {
    hide BufLen, ClearOwn, Words, Slot, Address, Store32, LoadBlock, FlagsAddr, Stp;
    WordsAfterFlags(p.mem, r, Slot(r, j), Slot(r, i), ClearOwn(At(p.mem, r, i).flags));
  }

  lemma {:induction false} ScanWords(r: Ring, m: Mem, i: nat, j: nat)
    requires Usable(r) && j < r.len
    ensures At(After(r, m, i).mem, r, j) == At(m, r, j).(flags := FlagsIn(r, m, i, j))
  {
    hide Own, Enp, Err, Buff, ClearOwn, Words, Slot, Stp, Pass;
    if i > 0 {
      ScanWords(r, m, i - 1, j);
      PassWords(r, After(r, m, i - 1), i - 1, j);
      ClearOwnFlags(At(m, r, j).flags);
      ClearedTwice(At(m, r, j).flags);
      var t := SlotHome(r, i - 1);
      if t < j { SlotsDistinct(r, t, j); }
      if j < t { SlotsDistinct(r, j, t); }
    }
  }

  lemma {:induction false} ScanBuffer(r: Ring, m: Mem, i: nat, a: nat, n: nat)
    requires r.len > 0 && OutsideRing(r, a, n)
    ensures LoadBlock(After(r, m, i).mem, a, n) == LoadBlock(m, a, n)
  {
    hide BufLen, ClearOwn, Words, Slot, Address, Store32, LoadBlock, FlagsAddr, Stp, OutsideRing;
    if i > 0 {
      var p := After(r, m, i - 1);
      ScanBuffer(r, m, i - 1, a, n);
      BlockAfterFlags(p.mem, r, Slot(r, i - 1), ClearOwn(At(p.mem, r, i - 1).flags), a, n);
    }
  }

  /** The descriptor met by pass `i` still names the buffer the driver gave it. */
  lemma SameBuffer(r: Ring, m: Mem, i: nat)
    requires Usable(r)
    ensures var d := At(After(r, m, i).mem, r, i);
            Address(d.addr) == BufAddr(m, r, i) && BufLen(d.flags) == Size(m, r, i)
  {
    hide BufLen, ClearOwn, Words, Slot, Address, After, Stp, Usable;
    UsableLen(r);
    var t := SlotHome(r, i);
    ScanWords(r, m, i, t);
    FlagsKeepLen(At(m, r, t).flags);
  }

  lemma {:induction false} DataLength(r: Ring, m: Mem, i: nat)
    requires Usable(r)
    ensures |After(r, m, i).data| == Room(m, r, i)
  {
    hide BufLen, ClearOwn, Words, Slot, Address, Store32, LoadBlock, FlagsAddr, Stp, Size, BufAddr;
    if i > 0 {
      DataLength(r, m, i - 1);
      SameBuffer(r, m, i - 1);
    }
  }

  /** The packet is the chain's buffers as they were at the start, however often the walk went round. */
  lemma {:induction false} ScanData(r: Ring, m: Mem, i: nat)
    requires Usable(r) && BuffersApart(m, r)
    ensures After(r, m, i).data == Gather(m, r, m, i)
  {
    hide BufLen, ClearOwn, Words, Slot, Store32, LoadBlock, FlagsAddr, Stp, BuffersApart, OutsideRing, Address;
    if i > 0 {
      ScanData(r, m, i - 1);
      SameBuffer(r, m, i - 1);
      BuffersApartAt(m, r, Slot(r, i - 1));
      ScanBuffer(r, m, i - 1, BufAddr(m, r, i - 1), Size(m, r, i - 1));
    }
  }

  // ---- The result ----

  /** The first descriptor's word as the device holds it when the packet is out. */
  function FirstFlags(r: Ring, m: Mem): Word
    requires r.len > 0
  {
    ClearOwn(FlagsIn(r, m, 1, 0))
  }

  /** What goes out. */
  function Packet(r: Ring, m: Mem): seq<Byte>
    requires r.len > 0
  {
    After(r, m, ChainLength(r, m)).data
  }

  /** Memory once the chain has been walked, and, if it was complete, sent. */
  function Sent(r: Ring, m: Mem): Mem
    requires r.len > 0
  {
    var done := After(r, m, ChainLength(r, m)).mem;
    if Complete(r, m) then Store32(done, FlagsAddr(r, Slot(r, 0)), FirstFlags(r, m)) else done
  }

  /** Descriptor `j` afterwards. */
  function Final(r: Ring, m: Mem, j: nat): Desc
    requires r.len > 0
  {
    var (d, k) := (At(m, r, j), ChainLength(r, m));
    if j < k && ((j == 0 && Complete(r, m)) || !Stp(d.flags)) then d.(flags := ClearOwn(d.flags)) else d
  }

  lemma ClearedTwice(w: Word)
    ensures ClearOwn(ClearOwn(w)) == ClearOwn(w)
  {
  }

  /** What the walk leaves in the ring, for a complete chain and for an underflow. */
  lemma SentWords(r: Ring, m: Mem, j: nat)
    requires Usable(r) && j < r.len
    ensures At(Sent(r, m), r, j) == Final(r, m, j)
  {
    hide ClearOwn, Words, Slot, Store32, After, Stp, Enp, FlagsAddr, ChainLength, Complete;
    ChainLengthBounds(r, m);
    var k := ChainLength(r, m);
    ScanWords(r, m, k, j);
    ClearedTwice(At(m, r, 0).flags);
    if Complete(r, m) {
      WordsAfterFlags(After(r, m, k).mem, r, Slot(r, j), Slot(r, 0), FirstFlags(r, m));
      if 0 < j { SlotsDistinct(r, 0, j); }
    }
  }

  lemma ChainLengthBounds(r: Ring, m: Mem)
    requires r.len > 0
    ensures 1 <= ChainLength(r, m) <= 2 * r.len
  {
  }

  lemma {:induction false} ScanElsewhere(r: Ring, m: Mem, i: nat, a: nat)
    requires r.len > 0
    requires forall s: nat :: s < r.len ==> Apart(FlagsAddr(r, s), 4, a, 1)
    ensures Load8(After(r, m, i).mem, a) == Load8(m, a)
  {
    hide BufLen, ClearOwn, Words, Slot, Address, Store32, LoadBlock, FlagsAddr, Stp, Load8;
    if i > 0 {
      var p := After(r, m, i - 1);
      ScanElsewhere(r, m, i - 1, a);
      ByteOther(p.mem, FlagsAddr(r, Slot(r, i - 1)), ClearOwn(At(p.mem, r, i - 1).flags), a);
    }
  }

  /** Sending writes flags words and nothing else. */
  lemma SentElsewhere(r: Ring, m: Mem, a: nat)
    requires r.len > 0
    requires forall s: nat :: s < r.len ==> Apart(FlagsAddr(r, s), 4, a, 1)
    ensures Load8(Sent(r, m), a) == Load8(m, a)
  {
    hide ClearOwn, Words, Slot, Store32, After, Stp, FlagsAddr, ChainLength, Complete, Load8, FirstFlags;
    ScanElsewhere(r, m, ChainLength(r, m), a);
    ByteOther(After(r, m, ChainLength(r, m)).mem, FlagsAddr(r, Slot(r, 0)), FirstFlags(r, m), a);
  }

  /**
   * Gather. A well-formed chain (owned, STP on its first descriptor alone, ENP
   * on its last alone) goes out as the concatenation of its buffers, and all of
   * it comes back to the driver.
   */
  lemma Gathered(r: Ring, m: Mem, k: nat)
    requires Usable(r) && BuffersApart(m, r) && 1 <= k <= r.len && Room(m, r, k) <= MAX_PKT_SIZE
    requires forall j: nat :: j < k ==> Own(At(m, r, j).flags)
    requires forall j: nat :: j < k ==> (Stp(At(m, r, j).flags) <==> j == 0)
    requires forall j: nat :: j < k ==> (Enp(At(m, r, j).flags) <==> j == k - 1)
    ensures Sendable(r, m) && Complete(r, m) && ChainLength(r, m) == k
    ensures Packet(r, m) == Gather(m, r, m, k) && |Gather(m, r, m, k)| == Room(m, r, k)
    ensures forall j: nat :: j < k ==>
      At(Sent(r, m), r, j) == At(m, r, j).(flags := ClearOwn(At(m, r, j).flags)) && !Own(At(Sent(r, m), r, j).flags)
    ensures forall j: nat :: k <= j < r.len ==> At(Sent(r, m), r, j) == At(m, r, j)
  {
    hide ClearOwn, Words, Slot, Own, Stp, Enp, At, ChainLength, Complete, Sent, After, Gather, BuffersApart, Room;
    ChainLengthIs(r, m, k);
    assert !StartsOnly(At(m, r, k - 1).flags);
    ScanData(r, m, k);
    GatherLength(m, r, m, k);
    forall j: nat | j < r.len
      ensures At(Sent(r, m), r, j) == Final(r, m, j)
    {
      SentWords(r, m, j);
    }
    forall j: nat | j < k
      ensures !Own(ClearOwn(At(m, r, j).flags))
    {
      ClearOwnFlags(At(m, r, j).flags);
    }
  }

  /** An underflow leaves the first descriptor, if it is marked STP, with the device. */
  lemma Underflow(r: Ring, m: Mem)
    requires Usable(r) && !Complete(r, m) && Own(At(m, r, 0).flags)
    ensures Own(At(Sent(r, m), r, 0).flags) <==> Stp(At(m, r, 0).flags)
  {
    hide ClearOwn, Words, Slot, Own, Stp, Enp, ChainLength, Complete, Sent, After;
    ChainLengthBounds(r, m);
    SentWords(r, m, 0);
    ClearOwnFlags(At(m, r, 0).flags);
  }

  // ---- Publication order ----

  /** Until the last write, the descriptor that starts a packet is still the device's. */
  lemma {:induction false} FirstHeldUntilSent(r: Ring, m: Mem, i: nat, t: nat)
    requires Usable(r) && Own(At(m, r, 0).flags) && Stp(At(m, r, 0).flags)
    requires t < |Log(r, m, i)|
    ensures Own(At(Log(r, m, i)[t], r, 0).flags)
  {
    hide ClearOwn, Words, Slot, Own, Stp, At, After;
    ScanWords(r, m, i, 0);
    if t < |Log(r, m, i - 1)| {
      FirstHeldUntilSent(r, m, i - 1, t);
    }
  }

  // ---- A ring that never stops the walk ----

  /** Owned, starting a packet, ending none, with a buffer of one byte. */
  const ENDLESS: Word := Word(0x8200_0fff)

  lemma EndlessFlags()
    ensures StartsOnly(ENDLESS) && BufLen(ENDLESS) == 1
  {
  }

  /** A ring of one such descriptor: the walk goes on for ever, and each pass gathers one more byte. */
  lemma NeverStops() returns (r: Ring, m: Mem)
    ensures Usable(r) && r.len == 1 && Spinning(r, m) && Own(At(m, r, 0).flags)
    ensures forall k: nat :: k > 0 ==> !Over(r, m, k)
    ensures forall i: nat :: After(r, m, i).mem == m && |After(r, m, i).data| == i
    ensures !Fits(r, m)
  {
    hide Own, Enp, Stp, BufLen, Store32, Over, After, Words, StartsOnly, Room;
    r := Ring(256, 1, 0, 2);
    m := Store32(map[], FlagsAddr(r, 0), ENDLESS);
    WordsAfterFlags(map[], r, 0, 0, ENDLESS);
    EndlessFlags();
    SlotPlain(r, 0);
    Endless(At(m, r, 0).flags);
    StopsIff(r, m);
    FitsIff(r, m);
    forall i: nat
      ensures After(r, m, i).mem == m && |After(r, m, i).data| == i
    {
      SpinningWalk(r, m, i);
      RoomOfOnes(r, m, i);
    }
    assert Size(m, r, 0) == 1;
  }

  lemma Endless(w: Word)
    requires StartsOnly(w)
    ensures Own(w)
  {
  }

  lemma {:induction false} RoomOfOnes(r: Ring, m: Mem, i: nat)
    requires r.len == 1 && Size(m, r, 0) == 1
    ensures Room(m, r, i) == i
  {
    hide Words, BufLen;
    if i > 0 {
      RoomOfOnes(r, m, i - 1);
      assert Slot(r, i - 1) == Slot(r, 0);
    }
  }
}
