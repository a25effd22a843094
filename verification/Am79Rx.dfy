/**
 * Receiving: a packet is scattered over a chain of ring descriptors
 * (`am79c971_receive_pkt` in common/dev_am79c971.c).
 */
module Am79Rx {
  import opened Bytes
  import opened PhysMem
  import opened Am79Desc
  import opened Am79Ring

  /** Between two passes of the loop: guest memory and the bytes still to be stored. */
  datatype Scan = Scan(mem: Mem, left: seq<Byte>)

  function Least(a: nat, b: nat): nat {
    if a < b then a else b
  }

  /** The length reported to the guest. Every byte is stored, also those past the limit. */
  function Truncated(n: nat): (t: nat)
    ensures t <= MAX_PKT_SIZE
  {
    Least(n, MAX_PKT_SIZE)
  }

  /** The part of the packet that goes into one buffer. */
  function Piece(d: Desc, left: seq<Byte>): (s: seq<Byte>)
    ensures |s| == Least(BufLen(d.flags), |left|)
  {
    left[..Least(BufLen(d.flags), |left|)]
  }

  /** Memory after `rxdesc_put_pkt`. */
  function Put(m: Mem, d: Desc, left: seq<Byte>): Mem {
    StoreBlock(m, Address(d.addr), Piece(d, left))
  }

  /** The first descriptor keeps its OWN bit until the packet is complete. */
  function Kept(i: nat, w: Word): Word {
    if i == 0 then w else ClearOwn(w)
  }

  function PutAt(r: Ring, p: Scan, i: nat): Mem
    requires r.len > 0
  {
    Put(p.mem, At(p.mem, r, i), p.left)
  }

  /** A pass that is not the last one. */
  function Continue(r: Ring, p: Scan, i: nat): Scan
    requires r.len > 0
  {
    var d := At(p.mem, r, i);
    Scan(Store32(PutAt(r, p, i), FlagsAddr(r, Slot(r, i)), Kept(i, d.flags)), p.left[|Piece(d, p.left)|..])
  }

  function After(r: Ring, m: Mem, pkt: seq<Byte>, i: nat): Scan
    requires r.len > 0
  {
    if i == 0 then Scan(m, pkt) else Continue(r, After(r, m, pkt, i - 1), i - 1)
  }

  predicate Stored(r: Ring, p: Scan, i: nat)
    requires r.len > 0
  {
    |Piece(At(p.mem, r, i), p.left)| == |p.left|
  }

  /** Pass `i` is the last: the packet is stored, or the next descriptor is not ours. */
  predicate Ends(r: Ring, p: Scan, i: nat)
    requires r.len > 0
  {
    Stored(r, p, i) || !Own(At(PutAt(r, p, i), r, i + 1).flags)
  }

  function ClosingFlags(r: Ring, p: Scan, i: nat): Word
    requires r.len > 0
  {
    var w := Kept(i, At(p.mem, r, i).flags);
    SetEnp(if Stored(r, p, i) then w else SetErrBuff(w))
  }

  /** The last pass: end of packet, byte count, and only then the first descriptor. */
  function Ended(r: Ring, p: Scan, i: nat): Mem
    requires r.len > 0
  {
    Store32(PutAt(r, p, i), FlagsAddr(r, Slot(r, i)), ClosingFlags(r, p, i))
  }

  function Counted(r: Ring, p: Scan, i: nat, n: nat): Mem
    requires r.len > 0 && n + 4 < 4096
  {
    if Stored(r, p, i)
    then Store32(Ended(r, p, i), AuxAddr(r, Slot(r, i)), WithCount(At(p.mem, r, i).aux, n + 4))
    else Ended(r, p, i)
  }

  function FirstFlags(r: Ring, m: Mem, p: Scan, i: nat): Word
    requires r.len > 0
  {
    SetStp(ClearOwn(if i == 0 then ClosingFlags(r, p, i) else At(m, r, 0).flags))
  }

  function Close(r: Ring, m: Mem, p: Scan, i: nat, n: nat): Mem
    requires r.len > 0 && n + 4 < 4096
  {
    Store32(Counted(r, p, i, n), FlagsAddr(r, Slot(r, 0)), FirstFlags(r, m, p, i))
  }

  /** Passes after which the loop is over, whatever memory holds and wherever the buffers lie. */
  function Limit(r: Ring, n: nat): nat {
    1 + Turns(r, n)
  }

  /** Two turns, and two more for each byte. */
  function Turns(r: Ring, n: nat): nat {
    if n == 0 then 2 * r.len else Turns(r, n - 1) + 2 * r.len
  }

  /** The number of the last pass, searched from `i`. */
  function LastFrom(r: Ring, m: Mem, pkt: seq<Byte>, i: nat): nat
    requires r.len > 0
    decreases Limit(r, |pkt|) - i
  {
    if i >= Limit(r, |pkt|) || Ends(r, After(r, m, pkt, i), i) then i else LastFrom(r, m, pkt, i + 1)
  }

  function Last(r: Ring, m: Mem, pkt: seq<Byte>): nat
    requires r.len > 0
  {
    LastFrom(r, m, pkt, 0)
  }

  /** Memory when `am79c971_receive_pkt` returns TRUE. */
  function Received(r: Ring, m: Mem, pkt: seq<Byte>): Mem
    requires r.len > 0
  {
    var i := Last(r, m, pkt);
    Close(r, m, After(r, m, pkt, i), i, Truncated(|pkt|))
  }

  // ---- The states memory goes through ----

  function LogTo(r: Ring, m: Mem, pkt: seq<Byte>, i: nat): seq<Mem>
    requires r.len > 0
  {
    if i == 0 then []
    else LogTo(r, m, pkt, i - 1) + [PutAt(r, After(r, m, pkt, i - 1), i - 1), After(r, m, pkt, i).mem]
  }

  function LastLog(r: Ring, m: Mem, pkt: seq<Byte>, i: nat): seq<Mem>
    requires r.len > 0
  {
    var p := After(r, m, pkt, i);
    [PutAt(r, p, i), Ended(r, p, i)]
    + (if Stored(r, p, i) then [Counted(r, p, i, Truncated(|pkt|))] else [])
  }

  /** Every state before the final write. */
  function Log(r: Ring, m: Mem, pkt: seq<Byte>): seq<Mem>
    requires r.len > 0
  {
    var i := Last(r, m, pkt);
    LogTo(r, m, pkt, i) + LastLog(r, m, pkt, i)
  }

  lemma AfterNext(r: Ring, m: Mem, pkt: seq<Byte>, i: nat)
    requires r.len > 0
    ensures After(r, m, pkt, 0) == Scan(m, pkt) && LogTo(r, m, pkt, 0) == []
    ensures var p := After(r, m, pkt, i);
            && After(r, m, pkt, i + 1) == Continue(r, p, i)
            && LogTo(r, m, pkt, i + 1) == LogTo(r, m, pkt, i) + [PutAt(r, p, i), Continue(r, p, i).mem]
  {
  }

  /** One more pass in a history that began with `t`. */
  lemma LogGrows(t: seq<Mem>, log: seq<Mem>, a: Mem, b: Mem)
    ensures t + log + [a] + [b] == t + (log + [a, b])
  {
  }

  /** The last pass in it. */
  lemma LogEnds(r: Ring, m: Mem, pkt: seq<Byte>, t: seq<Mem>)
    requires r.len > 0
    ensures var (i, n) := (Last(r, m, pkt), Truncated(|pkt|));
            var p := After(r, m, pkt, i);
            t + Log(r, m, pkt)
            == t + LogTo(r, m, pkt, i) + [PutAt(r, p, i)]
               + (if Stored(r, p, i) then [Ended(r, p, i), Counted(r, p, i, n)] else [Ended(r, p, i)])
  {
    hide LogTo, After, PutAt, Stored, Ended, Counted, Last;
  }

  // ---- The loop ends for every memory ----

  predicate StoresNothing(r: Ring, p: Scan, i: nat)
    requires r.len > 0
  {
    Piece(At(p.mem, r, i), p.left) == []
  }

  /** A pass over an empty buffer takes OWN from its descriptor, and that is all. */
  lemma EmptyPass(r: Ring, m: Mem, pkt: seq<Byte>, i: nat, s: nat)
    requires s < r.len && StoresNothing(r, After(r, m, pkt, i), i)
    ensures var (p, q) := (After(r, m, pkt, i), After(r, m, pkt, i + 1));
            && q.left == p.left && PutAt(r, p, i) == p.mem
            && Words(q.mem, r, s).flags
               == if s == Slot(r, i) then Kept(i, Words(p.mem, r, s).flags) else Words(p.mem, r, s).flags
  {
    hide BufLen, Slot, Words, Kept, Store32, FlagsAddr;
    var p := After(r, m, pkt, i);
    WordsAfterFlags(p.mem, r, s, Slot(r, i), Kept(i, At(p.mem, r, i).flags));
  }

  /** Over `n` empty buffers, a descriptor that was met stays given back. */
  lemma {:induction false} EmptyRun(r: Ring, m: Mem, pkt: seq<Byte>, i: nat, n: nat)
    requires r.len > 0 && i > 0 && n > 0
    requires forall x: nat :: i <= x < i + n ==> StoresNothing(r, After(r, m, pkt, x), x)
    ensures !Own(Words(After(r, m, pkt, i + n).mem, r, Slot(r, i)).flags)
  {
    hide Slot, Words, After, StoresNothing, Own, ClearOwn;
    var x := i + n - 1;
    EmptyPass(r, m, pkt, x, Slot(r, i));
    ClearOwnFlags(Words(After(r, m, pkt, x).mem, r, Slot(r, i)).flags);
    if n > 1 { EmptyRun(r, m, pkt, i, n - 1); }
  }

  /** So two turns over empty buffers end the loop. */
  lemma EmptyTurnsEnd(r: Ring, m: Mem, pkt: seq<Byte>, i: nat)
    requires r.len > 0 && i > 0
    requires forall x: nat :: i <= x < i + 2 * r.len ==> StoresNothing(r, After(r, m, pkt, x), x)
    ensures var x := i + 2 * r.len - 1; Ends(r, After(r, m, pkt, x), x)
  {
    hide Slot, Words, After, StoresNothing, Own, PutAt, Stored;
    var x := i + 2 * r.len - 1;
    EmptyRun(r, m, pkt, i, 2 * r.len - 1);
    EmptyPass(r, m, pkt, x, 0);
    SlotTurn(r, i);
    SlotTurn(r, i + r.len);
  }

  lemma LeftNext(r: Ring, m: Mem, pkt: seq<Byte>, i: nat)
    requires r.len > 0
    ensures var (p, q) := (After(r, m, pkt, i), After(r, m, pkt, i + 1));
            && |q.left| <= |p.left| && (!StoresNothing(r, p, i) ==> |q.left| < |p.left|)
  {
    hide BufLen, Slot, Words, Store32, PutAt;
  }

  lemma {:induction false} LeftShrinks(r: Ring, m: Mem, pkt: seq<Byte>, i: nat, k: nat)
    requires r.len > 0 && i <= k
    ensures |After(r, m, pkt, k).left| <= |After(r, m, pkt, i).left|
    decreases k - i
  {
    hide After, StoresNothing;
    if i < k {
      LeftShrinks(r, m, pkt, i, k - 1);
      LeftNext(r, m, pkt, k - 1);
    }
  }

  lemma {:induction false} MoreTurns(r: Ring, a: nat, b: nat)
    requires a <= b
    ensures 2 * r.len <= Turns(r, a) <= Turns(r, b)
    ensures a < b ==> Turns(r, a) + 2 * r.len <= Turns(r, b)
  {
    if a < b {
      MoreTurns(r, a, b - 1);
    } else if a > 0 {
      MoreTurns(r, a - 1, a - 1);
    }
  }

  /** From the second pass on, in every two turns the loop ends or some of the packet is stored. */
  lemma {:induction false} EndsWithin(r: Ring, m: Mem, pkt: seq<Byte>, i: nat) returns (k: nat)
    requires r.len > 0 && i > 0
    ensures i <= k < i + Turns(r, |After(r, m, pkt, i).left|)
    ensures Ends(r, After(r, m, pkt, k), k)
    decreases |After(r, m, pkt, i).left|
  {
    hide After, Ends, StoresNothing;
    hide Turns;
    var (n, w) := (|After(r, m, pkt, i).left|, 2 * r.len);
    if x: nat :| i <= x < i + w && !StoresNothing(r, After(r, m, pkt, x), x) {
      LeftShrinks(r, m, pkt, i, x);
      LeftNext(r, m, pkt, x);
      k := EndsWithin(r, m, pkt, x + 1);
      MoreTurns(r, |After(r, m, pkt, x + 1).left|, n);
    } else {
      EmptyTurnsEnd(r, m, pkt, i);
      MoreTurns(r, n, n);
      k := i + w - 1;
    }
  }

  /** The search finds the first pass that ends. */
  lemma {:induction false} LastFromFinds(r: Ring, m: Mem, pkt: seq<Byte>, i: nat, k: nat)
    requires r.len > 0 && i <= k < Limit(r, |pkt|) && Ends(r, After(r, m, pkt, k), k)
    ensures i <= LastFrom(r, m, pkt, i) <= k
    ensures var l := LastFrom(r, m, pkt, i); Ends(r, After(r, m, pkt, l), l)
    ensures forall j :: i <= j < LastFrom(r, m, pkt, i) ==> !Ends(r, After(r, m, pkt, j), j)
    decreases k - i
  {
    hide After, Ends, Limit;
    if !Ends(r, After(r, m, pkt, i), i) {
      LastFromFinds(r, m, pkt, i + 1, k);
    }
  }

  /** For every memory the loop ends: the last pass ends, and no pass before it does. */
  lemma LastEnds(r: Ring, m: Mem, pkt: seq<Byte>)
    requires r.len > 0
    ensures var l := Last(r, m, pkt); Ends(r, After(r, m, pkt, l), l)
    ensures forall j :: 0 <= j < Last(r, m, pkt) ==> !Ends(r, After(r, m, pkt, j), j)
  {
    hide After, Ends, LastFrom, Turns;
    var k := EndsWithin(r, m, pkt, 1);
    LeftShrinks(r, m, pkt, 0, 1);
    AfterNext(r, m, pkt, 0);
    MoreTurns(r, |After(r, m, pkt, 1).left|, |pkt|);
    LastFromFinds(r, m, pkt, 0, k);
  }

  // ---- The ring while the loop runs ----

  /** The flags word of slot `s` before pass `i`. */
  function FlagsIn(r: Ring, m: Mem, i: nat, s: nat): Word
    requires s < r.len
  {
    if i == 0 then Words(m, r, s).flags
    else if i > 1 && Slot(r, i - 1) == s then ClearOwn(FlagsIn(r, m, i - 1, s))
    else FlagsIn(r, m, i - 1, s)
  }

  lemma {:induction false} FlagsInLen(r: Ring, m: Mem, i: nat, s: nat)
    requires s < r.len
    ensures BufLen(FlagsIn(r, m, i, s)) == BufLen(Words(m, r, s).flags)
  {
    hide BufLen, ClearOwn, Words, Slot;
    if i > 0 {
      FlagsInLen(r, m, i - 1, s);
      FlagsKeepLen(FlagsIn(r, m, i - 1, s));
    }
  }

  lemma {:induction false} ScanWords(r: Ring, m: Mem, pkt: seq<Byte>, i: nat, s: nat)
    requires BuffersApart(m, r) && s < r.len
    ensures Words(After(r, m, pkt, i).mem, r, s) == Words(m, r, s).(flags := FlagsIn(r, m, i, s))
  {
    hide BufLen, ClearOwn, Words, Slot, Address, Store32, StoreBlock, FlagsAddr, BuffersApart, OutsideRing;
    if i > 0 {
      var (p, t) := (After(r, m, pkt, i - 1), Slot(r, i - 1));
      ScanWords(r, m, pkt, i - 1, s);
      ScanWords(r, m, pkt, i - 1, t);
      PutWords(r, m, pkt, i - 1, s);
      WordsAfterFlags(PutAt(r, p, i - 1), r, s, t, Kept(i - 1, At(p.mem, r, i - 1).flags));
    }
  }

  /** Filling a buffer leaves every descriptor alone. */
  lemma {:induction false} PutWords(r: Ring, m: Mem, pkt: seq<Byte>, i: nat, s: nat)
    requires BuffersApart(m, r) && s < r.len
    requires Words(After(r, m, pkt, i).mem, r, Slot(r, i))
          == Words(m, r, Slot(r, i)).(flags := FlagsIn(r, m, i, Slot(r, i)))
    ensures Words(PutAt(r, After(r, m, pkt, i), i), r, s) == Words(After(r, m, pkt, i).mem, r, s)
  {
    hide BufLen, ClearOwn, Words, Slot, Address, Store32, StoreBlock, FlagsAddr, BuffersApart, After, FlagsIn;
    var (p, t) := (After(r, m, pkt, i), Slot(r, i));
    var d := At(p.mem, r, i);
    FlagsInLen(r, m, i, t);
    BuffersApartAt(m, r, t);
    WordsAfterBlock(p.mem, r, s, Address(d.addr), Piece(d, p.left));
  }

  /** Both facts about pass `i`: the descriptor it uses, and the ring once its buffer is filled. */
  lemma ScanAt(r: Ring, m: Mem, pkt: seq<Byte>, i: nat, s: nat)
    requires BuffersApart(m, r) && s < r.len
    ensures At(After(r, m, pkt, i).mem, r, i) == At(m, r, i).(flags := FlagsIn(r, m, i, Slot(r, i)))
    ensures BufLen(At(After(r, m, pkt, i).mem, r, i).flags) == Size(m, r, i)
    ensures Words(PutAt(r, After(r, m, pkt, i), i), r, s) == Words(m, r, s).(flags := FlagsIn(r, m, i, s))
  {
    hide BufLen, Words, Slot, BuffersApart, After, FlagsIn, PutAt;
    ScanWords(r, m, pkt, i, Slot(r, i));
    ScanWords(r, m, pkt, i, s);
    PutWords(r, m, pkt, i, s);
    FlagsInLen(r, m, i, Slot(r, i));
  }

  /** A descriptor that was used, other than the first time round at the first one, is given back. */
  lemma {:induction false} GivenBack(r: Ring, m: Mem, i: nat, j: nat)
    requires r.len > 0 && 1 <= j < i
    ensures !Own(FlagsIn(r, m, i, Slot(r, j)))
  {
    hide Own, ClearOwn, Words, Slot;
    ClearOwnFlags(FlagsIn(r, m, i - 1, Slot(r, j)));
    if j < i - 1 {
      GivenBack(r, m, i - 1, j);
    }
  }

  /** The loop stops whatever the ring holds: every descriptor met again is no longer owned. */
  lemma ScanStops(r: Ring, m: Mem, pkt: seq<Byte>)
    requires Usable(r) && BuffersApart(m, r)
    ensures Ends(r, After(r, m, pkt, Bound(r)), Bound(r))
  {
    hide Own, Words, BuffersApart, After, FlagsIn, PutAt, Stored, Slot;
    var i := Bound(r);
    SlotPlain(r, 1);
    SlotPlain(r, r.len);
    SlotNext(r, r.len);
    if r.len > 1 {
      SlotPlain(r, 0);
      SlotNext(r, 0);
      assert Slot(r, i + 1) == Slot(r, 1);
    }
    ScanAt(r, m, pkt, i, Slot(r, i + 1));
    GivenBack(r, m, i, 1);
  }

  /** The loop is over after this many passes that were not the last, if no buffer touches the ring. */
  function Bound(r: Ring): nat {
    if r.len == 1 then 2 else r.len
  }

  lemma LastWithin(r: Ring, m: Mem, pkt: seq<Byte>)
    requires Usable(r) && BuffersApart(m, r)
    ensures Last(r, m, pkt) <= Bound(r)
  {
    hide BuffersApart, After, Ends, LastFrom;
    ScanStops(r, m, pkt);
    MoreTurns(r, |pkt|, |pkt|);
    LastFromFinds(r, m, pkt, 0, Bound(r));
  }

  /** A pass known to be the first that ends is the last pass. */
  lemma LastIs(r: Ring, m: Mem, pkt: seq<Byte>, l: nat)
    requires Usable(r) && BuffersApart(m, r)
    requires Ends(r, After(r, m, pkt, l), l)
    requires forall j :: 0 <= j < l ==> !Ends(r, After(r, m, pkt, j), j)
    ensures Last(r, m, pkt) == l
  {
    hide BuffersApart, After, Ends, Last;
    LastEnds(r, m, pkt);
  }

  /** At most one pass more than there are descriptors, or three on a ring of one. */
  lemma PassesBounded(r: Ring, m: Mem, pkt: seq<Byte>)
    requires Usable(r) && BuffersApart(m, r)
    ensures Last(r, m, pkt) + 1 <= r.len + 2
    ensures r.len > 1 ==> Last(r, m, pkt) + 1 <= r.len + 1
  {
    hide BuffersApart, Last;
    LastWithin(r, m, pkt);
  }

  // ---- A chain that the packet fits, or overruns ----

  /** The next `k` descriptors are different ones, and all owned. */
  ghost predicate AllOwned(r: Ring, m: Mem, k: nat)
    requires r.len > 0
  {
    k <= r.len && forall j: nat :: j < k ==> Own(At(m, r, j).flags)
  }

  /** Their buffers do not overlap each other. */
  ghost predicate Separate(r: Ring, m: Mem, k: nat)
    requires r.len > 0
  {
    forall i: nat, j: nat :: i < j < k ==> Apart(BufAddr(m, r, i), Size(m, r, i), BufAddr(m, r, j), Size(m, r, j))
  }

  lemma {:induction false} Untouched(r: Ring, m: Mem, i: nat, j: nat)
    requires Usable(r) && i <= r.len && j < r.len && (j == 0 || i <= j)
    ensures FlagsIn(r, m, i, Slot(r, j)) == At(m, r, j).flags
  {
    hide Slot, ClearOwn;
    if i > 0 {
      Untouched(r, m, i - 1, j);
      if 1 < i && j == 0 {
        SlotsDistinct(r, 0, i - 1);
      } else if 1 < i {
        SlotsDistinct(r, i - 1, j);
      }
    }
  }

  lemma {:induction false} Visited(r: Ring, m: Mem, i: nat, j: nat)
    requires Usable(r) && 1 <= j < i <= r.len
    ensures FlagsIn(r, m, i, Slot(r, j)) == ClearOwn(At(m, r, j).flags)
  {
    hide Slot, ClearOwn, Words;
    if j == i - 1 {
      Untouched(r, m, i - 1, j);
    } else {
      Visited(r, m, i - 1, j);
      SlotsDistinct(r, j, i - 1);
    }
  }

  /** How much of the packet the first `i` buffers take. */
  function Taken(r: Ring, m: Mem, pkt: seq<Byte>, i: nat): (n: nat)
    requires r.len > 0
    ensures n <= |pkt|
  {
    Least(Room(m, r, i), |pkt|)
  }

  lemma DropTwice(s: seq<Byte>, a: nat, n: nat)
    requires a + n <= |s|
    ensures s[a..][n..] == s[a + n..]
  {
  }

  lemma {:induction false} ScanLeft(r: Ring, m: Mem, pkt: seq<Byte>, i: nat)
    requires r.len > 0 && BuffersApart(m, r)
    ensures After(r, m, pkt, i).left == pkt[Taken(r, m, pkt, i)..]
  {
    hide BufLen, Slot, Words, StoreBlock, Store32, FlagsIn, BuffersApart, Address;
    if i > 0 {
      ScanLeft(r, m, pkt, i - 1);
      ScanAt(r, m, pkt, i - 1, Slot(r, i - 1));
      var p := After(r, m, pkt, i - 1);
      var n := |Piece(At(p.mem, r, i - 1), p.left)|;
      DropTwice(pkt, Taken(r, m, pkt, i - 1), n);
      assert Taken(r, m, pkt, i) == Taken(r, m, pkt, i - 1) + n;
    }
  }

  /** Pass `i` stores the next stretch of the packet; the last one is the one that reaches its end. */
  lemma PieceIs(r: Ring, m: Mem, pkt: seq<Byte>, i: nat)
    requires r.len > 0 && BuffersApart(m, r)
    ensures TakenGrowsBy(r, m, pkt, i)
    ensures var p := After(r, m, pkt, i);
            Piece(At(p.mem, r, i), p.left) == pkt[Taken(r, m, pkt, i)..Taken(r, m, pkt, i + 1)]
    ensures Stored(r, After(r, m, pkt, i), i) <==> |pkt| <= Room(m, r, i + 1)
  {
    hide BufLen, Slot, Words, FlagsIn, BuffersApart, After;
    ScanLeft(r, m, pkt, i);
    ScanAt(r, m, pkt, i, Slot(r, i));
    var p := After(r, m, pkt, i);
    assert Piece(At(p.mem, r, i), p.left) == pkt[Taken(r, m, pkt, i)..Taken(r, m, pkt, i + 1)];
  }

  lemma StoredIs(r: Ring, m: Mem, pkt: seq<Byte>, i: nat)
    requires r.len > 0 && BuffersApart(m, r)
    ensures Stored(r, After(r, m, pkt, i), i) <==> |pkt| <= Room(m, r, i + 1)
  {
    hide *;
    PieceIs(r, m, pkt, i);
  }

  predicate TakenGrowsBy(r: Ring, m: Mem, pkt: seq<Byte>, i: nat)
    requires r.len > 0
  {
    Taken(r, m, pkt, i) <= Taken(r, m, pkt, i + 1) <= Taken(r, m, pkt, i) + Size(m, r, i)
  }

  /** Buffer `j` holds its stretch of the packet. */
  ghost predicate Holds(r: Ring, m: Mem, pkt: seq<Byte>, now: Mem, j: nat)
    requires r.len > 0
  {
    && TakenGrowsBy(r, m, pkt, j)
    && LoadBlock(now, BufAddr(m, r, j), Taken(r, m, pkt, j + 1) - Taken(r, m, pkt, j))
       == pkt[Taken(r, m, pkt, j)..Taken(r, m, pkt, j + 1)]
  }

  lemma JoinPrefixes(g: seq<Byte>, b: seq<Byte>, pkt: seq<Byte>, lo: nat, hi: nat)
    requires lo <= hi <= |pkt| && g == pkt[..lo] && hi - lo <= |b| && b[..hi - lo] == pkt[lo..hi]
    ensures (g + b)[..hi] == pkt[..hi]
  {
    assert (g + b)[..hi] == g + b[..hi - lo];
    assert pkt[..hi] == pkt[..lo] + pkt[lo..hi];
  }

  lemma BlockPrefix(m: Mem, a: nat, n: nat, k: nat)
    requires k <= n
    ensures LoadBlock(m, a, n)[..k] == LoadBlock(m, a, k)
  {
  }

  lemma GatherStep(r: Ring, m: Mem, pkt: seq<Byte>, now: Mem, k: nat)
    requires r.len > 0 && 1 <= k && Room(m, r, k - 1) <= |pkt| && Holds(r, m, pkt, now, k - 1)
    requires Gather(m, r, now, k - 1) == pkt[..Room(m, r, k - 1)]
    ensures Taken(r, m, pkt, k) <= |Gather(m, r, now, k)|
    ensures Gather(m, r, now, k)[..Taken(r, m, pkt, k)] == pkt[..Taken(r, m, pkt, k)]
  {
    hide Size, BufAddr, LoadBlock;
    var (lo, hi) := (Taken(r, m, pkt, k - 1), Taken(r, m, pkt, k));
    BlockPrefix(now, BufAddr(m, r, k - 1), Size(m, r, k - 1), hi - lo);
    JoinPrefixes(Gather(m, r, now, k - 1), LoadBlock(now, BufAddr(m, r, k - 1), Size(m, r, k - 1)), pkt, lo, hi);
  }

  /** Buffers that hold their stretches hold, end to end, the packet. */
  lemma {:induction false} GatherHolds(r: Ring, m: Mem, pkt: seq<Byte>, now: Mem, k: nat)
    requires r.len > 0 && 1 <= k && Room(m, r, k - 1) <= |pkt|
    requires forall j: nat :: j < k ==> Holds(r, m, pkt, now, j)
    ensures |Gather(m, r, now, k)| == Room(m, r, k) >= Taken(r, m, pkt, k)
    ensures Gather(m, r, now, k)[..Taken(r, m, pkt, k)] == pkt[..Taken(r, m, pkt, k)]
  {
    hide Size, BufAddr, LoadBlock, Holds, Gather;
    GatherLength(m, r, now, k);
    GatherLength(m, r, now, k - 1);
    if k > 1 {
      RoomGrows(m, r, k - 2, k - 1);
      GatherHolds(r, m, pkt, now, k - 1);
      var g := Gather(m, r, now, k - 1);
      assert g[..|g|] == g;
    }
    GatherStep(r, m, pkt, now, k);
  }

  /** The flags word of a used descriptor once the packet is handed over. */
  function Marked(w: Word, first: bool, last: bool, complete: bool): Word {
    var a := ClearOwn(w);
    var b := if last && !complete then SetErrBuff(a) else a;
    var c := if last then SetEnp(b) else b;
    if first then SetStp(c) else c
  }

  /** Descriptor `j` after a chain of `k` was used for a packet of `n` bytes. */
  function Final(r: Ring, m: Mem, n: nat, k: nat, j: nat): Desc
    requires r.len > 0
  {
    var (d, complete) := (At(m, r, j), n <= Room(m, r, k));
    if j >= k then d
    else
      Desc(d.addr,
           Marked(d.flags, j == 0, j == k - 1, complete),
           if j == k - 1 && complete then WithCount(d.aux, Truncated(n) + 4) else d.aux)
  }

  lemma MarkedIs(w: Word, complete: bool)
    ensures SetStp(ClearOwn(SetEnp(if complete then w else SetErrBuff(w)))) == Marked(w, true, true, complete)
    ensures SetEnp(if complete then ClearOwn(w) else SetErrBuff(ClearOwn(w))) == Marked(w, false, true, complete)
    ensures SetStp(ClearOwn(w)) == Marked(w, true, false, complete)
    ensures ClearOwn(w) == Marked(w, false, false, complete)
  {
    hide ClearOwn, SetEnp, SetErrBuff, SetStp;
    ClearOwnCommutes(w);
    ClearOwnCommutes(SetErrBuff(w));
  }

  lemma ClosingIs(r: Ring, m: Mem, pkt: seq<Byte>, k: nat)
    requires Usable(r) && BuffersApart(m, r) && 1 <= k <= r.len
    ensures k > 1 ==> ClosingFlags(r, After(r, m, pkt, k - 1), k - 1)
                      == Marked(At(m, r, k - 1).flags, false, true, |pkt| <= Room(m, r, k))
    ensures FirstFlags(r, m, After(r, m, pkt, k - 1), k - 1)
         == Marked(At(m, r, 0).flags, true, k == 1, |pkt| <= Room(m, r, k))
  {
    hide BufLen, Slot, Words, BuffersApart, After, FlagsIn, ClearOwn, SetEnp, SetErrBuff, SetStp, Room;
    hide Stored, Marked, PutAt;
    var (p, i) := (After(r, m, pkt, k - 1), k - 1);
    ScanAt(r, m, pkt, i, Slot(r, i));
    Untouched(r, m, i, i);
    StoredIs(r, m, pkt, i);
    MarkedIs(At(m, r, i).flags, |pkt| <= Room(m, r, k));
    MarkedIs(At(m, r, 0).flags, |pkt| <= Room(m, r, k));
  }

  /** What the last writes make of slot `s` when pass `i` was the last. */
  lemma ClosedSlot(r: Ring, m: Mem, pkt: seq<Byte>, i: nat, s: nat)
    requires Usable(r) && BuffersApart(m, r) && s < r.len
    ensures var (p, n) := (After(r, m, pkt, i), Truncated(|pkt|));
            var d := Words(m, r, s).(flags := FlagsIn(r, m, i, s));
            Words(Close(r, m, p, i, n), r, s)
            == Desc(d.addr,
                    if s == Slot(r, 0) then FirstFlags(r, m, p, i)
                    else if s == Slot(r, i) then ClosingFlags(r, p, i)
                    else d.flags,
                    if s == Slot(r, i) && |pkt| <= Room(m, r, i + 1) then WithCount(d.aux, n + 4) else d.aux)
  {
    hide BufLen, Slot, Words, BuffersApart, After, FlagsIn, Room, PutAt, ClosingFlags, FirstFlags, Stored, Store32;
    hide FlagsAddr, AuxAddr;
    var (p, n, t, z) := (After(r, m, pkt, i), Truncated(|pkt|), Slot(r, i), Slot(r, 0));
    ScanAt(r, m, pkt, i, s);
    StoredIs(r, m, pkt, i);
    WordsAfterFlags(PutAt(r, p, i), r, s, t, ClosingFlags(r, p, i));
    WordsAfterAux(Ended(r, p, i), r, s, t, WithCount(At(p.mem, r, i).aux, n + 4));
    WordsAfterFlags(Counted(r, p, i, n), r, s, z, FirstFlags(r, m, p, i));
  }

  /** In one turn, a slot is the first or the last used exactly by its number. */
  lemma SlotsTell(r: Ring, i: nat, j: nat)
    requires Usable(r) && i < r.len && j < r.len
    ensures Slot(r, j) == Slot(r, i) <==> j == i
  {
    hide Slot;
    if i < j { SlotsDistinct(r, i, j); }
    if j < i { SlotsDistinct(r, j, i); }
  }

  /** The whole ring once a chain of `k` descriptors has been used. */
  lemma ClosedWords(r: Ring, m: Mem, pkt: seq<Byte>, k: nat, j: nat)
    requires Usable(r) && BuffersApart(m, r) && 1 <= k <= r.len && j < r.len
    ensures At(Close(r, m, After(r, m, pkt, k - 1), k - 1, Truncated(|pkt|)), r, j) == Final(r, m, |pkt|, k, j)
  {
    hide BufLen, Slot, Words, BuffersApart, After, FlagsIn, ClearOwn, Room, Usable;
    hide Close, ClosingFlags, FirstFlags, Marked;
    var i := k - 1;
    ClosedSlot(r, m, pkt, i, Slot(r, j));
    ClosingIs(r, m, pkt, k);
    SlotsTell(r, 0, j);
    SlotsTell(r, i, j);
    if 1 <= j < i {
      Visited(r, m, i, j);
      MarkedIs(At(m, r, j).flags, |pkt| <= Room(m, r, k));
    } else {
      Untouched(r, m, i, j);
    }
  }

  /** What the marks say: given back, STP on the first, ENP on the last, ERR and BUFF if it overran. */
  lemma MarkedFlags(w: Word, first: bool, last: bool, complete: bool)
    ensures var v := Marked(w, first, last, complete);
            && !Own(v)
            && (Stp(v) <==> first || Stp(w))
            && (Enp(v) <==> last || Enp(w))
            && (Err(v) <==> (last && !complete) || Err(w))
            && (Buff(v) <==> (last && !complete) || Buff(w))
  {
    hide ClearOwn, SetEnp, SetErrBuff, SetStp, Own, Stp, Enp, Err, Buff;
    var a := ClearOwn(w);
    var b := if last && !complete then SetErrBuff(a) else a;
    var c := if last then SetEnp(b) else b;
    ClearOwnFlags(w);
    SetErrBuffFlags(a);
    SetEnpFlags(b);
    SetStpFlags(c);
  }

  /** The marks touch no other bit of the word. */
  lemma MarkedRest(w: Word, first: bool, last: bool, complete: bool)
    ensures Others(Marked(w, first, last, complete)) == Others(w)
  {
    hide ClearOwn, SetEnp, SetErrBuff, SetStp, Others;
    var a := ClearOwn(w);
    var b := if last && !complete then SetErrBuff(a) else a;
    var c := if last then SetEnp(b) else b;
    ClearOwnOthers(w);
    SetErrBuffOthers(a);
    SetEnpOthers(b);
    SetStpOthers(c);
  }

  // ---- Memory, byte by byte ----

  /** How many bytes buffer `j` receives. */
  function Share(r: Ring, m: Mem, pkt: seq<Byte>, j: nat): nat
    requires r.len > 0
  {
    Taken(r, m, pkt, j + 1) - Taken(r, m, pkt, j)
  }

  /** Pass `j` writes byte `a` of memory. */
  predicate Fills(r: Ring, m: Mem, pkt: seq<Byte>, j: nat, a: nat)
    requires r.len > 0
  {
    BufAddr(m, r, j) <= a < BufAddr(m, r, j) + Share(r, m, pkt, j)
  }

  /** The byte of the packet it puts there. */
  function Filling(r: Ring, m: Mem, pkt: seq<Byte>, j: nat, a: nat): Byte
    requires r.len > 0 && Fills(r, m, pkt, j, a)
  {
    pkt[Taken(r, m, pkt, j) + (a - BufAddr(m, r, j))]
  }

  /** Byte `a` after `i` passes, outside the ring: the last pass that fills it decides. */
  function ByteAfter(r: Ring, m: Mem, pkt: seq<Byte>, i: nat, a: nat): Byte
    requires r.len > 0
  {
    if i == 0 then Load8(m, a)
    else if Fills(r, m, pkt, i - 1, a) then Filling(r, m, pkt, i - 1, a)
    else ByteAfter(r, m, pkt, i - 1, a)
  }

  /** Byte `a` is in no flags and in no count word. */
  ghost predicate OffWords(r: Ring, a: nat) {
    forall s: nat :: s < r.len ==> Apart(FlagsAddr(r, s), 4, a, 1) && Apart(AuxAddr(r, s), 4, a, 1)
  }

  /** Nor in a filled part of the first `k` buffers. */
  ghost predicate Elsewhere(r: Ring, m: Mem, pkt: seq<Byte>, k: nat, a: nat)
    requires r.len > 0
  {
    OffWords(r, a) && forall j: nat :: j < k ==> !Fills(r, m, pkt, j, a)
  }

  lemma ByteAfterPut(r: Ring, m: Mem, pkt: seq<Byte>, i: nat, a: nat)
    requires r.len > 0 && BuffersApart(m, r)
    ensures Load8(PutAt(r, After(r, m, pkt, i), i), a)
         == if Fills(r, m, pkt, i, a) then Filling(r, m, pkt, i, a) else Load8(After(r, m, pkt, i).mem, a)
  {
    hide BufLen, Slot, Words, Load8, StoreBlock, BuffersApart, After, FlagsIn, Taken, Room, Stored;
    var p := After(r, m, pkt, i);
    ScanAt(r, m, pkt, i, Slot(r, i));
    PieceIs(r, m, pkt, i);
    LoadStored8(p.mem, BufAddr(m, r, i), Piece(At(p.mem, r, i), p.left), a);
  }

  lemma {:induction false} ScanBytes(r: Ring, m: Mem, pkt: seq<Byte>, i: nat, a: nat)
    requires r.len > 0 && BuffersApart(m, r) && OffWords(r, a)
    ensures Load8(After(r, m, pkt, i).mem, a) == ByteAfter(r, m, pkt, i, a)
  {
    hide Slot, Words, Load8, Store32, BuffersApart, PutAt, FlagsAddr, AuxAddr, Fills, Filling;
    if i > 0 {
      var p := After(r, m, pkt, i - 1);
      ScanBytes(r, m, pkt, i - 1, a);
      ByteAfterPut(r, m, pkt, i - 1, a);
      ByteOther(PutAt(r, p, i - 1), FlagsAddr(r, Slot(r, i - 1)), Kept(i - 1, At(p.mem, r, i - 1).flags), a);
    }
  }

  /** The closing writes change no byte outside the words. */
  lemma ClosingBytes(r: Ring, m: Mem, p: Scan, i: nat, n: nat, a: nat)
    requires r.len > 0 && n <= MAX_PKT_SIZE && OffWords(r, a)
    ensures Load8(Close(r, m, p, i, n), a) == Load8(PutAt(r, p, i), a)
  {
    hide Slot, Words, Load8, Store32, PutAt, FlagsAddr, AuxAddr, Stored, ClosingFlags, FirstFlags;
    ByteOther(PutAt(r, p, i), FlagsAddr(r, Slot(r, i)), ClosingFlags(r, p, i), a);
    ByteOther(Ended(r, p, i), AuxAddr(r, Slot(r, i)), WithCount(At(p.mem, r, i).aux, n + 4), a);
    ByteOther(Counted(r, p, i, n), FlagsAddr(r, Slot(r, 0)), FirstFlags(r, m, p, i), a);
  }

  lemma ReceivedIs(r: Ring, m: Mem, pkt: seq<Byte>)
    requires r.len > 0
    ensures var l := Last(r, m, pkt); Received(r, m, pkt) == Close(r, m, After(r, m, pkt, l), l, Truncated(|pkt|))
  {
    hide Close, After, Last;
  }

  /**
   * Every byte outside the words, for every ring, whether its buffers overlap
   * or not and whether or not it is big enough: what the passes put there.
   */
  lemma ReceivedBytes(r: Ring, m: Mem, pkt: seq<Byte>, a: nat)
    requires r.len > 0 && BuffersApart(m, r) && OffWords(r, a)
    ensures Load8(Received(r, m, pkt), a) == ByteAfter(r, m, pkt, Last(r, m, pkt) + 1, a)
  {
    hide *;
    ReceivedIs(r, m, pkt);
    var i := Last(r, m, pkt);
    ClosingBytes(r, m, After(r, m, pkt, i), i, Truncated(|pkt|), a);
    ByteAfterPut(r, m, pkt, i, a);
    ScanBytes(r, m, pkt, i, a);
    ByteAfterNext(r, m, pkt, i, a);
  }

  lemma ByteAfterNext(r: Ring, m: Mem, pkt: seq<Byte>, i: nat, a: nat)
    requires r.len > 0
    ensures ByteAfter(r, m, pkt, i + 1, a)
         == if Fills(r, m, pkt, i, a) then Filling(r, m, pkt, i, a) else ByteAfter(r, m, pkt, i, a)
  {
    hide Fills, Filling;
  }

  lemma {:induction false} NotFilled(r: Ring, m: Mem, pkt: seq<Byte>, i: nat, a: nat)
    requires r.len > 0 && forall j: nat :: j < i ==> !Fills(r, m, pkt, j, a)
    ensures ByteAfter(r, m, pkt, i, a) == Load8(m, a)
  {
    hide Fills, Load8;
    if i > 0 { NotFilled(r, m, pkt, i - 1, a); }
  }

  lemma {:induction false} FilledLast(r: Ring, m: Mem, pkt: seq<Byte>, i: nat, j: nat, a: nat)
    requires r.len > 0 && j < i && Fills(r, m, pkt, j, a)
    requires forall l: nat :: j < l < i ==> !Fills(r, m, pkt, l, a)
    ensures ByteAfter(r, m, pkt, i, a) == Filling(r, m, pkt, j, a)
  {
    hide Fills, Filling;
    if j < i - 1 { FilledLast(r, m, pkt, i - 1, j, a); }
  }

  /** A buffer is clear of the words of the ring. */
  lemma BufferOffWords(r: Ring, m: Mem, pkt: seq<Byte>, j: nat, a: nat)
    requires r.len > 0 && BuffersApart(m, r) && Fills(r, m, pkt, j, a)
    ensures OffWords(r, a)
  {
    hide BufLen, Slot, Words;
    BuffersApartAt(m, r, Slot(r, j));
  }

  /** No pass after `j` has a buffer that overlaps its own. */
  ghost predicate LeftAlone(r: Ring, m: Mem, pkt: seq<Byte>, j: nat)
    requires r.len > 0
  {
    forall l: nat :: j < l <= Last(r, m, pkt) ==>
      Apart(BufAddr(m, r, j), Size(m, r, j), BufAddr(m, r, l), Size(m, r, l))
  }

  lemma FillsApart(r: Ring, m: Mem, pkt: seq<Byte>, j: nat, l: nat, a: nat)
    requires r.len > 0 && BuffersApart(m, r) && Fills(r, m, pkt, j, a)
    requires Apart(BufAddr(m, r, j), Size(m, r, j), BufAddr(m, r, l), Size(m, r, l))
    ensures !Fills(r, m, pkt, l, a)
  {
    hide Taken, BufAddr, Size, BuffersApart, After, Stored;
    PieceIs(r, m, pkt, j);
    PieceIs(r, m, pkt, l);
  }

  /** The byte such a pass put down is the one that stays. */
  lemma ByteInTheEnd(r: Ring, m: Mem, pkt: seq<Byte>, j: nat, a: nat)
    requires r.len > 0 && BuffersApart(m, r) && j <= Last(r, m, pkt) && LeftAlone(r, m, pkt, j)
    requires Fills(r, m, pkt, j, a)
    ensures Load8(Received(r, m, pkt), a) == Filling(r, m, pkt, j, a)
  {
    hide Taken, BufAddr, Size, BuffersApart, Fills, Filling, ByteAfter, Received, Last, Load8, OffWords;
    BufferOffWords(r, m, pkt, j, a);
    ReceivedBytes(r, m, pkt, a);
    forall l: nat | j < l <= Last(r, m, pkt)
      ensures !Fills(r, m, pkt, l, a)
    {
      FillsApart(r, m, pkt, j, l, a);
    }
    FilledLast(r, m, pkt, Last(r, m, pkt) + 1, j, a);
  }

  lemma HoldsInTheEnd(r: Ring, m: Mem, pkt: seq<Byte>, j: nat)
    requires r.len > 0 && BuffersApart(m, r) && j <= Last(r, m, pkt) && LeftAlone(r, m, pkt, j)
    ensures Holds(r, m, pkt, Received(r, m, pkt), j)
  {
    hide Taken, BufAddr, Size, BuffersApart, Received, Last, Load8, After, Stored, LeftAlone;
    PieceIs(r, m, pkt, j);
    var b := BufAddr(m, r, j);
    var block := LoadBlock(Received(r, m, pkt), b, Share(r, m, pkt, j));
    forall x: nat | x < Share(r, m, pkt, j)
      ensures block[x] == pkt[Taken(r, m, pkt, j) + x]
    {
      ByteInTheEnd(r, m, pkt, j, b + x);
    }
  }

  // ---- The theorems ----

  /**
   * `k` is the number of descriptors the packet needs: it does not fit fewer,
   * and either it fits or the next descriptor is not there to take the rest.
   */
  ghost predicate Used(r: Ring, m: Mem, n: nat, k: nat)
    requires r.len > 0
  {
    && 1 <= k
    && AllOwned(r, m, k)
    && (k == 1 || Room(m, r, k - 1) < n)
    && (n <= Room(m, r, k) || (k < r.len && !Own(At(m, r, k).flags)))
  }

  /** When pass `j` of the first turn is the last, said of the ring as the guest left it. */
  lemma EndsWhen(r: Ring, m: Mem, pkt: seq<Byte>, j: nat)
    requires Usable(r) && BuffersApart(m, r) && FirstHeld(r, m) && j < r.len
    ensures Ends(r, After(r, m, pkt, j), j)
       <==> |pkt| <= Room(m, r, j + 1) || (j + 1 < r.len && !Own(At(m, r, j + 1).flags))
  {
    hide BufLen, Slot, Words, BuffersApart, After, FlagsIn, Stored, PutAt, Room, Own;
    StoredIs(r, m, pkt, j);
    ScanAt(r, m, pkt, j, Slot(r, j + 1));
    if j + 1 < r.len {
      Untouched(r, m, j, j + 1);
    } else {
      FullTurn(r);
      Untouched(r, m, j, 0);
    }
  }

  lemma FullTurn(r: Ring)
    requires Usable(r)
    ensures Slot(r, r.len) == Slot(r, 0)
  {
    hide Slot;
    SlotPlain(r, 0);
    SlotPlain(r, r.len);
  }

  lemma ChainEnds(r: Ring, m: Mem, pkt: seq<Byte>, k: nat)
    requires Usable(r) && BuffersApart(m, r) && Used(r, m, |pkt|, k)
    ensures Last(r, m, pkt) == k - 1
  {
    hide BufLen, Slot, Words, BuffersApart, After, Ends, Room, Last, Own;
    forall j: nat | j < k - 1
      ensures !Ends(r, After(r, m, pkt, j), j)
    {
      RoomGrows(m, r, j + 1, k - 1);
      EndsWhen(r, m, pkt, j);
    }
    EndsWhen(r, m, pkt, k - 1);
    LastIs(r, m, pkt, k - 1);
  }

  /**
   * Scatter. Each used descriptor is marked and given back, the rest of the
   * ring is as before, and every byte outside the words is what the used buffers
   * received there, or as before. If these buffers do not overlap each other,
   * they hold the packet end to end, or as much of it as they can take.
   */
  lemma Scattered(r: Ring, m: Mem, pkt: seq<Byte>, k: nat)
    requires Usable(r) && BuffersApart(m, r) && Used(r, m, |pkt|, k)
    ensures forall j: nat :: j < r.len ==> At(Received(r, m, pkt), r, j) == Final(r, m, |pkt|, k, j)
    ensures forall a: nat :: OffWords(r, a) ==> Load8(Received(r, m, pkt), a) == ByteAfter(r, m, pkt, k, a)
    ensures forall a: nat :: Elsewhere(r, m, pkt, k, a) ==> Load8(Received(r, m, pkt), a) == Load8(m, a)
    ensures |Gather(m, r, Received(r, m, pkt), k)| == Room(m, r, k)
    ensures var n := Least(Room(m, r, k), |pkt|);
            Separate(r, m, k) ==> Gather(m, r, Received(r, m, pkt), k)[..n] == pkt[..n]
  {
    hide BufLen, Slot, Words, BuffersApart, Room, Received, Final, OffWords, Gather, At, Load8, AllOwned, Last;
    hide Fills, ByteAfter, Separate;
    ChainEnds(r, m, pkt, k);
    ReceivedIs(r, m, pkt);
    var now := Received(r, m, pkt);
    forall j: nat | j < r.len
      ensures At(now, r, j) == Final(r, m, |pkt|, k, j)
    {
      UsedFits(r, m, |pkt|, k);
      ClosedWords(r, m, pkt, k, j);
    }
    forall a: nat | OffWords(r, a)
      ensures Load8(now, a) == ByteAfter(r, m, pkt, k, a)
      ensures Elsewhere(r, m, pkt, k, a) ==> Load8(now, a) == Load8(m, a)
    {
      ReceivedBytes(r, m, pkt, a);
      if Elsewhere(r, m, pkt, k, a) { NotFilled(r, m, pkt, k, a); }
    }
    GatherLength(m, r, now, k);
    if Separate(r, m, k) {
      PacketHeld(r, m, pkt, k);
    }
  }

  lemma PacketHeld(r: Ring, m: Mem, pkt: seq<Byte>, k: nat)
    requires Usable(r) && BuffersApart(m, r) && Used(r, m, |pkt|, k) && Separate(r, m, k)
    ensures |Gather(m, r, Received(r, m, pkt), k)| == Room(m, r, k)
    ensures var n := Least(Room(m, r, k), |pkt|); Gather(m, r, Received(r, m, pkt), k)[..n] == pkt[..n]
  {
    hide BufLen, Slot, Words, BuffersApart, Room, Holds, Received, Gather, At, AllOwned, Last;
    ChainEnds(r, m, pkt, k);
    forall j: nat | j < k
      ensures Holds(r, m, pkt, Received(r, m, pkt), j)
    {
      HoldsInTheEnd(r, m, pkt, j);
    }
    assert Room(m, r, 0) == 0 by { RoomNone(m, r); }
    GatherHolds(r, m, pkt, Received(r, m, pkt), k);
  }

  lemma UsedFits(r: Ring, m: Mem, n: nat, k: nat)
    requires r.len > 0 && Used(r, m, n, k)
    ensures k <= r.len
  {
  }

  /** A packet that fits arrives whole, with its length and the frame check sequence counted. */
  lemma ScatteredWhole(r: Ring, m: Mem, pkt: seq<Byte>, k: nat)
    requires Usable(r) && BuffersApart(m, r)
    requires 1 <= k && AllOwned(r, m, k) && (k == 1 || Room(m, r, k - 1) < |pkt|) && |pkt| <= Room(m, r, k)
    ensures |pkt| <= |Gather(m, r, Received(r, m, pkt), k)|
    ensures Separate(r, m, k) ==> Gather(m, r, Received(r, m, pkt), k)[..|pkt|] == pkt
    ensures forall j: nat :: j < k ==>
      (var (v, w) := (At(Received(r, m, pkt), r, j), At(m, r, j));
       && v.addr == w.addr && !Own(v.flags)
       && (Stp(v.flags) <==> j == 0 || Stp(w.flags))
       && (Enp(v.flags) <==> j == k - 1 || Enp(w.flags))
       && (Err(v.flags) <==> Err(w.flags)))
    ensures CountOf(At(Received(r, m, pkt), r, k - 1).aux) == (if |pkt| < 2048 then |pkt| else 2048) + 4
  {
    hide BufLen, Slot, Words, BuffersApart, Room, Gather, At, AllOwned, Separate, Marked, Received;
    hide Own, Stp, Enp, Err, Buff, CountOf, WithCount, OffWords, Elsewhere, ByteAfter, Load8;
    Scattered(r, m, pkt, k);
    assert pkt[..|pkt|] == pkt;
    var now := Received(r, m, pkt);
    UsedFits(r, m, |pkt|, k);
    forall j: nat | j < k
      ensures var (v, w) := (At(now, r, j), At(m, r, j));
              && v.addr == w.addr && !Own(v.flags)
              && (Stp(v.flags) <==> j == 0 || Stp(w.flags))
              && (Enp(v.flags) <==> j == k - 1 || Enp(w.flags))
              && (Err(v.flags) <==> Err(w.flags))
    {
      assert At(now, r, j) == Final(r, m, |pkt|, k, j);
      MarkedFlags(At(m, r, j).flags, j == 0, j == k - 1, true);
    }
    assert At(now, r, k - 1) == Final(r, m, |pkt|, k, k - 1);
    CountWritten(At(m, r, k - 1).aux, Truncated(|pkt|) + 4);
  }

  /** If enough descriptors can hold the packet, a least number of them can. */
  lemma {:induction false} EnoughRoom(r: Ring, m: Mem, n: nat, k: nat) returns (least: nat)
    requires r.len > 0 && 1 <= k && AllOwned(r, m, k) && n <= Room(m, r, k)
    ensures 1 <= least <= k && Used(r, m, n, least) && n <= Room(m, r, least)
  {
    hide Size, BufAddr, At;
    least := k;
    if k > 1 && n <= Room(m, r, k - 1) {
      least := EnoughRoom(r, m, n, k - 1);
    }
  }

  // ---- A ring that is the device's throughout, and too small ----

  /** Every descriptor is owned, and all the buffers together cannot hold the packet. */
  ghost predicate Overruns(r: Ring, m: Mem, n: nat)
    requires r.len > 0
  {
    Room(m, r, r.len) < n && forall j: nat :: j < r.len ==> Own(At(m, r, j).flags)
  }

  /** The walk comes back to the descriptor that starts the packet exactly on such a ring. */
  lemma ComesBackIff(r: Ring, m: Mem, pkt: seq<Byte>)
    requires Usable(r) && BuffersApart(m, r) && FirstHeld(r, m)
    ensures Last(r, m, pkt) >= r.len <==> Overruns(r, m, |pkt|)
  {
    hide BufLen, Slot, Words, BuffersApart, After, Ends, Room, Last, Own, At;
    LastEnds(r, m, pkt);
    var l := Last(r, m, pkt);
    if l >= r.len {
      forall j: nat | j < r.len
        ensures |pkt| > Room(m, r, j + 1)
        ensures Own(At(m, r, j).flags)
      {
        EndsWhen(r, m, pkt, j);
        if j > 0 { EndsWhen(r, m, pkt, j - 1); }
      }
      EndsWhen(r, m, pkt, r.len - 1);
    } else if Overruns(r, m, |pkt|) {
      EndsWhen(r, m, pkt, l);
      RoomGrows(m, r, l + 1, r.len);
    }
  }

  /** The one pass beyond a full turn, or the two on a ring of one, and what it finds. */
  lemma OverrunLast(r: Ring, m: Mem, pkt: seq<Byte>)
    requires Usable(r) && BuffersApart(m, r) && FirstHeld(r, m) && Overruns(r, m, |pkt|)
    ensures r.len <= Last(r, m, pkt) <= Bound(r)
    ensures |pkt| <= Room(m, r, Last(r, m, pkt) + 1) <==> |pkt| <= Room(m, r, Bound(r) + 1)
  {
    hide BufLen, Slot, Words, BuffersApart, After, Own, FlagsIn, Stored, Room, PutAt, Last, Overruns;
    ComesBackIff(r, m, pkt);
    LastWithin(r, m, pkt);
    LastEnds(r, m, pkt);
    var l := Last(r, m, pkt);
    StoredIs(r, m, pkt, l);
    if l < Bound(r) {
      ScanAt(r, m, pkt, 1, Slot(r, 2));
      Untouched(r, m, 1, 0);
      RoomGrows(m, r, 2, 3);
    }
  }

  /** The word that is put back into the first descriptor is the one read at the start. */
  lemma OverrunWords(r: Ring, m: Mem, pkt: seq<Byte>, j: nat)
    requires Usable(r) && BuffersApart(m, r) && FirstHeld(r, m) && Overruns(r, m, |pkt|) && j < r.len
    ensures At(Received(r, m, pkt), r, j) == LeftOpen(r, m, |pkt|, j)
  {
    hide BufLen, Words, BuffersApart, After, FlagsIn, ClearOwn, SetStp, Room, Overruns, FirstHeld, Usable;
    hide Close, ClosingFlags, Received, Last, Bound, Slot;
    var l := Last(r, m, pkt);
    OverrunLast(r, m, pkt);
    LastSlot(r, l);
    ReceivedIs(r, m, pkt);
    ClosedSlot(r, m, pkt, l, Slot(r, j));
    SlotsTell(r, 0, j);
    if j > 0 {
      OneTurn(r, l);
      Visited(r, m, l, j);
    }
  }

  lemma OneTurn(r: Ring, l: nat)
    requires 1 < r.len <= l <= Bound(r)
    ensures l == r.len
  {
  }

  lemma LastSlot(r: Ring, l: nat)
    requires Usable(r) && r.len <= l <= Bound(r)
    ensures Slot(r, l) == Slot(r, 0)
  {
    hide Slot;
    FullTurn(r);
  }

  /** Descriptor `j` after a packet of `n` bytes went once round the ring and did not fit. */
  function LeftOpen(r: Ring, m: Mem, n: nat, j: nat): Desc
    requires r.len > 0
  {
    var d := At(m, r, j);
    Desc(d.addr,
         if j == 0 then SetStp(ClearOwn(d.flags)) else ClearOwn(d.flags),
         if j == 0 && n <= Room(m, r, Bound(r) + 1) then WithCount(d.aux, Truncated(n) + 4) else d.aux)
  }

  /**
   * Overrun. Every descriptor is handed over, with a start but no end, and with
   * no error: the word with ENP, ERR or BUFF is overwritten by the final one.
   */
  lemma Overrun(r: Ring, m: Mem, pkt: seq<Byte>)
    requires Usable(r) && BuffersApart(m, r) && FirstHeld(r, m) && Overruns(r, m, |pkt|)
    ensures forall j: nat :: j < r.len ==> At(Received(r, m, pkt), r, j) == LeftOpen(r, m, |pkt|, j)
    ensures forall j: nat :: j < r.len ==>
      (var (v, w) := (At(Received(r, m, pkt), r, j).flags, At(m, r, j).flags);
       && !Own(v) && (Stp(v) <==> j == 0 || Stp(w))
       && (Enp(v) <==> Enp(w)) && (Err(v) <==> Err(w)) && (Buff(v) <==> Buff(w)))
    ensures forall a: nat :: OffWords(r, a) ==>
      Load8(Received(r, m, pkt), a) == ByteAfter(r, m, pkt, Last(r, m, pkt) + 1, a)
    ensures forall a: nat :: Elsewhere(r, m, pkt, Bound(r) + 1, a) ==> Load8(Received(r, m, pkt), a) == Load8(m, a)
  {
    hide BuffersApart, FirstHeld, Overruns, At, Received, LeftOpen, Own, Stp, Enp, Err, Buff, OffWords, Load8, Last;
    hide Bound, Fills, ByteAfter;
    forall j: nat | j < r.len
      ensures At(Received(r, m, pkt), r, j) == LeftOpen(r, m, |pkt|, j)
      ensures var (v, w) := (At(Received(r, m, pkt), r, j).flags, At(m, r, j).flags);
              && !Own(v) && (Stp(v) <==> j == 0 || Stp(w))
              && (Enp(v) <==> Enp(w)) && (Err(v) <==> Err(w)) && (Buff(v) <==> Buff(w))
    {
      OverrunWords(r, m, pkt, j);
      LeftOpenFlags(r, m, |pkt|, j);
    }
    forall a: nat | OffWords(r, a)
      ensures Load8(Received(r, m, pkt), a) == ByteAfter(r, m, pkt, Last(r, m, pkt) + 1, a)
      ensures Elsewhere(r, m, pkt, Bound(r) + 1, a) ==> Load8(Received(r, m, pkt), a) == Load8(m, a)
    {
      ReceivedBytes(r, m, pkt, a);
      OverrunLast(r, m, pkt);
      if Elsewhere(r, m, pkt, Bound(r) + 1, a) { NotFilled(r, m, pkt, Last(r, m, pkt) + 1, a); }
    }
  }

  lemma LeftOpenFlags(r: Ring, m: Mem, n: nat, j: nat)
    requires r.len > 0
    ensures var (v, w) := (LeftOpen(r, m, n, j).flags, At(m, r, j).flags);
            && !Own(v) && (Stp(v) <==> j == 0 || Stp(w))
            && (Enp(v) <==> Enp(w)) && (Err(v) <==> Err(w)) && (Buff(v) <==> Buff(w))
  {
    hide ClearOwn, SetStp, Own, Stp, Enp, Err, Buff, At, Room, Bound, WithCount;
    ClearOwnFlags(At(m, r, j).flags);
    SetStpFlags(ClearOwn(At(m, r, j).flags));
  }

  /**
   * What the guest finds in the buffers: those filled last, one for each
   * descriptor, hold the stretches they received. On a ring of several that is
   * the second filling of the first buffer and the only one of the others; on a
   * ring of one, the last filling of its buffer.
   */
  lemma OverrunHolds(r: Ring, m: Mem, pkt: seq<Byte>, j: nat)
    requires Usable(r) && BuffersApart(m, r) && FirstHeld(r, m) && Overruns(r, m, |pkt|) && Separate(r, m, r.len)
    requires Last(r, m, pkt) < j + r.len && j <= Last(r, m, pkt)
    ensures Holds(r, m, pkt, Received(r, m, pkt), j)
    ensures BufAddr(m, r, Last(r, m, pkt)) == BufAddr(m, r, 0)
  {
    hide BufLen, Slot, Words, BuffersApart, Holds, Last, Bound, Room, Own, Address, Usable, FirstHeld, Overruns;
    hide Received;
    OverrunLast(r, m, pkt);
    var i := Last(r, m, pkt);
    LastSlot(r, i);
    if r.len > 1 {
      OneTurn(r, i);
      assert BufAddr(m, r, i) == BufAddr(m, r, 0) && Size(m, r, i) == Size(m, r, 0);
      assert Apart(BufAddr(m, r, 0), Size(m, r, 0), BufAddr(m, r, j), Size(m, r, j)) || j == i;
    }
    HoldsInTheEnd(r, m, pkt, j);
  }

  /**
   * Reception is one of two cases: some number of descriptors is used, the one
   * the loop finds, or the ring overruns.
   */
  lemma UsedOrOverruns(r: Ring, m: Mem, pkt: seq<Byte>)
    requires Usable(r) && BuffersApart(m, r) && FirstHeld(r, m)
    ensures Used(r, m, |pkt|, Last(r, m, pkt) + 1) <==> !Overruns(r, m, |pkt|)
  {
    hide BufLen, Slot, Words, BuffersApart, After, Ends, Room, Last, Own, At, Overruns;
    ComesBackIff(r, m, pkt);
    LastEnds(r, m, pkt);
    var l := Last(r, m, pkt);
    if l < r.len {
      EndsWhen(r, m, pkt, l);
      if l > 0 { EndsWhen(r, m, pkt, l - 1); }
      forall j: nat | 0 < j <= l
        ensures Own(At(m, r, j).flags)
      {
        EndsWhen(r, m, pkt, j - 1);
      }
    }
  }

  // ---- Publication order ----

  /** The descriptor that starts the packet is still the device's. */
  predicate FirstHeld(r: Ring, m: Mem)
    requires r.len > 0
  {
    Own(At(m, r, 0).flags)
  }

  lemma PutKeepsFirst(r: Ring, m: Mem, pkt: seq<Byte>, i: nat)
    requires Usable(r) && BuffersApart(m, r) && FirstHeld(r, m) && i <= r.len
    ensures FirstHeld(r, PutAt(r, After(r, m, pkt, i), i))
    ensures FirstHeld(r, After(r, m, pkt, i).mem)
  {
    hide BufLen, Slot, Words, BuffersApart, FlagsIn, PutAt, Own;
    ScanAt(r, m, pkt, i, Slot(r, 0));
    ScanWords(r, m, pkt, i, Slot(r, 0));
    Untouched(r, m, i, 0);
  }

  lemma EndedFirst(r: Ring, m: Mem, pkt: seq<Byte>, i: nat)
    requires Usable(r) && BuffersApart(m, r) && FirstHeld(r, m) && i <= r.len
    ensures FirstHeld(r, Ended(r, After(r, m, pkt, i), i)) <==> i < r.len
  {
    hide BufLen, Slot, Words, BuffersApart, FlagsIn, PutAt, Own, After, SetEnp, SetErrBuff, ClearOwn, Store32;
    var p := After(r, m, pkt, i);
    PutKeepsFirst(r, m, pkt, i);
    WordsAfterFlags(PutAt(r, p, i), r, Slot(r, 0), Slot(r, i), ClosingFlags(r, p, i));
    var w := At(p.mem, r, i).flags;
    SetErrBuffFlags(Kept(i, w));
    SetEnpFlags(Kept(i, w));
    SetEnpFlags(SetErrBuff(Kept(i, w)));
    SlotPlain(r, 0);
    SlotPlain(r, i);
    if i > 0 {
      ClearOwnFlags(w);
    }
  }

  lemma CountedFirst(r: Ring, p: Scan, i: nat, n: nat)
    requires Usable(r) && n <= MAX_PKT_SIZE
    ensures FirstHeld(r, Counted(r, p, i, n)) <==> FirstHeld(r, Ended(r, p, i))
  {
    hide Words, Ended, Store32, Slot, Own;
    WordsAfterAux(Ended(r, p, i), r, Slot(r, 0), Slot(r, i), WithCount(At(p.mem, r, i).aux, n + 4));
  }

  lemma {:induction false} LogHolds(r: Ring, m: Mem, pkt: seq<Byte>, i: nat, t: nat)
    requires Usable(r) && BuffersApart(m, r) && FirstHeld(r, m) && i <= r.len
    requires t < |LogTo(r, m, pkt, i)|
    ensures FirstHeld(r, LogTo(r, m, pkt, i)[t])
  {
    hide FirstHeld, PutAt, After, BuffersApart;
    PutKeepsFirst(r, m, pkt, i - 1);
    PutKeepsFirst(r, m, pkt, i);
    if t < |LogTo(r, m, pkt, i - 1)| {
      LogHolds(r, m, pkt, i - 1, t);
    }
  }

  /**
   * The guest sees the first descriptor handed over only by the very last
   * write, unless the whole ring is the device's and too small for the packet.
   */
  lemma PublishedLast(r: Ring, m: Mem, pkt: seq<Byte>)
    requires Usable(r) && BuffersApart(m, r) && FirstHeld(r, m)
    ensures (forall t: nat :: t < |Log(r, m, pkt)| ==> FirstHeld(r, Log(r, m, pkt)[t]))
       <==> !Overruns(r, m, |pkt|)
    ensures !FirstHeld(r, Received(r, m, pkt))
  {
    hide FirstHeld, BuffersApart, Log, Received, Overruns, Last;
    ComesBackIff(r, m, pkt);
    PublishedWalk(r, m, pkt);
    ReceivedFirst(r, m, pkt);
  }

  /** The same, said of the number of passes. */
  lemma PublishedWalk(r: Ring, m: Mem, pkt: seq<Byte>)
    requires Usable(r) && BuffersApart(m, r) && FirstHeld(r, m)
    ensures (forall t: nat :: t < |Log(r, m, pkt)| ==> FirstHeld(r, Log(r, m, pkt)[t]))
       <==> Last(r, m, pkt) < r.len
  {
    hide FirstHeld, PutAt, After, BuffersApart, LogTo, Last, Ended, Counted, Stored;
    LastWithin(r, m, pkt);
    LastEnds(r, m, pkt);
    var l := Last(r, m, pkt);
    var (p, log) := (After(r, m, pkt, l), Log(r, m, pkt));
    CountedFirst(r, p, l, Truncated(|pkt|));
    if l <= r.len {
      EndedFirst(r, m, pkt, l);
      PutKeepsFirst(r, m, pkt, l);
      var t := |LogTo(r, m, pkt, l)|;
      assert log[t + 1] == Ended(r, p, l);
      if l < r.len {
        forall t: nat | t < |log|
          ensures FirstHeld(r, log[t])
        {
          if t < |LogTo(r, m, pkt, l)| { LogHolds(r, m, pkt, l, t); }
        }
      }
    } else {
      WrappedTwice(r, m, pkt);
    }
  }

  lemma ReceivedFirst(r: Ring, m: Mem, pkt: seq<Byte>)
    requires Usable(r)
    ensures !FirstHeld(r, Received(r, m, pkt))
  {
    hide Words, Store32, Slot, Own, ClearOwn, SetStp, After, Last, Counted;
    var i := Last(r, m, pkt);
    var p := After(r, m, pkt, i);
    WordsAfterFlags(Counted(r, p, i, Truncated(|pkt|)), r, Slot(r, 0), Slot(r, 0), FirstFlags(r, m, p, i));
    var w := if i == 0 then ClosingFlags(r, p, i) else At(m, r, 0).flags;
    ClearOwnFlags(w);
    SetStpFlags(ClearOwn(w));
  }

  /** The third pass on a ring of one comes after the descriptor was given back. */
  lemma WrappedTwice(r: Ring, m: Mem, pkt: seq<Byte>)
    requires Usable(r) && BuffersApart(m, r) && r.len == 1 && Last(r, m, pkt) == 2
    ensures 3 < |Log(r, m, pkt)| && !FirstHeld(r, Log(r, m, pkt)[3])
  {
    hide Words, Store32, Own, ClearOwn, After, Last, Slot, FlagsIn, PutAt, Ended, Counted;
    SlotPlain(r, 1);
    SlotPlain(r, 0);
    ScanWords(r, m, pkt, 2, 0);
    GivenBack(r, m, 2, 1);
    assert LogTo(r, m, pkt, 1) == [PutAt(r, After(r, m, pkt, 0), 0), After(r, m, pkt, 1).mem];
    assert LogTo(r, m, pkt, 2)[3] == After(r, m, pkt, 2).mem;
    assert Log(r, m, pkt)[3] == LogTo(r, m, pkt, 2)[3];
  }

  // ---- The smallest ring that fails ----

  /** An owned descriptor with a buffer of one byte. */
  const TINY: Word := Word(0x8000_0fff)

  lemma TinyFlags()
    ensures Own(TINY) && !Enp(TINY) && BufLen(TINY) == 1
  {
  }

  /** Two such descriptors, their buffers at different addresses. */
  function TinyMemory(r: Ring): Mem {
    var a := Store32(Store32(map[], FlagsAddr(r, 0), TINY), FlagsAddr(r, 1), TINY);
    Store32(Store32(a, AddrAddr(r, 0), Word(0)), AddrAddr(r, 1), Word(1))
  }

  lemma TinyWords(r: Ring, s: nat)
    requires Usable(r) && r.len == 2 && s < 2
    ensures var d := Words(TinyMemory(r), r, s); d.flags == TINY && d.addr == Word(if s == 0 then 0 else 1)
  {
    hide Store32, Load32, FlagsAddr, AddrAddr;
    var a := Store32(map[], FlagsAddr(r, 0), TINY);
    var b := Store32(a, FlagsAddr(r, 1), TINY);
    var c := Store32(b, AddrAddr(r, 0), Word(0));
    WordsAfterFlags(map[], r, s, 0, TINY);
    WordsAfterFlags(a, r, s, 1, TINY);
    WordsAfterAddr(b, r, s, 0, Word(0));
    WordsAfterAddr(c, r, s, 1, Word(1));
  }

  lemma TinyRing(r: Ring, m: Mem)
    requires r == Ring(256, 2, 0, 2) && m == TinyMemory(r)
    ensures Usable(r) && BuffersApart(m, r) && AllOwned(r, m, 2) && Separate(r, m, 2) && Room(m, r, 2) == 2
    ensures forall j: nat :: j < 2 ==> At(m, r, j).flags == TINY
  {
    hide Own, Enp, BufLen, TinyMemory, Words;
    TinyWords(r, 0);
    TinyWords(r, 1);
    TinyFlags();
    SlotPlain(r, 0);
    SlotPlain(r, 1);
    assert Room(m, r, 1) == 1;
  }

  /** Three bytes for two buffers of one: handed over early, and as a packet without an end. */
  lemma HandedOverEarly() returns (r: Ring, m: Mem, pkt: seq<Byte>)
    ensures Usable(r) && r.len == 2 && |pkt| == 3 && BuffersApart(m, r) && FirstHeld(r, m)
    ensures AllOwned(r, m, 2) && Separate(r, m, 2)
    ensures exists t: nat :: t < |Log(r, m, pkt)| && !FirstHeld(r, Log(r, m, pkt)[t])
    ensures forall j: nat :: j < 2 ==>
      (var w := At(Received(r, m, pkt), r, j).flags; !Own(w) && !Enp(w))
  {
    hide Own, Enp, TinyMemory, At, Log, Received, Room, Separate, BuffersApart;
    r := Ring(256, 2, 0, 2);
    m, pkt := TinyMemory(r), [1, 2, 3];
    TinyRing(r, m);
    TinyFlags();
    assert Overruns(r, m, |pkt|);
    PublishedLast(r, m, pkt);
    Overrun(r, m, pkt);
  }
}
