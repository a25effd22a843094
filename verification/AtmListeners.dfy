/**
 * Who the switch listens to: a reference count for each input, raised by every
 * connection made and lowered by every one released, also by a refused one
 * (common/atm.c and the listener list of common/net_io.c).
 */
module AtmListeners {
  import opened AtmCell
  import opened HashBuckets
  import opened NioRegistry
  import opened AtmSwitch

  /** The connections that start at a descriptor. */
  ghost function Inputs(t: Tables, n: string): nat {
    Count(t.vps, (c: VpConn) => c.input == n) + Count(t.vcs, (c: VcConn) => c.input == n)
  }

  /** Each input is listened to once for each connection that starts there. */
  ghost predicate Matched(b: Board) {
    forall n :: Heard(b.listeners, n) == Inputs(b.tables, n)
  }

  /** No input is listened to more often. */
  ghost predicate NoneTooMany(b: Board) {
    forall n :: Heard(b.listeners, n) <= Inputs(b.tables, n)
  }

  /** Some input is listened to less often. */
  ghost predicate TooFew(b: Board) {
    exists n :: Heard(b.listeners, n) < Inputs(b.tables, n)
  }

  lemma MatchedIs(b: Board)
    ensures Matched(b) <==> NoneTooMany(b) && !TooFew(b)
  {
    hide Heard, Inputs;
  }

  /** A creation that fails after its input was found. */
  predicate Refused(names: set<string>, t: Tables, q: Request) {
    q.Create? && q.alloc && q.c.input in names && !(q.listener && Accepts(names, t, q.c))
  }

  lemma HeardAfter(listeners: map<string, nat>, name: string, n: string)
    ensures Heard(Listened(listeners, name), n) == Heard(listeners, n) + if n == name then 1 else 0
    ensures Heard(Unheard(listeners, name), n)
         == if n == name && Heard(listeners, n) > 0 then Heard(listeners, n) - 1 else Heard(listeners, n)
  {
  }

  lemma InputsCreated(names: set<string>, t: Tables, c: Command, n: string)
    requires Accepts(names, t, c)
    ensures Inputs(Created(t, c), n) == Inputs(t, n) + if c.input == n then 1 else 0
  {
    match c
    case CreateVpc(input, vpiIn, output, vpiOut) =>
      var e := VpConn(input, vpiIn, output, vpiOut, ZERO_COUNT);
      CountInserted(t.vps, KeyOfVp(e), e, (c: VpConn) => c.input == n);
    case CreateVcc(input, vpiIn, vciIn, output, vpiOut, vciOut) =>
      var e := VcConn(input, vpiIn, vciIn, output, vpiOut, vciOut, ZERO_COUNT);
      CountInserted(t.vcs, KeyOfVc(e), e, (c: VcConn) => c.input == n);
  }

  lemma InputsVpDeleted(t: Tables, k: VpKey, n: string)
    requires k in t.vps
    ensures Inputs(t, n) == Inputs(t.(vps := t.vps - {k}), n) + if t.vps[k].input == n then 1 else 0
  {
    CountRemoved(t.vps, k, (c: VpConn) => c.input == n);
  }

  lemma InputsVcDeleted(t: Tables, k: VcKey, n: string)
    requires k in t.vcs
    ensures Inputs(t, n) == Inputs(t.(vcs := t.vcs - {k}), n) + if t.vcs[k].input == n then 1 else 0
  {
    CountRemoved(t.vcs, k, (c: VcConn) => c.input == n);
  }

  /** What a request does to one input: both counts move together, unless it is a refused creation. */
  lemma ServedInput(names: set<string>, b: Board, q: Request, n: string)
    ensures var r := Serve(names, b, q);
            var (h, h') := (Heard(b.listeners, n), Heard(r.listeners, n));
            var (i, i') := (Inputs(b.tables, n), Inputs(r.tables, n));
            if Refused(names, b.tables, q)
            then i' == i && h' == if q.c.input == n && h > 0 then h - 1 else h
            else
              || (i' == i && h' == h)
              || (i' == i + 1 && h' == h + 1)
              || (i == i' + 1 && h' == if h > 0 then h - 1 else 0)
  {
    hide Heard, Listened, Unheard, Inputs, Created, Accepts;
    match q
    case Create(c, alloc, listener) =>
      HeardAfter(b.listeners, c.input, n);
      if Accepts(names, b.tables, c) {
        InputsCreated(names, b.tables, c, n);
      }
      AcceptsNames(names, b.tables, c);
    case DeleteVp(k, output, vpiOut) =>
      if k in b.tables.vps {
        HeardAfter(b.listeners, b.tables.vps[k].input, n);
        InputsVpDeleted(b.tables, k, n);
      }
    case DeleteVc(k, output, vpiOut, vciOut) =>
      if k in b.tables.vcs {
        HeardAfter(b.listeners, b.tables.vcs[k].input, n);
        InputsVcDeleted(b.tables, k, n);
      }
  }

  lemma AcceptsNames(names: set<string>, t: Tables, c: Command)
    ensures Accepts(names, t, c) ==> c.input in names
  {
  }

  /** No request makes an input be listened to too often. */
  lemma ServeKeepsNoneTooMany(names: set<string>, b: Board, q: Request)
    requires NoneTooMany(b)
    ensures NoneTooMany(Serve(names, b, q))
  {
    hide Heard, Inputs, Serve, Refused;
    forall n
      ensures Heard(Serve(names, b, q).listeners, n) <= Inputs(Serve(names, b, q).tables, n)
    {
      ServedInput(names, b, q, n);
    }
  }

  /** Where the counts match, a request keeps them so unless it is refused on an input that is in use. */
  lemma ServeKeepsMatchedIff(names: set<string>, b: Board, q: Request)
    requires Matched(b)
    ensures Matched(Serve(names, b, q)) <==> !(Refused(names, b.tables, q) && Inputs(b.tables, q.c.input) > 0)
  {
    hide Heard, Inputs, Serve, Accepts;
    var r := Serve(names, b, q);
    if Refused(names, b.tables, q) {
      forall n
        ensures Inputs(r.tables, n) == Inputs(b.tables, n)
        ensures Heard(r.listeners, n)
             == if q.c.input == n && Inputs(b.tables, n) > 0 then Inputs(b.tables, n) - 1 else Inputs(b.tables, n)
      {
        ServedInput(names, b, q, n);
      }
      assert Heard(r.listeners, q.c.input) == Inputs(r.tables, q.c.input) <==> Inputs(b.tables, q.c.input) == 0;
    } else {
      forall n
        ensures Heard(r.listeners, n) == Inputs(r.tables, n)
      {
        ServedInput(names, b, q, n);
      }
    }
  }

  // ---- Making and unmaking a connection ----

  /** Everyone in the list is listened to at least once. */
  predicate Counting(listeners: map<string, nat>) {
    forall n :: n in listeners ==> listeners[n] > 0
  }

  lemma ServeKeepsCounting(names: set<string>, b: Board, q: Request)
    requires Counting(b.listeners)
    ensures Counting(Serve(names, b, q).listeners)
  {
    hide Accepts, Created, VpLeads, VcLeads;
  }

  lemma ListenedUnheard(listeners: map<string, nat>, name: string)
    requires Counting(listeners)
    ensures Unheard(Listened(listeners, name), name) == listeners
  {
  }

  /** An accepted creation: the connection with the values given and no cell counted, and everything else as before. */
  lemma MadeVp(names: set<string>, b: Board, input: string, vpi: UInt, output: string, vpiOut: UInt)
    requires Accepts(names, b.tables, CreateVpc(input, vpi, output, vpiOut))
    ensures var c := CreateVpc(input, vpi, output, vpiOut);
            var (r, k) := (Serve(names, b, Create(c, true, true)), VpKey(input, vpi));
            && k in r.tables.vps && r.tables.vps - {k} == b.tables.vps && r.tables.vcs == b.tables.vcs
            && r.tables.vps[k] == VpConn(input, vpi, output, vpiOut, Counter(0))
            && Heard(r.listeners, input) == Heard(b.listeners, input) + 1
            && r.listeners - {input} == b.listeners - {input}
  {
  }

  lemma MadeVc(names: set<string>, b: Board, input: string, vpi: UInt, vci: UInt,
               output: string, vpiOut: UInt, vciOut: UInt)
    requires Accepts(names, b.tables, CreateVcc(input, vpi, vci, output, vpiOut, vciOut))
    ensures var c := CreateVcc(input, vpi, vci, output, vpiOut, vciOut);
            var (r, k) := (Serve(names, b, Create(c, true, true)), VcKey(input, vpi, vci));
            && k in r.tables.vcs && r.tables.vcs - {k} == b.tables.vcs && r.tables.vps == b.tables.vps
            && r.tables.vcs[k] == VcConn(input, vpi, vci, output, vpiOut, vciOut, Counter(0))
            && Heard(r.listeners, input) == Heard(b.listeners, input) + 1
            && r.listeners - {input} == b.listeners - {input}
  {
  }

  /** Deleting with the same values undoes an accepted creation. */
  lemma VpUndone(names: set<string>, b: Board, input: string, vpi: UInt, output: string, vpiOut: UInt)
    requires Accepts(names, b.tables, CreateVpc(input, vpi, output, vpiOut)) && Counting(b.listeners)
    ensures var r := Serve(names, b, Create(CreateVpc(input, vpi, output, vpiOut), true, true));
            Serve(names, r, DeleteVp(VpKey(input, vpi), output, vpiOut)) == b
  {
    hide Listened, Unheard;
    MadeVp(names, b, input, vpi, output, vpiOut);
    ListenedUnheard(b.listeners, input);
  }

  lemma VcUndone(names: set<string>, b: Board, input: string, vpi: UInt, vci: UInt,
                 output: string, vpiOut: UInt, vciOut: UInt)
    requires Accepts(names, b.tables, CreateVcc(input, vpi, vci, output, vpiOut, vciOut)) && Counting(b.listeners)
    ensures var r := Serve(names, b, Create(CreateVcc(input, vpi, vci, output, vpiOut, vciOut), true, true));
            Serve(names, r, DeleteVc(VcKey(input, vpi, vci), output, vpiOut, vciOut)) == b
  {
    hide Listened, Unheard;
    MadeVc(names, b, input, vpi, vci, output, vpiOut, vciOut);
    ListenedUnheard(b.listeners, input);
  }

  /**
   * A deletion does something exactly if the connection exists and leads where
   * it says, by output and VPI: then that connection goes, its input loses a
   * listener, and nothing else changes.
   */
  lemma VpDeletedIff(names: set<string>, b: Board, k: VpKey, output: string, vpiOut: UInt)
    ensures var r := Serve(names, b, DeleteVp(k, output, vpiOut));
            && (r != b <==>
                  k in b.tables.vps && b.tables.vps[k].output == output && b.tables.vps[k].vpiOut == vpiOut)
            && (r != b ==>
                  && r.tables == b.tables.(vps := b.tables.vps - {k})
                  && r.listeners == Unheard(b.listeners, b.tables.vps[k].input))
  {
  }

  /** The same of a VC connection, by output, VPI and VCI. */
  lemma VcDeletedIff(names: set<string>, b: Board, k: VcKey, output: string, vpiOut: UInt, vciOut: UInt)
    ensures var r := Serve(names, b, DeleteVc(k, output, vpiOut, vciOut));
            && (r != b <==>
                  k in b.tables.vcs && b.tables.vcs[k].output == output
                  && b.tables.vcs[k].vpiOut == vpiOut && b.tables.vcs[k].vciOut == vciOut)
            && (r != b ==>
                  && r.tables == b.tables.(vcs := b.tables.vcs - {k})
                  && r.listeners == Unheard(b.listeners, b.tables.vcs[k].input))
  {
  }

  function ServeAll(names: set<string>, b: Board, qs: seq<Request>): Board
    decreases qs
  {
    if qs == [] then b else Serve(names, ServeAll(names, b, qs[..|qs| - 1]), qs[|qs| - 1])
  }

  /** A new switch. */
  const START := Board(EMPTY, map[])

  lemma StartMatched()
    ensures Matched(START) && NoneTooMany(START)
  {
    forall n
      ensures Inputs(EMPTY, n) == 0
    {
      assert Count<VpKey, VpConn>(map[], (c: VpConn) => c.input == n) == 0;
      assert Count<VcKey, VcConn>(map[], (c: VcConn) => c.input == n) == 0;
    }
  }

  /** In every reachable state everyone in the list is listened to, so `VpUndone` and `VcUndone` always apply. */
  lemma {:induction false} RunCounts(names: set<string>, qs: seq<Request>)
    ensures Counting(ServeAll(names, START, qs).listeners)
    decreases qs
  {
    hide Serve, Counting;
    if qs == [] {
      NobodyCounted();
    } else {
      RunCounts(names, qs[..|qs| - 1]);
      ServeKeepsCounting(names, ServeAll(names, START, qs[..|qs| - 1]), qs[|qs| - 1]);
    }
  }

  lemma NobodyCounted()
    ensures Counting(map[])
  {
  }

  /** None of the requests is refused on an input that is in use. */
  ghost predicate Smooth(names: set<string>, b: Board, qs: seq<Request>)
    decreases qs
  {
    qs != [] ==>
      (var init := qs[..|qs| - 1];
       var (t, q) := (ServeAll(names, b, init).tables, qs[|qs| - 1]);
       Smooth(names, b, init) && !(Refused(names, t, q) && Inputs(t, q.c.input) > 0))
  }

  /** In every run no input is listened to too often; and exactly as often as it has connections in smooth ones. */
  lemma {:induction false} RunListens(names: set<string>, qs: seq<Request>)
    ensures NoneTooMany(ServeAll(names, START, qs))
    ensures Smooth(names, START, qs) ==> Matched(ServeAll(names, START, qs))
    decreases qs
  {
    hide NoneTooMany, Matched, Serve, Refused, Inputs;
    if qs == [] {
      StartMatched();
    } else {
      var (before, q) := (ServeAll(names, START, qs[..|qs| - 1]), qs[|qs| - 1]);
      RunListens(names, qs[..|qs| - 1]);
      ServeKeepsNoneTooMany(names, before, q);
      if Smooth(names, START, qs) {
        ServeKeepsMatchedIff(names, before, q);
      }
    }
  }

  // ---- Replaying a saved configuration ----

  function Line(c: Command): Request {
    Create(c, true, true)
  }

  /** The printed commands, each with enough memory and a working listener. */
  function ReplayBoard(names: set<string>, b: Board, lines: seq<Command>): Board
    decreases lines
  {
    if lines == [] then b
    else Serve(names, ReplayBoard(names, b, lines[..|lines| - 1]), Line(lines[|lines| - 1]))
  }

  lemma {:induction false} ReplayBoardTables(names: set<string>, lines: seq<Command>)
    ensures ReplayBoard(names, START, lines).tables == Replay(names, EMPTY, lines)
    decreases lines
  {
    hide Created, Accepts, Listened, Unheard;
    if lines != [] {
      ReplayBoardTables(names, lines[..|lines| - 1]);
    }
  }

  lemma ReplayBoardSnoc(names: set<string>, b: Board, lines: seq<Command>, c: Command)
    ensures ReplayBoard(names, b, lines + [c]) == Serve(names, ReplayBoard(names, b, lines), Line(c))
  {
    hide Serve;
    assert (lines + [c])[..|lines|] == lines;
  }

  /** Once an input is short of listeners, no line makes up for it. */
  lemma TooFewStays(names: set<string>, b: Board, c: Command)
    requires TooFew(b)
    ensures TooFew(Serve(names, b, Line(c)))
  {
    hide Heard, Inputs, Accepts, Created, Listened, Unheard;
    var n :| Heard(b.listeners, n) < Inputs(b.tables, n);
    HeardAfter(b.listeners, c.input, n);
    if Accepts(names, b.tables, c) {
      InputsCreated(names, b.tables, c, n);
    }
    assert Heard(Serve(names, b, Line(c)).listeners, n) < Inputs(Serve(names, b, Line(c)).tables, n);
  }

  /** After a refused line on an input that is in use, that input is short. */
  lemma RefusedIsShort(names: set<string>, b: Board, c: Command)
    requires NoneTooMany(b) && Refused(names, b.tables, Line(c)) && Inputs(b.tables, c.input) > 0
    ensures TooFew(Serve(names, b, Line(c)))
  {
    hide Heard, Inputs, Serve, Accepts;
    var r := Serve(names, b, Line(c));
    ServedInput(names, b, Line(c), c.input);
    assert Heard(b.listeners, c.input) <= Inputs(b.tables, c.input);
    assert Heard(r.listeners, c.input) < Inputs(r.tables, c.input);
  }

  /** A connection in the table is counted at its input. */
  lemma InUse(t: Tables, k: VpKey)
    requires k in t.vps
    ensures Inputs(t, t.vps[k].input) > 0
  {
    var n := t.vps[k].input;
    CountSome(t.vps, k, (c: VpConn) => c.input == n);
  }

  /** The VP lines are all accepted. */
  lemma {:induction false} VpsListen(names: set<string>, vs: seq<VpConn>)
    requires ReplayableVps(names, vs)
    ensures Matched(ReplayBoard(names, START, VpLines(vs)))
    decreases vs
  {
    hide *;
    if vs == [] {
      NoVpLines(names);
      StartMatched();
    } else {
      var (c, init) := (vs[|vs| - 1], vs[..|vs| - 1]);
      VpInit(names, vs);
      VpsListen(names, init);
      VpSnoc(init, c);
      ReplayBoardSnoc(names, START, VpLines(init), VpLine(c));
      ReplayBoardTables(names, VpLines(init));
      ReplayVps(names, init);
      FreshVp(names, vs);
      VpLineAccepted(names, MapOf(ZeroVps(init), KeyOfVp), c);
      ServeKeepsMatchedIff(names, ReplayBoard(names, START, VpLines(init)), Line(VpLine(c)));
    }
  }

  lemma FreshVp(names: set<string>, vs: seq<VpConn>)
    requires vs != [] && ReplayableVps(names, vs)
    ensures KeyOfVp(vs[|vs| - 1]) !in MapOf(ZeroVps(vs[..|vs| - 1]), KeyOfVp)
  {
    NewVpKey(vs, |vs| - 1);
  }

  lemma NoVpLines(names: set<string>)
    ensures ReplayBoard(names, START, VpLines([])) == START
  {
  }

  lemma VpLineAccepted(names: set<string>, v: map<VpKey, VpConn>, c: VpConn)
    requires c.input in names && c.output in names && KeyOfVp(c) !in v
    ensures !Refused(names, Tables(v, map[]), Line(VpLine(c)))
  {
  }

  predicate Hidden(v: map<VpKey, VpConn>, c: VcConn) {
    VpKey(c.input, c.vpiIn) in v
  }

  predicate SomeHidden(v: map<VpKey, VpConn>, cs: seq<VcConn>) {
    exists i :: 0 <= i < |cs| && Hidden(v, cs[i])
  }

  lemma SomeHiddenSnoc(v: map<VpKey, VpConn>, cs: seq<VcConn>, c: VcConn)
    ensures SomeHidden(v, cs + [c]) <==> SomeHidden(v, cs) || Hidden(v, c)
  {
    var all := cs + [c];
    if SomeHidden(v, cs) {
      var i :| 0 <= i < |cs| && Hidden(v, cs[i]);
      assert Hidden(v, all[i]);
    }
    if Hidden(v, c) {
      assert Hidden(v, all[|cs|]);
    }
  }

  lemma VcLineAccepted(names: set<string>, v: map<VpKey, VpConn>, m: map<VcKey, VcConn>, c: VcConn)
    requires c.input in names && c.output in names && KeyOfVc(c) !in m
    ensures Refused(names, Tables(v, m), Line(VcLine(c))) <==> Hidden(v, c)
    ensures Line(VcLine(c)).c.input == c.input
  {
  }

  /** One VC line: short from then on if it is hidden, else as before. */
  lemma VcLineListens(names: set<string>, b: Board, v: map<VpKey, VpConn>, m: map<VcKey, VcConn>, c: VcConn)
    requires b.tables == Tables(v, m) && NoneTooMany(b)
    requires c.input in names && c.output in names && KeyOfVc(c) !in m
    requires forall k :: k in v ==> v[k].input == k.input
    ensures var r := Serve(names, b, Line(VcLine(c)));
            NoneTooMany(r) && (TooFew(r) <==> TooFew(b) || Hidden(v, c))
  {
    hide NoneTooMany, TooFew, Matched, Serve, Refused, Inputs, VcLine, Line;
    var l := Line(VcLine(c));
    ServeKeepsNoneTooMany(names, b, l);
    VcLineAccepted(names, v, m, c);
    LineIs(VcLine(c));
    if Hidden(v, c) {
      InUse(b.tables, VpKey(c.input, c.vpiIn));
      RefusedIsShort(names, b, VcLine(c));
    } else if TooFew(b) {
      TooFewStays(names, b, VcLine(c));
    } else {
      MatchedIs(b);
      ServeKeepsMatchedIff(names, b, l);
      MatchedIs(Serve(names, b, l));
    }
  }

  lemma LineIs(c: Command)
    ensures Line(c).Create? && Line(c).c == c
  {
  }

  lemma {:induction false} VcsListen(names: set<string>, v: map<VpKey, VpConn>, vpLines: seq<Command>, cs: seq<VcConn>)
    requires Replay(names, EMPTY, vpLines) == Tables(v, map[]) && Matched(ReplayBoard(names, START, vpLines))
    requires forall k :: k in v ==> v[k].input == k.input
    requires ReplayableVcs(names, cs)
    ensures var b := ReplayBoard(names, START, vpLines + VcLines(cs));
            NoneTooMany(b) && (TooFew(b) <==> SomeHidden(v, cs))
    decreases cs
  {
    hide *;
    if cs == [] {
      NoVcs(names, v, vpLines);
      MatchedIs(ReplayBoard(names, START, vpLines));
      NoneHidden(v);
    } else {
      var (c, init) := (cs[|cs| - 1], cs[..|cs| - 1]);
      var b := ReplayBoard(names, START, vpLines + VcLines(init));
      VcInit(names, cs);
      VcsListen(names, v, vpLines, init);
      VcSnoc(init, c);
      LinesSnoc(vpLines, VcLines(init), VcLine(c));
      ReplayBoardSnoc(names, START, vpLines + VcLines(init), VcLine(c));
      ReplayBoardTables(names, vpLines + VcLines(init));
      ReplayVcs(names, v, vpLines, init);
      FreshVc(names, v, cs);
      VcLineListens(names, b, v, MapOf(KeptVcs(v, init), KeyOfVc), c);
      SomeHiddenSnoc(v, init, c);
    }
  }

  lemma NoneHidden(v: map<VpKey, VpConn>)
    ensures !SomeHidden(v, [])
  {
  }

  /**
   * Saved and replayed, whatever the order of printing: no input is listened to
   * too often, and every input is listened to as often as it has connections if
   * and only if no VC connection was hidden by a VP connection.
   */
  lemma ReplayListensIff(names: set<string>, t: Tables, vs: seq<VpConn>, cs: seq<VcConn>)
    requires Lists(vs, t.vps, KeyOfVp) && Lists(cs, t.vcs, KeyOfVc) && Registered(names, t)
    ensures var b := ReplayBoard(names, START, VpLines(vs) + VcLines(cs));
            && b.tables == Rebuilt(t) && NoneTooMany(b)
            && (Matched(b) <==> forall k :: k in t.vcs ==> !Shadowed(t, k))
  {
    hide NoneTooMany, TooFew, Matched, Replay, ReplayBoard, MapOf, ZeroVps, Rebuilt, VpLines, VcLines, Shadowed;
    var v := MapOf(ZeroVps(vs), KeyOfVp);
    var b := ReplayBoard(names, START, VpLines(vs) + VcLines(cs));
    ReplayRebuilds(names, t, vs, cs);
    ReplayBoardTables(names, VpLines(vs) + VcLines(cs));
    ReplayVps(names, vs);
    VpsListen(names, vs);
    RebuiltVps(t, vs);
    MapOfFacts(ZeroVps(vs), KeyOfVp);
    VcsListen(names, v, VpLines(vs), cs);
    MatchedIs(b);
    HiddenIs(t, v, cs);
  }

  /** A listed connection is hidden exactly if a connection in the table is. */
  lemma HiddenIs(t: Tables, v: map<VpKey, VpConn>, cs: seq<VcConn>)
    requires Lists(cs, t.vcs, KeyOfVc) && v == Rebuilt(t).vps
    ensures SomeHidden(v, cs) <==> exists k :: k in t.vcs && Shadowed(t, k)
  {
    assert v.Keys == t.vps.Keys;
    if SomeHidden(v, cs) {
      var i :| 0 <= i < |cs| && Hidden(v, cs[i]);
      assert KeyOfVc(cs[i]) in t.vcs && Shadowed(t, KeyOfVc(cs[i]));
    }
    if k :| k in t.vcs && Shadowed(t, k) {
      assert t.vcs[k] in cs;
      var i :| 0 <= i < |cs| && cs[i] == t.vcs[k];
      assert Hidden(v, cs[i]);
    }
  }

  /**
   * A VC connection and a VP connection that hides it, saved and replayed: the
   * input has its VP connection, and nobody listens to it.
   */
  lemma ReplayDeaf(names: set<string>, input: string, vpi: UInt, vci: UInt, out: string, vpiOut: UInt, vciOut: UInt)
    requires input in names && out in names
    ensures var lines := [CreateVpc(input, vpi, out, vpiOut), CreateVcc(input, vpi, vci, out, vpiOut, vciOut)];
            var b := ReplayBoard(names, START, lines);
            VpKey(input, vpi) in b.tables.vps && Heard(b.listeners, input) == 0
  {
    var (c, d) := (CreateVpc(input, vpi, out, vpiOut), CreateVcc(input, vpi, vci, out, vpiOut, vciOut));
    assert [c][..0] == [] && [c, d][..1] == [c];
    assert ReplayBoard(names, START, []) == START;
    assert ReplayBoard(names, START, [c]) == Serve(names, START, Line(c));
    assert ReplayBoard(names, START, [c, d]) == Serve(names, ReplayBoard(names, START, [c]), Line(d));
  }
}
