/**
 * What a slot holds, as values: a main card, its sub-cards, and the NIO
 * bindings of each; port numbering; the saved configuration (common/cisco_card.c).
 */
module CardSlots {
  import opened Wrappers

  const MAX_WIC: nat := 8
  const MAX_SUBSLOTS: nat := 16
  const MAX_SLOTS: nat := 16

  /** A NIO on a port of a card; `orig` is the port number it was given from outside. */
  datatype Binding = Binding(port: nat, orig: nat, nio: string)

  datatype Card = Card(devType: string, subslot: nat, bindings: seq<Binding>)

  datatype Slot = Empty | Filled(main: Card, subs: seq<Option<Card>>)

  /**
   * The platform: whether its slots take network modules, which main cards it
   * knows and how many WIC bays they have, and which sub-cards a bay takes.
   */
  datatype Platform = Platform(modules: bool, mainTypes: set<string>, wics: string -> int,
                               subTypes: (string, nat) -> Option<set<string>>)

  // ---- Port numbers ----

  datatype Place = Main | Sub(index: nat)

  datatype Located = Located(place: Place, port: nat)

  /** The slot's ports 0x10, 0x20, ... are those of its WIC bays. */
  predicate HasBays(pf: Platform, st: Slot) {
    st.Filled? && pf.modules && pf.wics(st.main.devType) > 0
  }

  /** `vm_slot_get_info` for a slot number in range. */
  function Locate(pf: Platform, st: Slot, port: nat): (r: Option<Located>)
    ensures r.Some? && r.value.place.Sub? ==> st.Filled? && r.value.place.index < MAX_WIC
  {
    if !HasBays(pf, st) then Some(Located(Main, port))
    else if port / 16 >= MAX_WIC + 1 then None
    else if port / 16 >= 1 then Some(Located(Sub(port / 16 - 1), port % 16))
    else Some(Located(Main, port))
  }

  /** Different port numbers are different ports, on the same card or not. */
  lemma LocateInjective(pf: Platform, st: Slot, p: nat, q: nat)
    requires Locate(pf, st, p).Some? && Locate(pf, st, p) == Locate(pf, st, q)
    ensures p == q
  {
  }

  predicate Shaped(st: Slot) {
    st.Filled? ==> |st.subs| == MAX_SUBSLOTS
  }

  function CardAt(st: Slot, place: Place): Option<Card>
    requires Shaped(st) && (place.Sub? ==> st.Filled? && place.index < MAX_SUBSLOTS)
  {
    match place
    case Main => if st.Filled? then Some(st.main) else None
    case Sub(j) => st.subs[j]
  }

  function WithCard(st: Slot, place: Place, c: Card): (r: Slot)
    requires Shaped(st) && st.Filled? && (place.Sub? ==> place.index < MAX_SUBSLOTS)
    ensures Shaped(r)
  {
    match place
    case Main => st.(main := c)
    case Sub(j) => st.(subs := st.subs[j := Some(c)])
  }

  /** The card and port a number leads to, if the slot has them. */
  function Target(pf: Platform, st: Slot, port: nat): Option<Located>
    requires Shaped(st)
  {
    if st.Empty? then None
    else
      match Locate(pf, st, port)
      case None => None
      case Some(l) => if CardAt(st, l.place).None? then None else Some(l)
  }

  lemma WithCardParts(st: Slot, place: Place, c: Card)
    requires Shaped(st) && st.Filled? && (place.Sub? ==> place.index < MAX_SUBSLOTS)
    ensures var r := WithCard(st, place, c);
            && r.Filled? && |r.subs| == MAX_SUBSLOTS
            && r.main == (if place.Main? then c else st.main)
            && forall j :: 0 <= j < MAX_SUBSLOTS ==> r.subs[j] == if place == Sub(j) then Some(c) else st.subs[j]
  {
  }

  // ---- The operations ----

  const NO_SUBS: seq<Option<Card>> := seq(MAX_SUBSLOTS, _ => None)

  /** `vm_slot_add_binding`; None when refused. */
  function AddCard(pf: Platform, st: Slot, port: nat, devType: string): (r: Option<Slot>)
    requires Shaped(st)
    ensures r.Some? ==> Shaped(r.value)
  {
    match Locate(pf, st, port)
    case None => None
    case Some(l) =>
      if CardAt(st, l.place).Some? then None
      else if st.Empty? then
        if devType in pf.mainTypes then Some(Filled(Card(devType, port, []), NO_SUBS)) else None
      else
        match pf.subTypes(st.main.devType, port)
        case None => None
        case Some(types) =>
          if devType in types then Some(WithCard(st, l.place, Card(devType, port, []))) else None
  }

  function Unbound(c: Card): Card {
    c.(bindings := [])
  }

  function UnboundSub(c: Option<Card>): Option<Card> {
    if c.Some? then Some(Unbound(c.value)) else None
  }

  /** `vm_slot_remove_all_nio_bindings`: the main card's and every sub-card's. */
  function AllUnbound(st: Slot): (r: Slot)
    requires Shaped(st)
    ensures Shaped(r)
  {
    if st.Empty? then st
    else Filled(Unbound(st.main), seq(MAX_SUBSLOTS, j requires 0 <= j < MAX_SUBSLOTS => UnboundSub(st.subs[j])))
  }

  predicate NoSubs(st: Slot)
    requires Shaped(st)
  {
    st.Filled? ==> forall j :: 0 <= j < MAX_SUBSLOTS ==> st.subs[j].None?
  }

  /** `vm_slot_remove_binding` of a card whose driver is not running; it takes every NIO of the slot with it. */
  function RemoveCard(pf: Platform, st: Slot, port: nat): (r: Option<Slot>)
    requires Shaped(st)
    ensures r.Some? ==> Shaped(r.value)
  {
    match Locate(pf, st, port)
    case None => None
    case Some(l) =>
      if CardAt(st, l.place).None? then None
      else if l.place.Main? then (if NoSubs(st) then Some(Empty) else None)
      else (var u := AllUnbound(st); Some(u.(subs := u.subs[l.place.index := None])))
  }

  /** `cisco_card_find_nio_binding`. */
  function FindPort(bs: seq<Binding>, port: nat): (r: Option<nat>)
    ensures r.Some? ==> r.value < |bs| && bs[r.value].port == port
    ensures r.Some? ==> forall k :: 0 <= k < r.value ==> bs[k].port != port
    ensures r.None? ==> forall k :: 0 <= k < |bs| ==> bs[k].port != port
  {
    if bs == [] then None
    else if bs[0].port == port then Some(0)
    else
      var t := FindPort(bs[1..], port);
      if t.Some? then Some(t.value + 1) else None
  }

  /** `vm_slot_add_nio_binding` once the NIO is found; None when refused. */
  function AddNio(pf: Platform, st: Slot, port: nat, nio: string): (r: Option<Slot>)
    requires Shaped(st)
    ensures r.Some? ==> Shaped(r.value)
  {
    if st.Empty? then None
    else
      match Locate(pf, st, port)
      case None => None
      case Some(l) =>
        var c := CardAt(st, l.place);
        if c.None? || FindPort(c.value.bindings, l.port).Some? then None
        else Some(WithCard(st, l.place, c.value.(bindings := [Binding(l.port, port, nio)] + c.value.bindings)))
  }

  function Without(bs: seq<Binding>, k: nat): seq<Binding>
    requires k < |bs|
  {
    bs[..k] + bs[k + 1..]
  }

  /** `vm_slot_remove_nio_binding`, with the NIO to release. */
  function RemoveNio(pf: Platform, st: Slot, port: nat): (r: Option<(Slot, string)>)
    requires Shaped(st)
    ensures r.Some? ==> Shaped(r.value.0)
  {
    if st.Empty? then None
    else
      match Locate(pf, st, port)
      case None => None
      case Some(l) =>
        var c := CardAt(st, l.place);
        if c.None? then None
        else
          match FindPort(c.value.bindings, l.port)
          case None => None
          case Some(k) =>
            Some((WithCard(st, l.place, c.value.(bindings := Without(c.value.bindings, k))), c.value.bindings[k].nio))
  }

  /** A filled slot without the card at a place, and without any NIO. */
  function Taken(st: Slot, place: Place): (r: Slot)
    requires Shaped(st) && st.Filled? && (place.Sub? ==> place.index < MAX_SUBSLOTS)
    ensures Shaped(r)
  {
    if place.Main? then Empty else (var u := AllUnbound(st); u.(subs := u.subs[place.index := None]))
  }

  lemma RemoveCardIs(pf: Platform, st: Slot, port: nat)
    requires Shaped(st)
    ensures match Locate(pf, st, port)
            case None => RemoveCard(pf, st, port) == None
            case Some(l) =>
              RemoveCard(pf, st, port)
              == if CardAt(st, l.place).None? || (l.place.Main? && !NoSubs(st)) then None
                 else Some(Taken(st, l.place))
  {
  }

  lemma AddNioIs(pf: Platform, st: Slot, port: nat, nio: string)
    requires Shaped(st)
    ensures match Target(pf, st, port)
            case None => AddNio(pf, st, port, nio) == None
            case Some(l) =>
              CardAt(st, l.place).Some?
              && (var c := CardAt(st, l.place).value;
                  AddNio(pf, st, port, nio)
                  == if FindPort(c.bindings, l.port).Some? then None
                     else Some(WithCard(st, l.place, c.(bindings := [Binding(l.port, port, nio)] + c.bindings))))
  {
    hide Locate;
  }

  lemma RemoveNioIs(pf: Platform, st: Slot, port: nat)
    requires Shaped(st)
    ensures match Target(pf, st, port)
            case None => RemoveNio(pf, st, port) == None
            case Some(l) =>
              CardAt(st, l.place).Some?
              && (var c := CardAt(st, l.place).value;
                  match FindPort(c.bindings, l.port)
                  case None => RemoveNio(pf, st, port) == None
                  case Some(k) =>
                    RemoveNio(pf, st, port)
                    == Some((WithCard(st, l.place, c.(bindings := Without(c.bindings, k))), c.bindings[k].nio)))
  {
    hide Locate;
  }

  // ---- What holds in every reachable state ----

  predicate DistinctPorts(bs: seq<Binding>) {
    forall i, j :: 0 <= i < j < |bs| ==> bs[i].port != bs[j].port
  }

  /** Each binding is where its outside port number leads, and no port has two. */
  predicate BindingsOk(pf: Platform, st: Slot, place: Place, bs: seq<Binding>) {
    && DistinctPorts(bs)
    && forall k :: 0 <= k < |bs| ==> Locate(pf, st, bs[k].orig) == Some(Located(place, bs[k].port))
  }

  predicate SubOk(pf: Platform, st: Slot, j: nat, c: Card)
    requires st.Filled?
  {
    && Locate(pf, st, c.subslot) == Some(Located(Sub(j), c.subslot % 16))
    && pf.subTypes(st.main.devType, c.subslot).Some?
    && c.devType in pf.subTypes(st.main.devType, c.subslot).value
    && BindingsOk(pf, st, Sub(j), c.bindings)
  }

  predicate Consistent(pf: Platform, st: Slot) {
    && Shaped(st)
    && (st.Filled? ==>
          && st.main.devType in pf.mainTypes
          && BindingsOk(pf, st, Main, st.main.bindings)
          && forall j :: 0 <= j < MAX_SUBSLOTS && st.subs[j].Some? ==> SubOk(pf, st, j, st.subs[j].value))
  }

  /** Port numbering only depends on which main card there is. */
  lemma SameNumbering(pf: Platform, st: Slot, r: Slot, port: nat)
    requires st.Filled? && r.Filled? && st.main.devType == r.main.devType
    ensures Locate(pf, r, port) == Locate(pf, st, port)
  {
  }

  lemma BindingsKept(pf: Platform, st: Slot, r: Slot, place: Place, bs: seq<Binding>)
    requires st.Filled? && r.Filled? && st.main.devType == r.main.devType && BindingsOk(pf, st, place, bs)
    ensures BindingsOk(pf, r, place, bs)
  {
    hide Locate;
    forall k | 0 <= k < |bs|
      ensures Locate(pf, r, bs[k].orig) == Some(Located(place, bs[k].port))
    {
      SameNumbering(pf, st, r, bs[k].orig);
    }
  }

  lemma SubKept(pf: Platform, st: Slot, r: Slot, j: nat, c: Card)
    requires st.Filled? && r.Filled? && st.main.devType == r.main.devType && SubOk(pf, st, j, c)
    ensures SubOk(pf, r, j, c)
  {
    hide Locate, BindingsOk;
    SameNumbering(pf, st, r, c.subslot);
    BindingsKept(pf, st, r, Sub(j), c.bindings);
  }

  /** A card in the place of another, or in an empty bay, keeps the slot consistent if it fits itself. */
  lemma WithCardConsistent(pf: Platform, st: Slot, place: Place, c: Card)
    requires Consistent(pf, st) && st.Filled?
    requires place.Sub? ==> place.index < MAX_SUBSLOTS && SubOk(pf, st, place.index, c)
    requires place.Main? ==> c.devType == st.main.devType && BindingsOk(pf, st, Main, c.bindings)
    ensures Consistent(pf, WithCard(st, place, c))
  {
    hide Locate, BindingsOk, SubOk;
    var r := WithCard(st, place, c);
    BindingsKept(pf, st, r, Main, r.main.bindings);
    forall j: nat | j < MAX_SUBSLOTS && r.subs[j].Some?
      ensures SubOk(pf, r, j, r.subs[j].value)
    {
      SubKept(pf, st, r, j, r.subs[j].value);
    }
  }

  lemma AddCardConsistent(pf: Platform, st: Slot, port: nat, devType: string)
    requires Consistent(pf, st) && AddCard(pf, st, port, devType).Some?
    ensures Consistent(pf, AddCard(pf, st, port, devType).value)
  {
    if st.Filled? {
      var l := Locate(pf, st, port).value;
      WithCardConsistent(pf, st, l.place, Card(devType, port, []));
    }
  }

  lemma AddedBindings(pf: Platform, st: Slot, place: Place, bs: seq<Binding>, b: Binding)
    requires BindingsOk(pf, st, place, bs) && Locate(pf, st, b.orig) == Some(Located(place, b.port))
    requires FindPort(bs, b.port).None?
    ensures BindingsOk(pf, st, place, [b] + bs)
  {
    hide Locate;
  }

  lemma AddNioConsistent(pf: Platform, st: Slot, port: nat, nio: string)
    requires Consistent(pf, st) && AddNio(pf, st, port, nio).Some?
    ensures Consistent(pf, AddNio(pf, st, port, nio).value)
  {
    hide Locate, BindingsOk;
    var l := Locate(pf, st, port).value;
    var c := CardAt(st, l.place).value;
    AddedBindings(pf, st, l.place, c.bindings, Binding(l.port, port, nio));
    WithCardConsistent(pf, st, l.place, c.(bindings := [Binding(l.port, port, nio)] + c.bindings));
  }

  lemma RemovedBindings(pf: Platform, st: Slot, place: Place, bs: seq<Binding>, k: nat)
    requires BindingsOk(pf, st, place, bs) && k < |bs|
    ensures BindingsOk(pf, st, place, Without(bs, k))
  {
    hide Locate;
    var r := Without(bs, k);
    assert forall i :: 0 <= i < |r| ==> r[i] == if i < k then bs[i] else bs[i + 1];
  }

  lemma RemoveNioConsistent(pf: Platform, st: Slot, port: nat)
    requires Consistent(pf, st) && RemoveNio(pf, st, port).Some?
    ensures Consistent(pf, RemoveNio(pf, st, port).value.0)
  {
    hide Locate, BindingsOk;
    var l := Locate(pf, st, port).value;
    var c := CardAt(st, l.place).value;
    var k := FindPort(c.bindings, l.port).value;
    RemovedBindings(pf, st, l.place, c.bindings, k);
    WithCardConsistent(pf, st, l.place, c.(bindings := Without(c.bindings, k)));
  }

  lemma RemoveCardConsistent(pf: Platform, st: Slot, port: nat)
    requires Consistent(pf, st) && RemoveCard(pf, st, port).Some?
    ensures Consistent(pf, RemoveCard(pf, st, port).value)
  {
    var r := RemoveCard(pf, st, port).value;
    if r.Filled? {
      hide Locate;
      forall j: nat | j < MAX_SUBSLOTS && r.subs[j].Some?
        ensures SubOk(pf, r, j, r.subs[j].value)
      {
        SameNumbering(pf, st, r, r.subs[j].value.subslot);
      }
    }
  }

  lemma UnboundConsistent(pf: Platform, st: Slot)
    requires Consistent(pf, st)
    ensures Consistent(pf, AllUnbound(st))
  {
    hide Locate;
    var r := AllUnbound(st);
    if st.Filled? {
      forall j: nat | j < MAX_SUBSLOTS && r.subs[j].Some?
        ensures SubOk(pf, r, j, r.subs[j].value)
      {
        SameNumbering(pf, st, r, r.subs[j].value.subslot);
      }
    }
  }

  /** The card a port is on cannot be removed while it has sub-cards; a sub-card's removal leaves the others. */
  lemma NoOrphans(pf: Platform, st: Slot, port: nat, j: nat)
    requires Shaped(st) && st.Filled? && j < MAX_SUBSLOTS && st.subs[j].Some?
    requires RemoveCard(pf, st, port).Some?
    ensures var r := RemoveCard(pf, st, port).value;
            && r.Filled? && r.main == Unbound(st.main)
            && (r.subs[j] == UnboundSub(st.subs[j]) || (r.subs[j].None? && Locate(pf, st, port).value.place == Sub(j)))
  {
  }

  // ---- References ----

  function CountIn(bs: seq<Binding>, n: string): nat {
    if bs == [] then 0 else (if bs[0].nio == n then 1 else 0) + CountIn(bs[1..], n)
  }

  function CountSubs(subs: seq<Option<Card>>, k: nat, n: string): nat
    requires k <= |subs|
  {
    if k == 0 then 0
    else CountSubs(subs, k - 1, n) + (if subs[k - 1].Some? then CountIn(subs[k - 1].value.bindings, n) else 0)
  }

  /** How often a NIO is bound in a slot. */
  function SlotCount(st: Slot, n: string): nat
    requires Shaped(st)
  {
    if st.Empty? then 0 else CountIn(st.main.bindings, n) + CountSubs(st.subs, MAX_SUBSLOTS, n)
  }

  function TotalCount(slots: seq<Slot>, n: string): nat
    requires forall i :: 0 <= i < |slots| ==> Shaped(slots[i])
  {
    if slots == [] then 0 else SlotCount(slots[0], n) + TotalCount(slots[1..], n)
  }

  lemma {:induction false} TotalUpdated(slots: seq<Slot>, i: nat, st: Slot, n: string)
    requires forall k :: 0 <= k < |slots| ==> Shaped(slots[k])
    requires i < |slots| && Shaped(st)
    ensures TotalCount(slots[i := st], n) == TotalCount(slots, n) - SlotCount(slots[i], n) + SlotCount(st, n)
  {
    hide SlotCount, Shaped;
    if i == 0 {
      assert slots[0 := st][1..] == slots[1..];
    } else {
      TotalUpdated(slots[1..], i - 1, st, n);
      assert slots[i := st][1..] == slots[1..][i - 1 := st];
    }
  }

  lemma {:induction false} SubsUpdated(subs: seq<Option<Card>>, k: nat, j: nat, c: Option<Card>, n: string)
    requires k <= |subs| && j < |subs|
    ensures CountSubs(subs[j := c], k, n)
         == if j < k
            then CountSubs(subs, k, n) - CountSubOf(subs[j], n) + CountSubOf(c, n)
            else CountSubs(subs, k, n)
  {
    hide CountIn;
    if k > 0 {
      SubsUpdated(subs, k - 1, j, c, n);
    }
  }

  function CountSubOf(c: Option<Card>, n: string): nat {
    if c.Some? then CountIn(c.value.bindings, n) else 0
  }

  /** Exchanging one card for another changes the count by their difference. */
  lemma CardCounted(st: Slot, place: Place, c: Card, n: string)
    requires Shaped(st) && st.Filled? && (place.Sub? ==> place.index < MAX_SUBSLOTS)
    ensures SlotCount(WithCard(st, place, c), n)
         == SlotCount(st, n) - CountSubOf(CardAt(st, place), n) + CountIn(c.bindings, n)
  {
    hide CountIn, CountSubs;
    if place.Sub? {
      SubsUpdated(st.subs, MAX_SUBSLOTS, place.index, Some(c), n);
    }
  }

  lemma {:induction false} CountJoined(a: seq<Binding>, b: seq<Binding>, n: string)
    ensures CountIn(a + b, n) == CountIn(a, n) + CountIn(b, n)
  {
    if a == [] {
      assert a + b == b;
    } else {
      assert (a + b)[1..] == a[1..] + b;
      CountJoined(a[1..], b, n);
    }
  }

  /** Binding a NIO makes one more reference to it, and unbinding it one less. */
  lemma NioCounted(pf: Platform, st: Slot, port: nat, nio: string, n: string)
    requires Shaped(st)
    ensures AddNio(pf, st, port, nio).Some? ==>
              SlotCount(AddNio(pf, st, port, nio).value, n) == SlotCount(st, n) + (if nio == n then 1 else 0)
    ensures RemoveNio(pf, st, port).Some? ==>
              SlotCount(RemoveNio(pf, st, port).value.0, n)
              == SlotCount(st, n) - (if RemoveNio(pf, st, port).value.1 == n then 1 else 0)
  {
    hide Locate, SlotCount, CountIn;
    if st.Filled? && Locate(pf, st, port).Some? {
      var l := Locate(pf, st, port).value;
      if CardAt(st, l.place).Some? {
        var c := CardAt(st, l.place).value;
        var b := Binding(l.port, port, nio);
        CardCounted(st, l.place, c.(bindings := [b] + c.bindings), n);
        CountJoined([b], c.bindings, n);
        CountOne(b, n);
        match FindPort(c.bindings, l.port)
        case None =>
        case Some(k) =>
          CardCounted(st, l.place, c.(bindings := Without(c.bindings, k)), n);
          CountWithout(c.bindings, k, n);
      }
    }
  }

  lemma CountOne(b: Binding, n: string)
    ensures CountIn([b], n) == if b.nio == n then 1 else 0
  {
    assert [b][1..] == [];
  }

  lemma CountWithout(bs: seq<Binding>, k: nat, n: string)
    requires k < |bs|
    ensures CountIn(Without(bs, k), n) == CountIn(bs, n) - (if bs[k].nio == n then 1 else 0)
  {
    hide CountIn;
    CountJoined(bs[..k], bs[k + 1..], n);
    CountJoined(bs[..k], [bs[k]] + bs[k + 1..], n);
    CountJoined([bs[k]], bs[k + 1..], n);
    CountOne(bs[k], n);
    assert bs == bs[..k] + ([bs[k]] + bs[k + 1..]);
  }

  lemma {:induction false} UnboundSubs(subs: seq<Option<Card>>, k: nat, n: string)
    requires k <= |subs|
    requires forall j :: 0 <= j < |subs| && subs[j].Some? ==> subs[j].value.bindings == []
    ensures CountSubs(subs, k, n) == 0
  {
    if k > 0 { UnboundSubs(subs, k - 1, n); }
  }

  /** A slot all of whose bindings were dropped holds no reference. */
  lemma UnboundCounted(st: Slot, n: string)
    requires Shaped(st)
    ensures SlotCount(AllUnbound(st), n) == 0
  {
    if st.Filled? {
      UnboundSubs(AllUnbound(st).subs, MAX_SUBSLOTS, n);
    }
  }

  // ---- Saved configuration ----

  /** The lines that are printed. */
  datatype Line = CardLine(port: nat, devType: string) | NioLine(port: nat, nio: string)

  function NioLines(bs: seq<Binding>): (r: seq<Line>)
    ensures |r| == |bs|
  {
    seq(|bs|, k requires 0 <= k < |bs| => NioLine(bs[k].orig, bs[k].nio))
  }

  /** `cisco_card_save_config`. */
  function CardLines(c: Card): seq<Line> {
    [CardLine(c.subslot, c.devType)] + NioLines(c.bindings)
  }

  function SubLines(subs: seq<Option<Card>>, n: nat): seq<Line>
    requires n <= |subs|
  {
    if n == 0 then []
    else SubLines(subs, n - 1) + (if subs[n - 1].Some? then CardLines(subs[n - 1].value) else [])
  }

  /** `vm_slot_save_config`. */
  function SlotLines(st: Slot): seq<Line>
    requires Shaped(st)
  {
    if st.Empty? then [] else CardLines(st.main) + SubLines(st.subs, MAX_SUBSLOTS)
  }

  /** Reading a line back as the call it stands for; a refused line changes nothing. */
  function Exec(pf: Platform, names: set<string>, st: Slot, line: Line): (r: Slot)
    requires Shaped(st)
    ensures Shaped(r)
  {
    match line
    case CardLine(port, devType) => (var r := AddCard(pf, st, port, devType); if r.Some? then r.value else st)
    case NioLine(port, nio) => (var r := AddNio(pf, st, port, nio); if nio in names && r.Some? then r.value else st)
  }

  function Replay(pf: Platform, names: set<string>, st: Slot, lines: seq<Line>): (r: Slot)
    requires Shaped(st)
    ensures Shaped(r)
    decreases lines
  {
    if lines == [] then st
    else Exec(pf, names, Replay(pf, names, st, lines[..|lines| - 1]), lines[|lines| - 1])
  }

  lemma {:induction false} ReplayAppend(pf: Platform, names: set<string>, st: Slot, a: seq<Line>, b: seq<Line>)
    requires Shaped(st)
    ensures Replay(pf, names, st, a + b) == Replay(pf, names, Replay(pf, names, st, a), b)
    decreases b
  {
    hide Exec, Shaped;
    if b == [] {
      assert a + b == a;
    } else {
      assert (a + b)[..|a + b| - 1] == a + b[..|b| - 1];
      ReplayAppend(pf, names, st, a, b[..|b| - 1]);
    }
  }

  /** Bindings are put in front, so reading a list back turns it round. */
  function Turned(bs: seq<Binding>): (r: seq<Binding>)
    ensures |r| == |bs|
  {
    seq(|bs|, k requires 0 <= k < |bs| => bs[|bs| - 1 - k])
  }

  /** The bindings to NIOs that exist. */
  function Known(names: set<string>, bs: seq<Binding>): (r: seq<Binding>)
    ensures forall k :: 0 <= k < |r| ==> r[k] in bs
    decreases bs
  {
    if bs == [] then []
    else
      var (r, b) := (Known(names, bs[..|bs| - 1]), bs[|bs| - 1]);
      if b.nio in names then r + [b] else r
  }

  function KnownCard(names: set<string>, c: Card): Card {
    c.(bindings := Turned(Known(names, c.bindings)))
  }

  function KnownSub(names: set<string>, c: Option<Card>): Option<Card> {
    if c.Some? then Some(KnownCard(names, c.value)) else None
  }

  /** The slot as it is rebuilt up to its `n`-th bay, every binding list turned round. */
  function Rebuilt(names: set<string>, st: Slot, n: nat): (r: Slot)
    requires Shaped(st) && st.Filled? && n <= MAX_SUBSLOTS
    ensures Shaped(r)
  {
    Filled(KnownCard(names, st.main),
           seq(MAX_SUBSLOTS, j requires 0 <= j < MAX_SUBSLOTS => if j < n then KnownSub(names, st.subs[j]) else None))
  }

  lemma TurnedNext(bs: seq<Binding>, b: Binding)
    ensures Turned(bs + [b]) == [b] + Turned(bs)
  {
  }

  lemma NioLinesNext(bs: seq<Binding>)
    requires bs != []
    ensures NioLines(bs)[..|bs| - 1] == NioLines(bs[..|bs| - 1])
  {
  }

  /** One NIO line, on the card it was printed for. */
  lemma ExecNio(pf: Platform, names: set<string>, st: Slot, place: Place, c: Card, b: Binding)
    requires Shaped(st) && st.Filled? && (place.Sub? ==> place.index < MAX_SUBSLOTS)
    requires place.Main? ==> c.devType == st.main.devType
    requires Locate(pf, st, b.orig) == Some(Located(place, b.port)) && FindPort(c.bindings, b.port).None?
    ensures Exec(pf, names, WithCard(st, place, c), NioLine(b.orig, b.nio))
         == if b.nio in names then WithCard(st, place, c.(bindings := [b] + c.bindings)) else WithCard(st, place, c)
  {
    hide Locate;
    SameNumbering(pf, st, WithCard(st, place, c), b.orig);
    WithCardTwice(st, place, c, c.(bindings := [b] + c.bindings));
  }

  /** Replaying a card's NIO lines where it has no bindings yet. */
  lemma {:induction false} ReplayNios(pf: Platform, names: set<string>, st: Slot, place: Place, bs: seq<Binding>)
    requires Shaped(st) && st.Filled? && (place.Sub? ==> place.index < MAX_SUBSLOTS)
    requires CardAt(st, place).Some? && CardAt(st, place).value.bindings == []
    requires BindingsOk(pf, st, place, bs)
    ensures Replay(pf, names, st, NioLines(bs))
         == WithCard(st, place, CardAt(st, place).value.(bindings := Turned(Known(names, bs))))
    decreases bs
  {
    hide Locate, Exec, WithCard, Turned;
    var c := CardAt(st, place).value;
    if bs == [] {
      CardPutBack(st, place);
      TurnedNone();
    } else {
      var (init, b) := (bs[..|bs| - 1], bs[|bs| - 1]);
      var known := Known(names, init);
      NioLinesNext(bs);
      TurnedNext(known, b);
      ReplayNios(pf, names, st, place, init);
      FreshPort(names, bs);
      assert NioLines(bs)[|bs| - 1] == NioLine(b.orig, b.nio);
      ExecNio(pf, names, st, place, c.(bindings := Turned(known)), b);
    }
  }

  lemma TurnedNone()
    ensures Turned([]) == []
  {
  }

  lemma CardPutBack(st: Slot, place: Place)
    requires Shaped(st) && st.Filled? && (place.Sub? ==> place.index < MAX_SUBSLOTS) && CardAt(st, place).Some?
    ensures WithCard(st, place, CardAt(st, place).value) == st
  {
  }

  lemma WithCardTwice(st: Slot, place: Place, c: Card, d: Card)
    requires Shaped(st) && st.Filled? && (place.Sub? ==> place.index < MAX_SUBSLOTS)
    ensures CardAt(WithCard(st, place, c), place) == Some(c)
    ensures WithCard(WithCard(st, place, c), place, d) == WithCard(st, place, d)
  {
  }

  lemma FreshPort(names: set<string>, bs: seq<Binding>)
    requires bs != [] && DistinctPorts(bs)
    ensures FindPort(Turned(Known(names, bs[..|bs| - 1])), bs[|bs| - 1].port).None?
  {
    var (init, b) := (bs[..|bs| - 1], bs[|bs| - 1]);
    var t := Turned(Known(names, init));
    assert forall k :: 0 <= k < |t| ==> t[k] in init;
  }

  lemma ReplayOne(pf: Platform, names: set<string>, st: Slot, line: Line)
    requires Shaped(st)
    ensures Replay(pf, names, st, [line]) == Exec(pf, names, st, line)
  {
    assert [line][..0] == [];
    assert Replay(pf, names, st, []) == st;
  }

  /** The first lines rebuild the main card. */
  lemma ReplayMain(pf: Platform, names: set<string>, st: Slot)
    requires Consistent(pf, st) && st.Filled?
    ensures Replay(pf, names, Empty, CardLines(st.main)) == Rebuilt(names, st, 0)
  {
    hide Replay, Locate, BindingsOk, SubOk;
    var c := st.main;
    var line := CardLine(c.subslot, c.devType);
    ReplayAppend(pf, names, Empty, [line], NioLines(c.bindings));
    ReplayOne(pf, names, Empty, line);
    EmptyNumbering(pf, c.subslot);
    var bare := Filled(Card(c.devType, c.subslot, []), NO_SUBS);
    BindingsKept(pf, st, bare, Main, c.bindings);
    ReplayNios(pf, names, bare, Main, c.bindings);
    assert Rebuilt(names, st, 0).subs == NO_SUBS;
  }

  lemma EmptyNumbering(pf: Platform, port: nat)
    ensures Locate(pf, Empty, port) == Some(Located(Main, port))
  {
  }

  /** The lines of one bay rebuild its card, if it has one. */
  lemma ReplayBay(pf: Platform, names: set<string>, st: Slot, n: nat)
    requires Consistent(pf, st) && st.Filled? && n < MAX_SUBSLOTS
    ensures Replay(pf, names, Rebuilt(names, st, n), if st.subs[n].Some? then CardLines(st.subs[n].value) else [])
         == Rebuilt(names, st, n + 1)
  {
    hide Locate, BindingsOk, Known, Turned;
    var (from, to) := (Rebuilt(names, st, n), Rebuilt(names, st, n + 1));
    if st.subs[n].None? {
      assert from == to;
    } else {
      hide Replay;
      var c := st.subs[n].value;
      var line := CardLine(c.subslot, c.devType);
      ReplayAppend(pf, names, from, [line], NioLines(c.bindings));
      ReplayOne(pf, names, from, line);
      SameNumbering(pf, st, from, c.subslot);
      var bare := WithCard(from, Sub(n), Card(c.devType, c.subslot, []));
      BindingsKept(pf, st, bare, Sub(n), c.bindings);
      ReplayNios(pf, names, bare, Sub(n), c.bindings);
      WithCardTwice(from, Sub(n), Card(c.devType, c.subslot, []), KnownCard(names, c));
      assert WithCard(from, Sub(n), KnownCard(names, c)) == to;
    }
  }

  lemma NoBays(pf: Platform, names: set<string>, st: Slot, subs: seq<Option<Card>>)
    requires Shaped(st) && |subs| == MAX_SUBSLOTS
    ensures Replay(pf, names, st, SubLines(subs, 0)) == st
  {
  }

  lemma NextBay(subs: seq<Option<Card>>, n: nat)
    requires n < |subs| == MAX_SUBSLOTS
    ensures SubLines(subs, n + 1) == SubLines(subs, n) + if subs[n].Some? then CardLines(subs[n].value) else []
  {
    hide CardLines;
  }

  lemma {:induction false} ReplayBays(pf: Platform, names: set<string>, st: Slot, n: nat)
    requires Consistent(pf, st) && st.Filled? && n <= MAX_SUBSLOTS
    ensures Replay(pf, names, Rebuilt(names, st, 0), SubLines(st.subs, n)) == Rebuilt(names, st, n)
  {
    hide Rebuilt, CardLines, Consistent, Replay, SubLines;
    ConsistentShape(pf, st);
    if n == 0 {
      NoBays(pf, names, Rebuilt(names, st, 0), st.subs);
    } else {
      var lines := if st.subs[n - 1].Some? then CardLines(st.subs[n - 1].value) else [];
      ReplayBays(pf, names, st, n - 1);
      NextBay(st.subs, n - 1);
      ReplayAppend(pf, names, Rebuilt(names, st, 0), SubLines(st.subs, n - 1), lines);
      ReplayBay(pf, names, st, n - 1);
    }
  }

  lemma ConsistentShape(pf: Platform, st: Slot)
    requires Consistent(pf, st)
    ensures Shaped(st)
  {
  }

  /** A saved slot, read back into an empty one: the same cards, and their bindings to NIOs that exist. */
  lemma ReplaySlot(pf: Platform, names: set<string>, st: Slot)
    requires Consistent(pf, st)
    ensures Replay(pf, names, Empty, SlotLines(st)) == if st.Empty? then Empty else Rebuilt(names, st, MAX_SUBSLOTS)
  {
    hide Rebuilt, Consistent, CardLines, SubLines;
    ConsistentShape(pf, st);
    if st.Empty? {
      assert Replay(pf, names, Empty, []) == Empty;
    } else {
      ReplayMain(pf, names, st);
      ReplayBays(pf, names, st, MAX_SUBSLOTS);
      ReplayAppend(pf, names, Empty, CardLines(st.main), SubLines(st.subs, MAX_SUBSLOTS));
    }
  }

  // ---- The same cards and the same port-to-NIO map ----

  function NioOf(bs: seq<Binding>, port: nat): Option<string> {
    match FindPort(bs, port)
    case None => None
    case Some(k) => Some(bs[k].nio)
  }

  /** The NIO behind an outside port number. */
  function NioAt(pf: Platform, st: Slot, port: nat): Option<string>
    requires Shaped(st)
  {
    match Locate(pf, st, port)
    case None => None
    case Some(l) =>
      match CardAt(st, l.place)
      case None => None
      case Some(c) => NioOf(c.bindings, l.port)
  }

  predicate SameCard(a: Option<Card>, b: Option<Card>) {
    && a.Some? == b.Some?
    && (a.Some? ==> a.value.devType == b.value.devType && a.value.subslot == b.value.subslot)
  }

  predicate SameCards(a: Slot, b: Slot)
    requires Shaped(a) && Shaped(b)
  {
    && a.Empty? == b.Empty?
    && (a.Filled? ==>
          && SameCard(Some(a.main), Some(b.main))
          && forall j :: 0 <= j < MAX_SUBSLOTS ==>
               SameCard(a.subs[j], b.subs[j]))
  }

  ghost predicate AllNamed(names: set<string>, st: Slot)
    requires Shaped(st)
  {
    st.Filled? ==>
      && Named(names, st.main.bindings)
      && forall j :: 0 <= j < MAX_SUBSLOTS && st.subs[j].Some? ==> Named(names, st.subs[j].value.bindings)
  }

  /** All NIOs of a list exist. */
  predicate Named(names: set<string>, bs: seq<Binding>) {
    forall k :: 0 <= k < |bs| ==> bs[k].nio in names
  }

  /** Every slot is consistent, and binds only NIOs that exist. */
  ghost predicate AllConsistent(pf: Platform, names: set<string>, slots: seq<Slot>) {
    forall i :: 0 <= i < |slots| ==> Shaped(slots[i]) && Consistent(pf, slots[i]) && AllNamed(names, slots[i])
  }

  lemma AddNioStays(pf: Platform, names: set<string>, slots: seq<Slot>, i: nat, port: nat, nio: string)
    requires i < |slots| && AllConsistent(pf, names, slots) && nio in names && AddNio(pf, slots[i], port, nio).Some?
    ensures AllConsistent(pf, names, slots[i := AddNio(pf, slots[i], port, nio).value])
  {
    hide Locate, Consistent;
    ConsistentShape(pf, slots[i]);
    AddNioConsistent(pf, slots[i], port, nio);
  }

  lemma RemoveNioStays(pf: Platform, names: set<string>, slots: seq<Slot>, i: nat, port: nat)
    requires i < |slots| && AllConsistent(pf, names, slots) && RemoveNio(pf, slots[i], port).Some?
    ensures AllConsistent(pf, names, slots[i := RemoveNio(pf, slots[i], port).value.0])
    ensures RemoveNio(pf, slots[i], port).value.1 in names
  {
    hide Locate, Consistent;
    ConsistentShape(pf, slots[i]);
    RemoveNioConsistent(pf, slots[i], port);
  }

  /** Slots that take no NIO have none. */
  ghost predicate NoneFrom(slots: seq<Slot>, n: nat) {
    forall i :: n <= i < |slots| ==> Shaped(slots[i]) && NoNios(slots[i])
  }

  lemma AddCardStays(pf: Platform, names: set<string>, slots: seq<Slot>, i: nat, port: nat, devType: string, n: nat)
    requires i < |slots| && AllConsistent(pf, names, slots) && NoneFrom(slots, n)
    requires Shaped(slots[i]) && AddCard(pf, slots[i], port, devType).Some?
    ensures var r := slots[i := AddCard(pf, slots[i], port, devType).value];
            AllConsistent(pf, names, r) && NoneFrom(r, n)
  {
    hide Locate, Consistent;
    AddCardConsistent(pf, slots[i], port, devType);
  }

  lemma RemoveCardStays(pf: Platform, names: set<string>, slots: seq<Slot>, i: nat, port: nat, n: nat)
    requires i < |slots| && AllConsistent(pf, names, slots) && NoneFrom(slots, n)
    requires Shaped(slots[i]) && RemoveCard(pf, slots[i], port).Some?
    ensures var r := slots[i := RemoveCard(pf, slots[i], port).value];
            AllConsistent(pf, names, r) && NoneFrom(r, n)
    ensures i >= n ==> AllUnbound(slots[i]) == slots[i] && forall m :: SlotCount(slots[i], m) == 0
  {
    hide Locate, Consistent;
    RemoveCardConsistent(pf, slots[i], port);
    if i >= n {
      assert NoNios(slots[i]);
      if slots[i].Filled? {
        assert AllUnbound(slots[i]).subs == slots[i].subs;
      }
      forall m
        ensures SlotCount(slots[i], m) == 0
      {
        UnboundCounted(slots[i], m);
      }
    }
  }

  lemma UnboundStays(pf: Platform, names: set<string>, slots: seq<Slot>, i: nat, n: nat)
    requires i < |slots| && AllConsistent(pf, names, slots) && NoneFrom(slots, n) && Shaped(slots[i])
    ensures var r := slots[i := AllUnbound(slots[i])]; AllConsistent(pf, names, r) && NoneFrom(r, n)
  {
    hide Locate, Consistent;
    UnboundConsistent(pf, slots[i]);
  }

  lemma LocatedFits(pf: Platform, st: Slot, port: nat)
    requires Shaped(st) && Locate(pf, st, port).Some?
    ensures var l := Locate(pf, st, port).value; l.place.Sub? ==> st.Filled? && l.place.index < MAX_SUBSLOTS
  {
  }

  /** The NIOs of one card of a consistent slot exist. */
  lemma NamedAt(pf: Platform, names: set<string>, slots: seq<Slot>, i: nat, place: Place)
    requires i < |slots| && AllConsistent(pf, names, slots) && slots[i].Filled?
    requires place.Sub? ==> place.index < MAX_SUBSLOTS
    ensures Shaped(slots[i])
    ensures CardAt(slots[i], place).Some? ==> Named(names, CardAt(slots[i], place).value.bindings)
  {
    hide Locate, Consistent;
  }

  /** The main card and the first `n` sub-cards without their bindings. */
  function PartlyUnbound(st: Slot, n: nat): (r: Slot)
    requires Shaped(st) && st.Filled?
    ensures Shaped(r)
  {
    Filled(Unbound(st.main),
           seq(MAX_SUBSLOTS, j requires 0 <= j < MAX_SUBSLOTS => if j < n then UnboundSub(st.subs[j]) else st.subs[j]))
  }

  lemma PartlyFirst(st: Slot)
    requires Shaped(st) && st.Filled?
    ensures PartlyUnbound(st, 0) == WithCard(st, Main, Unbound(st.main))
  {
  }

  lemma PartlyNext(st: Slot, n: nat)
    requires Shaped(st) && st.Filled? && n < MAX_SUBSLOTS
    ensures CardAt(PartlyUnbound(st, n), Sub(n)) == st.subs[n]
    ensures PartlyUnbound(st, n + 1)
         == if st.subs[n].None? then PartlyUnbound(st, n)
            else WithCard(PartlyUnbound(st, n), Sub(n), Unbound(st.subs[n].value))
  {
  }

  lemma PartlyLast(st: Slot)
    requires Shaped(st) && st.Filled?
    ensures PartlyUnbound(st, MAX_SUBSLOTS) == AllUnbound(st)
  {
  }

  lemma CountNone(subs: seq<Option<Card>>)
    ensures forall n :: CountSubs(subs, 0, n) == 0
  {
  }

  lemma CountNext(subs: seq<Option<Card>>, k: nat)
    requires k < |subs|
    ensures forall n :: CountSubs(subs, k + 1, n) == CountSubs(subs, k, n) + CountSubOf(subs[k], n)
  {
  }

  lemma {:induction false} KnownAll(names: set<string>, bs: seq<Binding>)
    requires Named(names, bs)
    ensures Known(names, bs) == bs
    decreases bs
  {
    if bs != [] {
      KnownAll(names, bs[..|bs| - 1]);
      assert bs == bs[..|bs| - 1] + [bs[|bs| - 1]];
    }
  }

  lemma TurnedSame(bs: seq<Binding>, port: nat)
    requires DistinctPorts(bs)
    ensures NioOf(Turned(bs), port) == NioOf(bs, port)
  {
    var (f, g) := (FindPort(bs, port), FindPort(Turned(bs), port));
    if f.Some? {
      assert Turned(bs)[|bs| - 1 - f.value] == bs[f.value];
    }
    if g.Some? {
      assert bs[|bs| - 1 - g.value] == Turned(bs)[g.value];
    }
  }

  lemma CardBindings(pf: Platform, names: set<string>, st: Slot, place: Place)
    requires Consistent(pf, st) && AllNamed(names, st) && (place.Sub? ==> st.Filled? && place.index < MAX_SUBSLOTS)
    requires CardAt(st, place).Some?
    ensures var bs := CardAt(st, place).value.bindings; DistinctPorts(bs) && Known(names, bs) == bs
  {
    hide Locate, Known;
    KnownAll(names, CardAt(st, place).value.bindings);
  }

  lemma RebuiltAt(names: set<string>, st: Slot, place: Place)
    requires Shaped(st) && st.Filled? && (place.Sub? ==> place.index < MAX_SUBSLOTS)
    ensures CardAt(Rebuilt(names, st, MAX_SUBSLOTS), place) == KnownSub(names, CardAt(st, place))
    ensures SameCards(Rebuilt(names, st, MAX_SUBSLOTS), st)
    ensures Rebuilt(names, st, MAX_SUBSLOTS).main.devType == st.main.devType
  {
    hide Known, Turned;
  }

  /**
   * Save and replay. The printed lines, read as the calls they stand for,
   * rebuild an empty slot with the same cards in the same bays, and every port
   * leads to the same NIO.
   */
  lemma ReplayRebuilds(pf: Platform, names: set<string>, st: Slot, port: nat)
    requires Consistent(pf, st) && AllNamed(names, st)
    ensures var r := Replay(pf, names, Empty, SlotLines(st));
            SameCards(r, st) && NioAt(pf, r, port) == NioAt(pf, st, port)
  {
    hide Replay, Locate, Turned, Known, NioOf, SlotLines, Consistent, AllNamed, Rebuilt, SameCards, DistinctPorts;
    ConsistentShape(pf, st);
    ReplaySlot(pf, names, st);
    if st.Filled? {
      var r := Rebuilt(names, st, MAX_SUBSLOTS);
      RebuiltAt(names, st, Main);
      SameNumbering(pf, st, r, port);
      if Locate(pf, st, port).Some? {
        var l := Locate(pf, st, port).value;
        RebuiltAt(names, st, l.place);
        if CardAt(st, l.place).Some? {
          CardBindings(pf, names, st, l.place);
          TurnedSame(CardAt(st, l.place).value.bindings, l.port);
        }
      }
    } else {
      assert SameCards(Empty, st) by { EmptySame(); }
    }
  }

  lemma EmptySame()
    ensures SameCards(Empty, Empty)
  {
  }

  // ---- What a call does to the cards and to the map from ports to NIOs ----

  /** Of a module with WIC bays, ports 0x10 to 0x8f are those of the bays, sixteen each; there are none above. */
  lemma BayPorts(pf: Platform, st: Slot, j: nat, q: nat)
    requires st.Filled? && pf.modules && pf.wics(st.main.devType) > 0 && q < 16
    ensures Locate(pf, st, q) == Some(Located(Main, q))
    ensures j < 8 ==> Locate(pf, st, 0x10 * (j + 1) + q) == Some(Located(Sub(j), q))
    ensures j >= 8 ==> Locate(pf, st, 0x10 * (j + 1) + q) == None
  {
    assert (16 * (j + 1) + q) / 16 == j + 1 && (16 * (j + 1) + q) % 16 == q;
  }

  /** Every other slot takes port numbers as they are. */
  lemma PlainPorts(pf: Platform, st: Slot, port: nat)
    requires st.Empty? || !pf.modules || pf.wics(st.main.devType) <= 0
    ensures Locate(pf, st, port) == Some(Located(Main, port))
  {
  }

  /** A card goes into an empty place that takes its type, with the port it was asked for and without NIOs. */
  lemma CardAdded(pf: Platform, st: Slot, port: nat, devType: string, place: Place)
    requires Shaped(st) && (place.Sub? ==> place.index < MAX_SUBSLOTS)
    ensures var (r, l) := (AddCard(pf, st, port, devType), Locate(pf, st, port));
            && (r.Some? <==>
                  l.Some? && CardAt(st, l.value.place).None?
                  && if st.Empty? then devType in pf.mainTypes
                     else pf.subTypes(st.main.devType, port).Some?
                          && devType in pf.subTypes(st.main.devType, port).value)
            && (r.Some? ==>
                  r.value.Filled?
                  && CardAt(r.value, place)
                     == if place == l.value.place then Some(Card(devType, port, []))
                        else if st.Empty? then None else CardAt(st, place))
  {
  }

  lemma NoneAt(pf: Platform, st: Slot, q: nat)
    requires Shaped(st) && NoNios(st)
    ensures NioAt(pf, st, q) == None
  {
  }

  lemma UnboundNoNios(st: Slot)
    requires Shaped(st)
    ensures NoNios(AllUnbound(st)) && SameCards(AllUnbound(st), st)
  {
  }

  /** Unbinding all: the same cards, and no NIO behind any port. */
  lemma AllUnboundAt(pf: Platform, st: Slot, q: nat)
    requires Shaped(st)
    ensures SameCards(AllUnbound(st), st) && NioAt(pf, AllUnbound(st), q) == None
  {
    hide AllUnbound, NioAt, SameCards, NoNios;
    UnboundNoNios(st);
    NoneAt(pf, AllUnbound(st), q);
  }

  /**
   * A card is removed if it is there, a main card only with all bays empty; then
   * no port keeps a NIO, and no other card goes.
   */
  lemma CardRemoved(pf: Platform, st: Slot, port: nat, q: nat, j: nat)
    requires Shaped(st) && j < MAX_SUBSLOTS
    ensures var (r, l) := (RemoveCard(pf, st, port), Locate(pf, st, port));
            && (r.Some? <==>
                  l.Some? && CardAt(st, l.value.place).Some? && (l.value.place.Main? ==> NoSubs(st)))
            && (r.Some? ==> NioAt(pf, r.value, q) == None)
            && (r.Some? && l.value.place.Main? ==> r.value == Empty)
            && (r.Some? && l.value.place.Sub? ==>
                  r.value.Filled? && SameCard(Some(r.value.main), Some(st.main))
                  && if l.value.place == Sub(j) then r.value.subs[j] == None
                     else SameCard(r.value.subs[j], st.subs[j]))
  {
    if RemoveCard(pf, st, port).Some? {
      NoneAt(pf, RemoveCard(pf, st, port).value, q);
    }
  }

  lemma FindFirst(b: Binding, bs: seq<Binding>, port: nat)
    ensures NioOf([b] + bs, port) == if b.port == port then Some(b.nio) else NioOf(bs, port)
  {
    assert ([b] + bs)[1..] == bs;
  }

  lemma NioIs(bs: seq<Binding>, i: nat)
    requires i < |bs| && DistinctPorts(bs)
    ensures NioOf(bs, bs[i].port) == Some(bs[i].nio)
  {
    hide FindPort;
    var k := FindPort(bs, bs[i].port).value;
    assert k == i;
  }

  lemma NioNone(bs: seq<Binding>, port: nat)
    ensures NioOf(bs, port) == None <==> forall i :: 0 <= i < |bs| ==> bs[i].port != port
  {
    hide FindPort;
  }

  /** Where a binding is found in a list that lost its `k`-th. */
  lemma WithoutAt(bs: seq<Binding>, k: nat, i: nat)
    requires k < |bs| && i < |bs| && i != k
    ensures var j := if i < k then i else i - 1; j < |Without(bs, k)| && Without(bs, k)[j] == bs[i]
  {
  }

  lemma WithoutFrom(bs: seq<Binding>, k: nat, j: nat)
    requires k < |bs| && j < |bs| - 1
    ensures |Without(bs, k)| == |bs| - 1 && Without(bs, k)[j] == bs[if j < k then j else j + 1]
  {
  }

  lemma FindWithout(bs: seq<Binding>, k: nat, port: nat)
    requires k < |bs| && DistinctPorts(bs)
    ensures NioOf(Without(bs, k), port) == if bs[k].port == port then None else NioOf(bs, port)
  {
    hide FindPort, NioOf, Without;
    var t := Without(bs, k);
    forall j: nat | j < |bs| - 1
      ensures |t| == |bs| - 1 && t[j] == bs[if j < k then j else j + 1]
    {
      WithoutFrom(bs, k, j);
    }
    WithoutDistinct(bs, k);
    NioNone(t, port);
    NioNone(bs, port);
    if i :| 0 <= i < |bs| && bs[i].port == port && i != k {
      NioIs(bs, i);
      WithoutAt(bs, k, i);
      NioIs(t, if i < k then i else i - 1);
    }
  }

  lemma WithoutDistinct(bs: seq<Binding>, k: nat)
    requires k < |bs| && DistinctPorts(bs)
    ensures DistinctPorts(Without(bs, k)) && |Without(bs, k)| == |bs| - 1
  {
  }

  /** The NIO behind a port, when the card at one place was exchanged. */
  lemma NioAtWith(pf: Platform, st: Slot, place: Place, c: Card, q: nat)
    requires Shaped(st) && st.Filled? && (place.Sub? ==> place.index < MAX_SUBSLOTS)
    requires place.Main? ==> c.devType == st.main.devType
    ensures var l := Locate(pf, st, q);
            NioAt(pf, WithCard(st, place, c), q)
            == if l.Some? && l.value.place == place then NioOf(c.bindings, l.value.port) else NioAt(pf, st, q)
  {
    hide NioOf;
  }

  lemma SameCardsWith(st: Slot, place: Place, c: Card)
    requires Shaped(st) && st.Filled? && (place.Sub? ==> place.index < MAX_SUBSLOTS)
    requires CardAt(st, place).Some? && SameCard(CardAt(st, place), Some(c))
    ensures SameCards(WithCard(st, place, c), st)
  {
  }

  /** Binding succeeds exactly at a card's port without a NIO; then that port leads to it, every other as before. */
  lemma NioBound(pf: Platform, st: Slot, port: nat, nio: string, q: nat)
    requires Shaped(st)
    ensures var r := AddNio(pf, st, port, nio);
            && (r.Some? <==> Target(pf, st, port).Some? && NioAt(pf, st, port).None?)
            && (r.Some? ==>
                  SameCards(r.value, st)
                  && NioAt(pf, r.value, q) == if q == port then Some(nio) else NioAt(pf, st, q))
  {
    hide SameCards, FindPort;
    AddNioIs(pf, st, port, nio);
    var l := Target(pf, st, port);
    if l.Some? && NioAt(pf, st, port).None? {
      var c := CardAt(st, l.value.place).value;
      var d := c.(bindings := [Binding(l.value.port, port, nio)] + c.bindings);
      NioAtWith(pf, st, l.value.place, d, q);
      SameCardsWith(st, l.value.place, d);
      var m := Locate(pf, st, q);
      if m.Some? && m.value.place == l.value.place {
        FindFirst(Binding(l.value.port, port, nio), c.bindings, m.value.port);
      }
    }
  }

  /** Unbinding succeeds exactly at a port with a NIO, returns that NIO, and leaves every other port as before. */
  lemma NioUnbound(pf: Platform, st: Slot, port: nat, q: nat)
    requires Consistent(pf, st)
    ensures var r := RemoveNio(pf, st, port);
            && (r.Some? <==> NioAt(pf, st, port).Some?)
            && (r.Some? ==>
                  Some(r.value.1) == NioAt(pf, st, port) && SameCards(r.value.0, st)
                  && NioAt(pf, r.value.0, q) == if q == port then None else NioAt(pf, st, q))
  {
    hide SameCards;
    RemoveNioIs(pf, st, port);
    var l := Target(pf, st, port);
    if l.Some? && NioAt(pf, st, port).Some? {
      var c := CardAt(st, l.value.place).value;
      var k := FindPort(c.bindings, l.value.port).value;
      var d := c.(bindings := Without(c.bindings, k));
      NioAtWith(pf, st, l.value.place, d, q);
      SameCardsWith(st, l.value.place, d);
      var m := Locate(pf, st, q);
      if m.Some? && m.value.place == l.value.place {
        FindWithout(c.bindings, k, m.value.port);
      }
    }
  }

  // ---- Runs ----

  /** All slots, and the reference count of each NIO. */
  datatype World = World(slots: seq<Slot>, refs: map<string, int>)

  /** The calls that change slots; `active` says whether the driver still has the card. */
  datatype Call =
    | AddCardCall(slot: nat, port: nat, devType: string)
    | RemoveCardCall(slot: nat, port: nat, active: bool)
    | AddNioCall(slot: nat, port: nat, nio: string)
    | RemoveNioCall(slot: nat, port: nat)
    | RemoveAllNiosCall(slot: nat)

  predicate WorldShaped(w: World) {
    |w.slots| == MAX_SLOTS && forall i :: 0 <= i < MAX_SLOTS ==> Shaped(w.slots[i])
  }

  /** The references of a slot are given back. */
  function Released(refs: map<string, int>, st: Slot): map<string, int>
    requires Shaped(st)
  {
    map n | n in refs :: refs[n] - SlotCount(st, n)
  }

  function Do(pf: Platform, nrSlots: nat, w: World, call: Call): (r: World)
    requires WorldShaped(w) && nrSlots <= MAX_SLOTS
    ensures WorldShaped(r)
  {
    match call
    case AddCardCall(slot, port, devType) =>
      if slot < MAX_SLOTS && AddCard(pf, w.slots[slot], port, devType).Some?
      then w.(slots := w.slots[slot := AddCard(pf, w.slots[slot], port, devType).value])
      else w
    case RemoveCardCall(slot, port, active) =>
      if slot < MAX_SLOTS && !active && RemoveCard(pf, w.slots[slot], port).Some?
      then World(w.slots[slot := RemoveCard(pf, w.slots[slot], port).value], Released(w.refs, w.slots[slot]))
      else w
    case AddNioCall(slot, port, nio) =>
      if slot < nrSlots && nio in w.refs && AddNio(pf, w.slots[slot], port, nio).Some?
      then World(w.slots[slot := AddNio(pf, w.slots[slot], port, nio).value], w.refs[nio := w.refs[nio] + 1])
      else w
    case RemoveNioCall(slot, port) =>
      if slot < nrSlots && RemoveNio(pf, w.slots[slot], port).Some?
      then
        (var (st, nio) := RemoveNio(pf, w.slots[slot], port).value;
         World(w.slots[slot := st], if nio in w.refs then w.refs[nio := w.refs[nio] - 1] else w.refs))
      else w
    case RemoveAllNiosCall(slot) =>
      if slot < nrSlots && w.slots[slot].Filled?
      then World(w.slots[slot := AllUnbound(w.slots[slot])], Released(w.refs, w.slots[slot]))
      else w
  }

  function RunCalls(pf: Platform, nrSlots: nat, w: World, calls: seq<Call>): (r: World)
    requires WorldShaped(w) && nrSlots <= MAX_SLOTS
    ensures WorldShaped(r)
    decreases calls
  {
    if calls == [] then w
    else Do(pf, nrSlots, RunCalls(pf, nrSlots, w, calls[..|calls| - 1]), calls[|calls| - 1])
  }

  /** A NIO is held once for every port it is bound to, besides its other holders. */
  ghost predicate RefsMatch(w: World, others: map<string, int>)
    requires WorldShaped(w)
  {
    && w.refs.Keys == others.Keys
    && forall n :: n in others ==> w.refs[n] == others[n] + TotalCount(w.slots, n)
  }

  ghost predicate Sound(pf: Platform, nrSlots: nat, w: World, others: map<string, int>) {
    && WorldShaped(w)
    && AllConsistent(pf, w.refs.Keys, w.slots)
    && NoneFrom(w.slots, nrSlots)
    && RefsMatch(w, others)
  }

  /** References follow a slot's own count. */
  lemma RefsFollow(w: World, others: map<string, int>, i: nat, st: Slot, refs: map<string, int>)
    requires WorldShaped(w) && RefsMatch(w, others) && i < MAX_SLOTS && Shaped(st)
    requires refs.Keys == w.refs.Keys
    requires forall n :: n in refs ==> refs[n] == w.refs[n] - SlotCount(w.slots[i], n) + SlotCount(st, n)
    ensures WorldShaped(World(w.slots[i := st], refs)) && RefsMatch(World(w.slots[i := st], refs), others)
  {
    hide SlotCount, TotalCount;
    forall n | n in others
      ensures refs[n] == others[n] + TotalCount(w.slots[i := st], n)
    {
      TotalUpdated(w.slots, i, st, n);
    }
  }

  lemma CardCountsKept(pf: Platform, st: Slot, port: nat, devType: string, n: string)
    requires Shaped(st)
    ensures AddCard(pf, st, port, devType).Some? ==>
              SlotCount(AddCard(pf, st, port, devType).value, n) == SlotCount(st, n)
    ensures RemoveCard(pf, st, port).Some? ==> SlotCount(RemoveCard(pf, st, port).value, n) == 0
  {
    hide Locate, SlotCount;
    var l := Locate(pf, st, port);
    if l.Some? {
      EmptyCount(Card(devType, port, []), n);
      if st.Empty? {
        UnboundCounted(Filled(Card(devType, port, []), NO_SUBS), n);
        NothingUnbound(Card(devType, port, []));
        UnboundCounted(Empty, n);
      } else {
        CardCounted(st, l.value.place, Card(devType, port, []), n);
        UnboundCounted(st, n);
        UnboundCounted(Empty, n);
        if l.value.place.Sub? {
          TakenCount(st, l.value.place.index, n);
        }
      }
    }
  }

  lemma EmptyCount(c: Card, n: string)
    requires c.bindings == []
    ensures CountIn(c.bindings, n) == 0
  {
  }

  lemma NothingUnbound(c: Card)
    requires c.bindings == []
    ensures AllUnbound(Filled(c, NO_SUBS)) == Filled(c, NO_SUBS) && AllUnbound(Empty) == Empty
  {
  }

  lemma TakenCount(st: Slot, j: nat, n: string)
    requires Shaped(st) && st.Filled? && j < MAX_SUBSLOTS
    ensures var u := AllUnbound(st); SlotCount(u.(subs := u.subs[j := None]), n) == 0
  {
    var u := AllUnbound(st);
    UnboundSubs(u.subs[j := None], MAX_SUBSLOTS, n);
  }

  /** Every call keeps the slots consistent and the references matched. */
  lemma DoKeepsSound(pf: Platform, nrSlots: nat, w: World, call: Call, others: map<string, int>)
    requires nrSlots <= MAX_SLOTS && Sound(pf, nrSlots, w, others)
    ensures Sound(pf, nrSlots, Do(pf, nrSlots, w, call), others)
  {
    hide AllConsistent, NoneFrom, RefsMatch, AddCard, RemoveCard, AddNio, RemoveNio, AllUnbound, SlotCount;
    var i := call.slot;
    if i < MAX_SLOTS {
      var st := w.slots[i];
      match call
      case AddCardCall(_, port, devType) =>
        if AddCard(pf, st, port, devType).Some? {
          AddCardStays(pf, w.refs.Keys, w.slots, i, port, devType, nrSlots);
          forall n { CardCountsKept(pf, st, port, devType, n); }
          RefsFollow(w, others, i, AddCard(pf, st, port, devType).value, w.refs);
        }
      case RemoveCardCall(_, port, _) =>
        if RemoveCard(pf, st, port).Some? {
          RemoveCardStays(pf, w.refs.Keys, w.slots, i, port, nrSlots);
          forall n { CardCountsKept(pf, st, port, "", n); }
          RefsFollow(w, others, i, RemoveCard(pf, st, port).value, Released(w.refs, st));
          assert Released(w.refs, st).Keys == w.refs.Keys;
        }
      case AddNioCall(_, port, nio) =>
        if i < nrSlots && nio in w.refs && AddNio(pf, st, port, nio).Some? {
          AddNioStays(pf, w.refs.Keys, w.slots, i, port, nio);
          LaterKept(w.slots, nrSlots, i, AddNio(pf, st, port, nio).value);
          forall n { NioCounted(pf, st, port, nio, n); }
          var refs := w.refs[nio := w.refs[nio] + 1];
          assert refs.Keys == w.refs.Keys;
          RefsFollow(w, others, i, AddNio(pf, st, port, nio).value, refs);
        }
      case RemoveNioCall(_, port) =>
        if i < nrSlots && RemoveNio(pf, st, port).Some? {
          RemoveNioStays(pf, w.refs.Keys, w.slots, i, port);
          var (st', nio) := RemoveNio(pf, st, port).value;
          LaterKept(w.slots, nrSlots, i, st');
          forall n { NioCounted(pf, st, port, "", n); }
          var refs := w.refs[nio := w.refs[nio] - 1];
          assert refs.Keys == w.refs.Keys;
          RefsFollow(w, others, i, st', refs);
        }
      case RemoveAllNiosCall(_) =>
        UnboundStays(pf, w.refs.Keys, w.slots, i, nrSlots);
        forall n { UnboundCounted(st, n); }
        RefsFollow(w, others, i, AllUnbound(st), Released(w.refs, st));
        assert Released(w.refs, st).Keys == w.refs.Keys;
    }
  }

  lemma LaterKept(slots: seq<Slot>, n: nat, i: nat, st: Slot)
    requires NoneFrom(slots, n) && i < n && i < |slots|
    ensures NoneFrom(slots[i := st], n)
  {
  }

  lemma {:induction false} NothingBound(slots: seq<Slot>, n: string)
    requires forall i :: 0 <= i < |slots| ==> slots[i] == Empty
    ensures TotalCount(slots, n) == 0
  {
    if slots != [] { NothingBound(slots[1..], n); }
  }

  /**
   * Every reachable state: no port has two NIOs, each NIO is where its outside
   * port number leads, every card was allowed in its place, and each NIO is
   * held once per binding.
   */
  lemma {:induction false} RunIsSound(pf: Platform, nrSlots: nat, refs: map<string, int>, calls: seq<Call>)
    requires nrSlots <= MAX_SLOTS
    ensures WorldShaped(World(seq(MAX_SLOTS, _ => Empty), refs))
    ensures Sound(pf, nrSlots, RunCalls(pf, nrSlots, World(seq(MAX_SLOTS, _ => Empty), refs), calls), refs)
    decreases calls
  {
    hide Do;
    var w := World(seq(MAX_SLOTS, _ => Empty), refs);
    if calls == [] {
      forall n { NothingBound(w.slots, n); }
    } else {
      hide Sound;
      RunIsSound(pf, nrSlots, refs, calls[..|calls| - 1]);
      DoKeepsSound(pf, nrSlots, RunCalls(pf, nrSlots, w, calls[..|calls| - 1]), calls[|calls| - 1], refs);
    }
  }

  // ---- The same lines through the command table ----

  /** The command a printed line begins with. */
  function Verb(line: Line): string {
    match line
    case CardLine(_, _) => "slot_add_binding"
    case NioLine(_, _) => "add_nio_binding"
  }

  // The commands of the hypervisor's `vm` module (stable/hv_vm.c), in the order of its table.

  const LIFE_COMMANDS: seq<string> := [
    "create", "rename", "delete", "clean_delete", "start", "stop", "get_status", "set_debug_level", "set_ios"]

  const MEMORY_COMMANDS: seq<string> := [
    "set_config", "set_ram", "set_nvram", "set_ram_mmap", "set_sparse_mem", "set_clock_divisor",
    "set_blk_direct_jump", "set_exec_area", "set_disk0", "set_disk1"]

  const IDLE_COMMANDS: seq<string> := [
    "set_conf_reg", "set_idle_pc", "set_idle_pc_online", "get_idle_pc_prop", "show_idle_pc_prop", "set_idle_max",
    "set_idle_sleep_time", "show_timer_drift", "set_ghost_file", "set_ghost_status"]

  const STATE_COMMANDS: seq<string> := [
    "set_con_tcp_port", "set_aux_tcp_port", "extract_config", "push_config", "cpu_info", "cpu_usage", "suspend",
    "resume", "send_con_msg", "send_aux_msg"]

  const SLOT_COMMANDS: seq<string> := [
    "slot_bindings", "slot_nio_bindings", "slot_add_binding", "slot_remove_binding",
    "slot_add_nio_binding", "slot_remove_nio_binding", "slot_enable_nio", "slot_disable_nio",
    "slot_oir_start", "slot_oir_stop"]

  const LIST_COMMANDS: seq<string> := ["list", "list_con_ports"]

  predicate InTable(verb: string) {
    || verb in LIFE_COMMANDS || verb in MEMORY_COMMANDS || verb in IDLE_COMMANDS
    || verb in STATE_COMMANDS || verb in SLOT_COMMANDS || verb in LIST_COMMANDS
  }

  /** A command the table does not know is refused. */
  function ExecCommand(pf: Platform, names: set<string>, st: Slot, line: Line): (r: Slot)
    requires Shaped(st)
    ensures Shaped(r)
  {
    if InTable(Verb(line)) then Exec(pf, names, st, line) else st
  }

  function ReplayCommands(pf: Platform, names: set<string>, st: Slot, lines: seq<Line>): (r: Slot)
    requires Shaped(st)
    ensures Shaped(r)
    decreases lines
  {
    if lines == [] then st
    else ExecCommand(pf, names, ReplayCommands(pf, names, st, lines[..|lines| - 1]), lines[|lines| - 1])
  }

  lemma NotIn(table: seq<string>, verb: string)
    requires forall i :: 0 <= i < |table| ==> |table[i]| > 0 && table[i][0] != 'a'
    requires |verb| > 0 && verb[0] == 'a'
    ensures verb !in table
  {
  }

  /** The table has the command printed for a card, and not the one printed for a NIO. */
  lemma OnlyCards()
    ensures InTable("slot_add_binding") && !InTable("add_nio_binding")
  {
    assert SLOT_COMMANDS[2] == "slot_add_binding";
    NotIn(LIFE_COMMANDS, "add_nio_binding");
    NotIn(MEMORY_COMMANDS, "add_nio_binding");
    NotIn(IDLE_COMMANDS, "add_nio_binding");
    NotIn(STATE_COMMANDS, "add_nio_binding");
    NotIn(SLOT_COMMANDS, "add_nio_binding");
    NotIn(LIST_COMMANDS, "add_nio_binding");
  }

  lemma CommandIs(pf: Platform, names: set<string>, st: Slot, line: Line)
    requires Shaped(st)
    ensures ExecCommand(pf, names, st, line) == Exec(pf, {}, st, line)
  {
    hide AddCard, AddNio, InTable;
    OnlyCards();
  }

  lemma {:induction false} CommandsAre(pf: Platform, names: set<string>, st: Slot, lines: seq<Line>)
    requires Shaped(st)
    ensures ReplayCommands(pf, names, st, lines) == Replay(pf, {}, st, lines)
    decreases lines
  {
    hide Exec, ExecCommand, Shaped;
    if lines != [] {
      CommandsAre(pf, names, st, lines[..|lines| - 1]);
      CommandIs(pf, names, Replay(pf, {}, st, lines[..|lines| - 1]), lines[|lines| - 1]);
    }
  }

  lemma {:induction false} KnownNone(bs: seq<Binding>)
    ensures Known({}, bs) == []
    decreases bs
  {
    if bs != [] { KnownNone(bs[..|bs| - 1]); }
  }

  /** No port of the slot has a NIO. */
  predicate NoNios(st: Slot)
    requires Shaped(st)
  {
    st.Filled? ==>
      && st.main.bindings == []
      && forall j :: 0 <= j < MAX_SUBSLOTS && st.subs[j].Some? ==> st.subs[j].value.bindings == []
  }

  /**
   * Through the command table the cards come back, but no NIO does: the line
   * printed for a NIO names a command that is not in the table. So the slot is
   * rebuilt exactly when it had no NIO bindings.
   */
  lemma CommandsLoseNios(pf: Platform, names: set<string>, st: Slot)
    requires Consistent(pf, st)
    ensures ReplayCommands(pf, names, Empty, SlotLines(st)) == AllUnbound(st)
    ensures ReplayCommands(pf, names, Empty, SlotLines(st)) == st <==> NoNios(st)
  {
    CommandsAre(pf, names, Empty, SlotLines(st));
    ReplaySlot(pf, {}, st);
    if st.Filled? {
      hide Replay, ReplayCommands, Locate, SlotLines, Known;
      KnownNone(st.main.bindings);
      var (r, u) := (Rebuilt({}, st, MAX_SUBSLOTS), AllUnbound(st));
      forall j: nat | j < MAX_SUBSLOTS
        ensures r.subs[j] == u.subs[j]
      {
        if st.subs[j].Some? { KnownNone(st.subs[j].value.bindings); }
      }
      assert r == u;
      if NoNios(st) {
        assert u.subs == st.subs;
      }
    }
  }

  /** A card and a NIO on one of its ports: a slot that comes back through the table without the NIO. */
  lemma LostNio(pf: Platform, nrSlots: nat, refs: map<string, int>, devType: string, port: nat, nio: string)
    requires 0 < nrSlots <= MAX_SLOTS && devType in pf.mainTypes && nio in refs && port < 16
    ensures var w := RunCalls(pf, nrSlots, World(seq(MAX_SLOTS, _ => Empty), refs),
                              [AddCardCall(0, 0, devType), AddNioCall(0, port, nio)]);
            var back := ReplayCommands(pf, refs.Keys, Empty, SlotLines(w.slots[0]));
            && NioAt(pf, w.slots[0], port) == Some(nio)
            && back.Filled? && back.main.devType == devType && NioAt(pf, back, port) == None
  {
    var (c, d) := (AddCardCall(0, 0, devType), AddNioCall(0, port, nio));
    var start := World(seq(MAX_SLOTS, _ => Empty), refs);
    assert [c, d][..1] == [c] && [c][..0] == [];
    assert RunCalls(pf, nrSlots, start, []) == start;
    var one := RunCalls(pf, nrSlots, start, [c]);
    assert one == Do(pf, nrSlots, start, c);
    var two := RunCalls(pf, nrSlots, start, [c, d]);
    assert two == Do(pf, nrSlots, one, d);
    assert one.slots[0] == Filled(Card(devType, 0, []), NO_SUBS);
    assert two.slots[0] == Filled(Card(devType, 0, [Binding(port, port, nio)]), NO_SUBS);
    RunIsSound(pf, nrSlots, refs, [c, d]);
    CommandsLoseNios(pf, refs.Keys, two.slots[0]);
  }
}
