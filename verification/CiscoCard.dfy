/**
 * Cards in the slots of a virtual machine and the NIOs bound to their ports
 * (common/cisco_card.c). Each card keeps its bindings in a doubly linked list.
 */
module CiscoCard {
  import opened CardSlots
  import opened NioRegistry
  import opened Wrappers

  /** `struct cisco_nio_binding`. */
  class NioBinding {
    const nio: string
    const port: nat
    const orig: nat
    var prev: NioBinding?
    var next: NioBinding?

    /** The card whose list it is made for. */
    ghost const owner: SlotCard

    constructor (owner: SlotCard, nio: string, port: nat, orig: nat)
      ensures this.owner == owner && this.nio == nio && this.port == port && this.orig == orig
      ensures prev == null && next == null
    {
      this.owner := owner;
      this.nio := nio;
      this.port := port;
      this.orig := orig;
      prev, next := null, null;
    }
  }

  function Value(b: NioBinding): Binding {
    Binding(b.port, b.orig, b.nio)
  }

  function Values(nodes: seq<NioBinding>): (bs: seq<Binding>)
    ensures |bs| == |nodes|
  {
    seq(|nodes|, i requires 0 <= i < |nodes| => Value(nodes[i]))
  }

  lemma ValuesWithout(nodes: seq<NioBinding>, k: nat)
    requires k < |nodes|
    ensures Values(nodes[..k] + nodes[k + 1..]) == Without(Values(nodes), k)
  {
  }

  lemma DistinctWithout(nodes: seq<NioBinding>, k: nat)
    requires k < |nodes| && forall i, j :: 0 <= i < j < |nodes| ==> nodes[i] != nodes[j]
    ensures var r := nodes[..k] + nodes[k + 1..]; forall i, j :: 0 <= i < j < |r| ==> r[i] != r[j]
  {
  }

  /** `struct cisco_card`. */
  class SlotCard {
    const devType: string
    const subslot: nat
    const parent: SlotCard?
    var nioList: NioBinding?
    var subSlots: seq<SlotCard?>

    /** The slot and the bay the card is made for. */
    ghost const slot: nat
    ghost const place: Place

    /** The nodes of its list, in order. */
    ghost var nodes: seq<NioBinding>

    constructor (devType: string, subslot: nat, parent: SlotCard?, ghost slot: nat, ghost place: Place)
      ensures this.devType == devType && this.subslot == subslot && this.parent == parent
      ensures this.slot == slot && this.place == place
      ensures nioList == null && nodes == []
      ensures subSlots == seq(MAX_SUBSLOTS, _ => null)
    {
      this.devType := devType;
      this.subslot := subslot;
      this.parent := parent;
      this.slot := slot;
      this.place := place;
      nioList := null;
      nodes := [];
      subSlots := seq(MAX_SUBSLOTS, _ => null);
    }

    ghost predicate LinkedAt(i: nat)
      reads this`nodes, nodes
    {
      && i < |nodes|
      && nodes[i].owner == this
      && nodes[i].next == (if i + 1 < |nodes| then nodes[i + 1] else null)
      && nodes[i].prev == (if i > 0 then nodes[i - 1] else null)
    }

    /** The list is well formed: linked both ways, from the head, through distinct nodes. */
    ghost predicate Linked()
      reads this`nioList, this`nodes, nodes
    {
      && nioList == (if |nodes| > 0 then nodes[0] else null)
      && (forall i, j :: 0 <= i < j < |nodes| ==> nodes[i] != nodes[j])
      && (forall i: nat :: i < |nodes| ==> LinkedAt(i))
    }

    ghost function Bindings(): (bs: seq<Binding>)
      reads this`nodes
      ensures |bs| == |nodes|
    {
      Values(nodes)
    }

    /** `cisco_card_find_nio_binding`. */
    method FindNioBinding(port: nat) returns (nb: NioBinding?)
      requires Linked()
      ensures nb == null <==> FindPort(Bindings(), port).None?
      ensures nb != null ==> nb == nodes[FindPort(Bindings(), port).value]
    {
      nb := nioList;
      ghost var i := 0;
      while nb != null
        invariant i <= |nodes| && nb == (if i < |nodes| then nodes[i] else null)
        invariant forall k :: 0 <= k < i ==> Bindings()[k].port != port
        decreases |nodes| - i
      {
        if nb.port == port {
          assert Bindings()[i].port == port;
          FirstWithPort(Bindings(), port, i);
          return;
        }
        assert LinkedAt(i);
        nb := nb.next;
        i := i + 1;
      }
    }

    /** Put a new binding in front. */
    method Push(nb: NioBinding)
      requires Linked() && nb.owner == this && nb !in nodes && nb.prev == null
      modifies this`nioList, this`nodes, nb, nodes
      ensures Linked() && nodes == [nb] + old(nodes)
      ensures Bindings() == [Value(nb)] + old(Bindings())
    {
      assert |nodes| > 0 ==> LinkedAt(0);
      nb.next := nioList;
      if nb.next != null {
        nb.next.prev := nb;
      }
      nioList := nb;
      nodes := [nb] + nodes;
      forall i: nat | i < |nodes|
        ensures LinkedAt(i)
      {
        if i > 0 { assert old(LinkedAt(i - 1)); }
      }
    }

    /** Take a binding out. */
    method Unlink(nb: NioBinding, ghost k: nat)
      requires Linked() && k < |nodes| && nb == nodes[k]
      modifies this`nioList, this`nodes, nodes
      ensures Linked() && nodes == old(nodes)[..k] + old(nodes)[k + 1..]
      ensures Bindings() == Without(old(Bindings()), k)
    {
      assert LinkedAt(k) && (k > 0 ==> LinkedAt(k - 1)) && (k + 1 < |nodes| ==> LinkedAt(k + 1));
      if nb.next != null {
        nb.next.prev := nb.prev;
      }
      if nb.prev != null {
        nb.prev.next := nb.next;
      } else {
        nioList := nb.next;
      }
      ValuesWithout(nodes, k);
      DistinctWithout(nodes, k);
      nodes := nodes[..k] + nodes[k + 1..];
      forall i: nat | i < |nodes|
        ensures LinkedAt(i)
      {
        assert old(LinkedAt(if i < k then i else i + 1));
      }
    }

    /** `cisco_card_remove_all_nio_bindings`: every NIO is released. */
    method RemoveAllNioBindings(registry: Registry)
      requires Linked() && Named(registry.refs.Keys, Bindings())
      modifies this`nioList, this`nodes, registry
      ensures Linked() && Bindings() == []
      ensures registry.refs.Keys == old(registry.refs.Keys)
      ensures forall n :: n in registry.refs ==> registry.refs[n] == old(registry.refs[n]) - CountIn(old(Bindings()), n)
    {
      var nb := nioList;
      ghost var bs, i := Bindings(), 0;
      ghost var refs := registry.refs;
      assert bs[..0] == [];
      while nb != null
        invariant Linked() && i <= |nodes| && nodes == old(nodes) && nb == (if i < |nodes| then nodes[i] else null)
        invariant registry.refs.Keys == refs.Keys
        invariant forall n :: n in refs ==> registry.refs[n] == refs[n] - CountIn(bs[..i], n)
        decreases |nodes| - i
      {
        assert LinkedAt(i);
        var next := nb.next;
        assert bs[i] == Value(nb);
        ghost var before := registry.refs;
        registry.Release(nb.nio);
        forall n | n in refs
          ensures registry.refs[n] == refs[n] - CountIn(bs[..i + 1], n)
        {
          CountTaken(bs, i, n);
        }
        nb := next;
        i := i + 1;
      }
      assert bs[..i] == bs;
      nioList := null;
      nodes := [];
    }

    /** `cisco_card_save_config`. */
    method Save() returns (lines: seq<Line>)
      requires Linked()
      ensures lines == CardLines(Card(devType, subslot, Bindings()))
    {
      lines := [CardLine(subslot, devType)];
      var nb := nioList;
      ghost var i := 0;
      while nb != null
        invariant i <= |nodes| && nb == (if i < |nodes| then nodes[i] else null)
        invariant |lines| == i + 1 && lines[0] == CardLine(subslot, devType)
        invariant forall k :: 0 <= k < i ==> lines[k + 1] == NioLine(nodes[k].orig, nodes[k].nio)
        decreases |nodes| - i
      {
        lines := lines + [NioLine(nb.orig, nb.nio)];
        assert LinkedAt(i);
        nb := nb.next;
        i := i + 1;
      }
    }
  }

  lemma FirstWithPort(bs: seq<Binding>, port: nat, i: nat)
    requires i < |bs| && bs[i].port == port && forall k :: 0 <= k < i ==> bs[k].port != port
    ensures FindPort(bs, port) == Option.Some(i)
  {
  }

  lemma CountTaken(bs: seq<Binding>, i: nat, n: string)
    requires i < |bs|
    ensures CountIn(bs[..i + 1], n) == CountIn(bs[..i], n) + (if bs[i].nio == n then 1 else 0)
  {
    hide CountIn;
    assert bs[..i + 1] == bs[..i] + [bs[i]];
    CountJoined(bs[..i], [bs[i]], n);
    CountOne(bs[i], n);
  }

  /** A list's nodes belong to its card, so two cards share none. */
  lemma OwnsNodes(c: SlotCard)
    requires c.Linked()
    ensures forall i :: 0 <= i < |c.nodes| ==> c.nodes[i].owner == c
  {
    forall i: nat | i < |c.nodes|
      ensures c.nodes[i].owner == c
    {
      assert c.LinkedAt(i);
    }
  }

  ghost function StateOf(c: SlotCard): Card
    reads c`nodes
  {
    Card(c.devType, c.subslot, c.Bindings())
  }

  lemma StateIs(c: SlotCard)
    ensures StateOf(c) == Card(c.devType, c.subslot, c.Bindings())
  {
  }

  ghost function SubState(c: SlotCard?): Option<Card>
    reads if c == null then {} else {c}
  {
    if c == null then Option.None else Option.Some(StateOf(c))
  }

  /** The slots of a virtual machine. */
  class Machine {
    const platform: Platform
    const nrSlots: nat
    const registry: Registry
    var slots: seq<SlotCard?>

    /** What the slots hold, as values. */
    ghost var state: seq<Slot>

    /** The cards that were made, and those cards with their list nodes. */
    ghost var cards: set<SlotCard>
    ghost var repr: set<object>

    /** A card at work: its list is well formed, its bays hold sub-cards made for them. */
    ghost predicate CardBuilt(c: SlotCard)
      requires c in repr && forall n :: n in c.nodes ==> n in repr
      reads this, repr
    {
      && c.Linked()
      && |c.subSlots| == MAX_SUBSLOTS
      && forall j :: 0 <= j < MAX_SUBSLOTS && c.subSlots[j] != null ==>
           && c.subSlots[j] in cards && c.subSlots[j].slot == c.slot && c.subSlots[j].place == Sub(j)
           && c.subSlots[j].parent == c && c.place == Main
    }

    /** Slot `i` holds what `state` says. */
    ghost predicate Shows(i: nat)
      requires |slots| == |state| == MAX_SLOTS && i < MAX_SLOTS
      requires forall c :: c in cards ==> c in repr
      reads this, repr
    {
      if slots[i] == null then state[i] == Empty
      else
        && slots[i] in cards && slots[i].slot == i && slots[i].place == Main && slots[i].parent == null
        && |slots[i].subSlots| == MAX_SUBSLOTS
        && state[i].Filled? && |state[i].subs| == MAX_SUBSLOTS
        && state[i].main == StateOf(slots[i])
        && forall j :: 0 <= j < MAX_SUBSLOTS ==>
             (slots[i].subSlots[j] != null ==> slots[i].subSlots[j] in cards)
             && state[i].subs[j] == SubState(slots[i].subSlots[j])
    }

    /** Every card is in one place, its list is well formed, and sub-cards sit in their parent's bays. */
    ghost predicate Built()
      reads this, repr
    {
      && |slots| == |state| == MAX_SLOTS && nrSlots <= MAX_SLOTS
      && this !in repr && registry !in repr && (this as object) != registry
      && (forall c :: c in cards ==> c in repr)
      && (forall c, n :: c in cards && n in c.nodes ==> n in repr)
      && (forall c :: c in cards ==> CardBuilt(c))
      && (forall i: nat :: i < MAX_SLOTS ==> Shaped(state[i]))
      && (forall i: nat :: i < MAX_SLOTS ==> Shows(i))
    }

    /** Besides the shape: bindings are where their port numbers lead, and name NIOs that exist. */
    ghost predicate Valid()
      reads this, repr, registry
    {
      Built() && AllConsistent(platform, registry.refs.Keys, state) && NoneFrom(state, nrSlots)
    }

    constructor (platform: Platform, nrSlots: nat, registry: Registry)
      requires nrSlots <= MAX_SLOTS
      ensures Valid() && fresh(repr)
      ensures this.platform == platform && this.nrSlots == nrSlots && this.registry == registry
      ensures state == seq(MAX_SLOTS, _ => Empty)
    {
      this.platform := platform;
      this.nrSlots := nrSlots;
      this.registry := registry;
      slots := seq(MAX_SLOTS, _ => null);
      state := seq(MAX_SLOTS, _ => Empty);
      cards, repr := {}, {};
    }

    /** `vm_slot_get_info`. */
    method GetInfo(slot: nat, port: nat) returns (ok: bool, place: Place, realPort: nat)
      requires Built()
      ensures ok <==> slot < MAX_SLOTS && Locate(platform, state[slot], port).Some?
      ensures ok ==> Locate(platform, state[slot], port).value == Located(place, realPort)
    {
      place, realPort := Main, port;
      if slot >= MAX_SLOTS {
        return false, place, realPort;
      }
      assert Shows(slot);
      var card := slots[slot];
      if card != null && platform.modules && platform.wics(card.devType) > 0 {
        var wic := port / 16;
        if wic >= MAX_WIC + 1 {
          return false, place, realPort;
        }
        if wic >= 1 {
          place, realPort := Sub(wic - 1), port % 16;
        }
      }
      ok := true;
    }

    /** The pointer the information leads to. */
    function CardPtr(slot: nat, place: Place): (c: SlotCard?)
      requires Built() && slot < MAX_SLOTS && (place.Sub? ==> slots[slot] != null && place.index < MAX_SUBSLOTS)
      reads this, repr
      ensures Shaped(state[slot]) && (place.Sub? ==> state[slot].Filled?)
      ensures c != null ==> c in cards && c.slot == slot && c.place == place
      ensures SubState(c) == CardAt(state[slot], place)
    {
      assert Shows(slot);
      match place
      case Main => slots[slot]
      case Sub(j) => assert CardBuilt(slots[slot]); slots[slot].subSlots[j]
    }

    /** `vm_slot_get_card_ptr` and `vm_slot_translate_port_id`. */
    method Translate(slot: nat, port: nat) returns (rc: SlotCard?, ghost place: Place, realPort: nat)
      requires Built()
      ensures rc == null <==> slot >= nrSlots || Target(platform, state[slot], port).None?
      ensures rc != null ==>
                && Target(platform, state[slot], port) == Option.Some(Located(place, realPort))
                && slots[slot] != null && (place.Sub? ==> place.index < MAX_SUBSLOTS)
                && rc == CardPtr(slot, place)
    {
      rc, place, realPort := null, Main, port;
      if slot >= nrSlots {
        return;
      }
      assert Shows(slot);
      if slots[slot] == null {
        return;
      }
      var ok, where;
      ok, where, realPort := GetInfo(slot, port);
      if ok {
        rc, place := CardPtr(slot, where), where;
      }
    }

    lemma OwnsAllNodes()
      requires Built()
      ensures forall c, i :: c in cards && 0 <= i < |c.nodes| ==> c.nodes[i].owner == c
    {
      hide SlotCard.Linked;
      forall c | c in cards
        ensures forall i :: 0 <= i < |c.nodes| ==> c.nodes[i].owner == c
      {
        assert CardBuilt(c);
        OwnsNodes(c);
      }
    }

    /** Put a binding in front of the list of the card at `place`. */
    method Attach(slot: nat, ghost place: Place, rc: SlotCard, nb: NioBinding)
      requires Built() && slot < MAX_SLOTS && slots[slot] != null && (place.Sub? ==> place.index < MAX_SUBSLOTS)
      requires rc == CardPtr(slot, place) && nb.owner == rc && nb !in repr && nb.prev == null
      requires (nb as object) != this && (nb as object) != registry
      modifies this`repr, this`state, repr, nb
      ensures Built() && repr == old(repr) + {nb}
      ensures var c := CardAt(old(state[slot]), place).value;
              state == old(state)[slot := WithCard(old(state[slot]), place, c.(bindings := [Value(nb)] + c.bindings))]
    {
      hide SlotCard.Linked, SlotCard.Bindings, StateOf, Value, WithCard, CardAt, Without, CountIn;
      assert Shows(slot) && CardBuilt(rc);
      StateIs(rc);
      OwnsAllNodes();
      ghost var d := StateOf(rc).(bindings := [Value(nb)] + rc.Bindings());
      WithCardParts(state[slot], place, d);
      repr, state := repr + {nb}, state[slot := WithCard(state[slot], place, d)];
      rc.Push(nb);
      StateIs(rc);
      forall c | c in cards
        ensures CardBuilt(c)
      {
        assert old(CardBuilt(c));
      }
      forall i: nat | i < MAX_SLOTS
        ensures Shows(i)
      {
        assert old(Shows(i));
      }
    }

    /** Take the `k`-th binding out of the list of the card at `place`. */
    method Detach(slot: nat, ghost place: Place, rc: SlotCard, nb: NioBinding, ghost k: nat)
      requires Built() && slot < MAX_SLOTS && slots[slot] != null && (place.Sub? ==> place.index < MAX_SUBSLOTS)
      requires rc == CardPtr(slot, place) && k < |rc.nodes| && nb == rc.nodes[k]
      modifies this`state, repr
      ensures Built()
      ensures var c := CardAt(old(state[slot]), place).value;
              k < |c.bindings|
              && state == old(state)[slot := WithCard(old(state[slot]), place, c.(bindings := Without(c.bindings, k)))]
    {
      hide SlotCard.Linked, SlotCard.Bindings, StateOf, Value, WithCard, CardAt, Without, CountIn;
      assert Shows(slot) && CardBuilt(rc);
      StateIs(rc);
      OwnsAllNodes();
      ghost var d := StateOf(rc).(bindings := Without(rc.Bindings(), k));
      WithCardParts(state[slot], place, d);
      state := state[slot := WithCard(state[slot], place, d)];
      rc.Unlink(nb, k);
      StateIs(rc);
      forall c | c in cards
        ensures CardBuilt(c)
      {
        assert old(CardBuilt(c));
      }
      forall i: nat | i < MAX_SLOTS
        ensures Shows(i)
      {
        assert old(Shows(i));
      }
    }

    /** Empty the list of the card at `place`, releasing its NIOs. */
    method Clear(slot: nat, ghost place: Place, rc: SlotCard)
      requires Built() && slot < MAX_SLOTS && slots[slot] != null && (place.Sub? ==> place.index < MAX_SUBSLOTS)
      requires rc == CardPtr(slot, place) && Named(registry.refs.Keys, CardAt(state[slot], place).value.bindings)
      modifies this`state, repr, registry
      ensures Built() && forall c :: c in cards ==> c.subSlots == old(c.subSlots)
      ensures var c := CardAt(old(state[slot]), place).value;
              && state == old(state)[slot := WithCard(old(state[slot]), place, Unbound(c))]
              && registry.refs.Keys == old(registry.refs.Keys)
              && forall n :: n in registry.refs ==> registry.refs[n] == old(registry.refs[n]) - CountIn(c.bindings, n)
    {
      hide SlotCard.Linked, SlotCard.Bindings, StateOf, Value, WithCard, CardAt, Without, CountIn;
      assert Shows(slot) && CardBuilt(rc);
      StateIs(rc);
      OwnsAllNodes();
      ghost var d := Unbound(StateOf(rc));
      WithCardParts(state[slot], place, d);
      state := state[slot := WithCard(state[slot], place, d)];
      rc.RemoveAllNioBindings(registry);
      StateIs(rc);
      forall c | c in cards
        ensures CardBuilt(c)
      {
        assert old(CardBuilt(c));
      }
      forall i: nat | i < MAX_SLOTS
        ensures Shows(i)
      {
        assert old(Shows(i));
      }
    }

    /** The card an outside port number leads to, and the binding that is there already. */
    method Lookup(slot: nat, port: nat) returns (rc: SlotCard?, ghost place: Place, realPort: nat, nb: NioBinding?)
      requires Built()
      ensures rc == null <==> slot >= nrSlots || Target(platform, state[slot], port).None?
      ensures rc != null ==>
                && Target(platform, state[slot], port) == Option.Some(Located(place, realPort))
                && slots[slot] != null && (place.Sub? ==> place.index < MAX_SUBSLOTS)
                && rc == CardPtr(slot, place)
      ensures rc == null ==> nb == null
      ensures rc != null ==>
                (var (bs, nodes) := (CardAt(state[slot], place).value.bindings, rc.nodes);
                 && |nodes| == |bs|
                 && match FindPort(bs, realPort)
                    case None => nb == null
                    case Some(k) => nb == nodes[k] && nodes[k].nio == bs[k].nio)
    {
      hide SlotCard.Linked, Target, CardBuilt, Shows, FindPort;
      nb := null;
      rc, place, realPort := Translate(slot, port);
      if rc != null {
        AtWork(rc);
        StateIs(rc);
        nb := rc.FindNioBinding(realPort);
      }
    }

    /** `vm_slot_add_nio_binding`. */
    method AddNioBinding(slot: nat, port: nat, nio: string) returns (ok: bool)
      requires Valid()
      modifies this`repr, this`state, repr, registry
      ensures Valid() && fresh(repr - old(repr))
      ensures ok <==> slot < nrSlots && nio in old(registry.refs) && AddNio(platform, old(state[slot]), port, nio).Some?
      ensures state == if ok then old(state)[slot := AddNio(platform, old(state[slot]), port, nio).value]
                       else old(state)
      ensures registry.refs == if ok then old(registry.refs)[nio := old(registry.refs)[nio] + 1] else old(registry.refs)
      ensures World(state, registry.refs)
           == Do(platform, nrSlots, old(World(state, registry.refs)), AddNioCall(slot, port, nio))
    {
      hide SlotCard.Linked, Target, AddNio, AllConsistent, CardBuilt, Shows, NoneFrom, CardAt, WithCard, FindPort;
      ghost var names := registry.refs.Keys;
      var rc, place, realPort, there := Lookup(slot, port);
      if slot < nrSlots {
        AddNioIs(platform, state[slot], port, nio);
      }
      if rc == null || there != null {
        return false;
      }
      var found := registry.Acquire(nio);
      if !found {
        return false;
      }
      var nb := new NioBinding(rc, nio, realPort, port);
      Attach(slot, place, rc, nb);
      assert registry.refs.Keys == names;
      AddNioStays(platform, names, old(state), slot, port, nio);
      LaterKept(old(state), nrSlots, slot, state[slot]);
      ok := true;
    }

    lemma AtWork(c: SlotCard)
      requires Built() && c in cards
      ensures c.Linked()
    {
      assert CardBuilt(c);
    }

    /** `vm_slot_remove_nio_binding`. */
    method RemoveNioBinding(slot: nat, port: nat) returns (ok: bool)
      requires Valid()
      modifies this`state, repr, registry
      ensures Valid()
      ensures ok <==> slot < nrSlots && RemoveNio(platform, old(state[slot]), port).Some?
      ensures state == if ok then old(state)[slot := RemoveNio(platform, old(state[slot]), port).value.0]
                       else old(state)
      ensures registry.refs.Keys == old(registry.refs.Keys)
      ensures forall n :: n in registry.refs ==>
                registry.refs[n] == old(registry.refs[n])
                  - (if ok && RemoveNio(platform, old(state[slot]), port).value.1 == n then 1 else 0)
      ensures World(state, registry.refs)
           == Do(platform, nrSlots, old(World(state, registry.refs)), RemoveNioCall(slot, port))
    {
      hide SlotCard.Linked, Target, RemoveNio, AllConsistent, CardBuilt, Shows, NoneFrom, CardAt, WithCard, FindPort;
      ghost var names := registry.refs.Keys;
      var rc, place, realPort, nb := Lookup(slot, port);
      if slot < nrSlots {
        RemoveNioIs(platform, state[slot], port);
      }
      if rc == null || nb == null {
        return false;
      }
      Detach(slot, place, rc, nb, FindPort(CardAt(state[slot], place).value.bindings, realPort).value);
      RemoveNioStays(platform, names, old(state), slot, port);
      LaterKept(old(state), nrSlots, slot, state[slot]);
      registry.Release(nb.nio);
      assert registry.refs.Keys == names;
      ok := true;
    }

    /** Put a new main card in an empty slot. */
    method InsertMain(slot: nat, nc: SlotCard)
      requires Built() && slot < MAX_SLOTS && slots[slot] == null && nc.place == Main && nc.parent == null
      requires nc !in repr && (nc as object) != this && (nc as object) != registry
      requires nc.slot == slot && nc.nioList == null && nc.nodes == [] && nc.subSlots == seq(MAX_SUBSLOTS, _ => null)
      modifies this`slots, this`state, this`cards, this`repr
      ensures Built() && repr == old(repr) + {nc}
      ensures state == old(state)[slot := Filled(Card(nc.devType, nc.subslot, []), NO_SUBS)]
    {
      hide SlotCard.Linked, StateOf;
      StateIs(nc);
      EmptyList(nc);
      state := state[slot := Filled(Card(nc.devType, nc.subslot, []), NO_SUBS)];
      cards, repr := cards + {nc}, repr + {nc};
      slots := slots[slot := nc];
      forall d | d in cards
        ensures CardBuilt(d)
      {
        if d != nc { assert old(CardBuilt(d)); }
      }
      forall i: nat | i < MAX_SLOTS
        ensures Shows(i)
      {
        if i != slot { assert old(Shows(i)); }
      }
    }

    /** Put a new sub-card in an empty bay. */
    method InsertSub(slot: nat, j: nat, nc: SlotCard)
      requires Built() && slot < MAX_SLOTS && slots[slot] != null && j < MAX_SUBSLOTS && CardPtr(slot, Sub(j)) == null
      requires nc.place == Sub(j) && nc.parent == slots[slot]
      requires nc !in repr && (nc as object) != this && (nc as object) != registry
      requires nc.slot == slot && nc.nioList == null && nc.nodes == [] && nc.subSlots == seq(MAX_SUBSLOTS, _ => null)
      modifies this`state, this`cards, this`repr, repr
      ensures Built() && repr == old(repr) + {nc}
      ensures state == old(state)[slot := WithCard(old(state[slot]), Sub(j), Card(nc.devType, nc.subslot, []))]
    {
      hide SlotCard.Linked, StateOf, WithCard;
      ghost var c := Card(nc.devType, nc.subslot, []);
      assert Shows(slot) && CardBuilt(slots[slot]);
      StateIs(nc);
      EmptyList(nc);
      WithCardParts(state[slot], Sub(j), c);
      state := state[slot := WithCard(state[slot], Sub(j), c)];
      cards, repr := cards + {nc}, repr + {nc};
      var parent := slots[slot];
      parent.subSlots := parent.subSlots[j := nc];
      forall d | d in cards
        ensures CardBuilt(d)
      {
        if d != nc { assert old(CardBuilt(d)); }
      }
      forall i: nat | i < MAX_SLOTS
        ensures Shows(i)
      {
        assert old(Shows(i));
      }
    }

    lemma EmptyList(c: SlotCard)
      requires c.nioList == null && c.nodes == []
      ensures c.Linked() && c.Bindings() == []
    {
    }

    /** `vm_slot_add_binding`. */
    method AddBinding(devType: string, slot: nat, port: nat) returns (ok: bool)
      requires Valid()
      modifies this`slots, this`state, this`cards, this`repr, repr
      ensures Valid() && fresh(repr - old(repr))
      ensures ok <==> slot < MAX_SLOTS && AddCard(platform, old(state[slot]), port, devType).Some?
      ensures state == if ok then old(state)[slot := AddCard(platform, old(state[slot]), port, devType).value]
                       else old(state)
      ensures World(state, registry.refs)
           == Do(platform, nrSlots, old(World(state, registry.refs)), AddCardCall(slot, port, devType))
    {
      hide SlotCard.Linked, Locate, AllConsistent, CardBuilt, Shows, NoneFrom;
      var found, place, realPort := GetInfo(slot, port);
      if !found {
        return false;
      }
      SlotPointer(slot);
      LocatedFits(platform, state[slot], port);
      var rc := CardPtr(slot, place);
      if rc != null {
        return false;
      }
      var card := slots[slot];
      if card == null {
        if devType !in platform.mainTypes {
          return false;
        }
      } else {
        var types := platform.subTypes(card.devType, port);
        if types.None? || devType !in types.value {
          return false;
        }
      }
      var nc := new SlotCard(devType, port, card, slot, place);
      AddCardStays(platform, registry.refs.Keys, state, slot, port, devType, nrSlots);
      match place {
        case Main => InsertMain(slot, nc);
        case Sub(j) => InsertSub(slot, j, nc);
      }
      ok := true;
    }

    lemma SlotPointer(slot: nat)
      requires Built() && slot < MAX_SLOTS
      ensures slots[slot] == null <==> state[slot].Empty?
      ensures slots[slot] != null ==> slots[slot] in cards && slots[slot].devType == state[slot].main.devType
      ensures slots[slot] != null ==> |slots[slot].subSlots| == MAX_SUBSLOTS
      ensures slots[slot] != null ==>
                forall j :: 0 <= j < MAX_SUBSLOTS ==> state[slot].subs[j] == SubState(slots[slot].subSlots[j])
    {
      assert Shows(slot);
    }

    /** `vm_slot_remove_all_nio_bindings`. */
    method RemoveAllNioBindings(slot: nat) returns (ok: bool)
      requires Valid()
      modifies this`state, repr, registry
      ensures Valid() && registry.refs.Keys == old(registry.refs.Keys)
      ensures ok <==> slot < nrSlots && old(state[slot]).Filled?
      ensures state == if ok then old(state)[slot := AllUnbound(old(state[slot]))] else old(state)
      ensures forall n :: n in registry.refs ==>
                registry.refs[n] == old(registry.refs[n]) - (if ok then SlotCount(old(state[slot]), n) else 0)
      ensures World(state, registry.refs)
           == Do(platform, nrSlots, old(World(state, registry.refs)), RemoveAllNiosCall(slot))
    {
      ok := Unbind(slot);
      if ok {
        UnboundStays(platform, registry.refs.Keys, old(state), slot, nrSlots);
        assert registry.refs == Released(old(registry.refs), old(state[slot]));
      } else {
        assert registry.refs == old(registry.refs);
      }
    }

    /** The loop over the main card and the bays. */
    method Unbind(slot: nat) returns (ok: bool)
      requires Valid()
      modifies this`state, repr, registry
      ensures Built() && registry.refs.Keys == old(registry.refs.Keys)
      ensures ok <==> slot < nrSlots && old(state[slot]).Filled?
      ensures state == if ok then old(state)[slot := AllUnbound(old(state[slot]))] else old(state)
      ensures forall n :: n in registry.refs ==>
                registry.refs[n] == old(registry.refs[n]) - (if ok then SlotCount(old(state[slot]), n) else 0)
    {
      hide SlotCard.Linked, Locate, AllConsistent, CardBuilt, Shows, NoneFrom, CountIn, CountSubs;
      if slot >= nrSlots {
        return false;
      }
      SlotPointer(slot);
      var card := slots[slot];
      if card == null {
        return false;
      }
      ghost var st, refs := state[slot], registry.refs;
      NamedAt(platform, refs.Keys, state, slot, Main);
      StateIs(card);
      Clear(slot, Main, card);
      PartlyFirst(st);
      CountNone(st.subs);
      for i := 0 to MAX_SUBSLOTS
        invariant Built() && slots == old(slots) && registry.refs.Keys == refs.Keys
        invariant card.subSlots == old(card.subSlots)
        invariant state == old(state)[slot := PartlyUnbound(st, i)]
        invariant forall n :: n in refs ==>
                    registry.refs[n] == refs[n] - CountIn(st.main.bindings, n) - CountSubs(st.subs, i, n)
      {
        SlotPointer(slot);
        PartlyNext(st, i);
        CountNext(st.subs, i);
        var sc := card.subSlots[i];
        if sc != null {
          NamedAt(platform, refs.Keys, old(state), slot, Sub(i));
          Clear(slot, Sub(i), sc);
        }
      }
      PartlyLast(st);
      ok := true;
    }

    /** Take the main card out of its slot. */
    method TakeMain(slot: nat)
      requires Built() && slot < MAX_SLOTS
      modifies this`slots, this`state
      ensures Built() && state == old(state)[slot := Empty]
    {
      hide SlotCard.Linked, StateOf;
      state := state[slot := Empty];
      slots := slots[slot := null];
      forall d | d in cards
        ensures CardBuilt(d)
      {
        assert old(CardBuilt(d));
      }
      forall i: nat | i < MAX_SLOTS
        ensures Shows(i)
      {
        if i != slot { assert old(Shows(i)); }
      }
    }

    /** Take a sub-card out of its bay. */
    method TakeSub(slot: nat, j: nat)
      requires Built() && slot < MAX_SLOTS && slots[slot] != null && j < MAX_SUBSLOTS
      modifies this`state, repr
      ensures Built() && state[slot].Filled?
      ensures old(state[slot]).Filled?
      ensures state == old(state)[slot := old(state[slot]).(subs := old(state[slot]).subs[j := Option.None])]
    {
      hide SlotCard.Linked, StateOf;
      assert Shows(slot) && CardBuilt(slots[slot]);
      state := state[slot := state[slot].(subs := state[slot].subs[j := Option.None])];
      var parent := slots[slot];
      parent.subSlots := parent.subSlots[j := null];
      forall d | d in cards
        ensures CardBuilt(d)
      {
        assert old(CardBuilt(d));
      }
      forall i: nat | i < MAX_SLOTS
        ensures Shows(i)
      {
        assert old(Shows(i));
      }
    }

    /** Whether a card has sub-cards. */
    method HasSubs(c: SlotCard) returns (some: bool)
      requires Built() && c in cards
      ensures some <==> exists j :: 0 <= j < |c.subSlots| && c.subSlots[j] != null
    {
      hide SlotCard.Linked;
      assert CardBuilt(c);
      for i := 0 to MAX_SUBSLOTS
        invariant forall j :: 0 <= j < i ==> c.subSlots[j] == null
      {
        if c.subSlots[i] != null {
          return true;
        }
      }
      some := false;
    }

    /** The card a port leads to, if it may be removed. */
    method Removable(slot: nat, port: nat, active: bool) returns (ok: bool, place: Place)
      requires Built()
      ensures ok <==> slot < MAX_SLOTS && !active && RemoveCard(platform, state[slot], port).Some?
      ensures ok ==>
                && slots[slot] != null && state[slot].Filled? && (place.Sub? ==> place.index < MAX_SUBSLOTS)
                && RemoveCard(platform, state[slot], port) == Option.Some(Taken(state[slot], place))
    {
      hide SlotCard.Linked, Locate, CardBuilt, Shows, AllUnbound, CardAt, NoSubs;
      var found, realPort;
      found, place, realPort := GetInfo(slot, port);
      if !found {
        return false, place;
      }
      SlotPointer(slot);
      LocatedFits(platform, state[slot], port);
      var rc := CardPtr(slot, place);
      RemoveCardIs(platform, state[slot], port);
      if rc == null || active {
        return false, place;
      }
      var some := HasSubs(rc);
      BaysOf(slot, place);
      return !some, place;
    }

    /** `vm_slot_remove_binding`; `active` says whether the driver still has the card. */
    method RemoveBinding(slot: nat, port: nat, active: bool) returns (ok: bool)
      requires Valid()
      modifies this`slots, this`state, repr, registry
      ensures Valid()
      ensures ok <==> slot < MAX_SLOTS && !active && RemoveCard(platform, old(state[slot]), port).Some?
      ensures state == if ok then old(state)[slot := RemoveCard(platform, old(state[slot]), port).value] else old(state)
      ensures registry.refs.Keys == old(registry.refs.Keys)
      ensures forall n :: n in registry.refs ==>
                registry.refs[n] == old(registry.refs[n]) - (if ok then SlotCount(old(state[slot]), n) else 0)
      ensures World(state, registry.refs)
           == Do(platform, nrSlots, old(World(state, registry.refs)), RemoveCardCall(slot, port, active))
    {
      hide SlotCard.Linked, RemoveCard, AllConsistent, CardBuilt, Shows, NoneFrom, AllUnbound, SlotCount;
      var place;
      ok, place := Removable(slot, port, active);
      if ok {
        RemoveCardStays(platform, registry.refs.Keys, state, slot, port, nrSlots);
        var _ := RemoveAllNioBindings(slot);
        match place {
          case Main => TakeMain(slot);
          case Sub(j) => TakeSub(slot, j);
        }
        assert state == old(state)[slot := RemoveCard(platform, old(state[slot]), port).value];
        assert registry.refs == Released(old(registry.refs), old(state[slot]));
      }
    }

    /** A main card's bays are the slot's; a sub-card has none in use. */
    lemma BaysOf(slot: nat, place: Place)
      requires Built() && slot < MAX_SLOTS && (place.Sub? ==> slots[slot] != null && place.index < MAX_SUBSLOTS)
      requires CardPtr(slot, place) != null
      ensures var rc := CardPtr(slot, place);
              (exists j :: 0 <= j < |rc.subSlots| && rc.subSlots[j] != null) <==> place.Main? && !NoSubs(state[slot])
    {
      hide SlotCard.Linked;
      assert Shows(slot);
      assert CardBuilt(CardPtr(slot, place));
    }

    /** `vm_slot_save_config`. */
    method SaveConfig(slot: nat) returns (ok: bool, lines: seq<Line>)
      requires Valid()
      ensures ok <==> slot < nrSlots && state[slot].Filled?
      ensures ok ==> lines == SlotLines(state[slot])
    {
      hide SlotCard.Linked, AllConsistent, CardBuilt, Shows, NoneFrom, CardLines;
      lines := [];
      if slot >= nrSlots {
        return false, lines;
      }
      SlotPointer(slot);
      var card := slots[slot];
      if card == null {
        return false, lines;
      }
      SlotMain(slot);
      AtWork(card);
      lines := card.Save();
      for i := 0 to MAX_SUBSLOTS
        invariant lines == CardLines(state[slot].main) + SubLines(state[slot].subs, i)
      {
        var sc := card.subSlots[i];
        assert state[slot].subs[i] == SubState(sc);
        if sc != null {
          SlotSub(slot, i);
          AtWork(sc);
          var more := sc.Save();
          lines := lines + more;
        }
      }
      ok := true;
    }

    lemma SlotMain(slot: nat)
      requires Built() && slot < MAX_SLOTS && slots[slot] != null
      ensures state[slot].Filled? && state[slot].main == StateOf(slots[slot])
    {
      assert Shows(slot);
    }

    lemma SlotSub(slot: nat, j: nat)
      requires Built() && slot < MAX_SLOTS && slots[slot] != null && j < |slots[slot].subSlots| == MAX_SUBSLOTS
      ensures slots[slot].subSlots[j] != null ==> slots[slot].subSlots[j] in cards
    {
      assert Shows(slot);
    }
  }
}
