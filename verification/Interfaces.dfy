/** Interfaces, addresses and their routes. */
module Interfaces {
  // packages/tcpip/src/bindings/network-interface.ts, packages/tcpip/src/stack.ts

  import opened Options
  import opened Ip
  import opened Routes

  /** The route of a network an interface is connected to, shared by its addresses on that network. */
  datatype ConnectedRoute = ConnectedRoute(handle: nat, references: nat)

  datatype Iface = Iface(addresses: map<Cidr, Cidr>, connected: map<Cidr, ConnectedRoute>, detached: bool, mtu: nat)

  /**
   The stack: its routes, the state of the interfaces that were attached, and the interfaces it lists.
   `created` and `userHandles` are history: the interfaces ever listed, and the routes users asked for.
   */
  datatype World = World(
    table: Table,
    states: map<Interface, Iface>,
    owned: set<Interface>,
    created: set<Interface>,
    userHandles: set<nat>,
    disposed: bool)

  const Fresh := World(Routes.Empty, map[], {}, {}, {}, false)

  /** `ok` is false where the program throws. */
  datatype Outcome = Outcome(world: World, ok: bool)

  const MIN_IPV6_MTU: nat := 1280

  // ---------------------------------------------------------------- connected routes

  /** `RouteTable.add` with the check that the interface belongs to the running stack. */
  function AddChecked(w: World, destination: Cidr, via: Interface, metric: int, source: Source): Option<(Table, nat)> {
    if w.disposed || via !in w.owned then None else Add(w.table, destination, via, metric, source)
  }

  function Acquire(w: World, i: Interface, network: Cidr): Outcome
    requires i in w.states
  {
    var s := w.states[i];
    if network in s.connected then
      var c := s.connected[network];
      Outcome(w.(states := w.states[i := s.(connected := s.connected[network := c.(references := c.references + 1)])]),
        true)
    else
      var added := AddChecked(w, network, i, 0, Connected);
      if added.None? then Outcome(w, false)
      else
        var (table, handle) := added.value;
        Outcome(
          w.(table := table, states :=
            w.states[i := s.(connected := s.connected[network := ConnectedRoute(handle, 1)])]),
          true)
  }

  function Release(w: World, i: Interface, network: Cidr): World
    requires i in w.states
  {
    var s := w.states[i];
    if network !in s.connected then w
    else
      var c := s.connected[network];
      if c.references > 1 then
        w.(states := w.states[i := s.(connected := s.connected[network := c.(references := c.references - 1)])])
      else
        w.(table := DisposeRoute(w.table, c.handle), states := w.states[i := s.(connected := s.connected - {network})])
  }

  function PutAddress(w: World, i: Interface, c: Cidr): World
    requires i in w.states
  {
    w.(states := w.states[i := w.states[i].(addresses := w.states[i].addresses[c := Network(c)])])
  }

  // ---------------------------------------------------------------- operations

  /** The loop of `attach` over the initial addresses. */
  function AttachAll(w: World, i: Interface, texts: seq<string>): Outcome
    requires i in w.states
    decreases texts
  {
    if texts == [] then Outcome(w, true)
    else
      var c := ParseInterfaceCidr(texts[0]);
      if c.None? then Outcome(w, false)
      else
        var o := Acquire(PutAddress(w, i, c.value), i, Network(c.value));
        if !o.ok then o else AttachAll(o.world, i, texts[1..])
  }

  function Attach(w: World, i: Interface, texts: seq<string>, mtu: nat): Outcome {
    if w.disposed || i !in w.owned || i in w.states then Outcome(w, false)
    else AttachAll(w.(states := w.states[i := Iface(map[], map[], false, mtu)]), i, texts)
  }

  function Handles(s: Iface): set<nat> {
    set n | n in s.connected :: s.connected[n].handle
  }

  function Detach(w: World, i: Interface, terminal: bool): Outcome {
    if i !in w.states then Outcome(w, terminal)
    else
      var s := w.states[i];
      if s.detached then Outcome(w, true)
      else
        Outcome(
          w.(table := w.table.(routes := Filter(w.table.routes, (r: Route) => r.order !in Handles(s))),
             states := w.states[i := Iface(map[], map[], true, s.mtu)]),
          true)
  }

  function Attached(w: World, i: Interface): bool {
    i in w.states && !w.states[i].detached
  }

  function HasFamily(s: Iface, f: Family): bool {
    exists c :: c in s.addresses && c.address.family == f
  }

  /** `accepted` is the answer of the foreign address table. */
  function AddAddress(w: World, i: Interface, text: string, accepted: bool): Outcome {
    if !Attached(w, i) then Outcome(w, false)
    else
      var s := w.states[i];
      var parsed := ParseInterfaceCidr(text);
      if parsed.None? then Outcome(w, false)
      else
        var c := parsed.value;
        if c in s.addresses then Outcome(w, true)
        else if c.address.family == V4 && HasFamily(s, V4) then Outcome(w, false)
        else if c.address.family == V6 && s.mtu < MIN_IPV6_MTU then Outcome(w, false)
        else if !accepted then Outcome(w, false)
        else
          var o := Acquire(w, i, Network(c));
          if o.ok then Outcome(PutAddress(o.world, i, c), true) else o
  }

  /** The foreign table can refuse to remove an IPv6 address only. */
  function RemoveAddress(w: World, i: Interface, text: string, accepted: bool): Outcome {
    if !Attached(w, i) then Outcome(w, false)
    else
      var s := w.states[i];
      var parsed := ParseInterfaceCidr(text);
      if parsed.None? then Outcome(w, false)
      else
        var c := parsed.value;
        if c !in s.addresses then Outcome(w, true)
        else if c.address.family == V6 && !accepted then Outcome(w, false)
        else
          var v := Release(w, i, s.addresses[c]);
          Outcome(v.(states := v.states[i := v.states[i].(addresses := v.states[i].addresses - {c})]), true)
  }

  function SetMtu(w: World, i: Interface, mtu: int, accepted: bool): Outcome {
    if !Attached(w, i) || mtu < 68 || mtu > 65535 then Outcome(w, false)
    else if mtu < MIN_IPV6_MTU && HasFamily(w.states[i], V6) then Outcome(w, false)
    else if !accepted then Outcome(w, false)
    else Outcome(w.(states := w.states[i := w.states[i].(mtu := mtu)]), true)
  }

  /** `stack.routes.add` */
  function AddUserRoute(w: World, text: string, via: Interface, metric: int): Outcome {
    var c := ParseInterfaceCidr(text);
    if c.None? then Outcome(w, false)
    else
      var added := AddChecked(w, c.value, via, metric, Static);
      if added.None? then Outcome(w, false)
      else
        var (table, handle) := added.value;
        Outcome(w.(table := table, userHandles := w.userHandles + {handle}), true)
  }

  /** `dispose` of a handle that `stack.routes.add` returned. */
  function DisposeUserRoute(w: World, handle: nat): Outcome {
    if handle !in w.userHandles then Outcome(w, false)
    else Outcome(w.(table := DisposeRoute(w.table, handle)), true)
  }

  /** A foreign call registers a new interface object. */
  function Register(w: World, i: Interface): Outcome {
    if w.disposed || i in w.created then Outcome(w, false)
    else Outcome(w.(owned := w.owned + {i}, created := w.created + {i}), true)
  }

  /** `interfaces.remove` */
  function Remove(w: World, i: Interface): Outcome {
    if w.disposed then Outcome(w, false)
    else
      var o := Detach(w, i, false);
      if !o.ok then o
      else Outcome(o.world.(table := RemoveInterface(o.world.table, i), owned := o.world.owned - {i}), true)
  }

  function Gone(s: Iface): Iface {
    if s.detached then s else Iface(map[], map[], true, s.mtu)
  }

  /** The effect of the loop of `#terminate` when the interfaces in `done` have been visited. */
  function Dropped(w: World, done: set<Interface>): World {
    w.(table := w.table.(routes := Filter(w.table.routes, (r: Route) => r.via !in done)),
       states := map i | i in w.states :: if i in done then Gone(w.states[i]) else w.states[i])
  }

  function Dispose(w: World): Outcome {
    if w.disposed then Outcome(w, true)
    else Outcome(Dropped(w, w.owned).(owned := {}, disposed := true), true)
  }

  datatype Event =
    | Registered(i: Interface)
    | AttachRequest(i: Interface, initial: Option<string>, mtu: nat)
    | AddressAdded(i: Interface, text: string, accepted: bool)
    | AddressRemoved(i: Interface, text: string, accepted: bool)
    | MtuSet(i: Interface, newMtu: int, accepted: bool)
    | RouteAdded(text: string, via: Interface, metric: int)
    | RouteDisposed(handle: nat)
    | Removed(i: Interface)
    | Disposed

  /** The stack attaches with at most one address, which it has already read as an IPv4 one. */
  function Initial(initial: Option<string>): seq<string> {
    if initial.None? then [] else [initial.value]
  }

  predicate ReadsAsV6(initial: Option<string>) {
    && initial.Some?
    && ParseInterfaceCidr(initial.value).Some?
    && ParseInterfaceCidr(initial.value).value.address.family == V6
  }

  function Step(w: World, e: Event): Outcome {
    match e
    case Registered(i) => Register(w, i)
    case AttachRequest(i, initial, mtu) =>
      if ReadsAsV6(initial) then Outcome(w, false) else Attach(w, i, Initial(initial), mtu)
    case AddressAdded(i, text, accepted) => AddAddress(w, i, text, accepted)
    case AddressRemoved(i, text, accepted) => RemoveAddress(w, i, text, accepted)
    case MtuSet(i, mtu, accepted) => SetMtu(w, i, mtu, accepted)
    case RouteAdded(text, via, metric) => AddUserRoute(w, text, via, metric)
    case RouteDisposed(handle) => DisposeUserRoute(w, handle)
    case Removed(i) => Remove(w, i)
    case Disposed => Dispose(w)
  }

  function After(w: World, events: seq<Event>): World
    decreases |events|
  {
    if events == [] then w else After(Step(w, events[0]).world, events[1..])
  }

  // ---------------------------------------------------------------- ownership, in every run

  predicate HandleOk(w: World, i: Interface, c: ConnectedRoute) {
    && c.handle < w.table.nextOrder
    && c.handle !in w.userHandles
    && forall r :: r in w.table.routes && r.order == c.handle ==> r.via == i
  }

  ghost predicate StateOk(w: World, i: Interface, s: Iface) {
    && (s.detached ==> s.addresses == map[] && s.connected == map[])
    && (!s.detached ==> i in w.owned)
    && (forall n :: n in s.connected ==> HandleOk(w, i, s.connected[n]))
  }

  /** What every run keeps. */
  ghost predicate Owned(w: World) {
    && Proper(w.table)
    && (forall r :: r in w.table.routes ==> r.via in w.owned)
    && (forall r :: r in w.table.routes && r.source == Static ==> r.order in w.userHandles)
    && (forall h :: h in w.userHandles ==> h < w.table.nextOrder)
    && w.owned <= w.created && w.states.Keys <= w.created
    && (w.disposed ==> w.owned == {})
    && (forall i :: i in w.states ==> StateOk(w, i, w.states[i]))
  }

  lemma HandleStands(w: World, i: Interface, n: Cidr)
    requires Owned(w) && i in w.states && n in w.states[i].connected
    ensures HandleOk(w, i, w.states[i].connected[n])
  {
    assert StateOk(w, i, w.states[i]);
  }

  /** The handles of an interface are not those of routes to the others. */
  lemma HandlesApart(w: World, i: Interface)
    requires Owned(w) && i in w.states
    ensures forall r :: r in w.table.routes && r.via != i ==> r.order !in Handles(w.states[i])
  {
    var s := w.states[i];
    forall r | r in w.table.routes && r.via != i ensures r.order !in Handles(s) {
      forall n | n in s.connected ensures s.connected[n].handle != r.order {
        HandleStands(w, i, n);
      }
    }
  }

  lemma StateOkDepends(w: World, v: World, i: Interface, s: Iface)
    requires StateOk(w, i, s) && v.table == w.table && v.userHandles == w.userHandles && v.owned == w.owned
    ensures StateOk(v, i, s)
  {
    forall n | n in s.connected ensures HandleOk(v, i, s.connected[n]) {
      assert HandleOk(w, i, s.connected[n]);
    }
  }

  lemma FreshKeepsOwned(w: World, i: Interface, mtu: nat)
    requires Owned(w) && i in w.owned && i !in w.states
    ensures Owned(w.(states := w.states[i := Iface(map[], map[], false, mtu)]))
  {
    var v := w.(states := w.states[i := Iface(map[], map[], false, mtu)]);
    forall j | j in v.states ensures StateOk(v, j, v.states[j]) {
      if j != i {
        StateOkDepends(w, v, j, w.states[j]);
      }
    }
  }

  lemma NetworkTwice(c: Cidr)
    ensures Network(Network(c)) == Network(c)
  {
    MaskIdempotent(c.address.bytes, c.prefix);
  }

  lemma AcquireKeepsOwned(w: World, i: Interface, network: Cidr)
    requires Owned(w) && Attached(w, i)
    ensures var o := Acquire(w, i, network);
      Owned(o.world) && Attached(o.world, i) && o.world.states.Keys == w.states.Keys
  {
    var s := w.states[i];
    if network !in s.connected {
      var added := AddChecked(w, network, i, 0, Connected);
      if added.Some? {
        AddKeepsProper(w.table, network, i, 0, Connected);
      }
    }
  }

  lemma PutAddressKeepsOwned(w: World, i: Interface, c: Cidr)
    requires Owned(w) && Attached(w, i)
    ensures Owned(PutAddress(w, i, c)) && Attached(PutAddress(w, i, c), i)
  {
  }

  lemma {:induction false} AttachAllKeepsOwned(w: World, i: Interface, texts: seq<string>)
    requires Owned(w) && Attached(w, i)
    ensures Owned(AttachAll(w, i, texts).world)
    decreases texts
  {
    if texts != [] {
      var c := ParseInterfaceCidr(texts[0]);
      if c.Some? {
        PutAddressKeepsOwned(w, i, c.value);
        AcquireKeepsOwned(PutAddress(w, i, c.value), i, Network(c.value));
        AttachAllKeepsOwned(Acquire(PutAddress(w, i, c.value), i, Network(c.value)).world, i, texts[1..]);
      }
    }
  }

  lemma AttachKeepsOwned(w: World, i: Interface, texts: seq<string>, mtu: nat)
    requires Owned(w)
    ensures Owned(Attach(w, i, texts, mtu).world)
  {
    if !(w.disposed || i !in w.owned || i in w.states) {
      FreshKeepsOwned(w, i, mtu);
      AttachAllKeepsOwned(w.(states := w.states[i := Iface(map[], map[], false, mtu)]), i, texts);
    }
  }

  /** Taking routes out of the table. */
  lemma FilteredKeepsOwned(w: World, keep: Route -> bool)
    requires Owned(w)
    ensures Owned(w.(table := w.table.(routes := Filter(w.table.routes, keep))))
  {
    FilterKeepsProper(w.table.routes, keep, w.table.nextOrder);
  }

  lemma ReleaseKeepsOwned(w: World, i: Interface, network: Cidr)
    requires Owned(w) && Attached(w, i)
    ensures var v := Release(w, i, network); Owned(v) && Attached(v, i)
  {
    var s := w.states[i];
    if network in s.connected {
      var c := s.connected[network];
      if c.references <= 1 {
        FilteredKeepsOwned(w, (r: Route) => r.order != c.handle);
      }
    }
  }

  lemma DetachKeepsOwned(w: World, i: Interface, terminal: bool)
    requires Owned(w)
    ensures Owned(Detach(w, i, terminal).world)
  {
    if i in w.states && !w.states[i].detached {
      var s := w.states[i];
      FilteredKeepsOwned(w, (r: Route) => r.order !in Handles(s));
    }
  }

  lemma RemoveKeepsOwned(w: World, i: Interface)
    requires Owned(w)
    ensures Owned(Remove(w, i).world)
  {
    DetachKeepsOwned(w, i, false);
    var v := Detach(w, i, false).world;
    FilterKeepsProper(v.table.routes, (r: Route) => r.via != i, v.table.nextOrder);
  }

  lemma DisposeKeepsOwned(w: World)
    requires Owned(w)
    ensures var v := Dispose(w).world; Owned(v) && v.table.routes == []
  {
    if !w.disposed {
      var keep := (r: Route) => r.via !in w.owned;
      FilterKeepsProper(w.table.routes, keep, w.table.nextOrder);
    }
    var v := Dispose(w).world;
    NoMembers(v.table.routes);
  }

  lemma UserRouteKeepsOwned(w: World, text: string, via: Interface, metric: int)
    requires Owned(w)
    ensures Owned(AddUserRoute(w, text, via, metric).world)
  {
    var c := ParseInterfaceCidr(text);
    if c.Some? && AddChecked(w, c.value, via, metric, Static).Some? {
      AddKeepsProper(w.table, c.value, via, metric, Static);
    }
  }

  lemma RoutesKeepOwned(w: World, e: Event)
    requires Owned(w) && (e.RouteAdded? || e.RouteDisposed?)
    ensures Owned(Step(w, e).world)
  {
    if e.RouteAdded? {
      UserRouteKeepsOwned(w, e.text, e.via, e.metric);
    } else {
      FilteredKeepsOwned(w, (r: Route) => r.order != e.handle);
    }
  }

  lemma AddressesKeepOwned(w: World, e: Event)
    requires Owned(w) && (e.AddressAdded? || e.AddressRemoved? || e.MtuSet?)
    ensures Owned(Step(w, e).world)
  {
    match e
    case AddressAdded(i, text, accepted) => AddAddressKeepsOwned(w, i, text, accepted);
    case AddressRemoved(i, text, accepted) => RemoveAddressKeepsOwned(w, i, text, accepted);
    case _ =>
  }

  lemma AddAddressKeepsOwned(w: World, i: Interface, text: string, accepted: bool)
    requires Owned(w)
    ensures Owned(AddAddress(w, i, text, accepted).world)
  {
    if Attached(w, i) && ParseInterfaceCidr(text).Some? {
      var c := ParseInterfaceCidr(text).value;
      AcquireKeepsOwned(w, i, Network(c));
      PutAddressKeepsOwned(Acquire(w, i, Network(c)).world, i, c);
    }
  }

  lemma RemoveAddressKeepsOwned(w: World, i: Interface, text: string, accepted: bool)
    requires Owned(w)
    ensures Owned(RemoveAddress(w, i, text, accepted).world)
  {
    if Attached(w, i) && ParseInterfaceCidr(text).Some? {
      var c := ParseInterfaceCidr(text).value;
      if c in w.states[i].addresses {
        ReleaseKeepsOwned(w, i, w.states[i].addresses[c]);
      }
    }
  }

  lemma StepKeepsOwned(w: World, e: Event)
    requires Owned(w)
    ensures Owned(Step(w, e).world)
  {
    match e {
      case Registered(_) =>
      case AttachRequest(i, initial, mtu) => AttachKeepsOwned(w, i, Initial(initial), mtu);
      case AddressAdded(_, _, _) => AddressesKeepOwned(w, e);
      case AddressRemoved(_, _, _) => AddressesKeepOwned(w, e);
      case MtuSet(_, _, _) => AddressesKeepOwned(w, e);
      case RouteAdded(_, _, _) => RoutesKeepOwned(w, e);
      case RouteDisposed(_) => RoutesKeepOwned(w, e);
      case Removed(i) => RemoveKeepsOwned(w, i);
      case Disposed => DisposeKeepsOwned(w);
    }
  }

  lemma {:induction false} RunKeepsOwned(w: World, events: seq<Event>)
    requires Owned(w)
    ensures Owned(After(w, events))
    decreases |events|
  {
    if events != [] {
      StepKeepsOwned(w, events[0]);
      RunKeepsOwned(Step(w, events[0]).world, events[1..]);
    }
  }

  /**
   In every run, each installed route leads to an interface the stack lists, so that no lookup, for
   any address, ever gives an interface that was removed.
   */
  lemma LookupGivesOwned(events: seq<Event>, a: Address, via: Option<Interface>)
    ensures var w := After(Fresh, events);
      && (forall r :: r in w.table.routes ==> r.via in w.owned)
      && (Lookup(w.table, a, via).Some? ==> Lookup(w.table, a, via).value.via in w.owned)
  {
    RunKeepsOwned(Fresh, events);
    LookupIsBest(After(Fresh, events).table, a, via);
  }

  lemma StepOwnership(w: World, e: Event, i: Interface)
    requires Owned(w)
    ensures i in w.created && i !in w.owned ==> i in Step(w, e).world.created && i !in Step(w, e).world.owned
    ensures w.disposed ==> Step(w, e).world.disposed
  {
    if e.AttachRequest? {
      AttachFrame(w, e.i, Initial(e.initial), e.mtu);
    }
  }

  lemma {:induction false} AttachAllFrame(w: World, i: Interface, texts: seq<string>)
    requires i in w.states
    ensures var v := AttachAll(w, i, texts).world;
      v.owned == w.owned && v.created == w.created && v.disposed == w.disposed && v.userHandles == w.userHandles
    decreases texts
  {
    if texts != [] {
      var c := ParseInterfaceCidr(texts[0]);
      if c.Some? {
        AttachAllFrame(Acquire(PutAddress(w, i, c.value), i, Network(c.value)).world, i, texts[1..]);
      }
    }
  }

  lemma AttachFrame(w: World, i: Interface, texts: seq<string>, mtu: nat)
    ensures var v := Attach(w, i, texts, mtu).world;
      v.owned == w.owned && v.created == w.created && v.disposed == w.disposed && v.userHandles == w.userHandles
  {
    if !(w.disposed || i !in w.owned || i in w.states) {
      AttachAllFrame(w.(states := w.states[i := Iface(map[], map[], false, mtu)]), i, texts);
    }
  }

  lemma {:induction false} RunOwnership(w: World, events: seq<Event>, i: Interface)
    requires Owned(w)
    ensures i in w.created && i !in w.owned ==> i !in After(w, events).owned
    ensures w.disposed ==> After(w, events).disposed
    decreases |events|
  {
    if events != [] {
      StepOwnership(w, events[0], i);
      StepKeepsOwned(w, events[0]);
      RunOwnership(Step(w, events[0]).world, events[1..], i);
    }
  }

  // ---------------------------------------------------------------- until when an interface is listed

  /** What takes an interface off the list. */
  predicate Delists(w: World, e: Event, i: Interface) {
    (e == Removed(i) && !w.disposed && i in w.states) || e == Disposed
  }

  predicate Delisted(w: World, events: seq<Event>, i: Interface)
    decreases |events|
  {
    events != [] && (Delists(w, events[0], i) || Delisted(Step(w, events[0]).world, events[1..], i))
  }

  lemma StepListing(w: World, e: Event, i: Interface)
    requires Owned(w)
    ensures i in Step(w, e).world.owned <==>
      (i in w.owned && !Delists(w, e, i)) || (e == Registered(i) && !w.disposed && i !in w.created)
    ensures i in Step(w, e).world.created <==> i in w.created || (e == Registered(i) && !w.disposed)
  {
    if e.AttachRequest? {
      AttachFrame(w, e.i, Initial(e.initial), e.mtu);
    }
  }

  lemma {:induction false} StaysListed(w: World, events: seq<Event>, i: Interface)
    requires Owned(w) && i in w.owned
    ensures i in After(w, events).owned <==> !Delisted(w, events, i)
    decreases |events|
  {
    if events != [] {
      StepListing(w, events[0], i);
      StepKeepsOwned(w, events[0]);
      if Delists(w, events[0], i) {
        RunOwnership(Step(w, events[0]).world, events[1..], i);
      } else {
        StaysListed(Step(w, events[0]).world, events[1..], i);
      }
    }
  }

  /**
   A new interface is listed from its registration exactly until it is removed, which takes that it was
   attached, or the stack is disposed.
   */
  lemma ListedUntil(before: seq<Event>, i: Interface, events: seq<Event>)
    requires !After(Fresh, before).disposed && i !in After(Fresh, before).created
    ensures var w := Step(After(Fresh, before), Registered(i)).world;
      i in After(w, events).owned <==> !Delisted(w, events, i)
  {
    RunKeepsOwned(Fresh, before);
    StepKeepsOwned(After(Fresh, before), Registered(i));
    StepListing(After(Fresh, before), Registered(i), i);
    StaysListed(Step(After(Fresh, before), Registered(i)).world, events, i);
  }

  // ---------------------------------------------------------------- the MTU

  /** What the event makes the MTU of an interface, if it does. */
  function MtuOf(w: World, e: Event, i: Interface, last: int): int {
    if e.AttachRequest? && e.i == i && i !in w.states then e.mtu
    else if e.MtuSet? && e.i == i && Step(w, e).ok then e.newMtu
    else last
  }

  function LastMtu(w: World, events: seq<Event>, i: Interface, last: int): int
    decreases |events|
  {
    if events == [] then last else LastMtu(Step(w, events[0]).world, events[1..], i, MtuOf(w, events[0], i, last))
  }

  lemma {:induction false} AttachAllMtu(w: World, i: Interface, texts: seq<string>, j: Interface)
    requires i in w.states
    ensures var v := AttachAll(w, i, texts).world;
      (j in v.states <==> j in w.states) && (j in w.states ==> v.states[j].mtu == w.states[j].mtu)
    decreases texts
  {
    if texts != [] {
      var c := ParseInterfaceCidr(texts[0]);
      if c.Some? {
        AttachAllMtu(Acquire(PutAddress(w, i, c.value), i, Network(c.value)).world, i, texts[1..], j);
      }
    }
  }

  lemma AttachMtu(w: World, e: Event, j: Interface)
    requires e.AttachRequest?
    ensures var v := Step(w, e).world;
      (j in v.states <==> j in w.states || (j == e.i && v != w)) &&
      (j in v.states ==> v.states[j].mtu == if j in w.states then w.states[j].mtu else e.mtu)
  {
    if !(ReadsAsV6(e.initial) || w.disposed || e.i !in w.owned || e.i in w.states) {
      AttachAllMtu(w.(states := w.states[e.i := Iface(map[], map[], false, e.mtu)]), e.i, Initial(e.initial), j);
    }
  }

  lemma StepMtu(w: World, e: Event, i: Interface, last: int)
    requires i in w.states ==> w.states[i].mtu == last
    ensures var v := Step(w, e).world; i in v.states ==> v.states[i].mtu == MtuOf(w, e, i, last)
  {
    if e.AttachRequest? {
      AttachMtu(w, e, i);
    }
  }

  lemma {:induction false} RunMtu(w: World, events: seq<Event>, i: Interface, last: int)
    requires i in w.states ==> w.states[i].mtu == last
    ensures i in After(w, events).states ==> After(w, events).states[i].mtu == LastMtu(w, events, i, last)
    decreases |events|
  {
    if events != [] {
      StepMtu(w, events[0], i, last);
      RunMtu(Step(w, events[0]).world, events[1..], i, MtuOf(w, events[0], i, last));
    }
  }

  /** In every run the MTU of an interface is the one last set, or else the one it was attached with. */
  lemma MtuIsLastSet(events: seq<Event>, i: Interface)
    ensures i in After(Fresh, events).states ==>
      After(Fresh, events).states[i].mtu == LastMtu(Fresh, events, i, 0)
  {
    RunMtu(Fresh, events, i, 0);
  }

  /**
   Setting an MTU succeeds exactly on an attached interface, between 68 and 65535, not below 1280 if the
   interface has an IPv6 address, and if the network stack accepts it; it changes the MTU and nothing else.
   */
  lemma MtuSetIff(w: World, i: Interface, mtu: int, accepted: bool)
    ensures var o := Step(w, MtuSet(i, mtu, accepted));
      && (o.ok <==>
            && i in w.states && !w.states[i].detached && 68 <= mtu <= 65535 && accepted
            && (mtu < 1280 ==> forall c :: c in w.states[i].addresses ==> c.address.family == V4))
      && (o.ok ==> o.world == w.(states := w.states[i := w.states[i].(mtu := mtu)]))
      && (!o.ok ==> o.world == w)
  {
  }

  /** Once an interface has been removed, no later run lists it or has a route to it. */
  lemma RemovedForGood(before: seq<Event>, i: Interface, events: seq<Event>)
    requires i in After(Fresh, before).created && Remove(After(Fresh, before), i).ok
    ensures var w := After(Remove(After(Fresh, before), i).world, events);
      i !in w.owned && forall r :: r in w.table.routes ==> r.via != i
  {
    RunKeepsOwned(Fresh, before);
    var v := Remove(After(Fresh, before), i).world;
    RemoveKeepsOwned(After(Fresh, before), i);
    RunKeepsOwned(v, events);
    RunOwnership(v, events, i);
  }

  /** `dispose` succeeds, also a second time; after it the route table is empty, and stays so. */
  lemma DisposedForGood(before: seq<Event>, events: seq<Event>)
    ensures Dispose(After(Fresh, before)).ok
    ensures var w := After(Dispose(After(Fresh, before)).world, events);
      w.disposed && w.owned == {} && w.table.routes == [] && Dispose(w) == Outcome(w, true)
  {
    RunKeepsOwned(Fresh, before);
    DisposeKeepsOwned(After(Fresh, before));
    var v := Dispose(After(Fresh, before)).world;
    RunKeepsOwned(v, events);
    RunOwnership(v, events, 0);
    var w := After(v, events);
    NoMembers(w.table.routes);
  }
}
