/** The routes that users add, and their handles. */
module UserRoutes {
  // packages/tcpip/src/routes.ts, packages/tcpip/src/stack.ts

  import opened Options
  import opened Ip
  import opened Routes
  import opened Interfaces

  /** What a route must be like to be accepted. */
  ghost predicate Acceptable(w: World, c: Cidr, via: Interface, metric: int) {
    && !w.disposed && via in w.owned
    && Network(c) == c && 0 <= metric <= MAX_SAFE_INTEGER
    && forall r :: r in w.table.routes ==> !(r.destination == c && r.via == via && r.metric == metric)
  }

  lemma RefusedIff(t: Table, c: Cidr, via: Interface, metric: int)
    ensures Refused(t, c, via, metric) <==>
      || Network(c) != c || metric < 0 || metric > MAX_SAFE_INTEGER
      || exists r :: r in t.routes && r.destination == c && r.via == via && r.metric == metric
  {
    if r :| r in t.routes && r.destination == c && r.via == via && r.metric == metric {
      var i :| 0 <= i < |t.routes| && t.routes[i] == r;
      assert Same(t.routes[i], c, via, metric);
    }
  }

  /** The new route, under a handle that no route ever had, is all that changes. */
  ghost predicate Gained(w: World, v: World, c: Cidr, via: Interface, metric: nat, handle: nat) {
    && handle !in w.userHandles && v.userHandles == w.userHandles + {handle}
    && (forall r :: r in w.table.routes ==> r.order < handle)
    && (forall r :: r in v.table.routes <==> r in w.table.routes || r == Route(c, via, metric, Static, handle))
    && v.states == w.states && v.owned == w.owned && v.created == w.created && v.disposed == w.disposed
  }

  /** `stack.routes.add` succeeds exactly for acceptable routes, and then adds this route and changes nothing else. */
  lemma UserRouteAdded(w: World, text: string, via: Interface, metric: int)
    requires Owned(w)
    ensures var o := Step(w, RouteAdded(text, via, metric)); var c := ParseInterfaceCidr(text);
      && (o.ok <==> c.Some? && Acceptable(w, c.value, via, metric))
      && (o.ok ==> exists handle: nat :: Gained(w, o.world, c.value, via, metric, handle))
  {
    var o := Step(w, RouteAdded(text, via, metric));
    var c := ParseInterfaceCidr(text);
    if c.Some? {
      RefusedIff(w.table, c.value, via, metric);
      if o.ok {
        assert Gained(w, o.world, c.value, via, metric, w.table.nextOrder);
      }
    }
  }

  /** Disposing of a handle takes its route out of the table, and changes nothing else. */
  lemma UserRouteDisposed(w: World, handle: nat)
    ensures var o := Step(w, RouteDisposed(handle)); var v := o.world;
      && (o.ok <==> handle in w.userHandles)
      && (o.ok ==> forall r :: r in v.table.routes <==> r in w.table.routes && r.order != handle)
      && v == w.(table := w.table.(routes := v.table.routes))
  {
  }

  // ---------------------------------------------------------------- until when a route stays

  /** What takes a user's route away: its handle, its interface or the stack goes. */
  predicate Ends(w: World, e: Event, r: Route) {
    || e == RouteDisposed(r.order)
    || (e == Event.Removed(r.via) && Step(w, e).ok)
    || e == Disposed
  }

  predicate Ended(w: World, events: seq<Event>, r: Route)
    decreases |events|
  {
    events != [] && (Ends(w, events[0], r) || Ended(Step(w, events[0]).world, events[1..], r))
  }

  /** Routes never change, and new ones have new handles. */
  ghost predicate Aged(w: World, v: World) {
    && w.table.nextOrder <= v.table.nextOrder && w.userHandles <= v.userHandles
    && forall r :: r in v.table.routes ==> r in w.table.routes || r.order >= w.table.nextOrder
  }

  lemma {:induction false} AttachAllAges(w: World, i: Interface, texts: seq<string>)
    requires Owned(w) && Attached(w, i)
    ensures Aged(w, AttachAll(w, i, texts).world)
    decreases texts
  {
    if texts != [] {
      var c := ParseInterfaceCidr(texts[0]);
      if c.Some? {
        var u := PutAddress(w, i, c.value);
        PutAddressKeepsOwned(w, i, c.value);
        AcquireKeepsOwned(u, i, Network(c.value));
        AttachAllAges(Acquire(u, i, Network(c.value)).world, i, texts[1..]);
      }
    }
  }

  lemma StepAges(w: World, e: Event)
    requires Owned(w)
    ensures Aged(w, Step(w, e).world)
  {
    match e {
      case AttachRequest(i, initial, mtu) => AttachAges(w, i, Initial(initial), mtu);
      case AddressAdded(i, text, accepted) => AddressAges(w, i, text, accepted);
      case AddressRemoved(_, _, _) =>
      case RouteAdded(text, via, metric) => UserRouteAges(w, text, via, metric);
      case _ =>
    }
  }

  lemma AddressAges(w: World, i: Interface, text: string, accepted: bool)
    requires Owned(w)
    ensures Aged(w, AddAddress(w, i, text, accepted).world)
  {
    if Attached(w, i) && ParseInterfaceCidr(text).Some? {
      AcquireAges(w, i, Network(ParseInterfaceCidr(text).value));
    }
  }

  lemma AcquireAges(w: World, i: Interface, network: Cidr)
    requires i in w.states
    ensures Aged(w, Acquire(w, i, network).world) && i in Acquire(w, i, network).world.states
  {
  }

  lemma UserRouteAges(w: World, text: string, via: Interface, metric: int)
    ensures Aged(w, AddUserRoute(w, text, via, metric).world)
  {
  }

  lemma AttachAges(w: World, i: Interface, texts: seq<string>, mtu: nat)
    requires Owned(w)
    ensures Aged(w, Attach(w, i, texts, mtu).world)
  {
    if !(w.disposed || i !in w.owned || i in w.states) {
      FreshKeepsOwned(w, i, mtu);
      AttachAllAges(w.(states := w.states[i := Iface(map[], map[], false, mtu)]), i, texts);
    }
  }

  lemma {:induction false} AttachAllKeepsRoutes(w: World, i: Interface, texts: seq<string>, r: Route)
    requires i in w.states && r in w.table.routes
    ensures r in AttachAll(w, i, texts).world.table.routes
    decreases texts
  {
    if texts != [] {
      var c := ParseInterfaceCidr(texts[0]);
      if c.Some? {
        AttachAllKeepsRoutes(Acquire(PutAddress(w, i, c.value), i, Network(c.value)).world, i, texts[1..], r);
      }
    }
  }

  /** A connected route's handle is no user's. */
  lemma ReleaseKeepsUserRoute(w: World, i: Interface, network: Cidr, r: Route)
    requires Owned(w) && i in w.states && r in w.table.routes && r.order in w.userHandles
    ensures r in Release(w, i, network).table.routes
  {
    if network in w.states[i].connected {
      HandleStands(w, i, network);
    }
  }

  lemma DetachKeepsUserRoute(w: World, i: Interface, terminal: bool, r: Route)
    requires Owned(w) && r in w.table.routes && r.order in w.userHandles
    ensures r in Detach(w, i, terminal).world.table.routes
  {
    if i in w.states && !w.states[i].detached {
      var s := w.states[i];
      forall n | n in s.connected ensures s.connected[n].handle != r.order {
        HandleStands(w, i, n);
      }
    }
  }

  lemma StepKeepsUserRoute(w: World, e: Event, r: Route)
    requires Owned(w) && r in w.table.routes && r.order in w.userHandles
    ensures r in Step(w, e).world.table.routes <==> !Ends(w, e, r)
  {
    match e {
      case AttachRequest(i, initial, mtu) =>
        if !(w.disposed || i !in w.owned || i in w.states) {
          AttachAllKeepsRoutes(
            w.(states := w.states[i := Iface(map[], map[], false, mtu)]), i, Initial(initial), r);
        }
      case AddressRemoved(i, text, accepted) =>
        if Attached(w, i) && ParseInterfaceCidr(text).Some? {
          var c := ParseInterfaceCidr(text).value;
          if c in w.states[i].addresses {
            ReleaseKeepsUserRoute(w, i, w.states[i].addresses[c], r);
          }
        }
      case Removed(i) => DetachKeepsUserRoute(w, i, false, r);
      case Disposed => DisposeKeepsOwned(w);
      case _ =>
    }
  }

  /** What is gone, or has never been, is not there later. */
  lemma {:induction false} StaysAway(w: World, events: seq<Event>, r: Route)
    requires Owned(w) && r !in w.table.routes && r.order < w.table.nextOrder
    ensures r !in After(w, events).table.routes
    decreases |events|
  {
    if events != [] {
      StepKeepsOwned(w, events[0]);
      StepAges(w, events[0]);
      StaysAway(Step(w, events[0]).world, events[1..], r);
    }
  }

  lemma {:induction false} StaysUntilEnded(w: World, events: seq<Event>, r: Route)
    requires Owned(w) && r in w.table.routes && r.order in w.userHandles
    ensures r in After(w, events).table.routes <==> !Ended(w, events, r)
    decreases |events|
  {
    if events != [] {
      var v := Step(w, events[0]).world;
      StepKeepsOwned(w, events[0]);
      StepAges(w, events[0]);
      StepKeepsUserRoute(w, events[0], r);
      if Ends(w, events[0], r) {
        StaysAway(v, events[1..], r);
      } else {
        StaysUntilEnded(v, events[1..], r);
      }
    }
  }

  /**
   In every run a route that a user added is in the table exactly until its handle is disposed of, its
   interface is removed or the stack is disposed: nothing that happens to addresses, to connected routes or
   to other handles takes it away, and nothing brings it back.
   */
  lemma UserRouteStaysUntil(before: seq<Event>, r: Route, events: seq<Event>)
    requires r in After(Fresh, before).table.routes && r.order in After(Fresh, before).userHandles
    ensures r in After(After(Fresh, before), events).table.routes <==> !Ended(After(Fresh, before), events, r)
  {
    RunKeepsOwned(Fresh, before);
    StaysUntilEnded(After(Fresh, before), events, r);
  }

  lemma {:induction false} HandleStaysAway(w: World, events: seq<Event>, handle: nat)
    requires Owned(w) && handle < w.table.nextOrder && forall r :: r in w.table.routes ==> r.order != handle
    ensures forall r :: r in After(w, events).table.routes ==> r.order != handle
    decreases |events|
  {
    if events != [] {
      StepKeepsOwned(w, events[0]);
      StepAges(w, events[0]);
      HandleStaysAway(Step(w, events[0]).world, events[1..], handle);
    }
  }

  /** Once a handle has been disposed of, no lookup in any later run answers with its route. */
  lemma DisposedForGood(before: seq<Event>, handle: nat, events: seq<Event>, a: Address, via: Option<Interface>)
    requires handle in After(Fresh, before).userHandles
    ensures var w := After(Step(After(Fresh, before), RouteDisposed(handle)).world, events);
      && (forall r :: r in w.table.routes ==> r.order != handle)
      && (Lookup(w.table, a, via).Some? ==> Lookup(w.table, a, via).value.order != handle)
  {
    var w := After(Fresh, before);
    RunKeepsOwned(Fresh, before);
    StepKeepsOwned(w, RouteDisposed(handle));
    UserRouteDisposed(w, handle);
    var v := Step(w, RouteDisposed(handle)).world;
    HandleStaysAway(v, events, handle);
    RunKeepsOwned(v, events);
    LookupIsBest(After(v, events).table, a, via);
  }
}
