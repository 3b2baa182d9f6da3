/** Connected routes agree with addresses. */
module ConnectedRoutes {
  // packages/tcpip/src/bindings/network-interface.ts

  import opened Options
  import opened Ip
  import opened Routes
  import opened Interfaces

  // ---------------------------------------------------------------- reference counts

  ghost function AddressesOn(s: Iface, network: Cidr): set<Cidr> {
    set c | c in s.addresses && s.addresses[c] == network
  }

  /** The count of each network is the number of the interface's addresses on it, and there is no other count. */
  ghost predicate Counted(s: Iface) {
    && (forall c :: c in s.addresses ==> s.addresses[c] == Network(c) && s.addresses[c] in s.connected)
    && (forall n :: n in s.connected ==>
      s.connected[n].references == |AddressesOn(s, n)| && s.connected[n].references > 0)
  }

  function RouteOf(i: Interface, network: Cidr, c: ConnectedRoute): Route {
    Route(network, i, 0, Connected, c.handle)
  }

  /** The connected routes to an interface are exactly those of its networks. */
  ghost predicate Installed(t: Table, i: Interface, s: Iface) {
    && (forall n :: n in s.connected ==> RouteOf(i, n, s.connected[n]) in t.routes)
    && (forall r :: r in t.routes && r.via == i && r.source == Connected ==>
          r.destination in s.connected && r == RouteOf(i, r.destination, s.connected[r.destination]))
  }

  ghost predicate Limits(s: Iface) {
    && (forall c, d :: c in s.addresses && d in s.addresses && c.address.family == V4 && d.address.family == V4 ==>
      c == d)
    && (HasFamily(s, V6) ==> s.mtu >= MIN_IPV6_MTU)
  }

  ghost predicate Agrees(w: World, i: Interface)
    requires i in w.states
  {
    && Counted(w.states[i])
    && Installed(w.table, i, w.states[i])
    && Limits(w.states[i])
  }

  ghost predicate AllAgree(w: World) {
    && (forall i :: i in w.states ==> Agrees(w, i))
    && (forall r :: r in w.table.routes && r.source == Connected ==> r.via in w.states)
  }

  // The counts of one interface.

  lemma AddressesOnPut(s: Iface, c: Cidr, network: Cidr, other: Cidr)
    ensures var v := s.(addresses := s.addresses[c := network]);
      c !in s.addresses ==> AddressesOn(v, other) == AddressesOn(s, other) + if other == network then {c} else {}
  {
  }

  lemma AddressesOnDrop(s: Iface, c: Cidr, other: Cidr)
    requires c in s.addresses
    ensures var v := s.(addresses := s.addresses - {c});
      AddressesOn(v, other) == AddressesOn(s, other) - if other == s.addresses[c] then {c} else {}
  {
  }

  lemma AddressesOnDepends(s: Iface, v: Iface, network: Cidr)
    requires s.addresses == v.addresses
    ensures AddressesOn(s, network) == AddressesOn(v, network)
  {
  }

  function Grown(s: Iface, c: Cidr, k: ConnectedRoute): Iface {
    s.(addresses := s.addresses[c := Network(c)], connected := s.connected[Network(c) := k])
  }

  lemma CountAfterGrowth(s: Iface, c: Cidr, k: ConnectedRoute, m: Cidr)
    requires Counted(s) && c !in s.addresses
    ensures |AddressesOn(Grown(s, c, k), m)| == |AddressesOn(s, m)| + if m == Network(c) then 1 else 0
    ensures m !in s.connected ==> |AddressesOn(s, m)| == 0
  {
    AddressesOnPut(s, c, Network(c), m);
    AddressesOnDepends(Grown(s, c, k), s.(addresses := s.addresses[c := Network(c)]), m);
    assert m !in s.connected ==> AddressesOn(s, m) == {};
    assert c !in AddressesOn(s, m);
  }

  lemma CountedGrows(s: Iface, c: Cidr, k: ConnectedRoute)
    requires Counted(s) && c !in s.addresses
    requires k.references == 1 + if Network(c) in s.connected then s.connected[Network(c)].references else 0
    ensures Counted(Grown(s, c, k))
  {
    var v := Grown(s, c, k);
    forall m | m in v.connected ensures v.connected[m].references == |AddressesOn(v, m)| {
      CountAfterGrowth(s, c, k, m);
    }
  }

  lemma OnlyOne(on: set<Cidr>, c: Cidr)
    requires c in on && |on| == 1
    ensures on == {c}
  {
    assert |on - {c}| == 0;
  }

  // The routes of one interface.

  lemma InstalledAfterAdd(t: Table, r: Route, next: nat, i: Interface, s: Iface)
    requires Installed(t, i, s) && (r.via != i || r.source == Static)
    ensures Installed(Table(t.routes + [r], next), i, s)
  {
  }

  lemma InstalledAfterFilter(t: Table, keep: Route -> bool, i: Interface, s: Iface)
    requires Installed(t, i, s)
    requires forall r :: r in t.routes && r.via == i && r.source == Connected ==> keep(r)
    ensures Installed(t.(routes := Filter(t.routes, keep)), i, s)
  {
  }

  /** Routes leave the table, but none of those the other interfaces are connected by. */
  lemma OthersAfterFilter(w: World, keep: Route -> bool, i: Interface)
    requires AllAgree(w)
    requires forall r :: r in w.table.routes && r.source == Connected && r.via != i ==> keep(r)
    ensures forall j :: j in w.states && j != i ==>
      Installed(w.table.(routes := Filter(w.table.routes, keep)), j, w.states[j])
  {
    forall j | j in w.states && j != i
      ensures Installed(w.table.(routes := Filter(w.table.routes, keep)), j, w.states[j])
    {
      InstalledAfterFilter(w.table, keep, j, w.states[j]);
    }
  }

  lemma OthersAfterAdd(w: World, r: Route, next: nat)
    requires AllAgree(w)
    ensures forall j :: j in w.states && (j != r.via || r.source == Static) ==>
              Installed(Table(w.table.routes + [r], next), j, w.states[j])
  {
    forall j | j in w.states && (j != r.via || r.source == Static)
      ensures Installed(Table(w.table.routes + [r], next), j, w.states[j])
    {
      InstalledAfterAdd(w.table, r, next, j, w.states[j]);
    }
  }

  /** A static route of the same destination and cost stands in the way of the connected one. */
  predicate Blocked(t: Table, i: Interface, network: Cidr) {
    exists r :: r in t.routes && Same(r, network, i, 0)
  }

  lemma AcquireSucceedsIff(w: World, i: Interface, c: Cidr)
    requires Owned(w) && Attached(w, i)
    ensures Acquire(w, i, Network(c)).ok <==> Network(c) in w.states[i].connected || !Blocked(w.table, i, Network(c))
  {
    NetworkTwice(c);
    if exists k :: 0 <= k < |w.table.routes| && Same(w.table.routes[k], Network(c), i, 0) {
      var k :| 0 <= k < |w.table.routes| && Same(w.table.routes[k], Network(c), i, 0);
      assert w.table.routes[k] in w.table.routes;
    }
  }

  lemma AgreesElsewhere(w: World, v: World, i: Interface)
    requires AllAgree(w) && i in w.states
    requires v.states.Keys == w.states.Keys && forall j :: j in w.states && j != i ==> v.states[j] == w.states[j]
    requires forall j :: j in w.states && j != i ==> Installed(v.table, j, w.states[j])
    requires Agrees(v, i)
    requires forall r :: r in v.table.routes && r.source == Connected ==> r in w.table.routes || r.via == i
    ensures AllAgree(v)
  {
    forall j | j in v.states ensures Agrees(v, j) {
      assert j != i ==> Agrees(w, j);
    }
  }

  lemma InstalledDepends(t: Table, i: Interface, s: Iface, v: Iface)
    requires Installed(t, i, s) && v.connected.Keys == s.connected.Keys
    requires forall n :: n in s.connected ==> v.connected[n].handle == s.connected[n].handle
    ensures Installed(t, i, v)
  {
    forall n | n in v.connected ensures RouteOf(i, n, v.connected[n]) in t.routes {
      assert RouteOf(i, n, s.connected[n]) in t.routes;
    }
  }

  lemma OthersKept(w: World, i: Interface)
    requires AllAgree(w)
    ensures forall j :: j in w.states && j != i ==> Installed(w.table, j, w.states[j])
  {
    forall j | j in w.states && j != i ensures Installed(w.table, j, w.states[j]) {
      assert Agrees(w, j);
    }
  }

  lemma StateReplaced(w: World, i: Interface, v: Iface)
    requires AllAgree(w) && i in w.states
    requires Counted(v) && Installed(w.table, i, v) && Limits(v)
    ensures AllAgree(w.(states := w.states[i := v]))
  {
    OthersKept(w, i);
    AgreesElsewhere(w, w.(states := w.states[i := v]), i);
  }

  lemma AcquireSharedIs(w: World, i: Interface, c: Cidr)
    requires i in w.states && Network(c) in w.states[i].connected
    ensures var k := w.states[i].connected[Network(c)];
      PutAddress(Acquire(w, i, Network(c)).world, i, c) ==
      w.(states := w.states[i := Grown(w.states[i], c, k.(references := k.references + 1))])
  {
  }

  lemma AcquireSharedAgrees(w: World, i: Interface, c: Cidr)
    requires AllAgree(w) && Attached(w, i) && c !in w.states[i].addresses
    requires Network(c) in w.states[i].connected
    requires Limits(w.states[i].(addresses := w.states[i].addresses[c := Network(c)]))
    ensures AllAgree(PutAddress(Acquire(w, i, Network(c)).world, i, c))
  {
    AcquireSharedIs(w, i, c);
    var k := w.states[i].connected[Network(c)];
    SharedRouteAgrees(w, i, c, k.(references := k.references + 1));
  }

  lemma SharedRouteAgrees(w: World, i: Interface, c: Cidr, k: ConnectedRoute)
    requires AllAgree(w) && i in w.states && c !in w.states[i].addresses && Network(c) in w.states[i].connected
    requires k.handle == w.states[i].connected[Network(c)].handle
    requires k.references == w.states[i].connected[Network(c)].references + 1 && Limits(Grown(w.states[i], c, k))
    ensures AllAgree(w.(states := w.states[i := Grown(w.states[i], c, k)]))
  {
    var s := w.states[i];
    assert Agrees(w, i);
    CountedGrows(s, c, k);
    InstalledDepends(w.table, i, s, Grown(s, c, k));
    StateReplaced(w, i, Grown(s, c, k));
  }

  lemma InstalledGrows(t: Table, i: Interface, s: Iface, c: Cidr)
    requires Installed(t, i, s) && Network(c) !in s.connected
    ensures var k := ConnectedRoute(t.nextOrder, 1);
      Installed(Table(t.routes + [RouteOf(i, Network(c), k)], t.nextOrder + 1), i, Grown(s, c, k))
  {
    var k := ConnectedRoute(t.nextOrder, 1);
    var v := Grown(s, c, k);
    var routes := t.routes + [RouteOf(i, Network(c), k)];
    assert RouteOf(i, Network(c), k) == routes[|t.routes|];
    forall n | n in v.connected ensures RouteOf(i, n, v.connected[n]) in routes {
      if n != Network(c) {
        assert RouteOf(i, n, s.connected[n]) in t.routes;
      }
    }
  }

  lemma AcquireNewIs(w: World, i: Interface, c: Cidr)
    requires i in w.states && Network(c) !in w.states[i].connected && Acquire(w, i, Network(c)).ok
    ensures var k := ConnectedRoute(w.table.nextOrder, 1);
      PutAddress(Acquire(w, i, Network(c)).world, i, c) ==
      w.(table := Table(w.table.routes + [RouteOf(i, Network(c), k)], w.table.nextOrder + 1),
         states := w.states[i := Grown(w.states[i], c, k)])
  {
  }

  lemma NewRouteAgrees(w: World, i: Interface, c: Cidr, k: ConnectedRoute)
    requires AllAgree(w) && i in w.states && c !in w.states[i].addresses && Network(c) !in w.states[i].connected
    requires k == ConnectedRoute(w.table.nextOrder, 1) && Limits(Grown(w.states[i], c, k))
    ensures AllAgree(
      w.(table := Table(w.table.routes + [RouteOf(i, Network(c), k)], w.table.nextOrder + 1),
         states := w.states[i := Grown(w.states[i], c, k)]))
  {
    var s := w.states[i];
    var t := Table(w.table.routes + [RouteOf(i, Network(c), k)], w.table.nextOrder + 1);
    assert Agrees(w, i);
    CountedGrows(s, c, k);
    NewRouteInstalled(w, i, c, k, t);
    TableAndStateReplaced(w, i, t, Grown(s, c, k));
  }

  lemma NewRouteInstalled(w: World, i: Interface, c: Cidr, k: ConnectedRoute, t: Table)
    requires AllAgree(w) && i in w.states && Network(c) !in w.states[i].connected
    requires k == ConnectedRoute(w.table.nextOrder, 1)
    requires t == Table(w.table.routes + [RouteOf(i, Network(c), k)], w.table.nextOrder + 1)
    ensures Installed(t, i, Grown(w.states[i], c, k))
    ensures forall j :: j in w.states && j != i ==> Installed(t, j, w.states[j])
  {
    assert Agrees(w, i);
    InstalledGrows(w.table, i, w.states[i], c);
    OthersAfterAdd(w, RouteOf(i, Network(c), k), w.table.nextOrder + 1);
  }

  lemma TableAndStateReplaced(w: World, i: Interface, t: Table, v: Iface)
    requires AllAgree(w) && i in w.states && Counted(v) && Limits(v) && Installed(t, i, v)
    requires forall j :: j in w.states && j != i ==> Installed(t, j, w.states[j])
    requires forall r :: r in t.routes && r.source == Connected ==> r in w.table.routes || r.via == i
    ensures AllAgree(w.(table := t, states := w.states[i := v]))
  {
    AgreesElsewhere(w, w.(table := t, states := w.states[i := v]), i);
  }

  lemma AcquireNewAgrees(w: World, i: Interface, c: Cidr)
    requires Owned(w) && AllAgree(w) && Attached(w, i) && c !in w.states[i].addresses
    requires Network(c) !in w.states[i].connected && Acquire(w, i, Network(c)).ok
    requires Limits(w.states[i].(addresses := w.states[i].addresses[c := Network(c)]))
    ensures AllAgree(PutAddress(Acquire(w, i, Network(c)).world, i, c))
  {
    AcquireNewIs(w, i, c);
    NewRouteAgrees(w, i, c, ConnectedRoute(w.table.nextOrder, 1));
  }

  /** An address and its share of the connected route. */
  lemma AcquirePutAgrees(w: World, i: Interface, c: Cidr)
    requires Owned(w) && AllAgree(w) && Attached(w, i) && c !in w.states[i].addresses
    requires Acquire(w, i, Network(c)).ok
    requires Limits(w.states[i].(addresses := w.states[i].addresses[c := Network(c)]))
    ensures AllAgree(PutAddress(Acquire(w, i, Network(c)).world, i, c))
  {
    if Network(c) in w.states[i].connected {
      AcquireSharedAgrees(w, i, c);
    } else {
      AcquireNewAgrees(w, i, c);
    }
  }

  lemma LimitsGrow(s: Iface, c: Cidr)
    requires Limits(s)
    requires c.address.family == V4 ==> !HasFamily(s, V4)
    requires c.address.family == V6 ==> s.mtu >= MIN_IPV6_MTU
    ensures Limits(s.(addresses := s.addresses[c := Network(c)]))
  {
    var v := s.(addresses := s.addresses[c := Network(c)]);
    assert HasFamily(v, V6) ==> c.address.family == V6 || HasFamily(s, V6);
  }

  lemma LimitsShrink(s: Iface, v: Iface)
    requires Limits(s) && v.mtu == s.mtu && v.addresses.Keys <= s.addresses.Keys
    ensures Limits(v)
  {
  }

  lemma AddAddressAgrees(w: World, i: Interface, text: string, accepted: bool)
    requires Owned(w) && AllAgree(w)
    ensures AllAgree(AddAddress(w, i, text, accepted).world)
  {
    if AddAddress(w, i, text, accepted).world != w {
      var c := ParseInterfaceCidr(text).value;
      assert Agrees(w, i);
      LimitsGrow(w.states[i], c);
      AcquirePutAgrees(w, i, c);
    }
  }

  /** The state an interface has once the address is gone. */
  function Shrunk(s: Iface, c: Cidr): Iface
    requires c in s.addresses && s.addresses[c] in s.connected
  {
    var n := s.addresses[c];
    var k := s.connected[n];
    s.(addresses := s.addresses - {c},
       connected := if k.references > 1 then s.connected[n := k.(references := k.references - 1)]
         else s.connected - {n})
  }

  function ShrunkTable(t: Table, s: Iface, c: Cidr): Table
    requires c in s.addresses && s.addresses[c] in s.connected
  {
    var k := s.connected[s.addresses[c]];
    if k.references > 1 then t else DisposeRoute(t, k.handle)
  }

  lemma RemoveAddressIs(w: World, i: Interface, c: Cidr)
    requires i in w.states && c in w.states[i].addresses && w.states[i].addresses[c] in w.states[i].connected
    ensures var v := Release(w, i, w.states[i].addresses[c]);
      v.(states := v.states[i := v.states[i].(addresses := v.states[i].addresses - {c})]) ==
      w.(table := ShrunkTable(w.table, w.states[i], c), states := w.states[i := Shrunk(w.states[i], c)])
  {
  }

  lemma InstalledShrinks(w: World, i: Interface, c: Cidr)
    requires Owned(w) && AllAgree(w) && i in w.states && c in w.states[i].addresses
    requires w.states[i].addresses[c] == Network(c) && Network(c) in w.states[i].connected
    ensures Installed(ShrunkTable(w.table, w.states[i], c), i, Shrunk(w.states[i], c))
    ensures forall j :: j in w.states && j != i ==> Installed(ShrunkTable(w.table, w.states[i], c), j, w.states[j])
  {
    assert Agrees(w, i);
    ShrunkInstalled(w.table, i, w.states[i], c);
    if w.states[i].connected[Network(c)].references > 1 {
      OthersKept(w, i);
    } else {
      OthersUndisposed(w, i, Network(c));
    }
  }

  lemma ShrunkInstalled(t: Table, i: Interface, s: Iface, c: Cidr)
    requires Proper(t) && Installed(t, i, s) && c in s.addresses && s.addresses[c] in s.connected
    ensures Installed(ShrunkTable(t, s, c), i, Shrunk(s, c))
  {
    var n := s.addresses[c];
    if s.connected[n].references > 1 {
      InstalledDepends(t, i, s, Shrunk(s, c));
    } else {
      ReleasedIsLast(t, i, s, n);
      InstalledDepends(ShrunkTable(t, s, c), i, s.(connected := s.connected - {n}), Shrunk(s, c));
    }
  }

  lemma OthersUndisposed(w: World, i: Interface, n: Cidr)
    requires Owned(w) && AllAgree(w) && i in w.states && n in w.states[i].connected
    ensures var t := DisposeRoute(w.table, w.states[i].connected[n].handle);
      forall j :: j in w.states && j != i ==> Installed(t, j, w.states[j])
  {
    HandleStands(w, i, n);
    var h := w.states[i].connected[n].handle;
    OthersAfterFilter(w, (r: Route) => r.order != h, i);
  }

  lemma CountedShrinks(s: Iface, c: Cidr)
    requires Counted(s) && c in s.addresses
    ensures Counted(Shrunk(s, c))
  {
    var n := Network(c);
    var k := s.connected[n];
    var v := Shrunk(s, c);
    assert c in AddressesOn(s, n);
    forall m | m in v.connected ensures v.connected[m].references == |AddressesOn(v, m)| {
      AddressesOnDrop(s, c, m);
      AddressesOnDepends(v, s.(addresses := s.addresses - {c}), m);
    }
    if k.references == 1 {
      OnlyOne(AddressesOn(s, n), c);
      forall d | d in v.addresses ensures Network(d) != n {
        assert Network(d) == n ==> d in AddressesOn(s, n);
      }
    }
  }

  lemma RemoveAddressAgrees(w: World, i: Interface, text: string, accepted: bool)
    requires Owned(w) && AllAgree(w)
    ensures AllAgree(RemoveAddress(w, i, text, accepted).world)
  {
    if RemoveAddress(w, i, text, accepted).world != w {
      RemovalAgrees(w, i, ParseInterfaceCidr(text).value);
    }
  }

  lemma ShrunkAgrees(w: World, i: Interface, c: Cidr)
    requires Owned(w) && AllAgree(w) && i in w.states && c in w.states[i].addresses
    requires w.states[i].addresses[c] == Network(c) && Network(c) in w.states[i].connected
    ensures AllAgree(w.(table := ShrunkTable(w.table, w.states[i], c), states := w.states[i := Shrunk(w.states[i], c)]))
  {
    var s := w.states[i];
    assert Agrees(w, i);
    CountedShrinks(s, c);
    LimitsShrink(s, Shrunk(s, c));
    InstalledShrinks(w, i, c);
    TableAndStateReplaced(w, i, ShrunkTable(w.table, s, c), Shrunk(s, c));
  }

  lemma RemovalAgrees(w: World, i: Interface, c: Cidr)
    requires Owned(w) && AllAgree(w) && i in w.states && c in w.states[i].addresses
    ensures var v := Release(w, i, w.states[i].addresses[c]);
      AllAgree(v.(states := v.states[i := v.states[i].(addresses := v.states[i].addresses - {c})]))
  {
    assert Agrees(w, i);
    RemoveAddressIs(w, i, c);
    ShrunkAgrees(w, i, c);
  }

  lemma SameOrderSame(t: Table, r: Route, s: Route)
    requires Proper(t) && r in t.routes && s in t.routes && r.order == s.order
    ensures r == s
  {
    var j :| 0 <= j < |t.routes| && t.routes[j] == r;
    var k :| 0 <= k < |t.routes| && t.routes[k] == s;
    assert j < k ==> Distinct(r, s);
    assert k < j ==> Distinct(s, r);
  }

  /** Disposing the route of a network leaves the routes of the others. */
  lemma ReleasedIsLast(t: Table, i: Interface, s: Iface, n: Cidr)
    requires Proper(t) && Installed(t, i, s) && n in s.connected
    ensures Installed(DisposeRoute(t, s.connected[n].handle), i, s.(connected := s.connected - {n}))
  {
    var h := s.connected[n].handle;
    var v := s.(connected := s.connected - {n});
    var u := DisposeRoute(t, h);
    forall m | m in v.connected ensures RouteOf(i, m, v.connected[m]) in u.routes {
      if s.connected[m].handle == h {
        SameOrderSame(t, RouteOf(i, m, s.connected[m]), RouteOf(i, n, s.connected[n]));
      }
    }
    forall r | r in u.routes && r.via == i && r.source == Connected
      ensures r.destination in v.connected && r == RouteOf(i, r.destination, v.connected[r.destination])
    {
      assert r in t.routes;
    }
  }

  lemma DetachedAgrees(w: World, i: Interface, keep: Route -> bool)
    requires AllAgree(w) && i in w.states
    requires forall r :: r in w.table.routes && r.via != i && r.source == Connected ==> keep(r)
    requires forall r :: r in w.table.routes && r.via == i && r.source == Connected ==> !keep(r)
    ensures AllAgree(w.(table := w.table.(routes := Filter(w.table.routes, keep)),
                        states := w.states[i := Iface(map[], map[], true, w.states[i].mtu)]))
  {
    var v := w.(table := w.table.(routes := Filter(w.table.routes, keep)),
                states := w.states[i := Iface(map[], map[], true, w.states[i].mtu)]);
    OthersAfterFilter(w, keep, i);
    AgreesElsewhere(w, v, i);
  }

  lemma DetachAgrees(w: World, i: Interface, terminal: bool)
    requires Owned(w) && AllAgree(w)
    ensures AllAgree(Detach(w, i, terminal).world)
  {
    if i in w.states && !w.states[i].detached {
      var s := w.states[i];
      assert Agrees(w, i);
      HandlesApart(w, i);
      DetachedAgrees(w, i, (r: Route) => r.order !in Handles(s));
    }
  }

  lemma RemoveAgrees(w: World, i: Interface)
    requires Owned(w) && AllAgree(w)
    ensures AllAgree(Remove(w, i).world)
  {
    var o := Detach(w, i, false);
    if !w.disposed && o.ok {
      DetachKeepsOwned(w, i, false);
      DetachAgrees(w, i, false);
      var keep := (r: Route) => r.via != i;
      var v := o.world;
      OthersAfterFilter(v, keep, i);
      assert Agrees(v, i);
      AgreesElsewhere(v, Remove(w, i).world, i);
    }
  }

  lemma DisposeAgrees(w: World)
    requires Owned(w) && AllAgree(w)
    ensures AllAgree(Dispose(w).world)
  {
    DisposeKeepsOwned(w);
    var v := Dispose(w).world;
    if !w.disposed {
      forall i | i in v.states ensures Agrees(v, i) {
        assert StateOk(w, i, w.states[i]);
      }
    }
  }

  lemma UserRoutesAgree(w: World, e: Event)
    requires Owned(w) && AllAgree(w) && (e.RouteAdded? || e.RouteDisposed?)
    ensures AllAgree(Step(w, e).world)
  {
    var v := Step(w, e).world;
    if e.RouteAdded? && v != w {
      var r := Route(ParseInterfaceCidr(e.text).value, e.via, e.metric, Static, w.table.nextOrder);
      OthersAfterAdd(w, r, w.table.nextOrder + 1);
      forall j | j in v.states ensures Agrees(v, j) {
        assert Agrees(w, j);
      }
    } else if v != w {
      forall j | j in v.states ensures Agrees(v, j) {
        assert Agrees(w, j);
        forall r | r in w.table.routes && r.via == j && r.source == Connected ensures r.order != e.handle {
          HandleStands(w, j, r.destination);
        }
        InstalledAfterFilter(w.table, (r: Route) => r.order != e.handle, j, w.states[j]);
      }
    }
  }

  lemma SetMtuAgrees(w: World, i: Interface, mtu: int, accepted: bool)
    requires AllAgree(w)
    ensures AllAgree(SetMtu(w, i, mtu, accepted).world)
  {
    if SetMtu(w, i, mtu, accepted).ok {
      var s := w.states[i];
      var v := s.(mtu := mtu);
      assert Agrees(w, i);
      forall n | n in v.connected ensures AddressesOn(v, n) == AddressesOn(s, n) {
        AddressesOnDepends(s, v, n);
      }
      StateReplaced(w, i, v);
    }
  }

  // ---------------------------------------------------------------- attaching

  /** The canonical addresses of the texts before the first that cannot be read. */
  function Readable(texts: seq<string>): seq<Cidr> {
    if texts == [] || ParseInterfaceCidr(texts[0]).None? then []
    else [ParseInterfaceCidr(texts[0]).value] + Readable(texts[1..])
  }

  /** Nothing is attached twice, and no user route is in the way of a connected one. */
  ghost predicate Attachable(t: Table, i: Interface, addresses: seq<Cidr>) {
    && (forall j, k :: 0 <= j < k < |addresses| ==> addresses[j] != addresses[k])
    && (forall j :: 0 <= j < |addresses| ==> !Blocked(t, i, Network(addresses[j])))
  }

  ghost predicate AttachableOnto(w: World, i: Interface, addresses: seq<Cidr>)
    requires i in w.states
  {
    && (forall j, k :: 0 <= j < k < |addresses| ==> addresses[j] != addresses[k])
    && (forall j :: 0 <= j < |addresses| ==>
          && addresses[j] !in w.states[i].addresses
          && (Network(addresses[j]) in w.states[i].connected || !Blocked(w.table, i, Network(addresses[j]))))
  }

  /** More references than addresses. */
  ghost predicate Excess(s: Iface, n: Cidr) {
    n in s.connected && s.connected[n].references > |AddressesOn(s, n)|
  }

  lemma PutAcquireIs(w: World, i: Interface, c: Cidr)
    requires i in w.states
    ensures var o := Acquire(PutAddress(w, i, c), i, Network(c));
      && o.ok == Acquire(w, i, Network(c)).ok
      && (o.ok ==> o.world == PutAddress(Acquire(w, i, Network(c)).world, i, c))
      && (!o.ok ==> o.world == PutAddress(w, i, c))
  {
  }

  lemma AcquirePutGrows(w: World, i: Interface, c: Cidr)
    requires i in w.states && Acquire(w, i, Network(c)).ok
    ensures var s := PutAddress(Acquire(w, i, Network(c)).world, i, c).states;
      && i in s
      && exists k: ConnectedRoute :: s[i] == Grown(w.states[i], c, k)
           && k.references == 1
             + if Network(c) in w.states[i].connected then w.states[i].connected[Network(c)].references else 0
  {
    if Network(c) in w.states[i].connected {
      var k := w.states[i].connected[Network(c)];
      AcquireSharedIs(w, i, c);
      assert PutAddress(Acquire(w, i, Network(c)).world, i, c).states[i] ==
        Grown(w.states[i], c, k.(references := k.references + 1));
    } else {
      assert PutAddress(Acquire(w, i, Network(c)).world, i, c).states[i]
          == Grown(w.states[i], c, ConnectedRoute(w.table.nextOrder, 1));
    }
  }

  lemma ExcessGrows(s: Iface, c: Cidr, k: ConnectedRoute, n: Cidr)
    requires k.references == 1 + if Network(c) in s.connected then s.connected[Network(c)].references else 0
    requires Excess(s, n) ||
      (n == Network(c) && c in s.addresses && s.addresses[c] == n && n in s.connected &&
        s.connected[n].references >= |AddressesOn(s, n)|)
    ensures Excess(Grown(s, c, k), n)
  {
    var v := Grown(s, c, k);
    assert AddressesOn(v, n) <= AddressesOn(s, n) + if n == Network(c) then {c} else {};
    if c in s.addresses && s.addresses[c] == n {
      assert AddressesOn(v, n) <= AddressesOn(s, n);
    }
    var more := if n == Network(c) && s.addresses != v.addresses then {c} else {};
    CardinalitySubset(AddressesOn(v, n), AddressesOn(s, n) + more);
  }

  lemma CardinalitySubset(small: set<Cidr>, large: set<Cidr>)
    requires small <= large
    ensures |small| <= |large|
  {
    assert large == small + (large - small);
  }

  lemma FailedNotCounted(w: World, i: Interface, c: Cidr)
    requires i in w.states && !Acquire(w, i, Network(c)).ok
    ensures !Counted(PutAddress(w, i, c).states[i])
  {
    assert c in PutAddress(w, i, c).states[i].addresses;
  }

  /** A surplus reference is never made up for. */
  lemma {:induction false} ExcessStays(w: World, i: Interface, texts: seq<string>, n: Cidr)
    requires i in w.states && Excess(w.states[i], n)
    ensures var v := AttachAll(w, i, texts).world; i in v.states && !Counted(v.states[i])
    decreases texts
  {
    if texts != [] && ParseInterfaceCidr(texts[0]).Some? {
      var c := ParseInterfaceCidr(texts[0]).value;
      PutAcquireIs(w, i, c);
      if Acquire(w, i, Network(c)).ok {
        AcquirePutGrows(w, i, c);
        var v := PutAddress(Acquire(w, i, Network(c)).world, i, c);
        var k: ConnectedRoute :| v.states[i] == Grown(w.states[i], c, k)
          && k.references == 1
            + if Network(c) in w.states[i].connected then w.states[i].connected[Network(c)].references else 0;
        ExcessGrows(w.states[i], c, k, n);
        ExcessStays(v, i, texts[1..], n);
      } else {
        FailedNotCounted(w, i, c);
      }
    }
  }

  lemma BlockedAfterAcquire(w: World, i: Interface, c: Cidr, m: Cidr)
    requires i in w.states && Acquire(w, i, Network(c)).ok && m != Network(c)
    ensures Blocked(Acquire(w, i, Network(c)).world.table, i, m) <==> Blocked(w.table, i, m)
  {
    var t := Acquire(w, i, Network(c)).world.table;
    if Blocked(w.table, i, m) {
      var r :| r in w.table.routes && Same(r, m, i, 0);
      assert r in t.routes;
    }
  }

  lemma OntoOne(w: World, i: Interface, c: Cidr, rest: seq<Cidr>)
    requires Owned(w) && Attached(w, i) && Acquire(w, i, Network(c)).ok
    ensures var v := PutAddress(Acquire(w, i, Network(c)).world, i, c);
      && i in v.states
      && (AttachableOnto(w, i, [c] + rest) <==> c !in w.states[i].addresses && AttachableOnto(v, i, rest))
  {
    var v := PutAddress(Acquire(w, i, Network(c)).world, i, c);
    AcquireSucceedsIff(w, i, c);
    AcquirePutGrows(w, i, c);
    var all := [c] + rest;
    assert forall j :: 0 <= j < |rest| ==> all[j + 1] == rest[j];
    forall j | 0 <= j < |rest|
      ensures (&& rest[j] !in v.states[i].addresses
               && (Network(rest[j]) in v.states[i].connected || !Blocked(v.table, i, Network(rest[j]))))
        <==> (&& rest[j] != c && rest[j] !in w.states[i].addresses
              && (Network(rest[j]) in w.states[i].connected || !Blocked(w.table, i, Network(rest[j]))))
    {
      if Network(rest[j]) != Network(c) {
        BlockedAfterAcquire(w, i, c, Network(rest[j]));
      }
    }
    if AttachableOnto(w, i, all) {
      assert all[0] == c;
      forall j | 0 <= j < |rest| ensures rest[j] != c {
        assert all[j + 1] == rest[j];
      }
    }
    if c !in w.states[i].addresses && AttachableOnto(v, i, rest) {
      forall j, k | 0 <= j < k < |all| ensures all[j] != all[k] {
        if j > 0 {
          assert rest[j - 1] != rest[k - 1];
        } else {
          assert rest[k - 1] != c;
        }
      }
    }
  }

  lemma {:induction false} AttachAllCountsIff(w: World, i: Interface, texts: seq<string>)
    requires Owned(w) && Attached(w, i) && Counted(w.states[i])
    ensures var v := AttachAll(w, i, texts).world;
      i in v.states && (Counted(v.states[i]) <==> AttachableOnto(w, i, Readable(texts)))
    decreases texts
  {
    if texts != [] && ParseInterfaceCidr(texts[0]).Some? {
      var c := ParseInterfaceCidr(texts[0]).value;
      var rest := Readable(texts[1..]);
      PutAcquireIs(w, i, c);
      AcquireSucceedsIff(w, i, c);
      assert ([c] + rest)[0] == c;
      if !Acquire(w, i, Network(c)).ok {
        FailedNotCounted(w, i, c);
      } else {
        var v := PutAddress(Acquire(w, i, Network(c)).world, i, c);
        AcquirePutGrows(w, i, c);
        var k: ConnectedRoute :| v.states[i] == Grown(w.states[i], c, k)
          && k.references == 1
            + if Network(c) in w.states[i].connected then w.states[i].connected[Network(c)].references else 0;
        OntoOne(w, i, c, rest);
        if c in w.states[i].addresses {
          ExcessGrows(w.states[i], c, k, Network(c));
          ExcessStays(v, i, texts[1..], Network(c));
        } else {
          CountedGrows(w.states[i], c, k);
          AcquireKeepsOwned(w, i, Network(c));
          PutAddressKeepsOwned(Acquire(w, i, Network(c)).world, i, c);
          AttachAllCountsIff(v, i, texts[1..]);
        }
      }
    }
  }

  /**
   Attaching a list of addresses leaves counts that agree with the addresses exactly when no address
   is listed twice and no user route to the interface stands in the way.
   */
  lemma AttachCountsIff(w: World, i: Interface, texts: seq<string>, mtu: nat)
    requires Owned(w) && !w.disposed && i in w.owned && i !in w.states
    ensures var v := Attach(w, i, texts, mtu).world;
      i in v.states && (Counted(v.states[i]) <==> Attachable(w.table, i, Readable(texts)))
  {
    var u := w.(states := w.states[i := Iface(map[], map[], false, mtu)]);
    AttachAllCountsIff(u, i, texts);
  }

  // ---------------------------------------------------------------- whole runs

  /** Nothing stands in the way of the connected route of an interface that is being attached. */
  ghost predicate Unobstructed(w: World, e: Event) {
    e.AttachRequest? && !ReadsAsV6(e.initial) && !w.disposed && e.i in w.owned && e.i !in w.states ==>
      Attachable(w.table, e.i, Readable(Initial(e.initial)))
  }

  lemma FreshAgrees(w: World, i: Interface, mtu: nat)
    requires Owned(w) && AllAgree(w) && i in w.owned && i !in w.states
    ensures var u := w.(states := w.states[i := Iface(map[], map[], false, mtu)]);
      Owned(u) && AllAgree(u)
  {
    FreshKeepsOwned(w, i, mtu);
    var u := w.(states := w.states[i := Iface(map[], map[], false, mtu)]);
    forall j | j in u.states ensures Agrees(u, j) {
      assert j != i ==> Agrees(w, j);
    }
  }

  lemma AttachOne(u: World, i: Interface, text: string)
    requires i in u.states && ParseInterfaceCidr(text).Some?
    ensures var c := ParseInterfaceCidr(text).value;
      AttachAll(u, i, [text]) ==
        if Acquire(u, i, Network(c)).ok then Outcome(PutAddress(Acquire(u, i, Network(c)).world, i, c), true)
        else Outcome(PutAddress(u, i, c), false)
  {
    PutAcquireIs(u, i, ParseInterfaceCidr(text).value);
    assert [text][1..] == [];
  }

  lemma AttachOneAgrees(w: World, i: Interface, text: string, mtu: nat)
    requires Owned(w) && AllAgree(w) && !w.disposed && i in w.owned && i !in w.states
    requires ParseInterfaceCidr(text).Some? && ParseInterfaceCidr(text).value.address.family == V4
    requires !Blocked(w.table, i, Network(ParseInterfaceCidr(text).value))
    ensures AllAgree(Attach(w, i, [text], mtu).world)
  {
    var c := ParseInterfaceCidr(text).value;
    var u := w.(states := w.states[i := Iface(map[], map[], false, mtu)]);
    FreshAgrees(w, i, mtu);
    AttachOne(u, i, text);
    AcquireSucceedsIff(u, i, c);
    LimitsGrow(u.states[i], c);
    AcquirePutAgrees(u, i, c);
  }

  lemma AttachAgrees(w: World, e: Event)
    requires Owned(w) && AllAgree(w) && e.AttachRequest? && Unobstructed(w, e)
    ensures AllAgree(Step(w, e).world)
  {
    if !ReadsAsV6(e.initial) && !w.disposed && e.i in w.owned && e.i !in w.states {
      if e.initial.Some? && ParseInterfaceCidr(e.initial.value).Some? {
        var c := ParseInterfaceCidr(e.initial.value).value;
        assert Readable(Initial(e.initial))[0] == c;
        AttachOneAgrees(w, e.i, e.initial.value, e.mtu);
      } else {
        FreshAgrees(w, e.i, e.mtu);
      }
    }
  }

  lemma AttachAgreesIff(w: World, e: Event)
    requires Owned(w) && AllAgree(w) && e.AttachRequest?
    ensures AllAgree(Step(w, e).world) <==> Unobstructed(w, e)
  {
    if Unobstructed(w, e) {
      AttachAgrees(w, e);
    } else {
      AttachCountsIff(w, e.i, Initial(e.initial), e.mtu);
      WrongCountsDisagree(Attach(w, e.i, Initial(e.initial), e.mtu).world, e.i);
    }
  }

  lemma WrongCountsDisagree(w: World, i: Interface)
    requires i in w.states && !Counted(w.states[i])
    ensures !AllAgree(w)
  {
  }

  /** A step keeps counts and connected routes in agreement exactly when no attach is obstructed. */
  lemma StepAgreesIff(w: World, e: Event)
    requires Owned(w) && AllAgree(w)
    ensures AllAgree(Step(w, e).world) <==> Unobstructed(w, e)
  {
    match e {
      case Registered(_) =>
        assert forall i :: i in w.states ==> Agrees(w, i);
      case AttachRequest(_, _, _) => AttachAgreesIff(w, e);
      case AddressAdded(i, text, accepted) => AddAddressAgrees(w, i, text, accepted);
      case AddressRemoved(i, text, accepted) => RemoveAddressAgrees(w, i, text, accepted);
      case MtuSet(i, mtu, accepted) => SetMtuAgrees(w, i, mtu, accepted);
      case RouteAdded(_, _, _) => UserRoutesAgree(w, e);
      case RouteDisposed(_) => UserRoutesAgree(w, e);
      case Removed(i) => RemoveAgrees(w, i);
      case Disposed => DisposeAgrees(w);
    }
  }

  lemma TwoEvents(w: World, a: Event, b: Event)
    ensures After(w, [a, b]) == Step(Step(w, a).world, b).world
  {
    assert [a, b][1..] == [b] && [b][1..] == [];
    assert After(Step(w, a).world, [b]) == After(Step(Step(w, a).world, b).world, []);
  }

  /** A stack with one interface that is not attached yet and a user route to it. */
  function Obstructed(i: Interface, network: Cidr): World {
    World(Table([Route(network, i, 0, Static, 1)], 2), map[], {i}, {i}, {1}, false)
  }

  lemma ObstructedIsReached(i: Interface, network: Cidr, text: string)
    requires ParseInterfaceCidr(text) == Some(network) && Network(network) == network
    ensures After(Fresh, [Registered(i), RouteAdded(text, i, 0)]) == Obstructed(i, network)
  {
    var w := Step(Fresh, Registered(i)).world;
    TwoEvents(Fresh, Registered(i), RouteAdded(text, i, 0));
    FirstRoute(w, i, network, text);
    assert Step(w, RouteAdded(text, i, 0)) == AddUserRoute(w, text, i, 0);
  }

  lemma FirstRoute(w: World, i: Interface, network: Cidr, text: string)
    requires ParseInterfaceCidr(text) == Some(network) && Network(network) == network
    requires w == World(Routes.Empty, map[], {i}, {i}, {}, false)
    ensures AddUserRoute(w, text, i, 0).world == Obstructed(i, network)
  {
    assert AddChecked(w, network, i, 0, Static) == Some((Table([] + [Route(network, i, 0, Static, 1)], 2), 1));
  }

  lemma ObstructedIsSound(i: Interface, network: Cidr)
    requires Network(network) == network
    ensures Owned(Obstructed(i, network)) && AllAgree(Obstructed(i, network))
    ensures Blocked(Obstructed(i, network).table, i, network)
  {
    assert Route(network, i, 0, Static, 1) in Obstructed(i, network).table.routes;
  }

  lemma OneReadable(text: string, c: Cidr)
    requires ParseInterfaceCidr(text) == Some(c)
    ensures Readable([text]) == [c]
  {
    assert [text][1..] == [];
  }

  lemma BlockedNotAttachable(t: Table, i: Interface, c: Cidr)
    requires Blocked(t, i, Network(c))
    ensures !Attachable(t, i, [c])
  {
    assert [c][0] == c;
  }

  /**
   An attach that goes wrong: a user has added the route of the address's network while the interface was
   not attached yet.
   */
  lemma ObstructedAttach(i: Interface, c: Cidr, mtu: nat)
    requires ValidCidr(c) && c.address.family == V4
    ensures var w := After(Fresh, [Registered(i), RouteAdded(CidrText(Network(c)), i, 0)]);
      && Owned(w) && AllAgree(w)
      && !AllAgree(Step(w, AttachRequest(i, Some(CidrText(c)), mtu)).world)
  {
    var w := Obstructed(i, Network(c));
    NetworkTwice(c);
    CidrTextParses(Network(c));
    ObstructedIsReached(i, Network(c), CidrText(Network(c)));
    ObstructedIsSound(i, Network(c));
    CidrTextParses(c);
    OneReadable(CidrText(c), c);
    BlockedNotAttachable(w.table, i, c);
    StepAgreesIff(w, AttachRequest(i, Some(CidrText(c)), mtu));
  }

  /** Another: the same address is listed twice. */
  lemma AttachedTwice(w: World, i: Interface, c: Cidr, mtu: nat)
    requires Owned(w) && !w.disposed && i in w.owned && i !in w.states && ValidCidr(c)
    ensures var v := Attach(w, i, [CidrText(c), CidrText(c)], mtu).world; i in v.states && !Counted(v.states[i])
  {
    CidrTextParses(c);
    ReadableTwice(CidrText(c), c);
    TwiceNotAttachable(w.table, i, c);
    AttachCountsIff(w, i, [CidrText(c), CidrText(c)], mtu);
  }

  lemma TwiceNotAttachable(t: Table, i: Interface, c: Cidr)
    ensures !Attachable(t, i, [c, c])
  {
    assert [c, c][0] == [c, c][1];
  }

  lemma ReadableTwice(text: string, c: Cidr)
    requires ParseInterfaceCidr(text) == Some(c)
    ensures Readable([text, text]) == [c, c]
  {
    assert [text, text][1..] == [text] && [text][1..] == [];
    assert Readable([text]) == [c] + Readable([]);
    assert Readable([text, text]) == [c] + Readable([text]);
  }

  ghost predicate Clear(w: World, events: seq<Event>)
    decreases |events|
  {
    events == [] || (Unobstructed(w, events[0]) && Clear(Step(w, events[0]).world, events[1..]))
  }

  lemma {:induction false} RunAgrees(w: World, events: seq<Event>)
    requires Owned(w) && AllAgree(w) && Clear(w, events)
    ensures AllAgree(After(w, events)) && Owned(After(w, events))
    decreases |events|
  {
    if events != [] {
      StepAgreesIff(w, events[0]);
      StepKeepsOwned(w, events[0]);
      RunAgrees(Step(w, events[0]).world, events[1..]);
    }
  }

  ghost function ConnectedTo(t: Table, i: Interface, network: Cidr): set<Route> {
    set r | r in t.routes && r.via == i && r.source == Connected && r.destination == network
  }

  /** One connected route to a network with addresses on it, none to the others. */
  lemma OneRoutePerNetwork(t: Table, i: Interface, s: Iface, network: Cidr)
    requires Counted(s) && Installed(t, i, s)
    ensures network in s.connected <==> AddressesOn(s, network) != {}
    ensures |ConnectedTo(t, i, network)| == if AddressesOn(s, network) == {} then 0 else 1
  {
    if network in s.connected {
      assert ConnectedTo(t, i, network) == {RouteOf(i, network, s.connected[network])};
      assert |AddressesOn(s, network)| > 0;
    } else {
      assert ConnectedTo(t, i, network) == {};
      assert forall c :: c in s.addresses ==> s.addresses[c] != network;
    }
  }

  /**
   In every run without obstructed attaches: the count of a network is the number of the interface's
   addresses on it, the table holds one connected route to it if there are any and none otherwise, an
   interface has at most one IPv4 address, and with IPv6 addresses its MTU is at least 1280.
   */
  lemma CountsMatchRoutes(events: seq<Event>, i: Interface, network: Cidr)
    requires Clear(Fresh, events) && i in After(Fresh, events).states
    ensures var w := After(Fresh, events); var s := w.states[i];
      && (network in s.connected <==> AddressesOn(s, network) != {})
      && (network in s.connected ==> s.connected[network].references == |AddressesOn(s, network)|)
      && |ConnectedTo(w.table, i, network)| == (if AddressesOn(s, network) == {} then 0 else 1)
      && (forall c, d :: c in s.addresses && d in s.addresses && c.address.family == V4 && d.address.family == V4 ==>
        c == d)
      && (forall c :: c in s.addresses && c.address.family == V6 ==> s.mtu >= MIN_IPV6_MTU)
  {
    RunAgrees(Fresh, events);
    var w := After(Fresh, events);
    assert Agrees(w, i);
    OneRoutePerNetwork(w.table, i, w.states[i], network);
  }

  // ---------------------------------------------------------------- failures and undoing

  /**
   An operation that throws changes nothing. Only an attach that fails on its address does not take
   back all it did: the interface then counts as attached.
   */
  lemma FailureChangesNothing(w: World, e: Event)
    requires Owned(w) && !Step(w, e).ok
    ensures !e.AttachRequest? ==> Step(w, e).world == w
    ensures e.AttachRequest? ==> (
      var v := Step(w, e).world;
      && v.table == w.table && v.owned == w.owned
      && w.states.Keys <= v.states.Keys && forall i :: i in w.states ==> v.states[i] == w.states[i])
  {
    if e.AttachRequest? {
      FailedAttach(w, e);
    }
  }

  lemma FailedAttach(w: World, e: Event)
    requires Owned(w) && e.AttachRequest? && !Step(w, e).ok
    ensures var v := Step(w, e).world;
      && v.table == w.table && v.owned == w.owned
      && w.states.Keys <= v.states.Keys && forall i :: i in w.states ==> v.states[i] == w.states[i]
  {
    var u := w.(states := w.states[e.i := Iface(map[], map[], false, e.mtu)]);
    if e.initial.Some? && ParseInterfaceCidr(e.initial.value).Some? {
      AttachOne(u, e.i, e.initial.value);
    }
  }

  lemma ShrunkGrown(s: Iface, c: Cidr, k: ConnectedRoute)
    requires c !in s.addresses
    requires Network(c) in s.connected ==>
      k == s.connected[Network(c)].(references := s.connected[Network(c)].references + 1) && k.references > 1
    requires Network(c) !in s.connected ==> k.references == 1
    ensures Shrunk(Grown(s, c, k), c) == s
  {
    var v := Shrunk(Grown(s, c, k), c);
    assert v.addresses == s.addresses;
    assert v.connected == s.connected;
  }

  lemma DisposeUndoesAdd(t: Table, r: Route)
    requires Proper(t) && r.order == t.nextOrder
    ensures DisposeRoute(Table(t.routes + [r], t.nextOrder + 1), r.order).routes == t.routes
  {
    FilterAppend(t.routes, r, (x: Route) => x.order != r.order);
    FilterAll(t.routes, (x: Route) => x.order != r.order);
  }

  /** The world after the address was added and removed again. */
  function Removed(a: World, i: Interface, c: Cidr): World
    requires i in a.states && c in a.states[i].addresses && a.states[i].addresses[c] in a.states[i].connected
  {
    a.(table := ShrunkTable(a.table, a.states[i], c), states := a.states[i := Shrunk(a.states[i], c)])
  }

  lemma StatesRestored(states: map<Interface, Iface>, i: Interface, g: Iface)
    requires i in states
    ensures states[i := g][i := states[i]] == states
  {
  }

  lemma SharedUndone(w: World, i: Interface, c: Cidr)
    requires i in w.states && c !in w.states[i].addresses && Network(c) in w.states[i].connected
    requires w.states[i].connected[Network(c)].references > 0
    ensures var a := PutAddress(Acquire(w, i, Network(c)).world, i, c);
      && i in a.states && c in a.states[i].addresses
      && a.states[i].addresses[c] == Network(c) && Network(c) in a.states[i].connected
      && Removed(a, i, c) == w
  {
    AcquireSharedIs(w, i, c);
    var s := w.states[i];
    var k := s.connected[Network(c)];
    var g := Grown(s, c, k.(references := k.references + 1));
    ShrunkGrown(s, c, k.(references := k.references + 1));
    StatesRestored(w.states, i, g);
  }

  lemma NewUndone(w: World, i: Interface, c: Cidr)
    requires Owned(w) && i in w.states && c !in w.states[i].addresses && Network(c) !in w.states[i].connected
    requires Acquire(w, i, Network(c)).ok
    ensures var a := PutAddress(Acquire(w, i, Network(c)).world, i, c);
      && i in a.states && c in a.states[i].addresses
      && a.states[i].addresses[c] == Network(c) && Network(c) in a.states[i].connected
      && Removed(a, i, c) == w.(table := w.table.(nextOrder := a.table.nextOrder))
  {
    var s := w.states[i];
    var k := ConnectedRoute(w.table.nextOrder, 1);
    var r := RouteOf(i, Network(c), k);
    var g := Grown(s, c, k);
    AcquireNewIs(w, i, c);
    ShrunkGrown(s, c, k);
    DisposeUndoesAdd(w.table, r);
    StatesRestored(w.states, i, g);
  }

  lemma ReleaseUndoesAcquire(w: World, i: Interface, c: Cidr)
    requires Owned(w) && i in w.states && Counted(w.states[i]) && c !in w.states[i].addresses
    requires Acquire(w, i, Network(c)).ok
    ensures var a := PutAddress(Acquire(w, i, Network(c)).world, i, c);
      && i in a.states && c in a.states[i].addresses
      && a.states[i].addresses[c] == Network(c) && Network(c) in a.states[i].connected
      && Removed(a, i, c) == w.(table := w.table.(nextOrder := a.table.nextOrder))
  {
    if Network(c) in w.states[i].connected {
      SharedUndone(w, i, c);
    } else {
      NewUndone(w, i, c);
    }
  }

  /** Removing an address that was just added restores the addresses, the counts and the routes. */
  lemma RemoveUndoesAdd(w: World, i: Interface, text: string)
    requires Owned(w) && AllAgree(w) && Attached(w, i)
    requires ParseInterfaceCidr(text).Some? && ParseInterfaceCidr(text).value !in w.states[i].addresses
    requires AddAddress(w, i, text, true).ok
    ensures var a := AddAddress(w, i, text, true).world;
      RemoveAddress(a, i, text, true) == Outcome(w.(table := w.table.(nextOrder := a.table.nextOrder)), true)
  {
    var c := ParseInterfaceCidr(text).value;
    assert Agrees(w, i);
    ReleaseUndoesAcquire(w, i, c);
    var a := PutAddress(Acquire(w, i, Network(c)).world, i, c);
    RemoveAddressIs(a, i, c);
    AcquireKeepsOwned(w, i, Network(c));
  }

  // ---------------------------------------------------------------- what the operations bring about

  /** What may be configured beside the addresses an interface has. */
  predicate Compatible(s: Iface, c: Cidr) {
    (c.address.family == V4 ==> !HasFamily(s, V4)) && (c.address.family == V6 ==> s.mtu >= MIN_IPV6_MTU)
  }

  lemma AddressesAfterPut(w: World, i: Interface, c: Cidr)
    requires i in w.states && Acquire(w, i, Network(c)).ok
    ensures var v := PutAddress(Acquire(w, i, Network(c)).world, i, c);
      && v.states.Keys == w.states.Keys && v.states[i].addresses.Keys == w.states[i].addresses.Keys + {c}
      && (forall j :: j in w.states && j != i ==> v.states[j] == w.states[j])
      && (forall r :: r in w.table.routes ==> r in v.table.routes)
      && (forall r :: r in v.table.routes && r !in w.table.routes ==>
        r == RouteOf(i, Network(c), ConnectedRoute(w.table.nextOrder, 1)))
  {
    if Network(c) in w.states[i].connected {
      AcquireSharedIs(w, i, c);
    } else {
      AcquireNewIs(w, i, c);
    }
  }

  /**
   Adding an address succeeds exactly if it is there already, or is compatible with the others, is
   accepted, and its route is not obstructed.
   */
  lemma AddSucceedsIff(w: World, i: Interface, c: Cidr, text: string, accepted: bool)
    requires Owned(w) && Attached(w, i) && ParseInterfaceCidr(text) == Some(c)
    ensures var s := w.states[i];
      AddAddress(w, i, text, accepted).ok <==>
        || c in s.addresses
        || (Compatible(s, c) && accepted && (Network(c) in s.connected || !Blocked(w.table, i, Network(c))))
  {
    AcquireSucceedsIff(w, i, c);
  }

  /** What changes when the address is new: it, its network's route, and nothing else. */
  ghost predicate Gained(w: World, v: World, i: Interface, c: Cidr)
    requires i in w.states
  {
    && v.states.Keys == w.states.Keys
    && v.states[i].addresses.Keys == w.states[i].addresses.Keys + {c}
    && (forall j :: j in w.states && j != i ==> v.states[j] == w.states[j])
    && (forall r :: r in w.table.routes ==> r in v.table.routes)
    && (forall r :: r in v.table.routes && r !in w.table.routes ==>
          r.via == i && r.destination == Network(c) && r.metric == 0 && r.source == Connected)
  }

  lemma PutGains(w: World, i: Interface, c: Cidr)
    requires i in w.states && Acquire(w, i, Network(c)).ok
    ensures Gained(w, PutAddress(Acquire(w, i, Network(c)).world, i, c), i, c)
  {
    AddressesAfterPut(w, i, c);
  }

  lemma AddGains(w: World, i: Interface, c: Cidr, text: string, accepted: bool)
    requires Attached(w, i) && ParseInterfaceCidr(text) == Some(c) && AddAddress(w, i, text, accepted).ok
    ensures Gained(w, AddAddress(w, i, text, accepted).world, i, c)
  {
    if c in w.states[i].addresses {
      assert w.states[i].addresses.Keys + {c} == w.states[i].addresses.Keys;
    } else {
      PutGains(w, i, c);
    }
  }

  /** After a successful call the interface has the address and is connected to its network; nothing else changes. */
  lemma AddressAdded(w: World, i: Interface, c: Cidr, text: string, accepted: bool)
    requires Owned(w) && AllAgree(w) && Attached(w, i) && ParseInterfaceCidr(text) == Some(c)
    requires AddAddress(w, i, text, accepted).ok
    ensures var v := AddAddress(w, i, text, accepted).world;
      && Gained(w, v, i, c)
      && exists r :: r in v.table.routes && r.via == i && r.destination == Network(c) && r.source == Connected
  {
    AddGains(w, i, c, text, accepted);
    AddAddressAgrees(w, i, text, accepted);
    HasRoute(AddAddress(w, i, text, accepted).world, i, c);
  }

  lemma HasRoute(v: World, i: Interface, c: Cidr)
    requires AllAgree(v) && i in v.states && c in v.states[i].addresses
    ensures exists r :: r in v.table.routes && r.via == i && r.destination == Network(c) && r.source == Connected
  {
    assert Agrees(v, i);
    assert RouteOf(i, Network(c), v.states[i].connected[Network(c)]) in v.table.routes;
  }

  /** What changes when an address goes: it, possibly its network's route, and nothing else. */
  ghost predicate Lost(w: World, v: World, i: Interface, c: Cidr)
    requires i in w.states
  {
    && v.states.Keys == w.states.Keys
    && v.states[i].addresses.Keys == w.states[i].addresses.Keys - {c}
    && (Network(c) in v.states[i].connected <==> AddressesOn(w.states[i], Network(c)) != {c})
    && (forall j :: j in w.states && j != i ==> v.states[j] == w.states[j])
    && (forall r :: r in v.table.routes ==> r in w.table.routes)
    && (forall r :: r in w.table.routes && r !in v.table.routes ==>
          r.via == i && r.destination == Network(c) && r.source == Connected)
  }

  lemma ShrunkLoses(w: World, i: Interface, c: Cidr)
    requires Owned(w) && i in w.states && Agrees(w, i) && c in w.states[i].addresses
    ensures var s := w.states[i];
      && s.addresses[c] in s.connected
      && Lost(w, w.(table := ShrunkTable(w.table, s, c), states := w.states[i := Shrunk(s, c)]), i, c)
  {
    var s := w.states[i];
    LastOnNetwork(s, c);
    ShrunkTableLoses(w, i, c);
    LostIf(w, ShrunkTable(w.table, s, c), i, c, Shrunk(s, c));
  }

  lemma LostIf(w: World, t: Table, i: Interface, c: Cidr, v: Iface)
    requires i in w.states && v.addresses.Keys == w.states[i].addresses.Keys - {c}
    requires Network(c) in v.connected <==> AddressesOn(w.states[i], Network(c)) != {c}
    requires forall r :: r in t.routes ==> r in w.table.routes
    requires forall r :: r in w.table.routes && r !in t.routes ==>
      r.via == i && r.destination == Network(c) && r.source == Connected
    ensures Lost(w, w.(table := t, states := w.states[i := v]), i, c)
  {
  }

  /**
   Removing an address, unless it is refused, takes it and nothing else from the interface; the
   connected route of its network goes exactly if no other address is on that network.
   */
  lemma AddressRemoved(w: World, i: Interface, c: Cidr, text: string, accepted: bool)
    requires Owned(w) && AllAgree(w) && Attached(w, i) && ParseInterfaceCidr(text) == Some(c)
    requires c in w.states[i].addresses
    ensures var o := RemoveAddress(w, i, text, accepted);
      && (o.ok <==> c.address.family == V4 || accepted)
      && (o.ok ==> Lost(w, o.world, i, c))
  {
    assert Agrees(w, i);
    if RemoveAddress(w, i, text, accepted).ok {
      RemoveAddressIs(w, i, c);
      ShrunkLoses(w, i, c);
    }
  }

  lemma LastOnNetwork(s: Iface, c: Cidr)
    requires Counted(s) && c in s.addresses
    ensures Network(c) in Shrunk(s, c).connected <==> AddressesOn(s, Network(c)) != {c}
  {
    assert c in AddressesOn(s, Network(c));
    if s.connected[Network(c)].references == 1 {
      OnlyOne(AddressesOn(s, Network(c)), c);
    }
  }

  lemma ShrunkTableLoses(w: World, i: Interface, c: Cidr)
    requires Owned(w) && i in w.states && Agrees(w, i) && c in w.states[i].addresses
    ensures var s := w.states[i];
      && s.addresses[c] in s.connected
      && forall r :: r in w.table.routes && r !in ShrunkTable(w.table, s, c).routes ==>
           r.via == i && r.destination == Network(c) && r.source == Connected
  {
    var s := w.states[i];
    var k := s.connected[Network(c)];
    forall r | r in w.table.routes && r !in ShrunkTable(w.table, s, c).routes ensures r == RouteOf(i, Network(c), k) {
      SameOrderSame(w.table, r, RouteOf(i, Network(c), k));
    }
  }

  /** Removing an interface takes its own routes and state; everything else stays. */
  lemma RemovalIsLocal(w: World, i: Interface)
    requires Owned(w) && Remove(w, i).ok
    ensures var v := Remove(w, i).world;
      && v.owned == w.owned - {i}
      && (forall r :: r in v.table.routes <==> r in w.table.routes && r.via != i)
      && (forall j :: j in w.states && j != i ==> j in v.states && v.states[j] == w.states[j])
      && i in v.states && v.states[i].detached
  {
    if !w.states[i].detached {
      var s := w.states[i];
      HandlesApart(w, i);
    }
  }
}
