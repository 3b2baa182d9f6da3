/** The stack and its interface bindings as objects that are changed in place. */
module NetworkStack {
  import opened Options
  import opened Ip
  import opened Routes
  import opened Interfaces

  /** One round of the loop of `#terminate`. */
  lemma TerminateRound(w: World, done: set<Interface>, i: Interface)
    requires Owned(w) && i !in done
    ensures var d := Detach(Dropped(w, done).(disposed := true), i, true).world;
      d.(table := RemoveInterface(d.table, i)) == Dropped(w, done + {i}).(disposed := true)
  {
    if i in w.states && !w.states[i].detached {
      DetachedRoutes(w, done, i);
    }
    DroppedRoutes(w.table, done, i);
    DetachedStates(w, done, i);
  }

  lemma DetachedStates(w: World, done: set<Interface>, i: Interface)
    requires i !in done
    ensures Detach(Dropped(w, done).(disposed := true), i, true).world.states == Dropped(w, done + {i}).states
  {
    if i in w.states && !w.states[i].detached {
      assert Dropped(w, done).states[i := Gone(w.states[i])] == Dropped(w, done + {i}).states;
    } else {
      assert Dropped(w, done).states == Dropped(w, done + {i}).states;
    }
  }

  lemma DroppedRoutes(t: Table, done: set<Interface>, i: Interface)
    ensures Filter(Filter(t.routes, (r: Route) => r.via !in done), (r: Route) => r.via != i)
         == Filter(t.routes, (r: Route) => r.via !in done + {i})
  {
    FilterTwice(t.routes, (r: Route) => r.via !in done, (r: Route) => r.via != i, (r: Route) => r.via !in done + {i});
  }

  /** Dropping the routes of an interface makes up for dropping its connected routes first. */
  lemma DetachedRoutes(w: World, done: set<Interface>, i: Interface)
    requires Owned(w) && i in w.states
    ensures var s, kept := w.states[i], Dropped(w, done).table.routes;
      Filter(Filter(kept, (r: Route) => r.order !in Handles(s)), (r: Route) => r.via != i) ==
        Filter(kept, (r: Route) => r.via != i)
  {
    var s, kept := w.states[i], Dropped(w, done).table.routes;
    HandlesApart(w, i);
    FilterTwice(kept, (r: Route) => r.order !in Handles(s), (r: Route) => r.via != i, (r: Route) => r.via != i);
  }

  class Stack {
    const routes: RouteTable
    var states: map<Interface, Iface>
    var owned: set<Interface>
    var disposed: bool
    ghost var created: set<Interface>
    ghost var userHandles: set<nat>

    ghost function Abstract(): World
      reads this, routes
    {
      World(routes.Abstract(), states, owned, created, userHandles, disposed)
    }

    ghost predicate Valid()
      reads this, routes
    {
      Owned(Abstract())
    }

    constructor ()
      ensures Valid() && Abstract() == Fresh && fresh(routes)
    {
      routes := new RouteTable();
      states, owned, disposed := map[], {}, false;
      created, userHandles := {}, {};
    }

    method RegisterInterface(i: Interface) returns (ok: bool)
      requires Valid() && (i in created ==> disposed)
      modifies this
      ensures Valid() && Outcome(Abstract(), ok) == Register(old(Abstract()), i)
    {
      ok := !disposed;
      if ok {
        owned, created := owned + {i}, created + {i};
      }
    }

    method AcquireConnectedRoute(i: Interface, network: Cidr) returns (ok: bool)
      requires routes.Valid() && i in states
      modifies this`states, routes
      ensures Outcome(Abstract(), ok) == Acquire(old(Abstract()), i, network)
    {
      var s := states[i];
      if network in s.connected {
        var c := s.connected[network];
        states := states[i := s.(connected := s.connected[network := c.(references := c.references + 1)])];
        return true;
      }
      if disposed || i !in owned {
        return false;
      }
      var handle := routes.AddRoute(network, i, 0, Connected);
      if handle.None? {
        return false;
      }
      states := states[i := s.(connected := s.connected[network := ConnectedRoute(handle.value, 1)])];
      return true;
    }

    method ReleaseConnectedRoute(i: Interface, network: Cidr)
      requires routes.Valid() && i in states
      modifies this`states, routes
      ensures Abstract() == Release(old(Abstract()), i, network)
    {
      var s := states[i];
      if network !in s.connected {
        return;
      }
      var c := s.connected[network];
      if c.references > 1 {
        states := states[i := s.(connected := s.connected[network := c.(references := c.references - 1)])];
        return;
      }
      routes.Dispose(c.handle);
      states := states[i := s.(connected := s.connected - {network})];
    }

    method SetAddress(i: Interface, c: Cidr)
      requires i in states
      modifies this`states
      ensures Abstract() == PutAddress(old(Abstract()), i, c)
    {
      states := states[i := states[i].(addresses := states[i].addresses[c := Network(c)])];
    }

    method AttachInterface(i: Interface, texts: seq<string>, mtu: nat) returns (ok: bool)
      requires Valid()
      modifies this`states, routes
      ensures Valid() && Outcome(Abstract(), ok) == Attach(old(Abstract()), i, texts, mtu)
    {
      if disposed || i !in owned || i in states {
        return false;
      }
      states := states[i := Iface(map[], map[], false, mtu)];
      ghost var start := Abstract();
      var index := 0;
      while index < |texts|
        invariant 0 <= index <= |texts|
        invariant Valid() && Attached(Abstract(), i)
        invariant AttachAll(start, i, texts) == AttachAll(Abstract(), i, texts[index..])
      {
        ghost var before := Abstract();
        var parsed := ParseInterfaceCidr(texts[index]);
        if parsed.None? {
          return false;
        }
        var c := parsed.value;
        SetAddress(i, c);
        PutAddressKeepsOwned(before, i, c);
        AcquireKeepsOwned(PutAddress(before, i, c), i, Network(c));
        var acquired := AcquireConnectedRoute(i, Network(c));
        if !acquired {
          return false;
        }
        assert texts[index..][1..] == texts[index + 1..];
        index := index + 1;
      }
      return true;
    }

    method DetachInterface(i: Interface, terminal: bool) returns (ok: bool)
      requires routes.Valid()
      modifies this`states, routes
      ensures routes.Valid() && Outcome(Abstract(), ok) == Detach(old(Abstract()), i, terminal)
    {
      if i !in states {
        return terminal;
      }
      var s := states[i];
      if s.detached {
        return true;
      }
      DisposeAll(s);
      states := states[i := Iface(map[], map[], true, s.mtu)];
      return true;
    }

    /** The loop of `detach` over the connected routes. */
    method DisposeAll(s: Iface)
      requires routes.Valid()
      modifies routes
      ensures routes.Valid()
      ensures routes.Abstract() ==
        old(routes.Abstract()).(routes := Filter(old(routes.routes), (r: Route) => r.order !in Handles(s)))
    {
      var rest, done: set<nat> := s.connected.Keys, {};
      FilterAll(routes.routes, (r: Route) => r.order !in done);
      while rest != {}
        invariant rest <= s.connected.Keys
        invariant done == set n | n in s.connected && n !in rest :: s.connected[n].handle
        invariant routes.Valid() && routes.nextOrder == old(routes.nextOrder)
        invariant routes.routes == Filter(old(routes.routes), (r: Route) => r.order !in done)
      {
        var n :| n in rest;
        var handle := s.connected[n].handle;
        routes.Dispose(handle);
        FilterTwice(old(routes.routes), (r: Route) => r.order !in done, (r: Route) => r.order != handle,
                    (r: Route) => r.order !in done + {handle});
        rest, done := rest - {n}, done + {handle};
      }
      assert done == Handles(s);
    }

    method AddInterfaceAddress(i: Interface, text: string, accepted: bool) returns (ok: bool)
      requires Valid()
      modifies this`states, routes
      ensures Valid() && Outcome(Abstract(), ok) == AddAddress(old(Abstract()), i, text, accepted)
    {
      if i !in states || states[i].detached {
        return false;
      }
      var parsed := ParseInterfaceCidr(text);
      if parsed.None? {
        return false;
      }
      var c := parsed.value;
      if c in states[i].addresses {
        return true;
      }
      if c.address.family == V4 && HasFamily(states[i], V4) {
        return false;
      }
      if c.address.family == V6 && states[i].mtu < MIN_IPV6_MTU {
        return false;
      }
      if !accepted {
        return false;
      }
      AcquireKeepsOwned(Abstract(), i, Network(c));
      ok := AcquireConnectedRoute(i, Network(c));
      if ok {
        PutAddressKeepsOwned(Abstract(), i, c);
        SetAddress(i, c);
      }
    }

    method RemoveInterfaceAddress(i: Interface, text: string, accepted: bool) returns (ok: bool)
      requires Valid()
      modifies this`states, routes
      ensures Valid() && Outcome(Abstract(), ok) == RemoveAddress(old(Abstract()), i, text, accepted)
    {
      RemoveAddressKeepsOwned(Abstract(), i, text, accepted);
      if i !in states || states[i].detached {
        return false;
      }
      var parsed := ParseInterfaceCidr(text);
      if parsed.None? {
        return false;
      }
      var c := parsed.value;
      if c !in states[i].addresses {
        return true;
      }
      if c.address.family == V6 && !accepted {
        return false;
      }
      ReleaseConnectedRoute(i, states[i].addresses[c]);
      states := states[i := states[i].(addresses := states[i].addresses - {c})];
      return true;
    }

    method SetInterfaceMtu(i: Interface, mtu: int, accepted: bool) returns (ok: bool)
      requires Valid()
      modifies this`states
      ensures Valid() && Outcome(Abstract(), ok) == SetMtu(old(Abstract()), i, mtu, accepted)
    {
      if i !in states || states[i].detached || mtu < 68 || mtu > 65535 {
        return false;
      }
      if mtu < MIN_IPV6_MTU && HasFamily(states[i], V6) {
        return false;
      }
      if !accepted {
        return false;
      }
      states := states[i := states[i].(mtu := mtu)];
      return true;
    }

    method AddRoute(text: string, via: Interface, metric: int) returns (handle: Option<nat>)
      requires Valid()
      modifies this`userHandles, routes
      ensures Valid() && Outcome(Abstract(), handle.Some?) == AddUserRoute(old(Abstract()), text, via, metric)
      ensures handle.Some? ==> handle.value in userHandles && handle.value !in old(userHandles)
    {
      UserRouteKeepsOwned(Abstract(), text, via, metric);
      var c := ParseInterfaceCidr(text);
      if disposed || via !in owned || c.None? {
        return None;
      }
      handle := routes.AddRoute(c.value, via, metric, Static);
      if handle.Some? {
        userHandles := userHandles + {handle.value};
      }
    }

    method DisposeRoute(handle: nat)
      requires Valid() && handle in userHandles
      modifies routes
      ensures Valid() && Abstract() == DisposeUserRoute(old(Abstract()), handle).world
    {
      RoutesKeepOwned(Abstract(), RouteDisposed(handle));
      routes.Dispose(handle);
    }

    method RemoveNetworkInterface(i: Interface) returns (ok: bool)
      requires Valid()
      modifies this, routes
      ensures Valid() && Outcome(Abstract(), ok) == Remove(old(Abstract()), i)
    {
      RemoveKeepsOwned(Abstract(), i);
      if disposed {
        return false;
      }
      ok := DetachInterface(i, false);
      if ok {
        routes.Remove(i);
        owned := owned - {i};
      }
    }

    method Terminate()
      requires Valid()
      modifies this, routes
      ensures Valid() && Abstract() == Dispose(old(Abstract())).world && routes.routes == []
    {
      DisposeKeepsOwned(Abstract());
      if disposed {
        return;
      }
      ghost var start := Abstract();
      disposed := true;
      var rest := owned;
      var none: set<Interface> := {};
      FilterAll(routes.routes, (r: Route) => r.via !in none);
      assert Dropped(start, none).states == start.states;
      assert start.owned - rest == none;
      while rest != {}
        invariant rest <= start.owned
        invariant routes.Valid()
        invariant Abstract() == Dropped(start, start.owned - rest).(disposed := true)
      {
        var i :| i in rest;
        TerminateRound(start, start.owned - rest, i);
        assert start.owned - (rest - {i}) == start.owned - rest + {i};
        var _ := DetachInterface(i, true);
        routes.Remove(i);
        rest := rest - {i};
      }
      assert start.owned - {} == start.owned;
      owned := {};
    }
  }
}
