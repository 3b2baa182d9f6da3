/** What attaching an interface brings about. */
module Attaching {
  // packages/tcpip/src/bindings/network-interface.ts

  import opened Options
  import opened Ip
  import opened Routes
  import opened Interfaces
  import opened ConnectedRoutes

  predicate ToNetworkOf(r: Route, i: Interface, addresses: seq<Cidr>) {
    && r.via == i && r.metric == 0 && r.source == Connected
    && exists k :: 0 <= k < |addresses| && r.destination == Network(addresses[k])
  }

  /** These addresses and connected routes of their networks have come, and nothing else has changed. */
  ghost predicate Brought(w: World, v: World, i: Interface, addresses: seq<Cidr>)
    requires i in w.states
  {
    && v.states.Keys == w.states.Keys
    && (forall c :: c in v.states[i].addresses <==> c in w.states[i].addresses || c in addresses)
    && (forall j :: j in w.states && j != i ==> v.states[j] == w.states[j])
    && (forall r :: r in w.table.routes ==> r in v.table.routes)
    && (forall r :: r in v.table.routes && r !in w.table.routes ==> ToNetworkOf(r, i, addresses))
  }

  /** The connected route of the address is there already or can be installed. */
  ghost predicate RouteFree(w: World, i: Interface, c: Cidr)
    requires i in w.states
  {
    Network(c) in w.states[i].connected || !Blocked(w.table, i, Network(c))
  }

  ghost predicate Routable(w: World, i: Interface, addresses: seq<Cidr>)
    requires i in w.states
  {
    forall k :: 0 <= k < |addresses| ==> RouteFree(w, i, addresses[k])
  }

  lemma OneBrought(w: World, i: Interface, c: Cidr)
    requires i in w.states && Acquire(w, i, Network(c)).ok
    ensures Brought(w, PutAddress(Acquire(w, i, Network(c)).world, i, c), i, [c])
  {
    var v := PutAddress(Acquire(w, i, Network(c)).world, i, c);
    PutGains(w, i, c);
    forall r | r in v.table.routes && r !in w.table.routes ensures ToNetworkOf(r, i, [c]) {
      assert r.destination == Network([c][0]);
    }
  }

  lemma BroughtTwice(w: World, u: World, v: World, i: Interface, c: Cidr, rest: seq<Cidr>)
    requires i in w.states && Brought(w, u, i, [c]) && Brought(u, v, i, rest)
    ensures Brought(w, v, i, [c] + rest)
  {
    var all := [c] + rest;
    forall r | r in v.table.routes && r !in w.table.routes ensures ToNetworkOf(r, i, all) {
      if r in u.table.routes {
        assert r.destination == Network(all[0]);
      } else {
        var k :| 0 <= k < |rest| && r.destination == Network(rest[k]);
        assert all[k + 1] == rest[k];
      }
    }
  }

  lemma RouteFreeAfter(w: World, i: Interface, c: Cidr, d: Cidr)
    requires Owned(w) && Attached(w, i) && Acquire(w, i, Network(c)).ok
    ensures var u := PutAddress(Acquire(w, i, Network(c)).world, i, c);
      i in u.states && (RouteFree(u, i, d) <==> RouteFree(w, i, d))
  {
    AcquireSucceedsIff(w, i, c);
    AcquirePutGrows(w, i, c);
    if Network(d) != Network(c) {
      BlockedAfterAcquire(w, i, c, Network(d));
    }
  }

  lemma RoutableRest(w: World, u: World, i: Interface, c: Cidr, rest: seq<Cidr>)
    requires i in w.states && i in u.states && RouteFree(w, i, c)
    requires forall d :: RouteFree(u, i, d) <==> RouteFree(w, i, d)
    ensures Routable(w, i, [c] + rest) <==> Routable(u, i, rest)
  {
    var all := [c] + rest;
    if Routable(u, i, rest) {
      forall k | 0 <= k < |all| ensures RouteFree(w, i, all[k]) {
        assert k > 0 ==> all[k] == rest[k - 1];
      }
    }
    if Routable(w, i, all) {
      forall k | 0 <= k < |rest| ensures RouteFree(u, i, rest[k]) {
        assert all[k + 1] == rest[k];
      }
    }
  }

  lemma {:induction false} AttachAllBrings(w: World, i: Interface, texts: seq<string>)
    requires Owned(w) && Attached(w, i)
    ensures var o := AttachAll(w, i, texts);
      && (o.ok <==> |Readable(texts)| == |texts| && Routable(w, i, Readable(texts)))
      && (o.ok ==> Brought(w, o.world, i, Readable(texts)))
    decreases texts
  {
    if texts != [] && ParseInterfaceCidr(texts[0]).Some? {
      var c, rest := ParseInterfaceCidr(texts[0]).value, Readable(texts[1..]);
      PutAcquireIs(w, i, c);
      AcquireSucceedsIff(w, i, c);
      assert ([c] + rest)[0] == c;
      if Acquire(w, i, Network(c)).ok {
        var u := PutAddress(Acquire(w, i, Network(c)).world, i, c);
        AcquireKeepsOwned(w, i, Network(c));
        PutAddressKeepsOwned(Acquire(w, i, Network(c)).world, i, c);
        forall d ensures RouteFree(u, i, d) <==> RouteFree(w, i, d) {
          RouteFreeAfter(w, i, c, d);
        }
        RoutableRest(w, u, i, c, rest);
        AttachAllBrings(u, i, texts[1..]);
        OneBrought(w, i, c);
        if AttachAll(u, i, texts[1..]).ok {
          BroughtTwice(w, u, AttachAll(u, i, texts[1..]).world, i, c, rest);
        }
      }
    }
  }

  /** What an attach must find. */
  ghost predicate CanAttach(w: World, i: Interface, texts: seq<string>) {
    && !w.disposed && i in w.owned && i !in w.states
    && (forall k :: 0 <= k < |texts| ==> ParseInterfaceCidr(texts[k]).Some?)
    && (forall k :: 0 <= k < |texts| && ParseInterfaceCidr(texts[k]).Some? ==>
          !Blocked(w.table, i, Network(ParseInterfaceCidr(texts[k]).value)))
  }

  lemma {:induction false} ReadableIs(texts: seq<string>)
    ensures |Readable(texts)| <= |texts|
    ensures forall k: nat :: k < |Readable(texts)| ==> ReadsAs(texts, k, Readable(texts)[k])
    ensures |Readable(texts)| < |texts| ==> ParseInterfaceCidr(texts[|Readable(texts)|]).None?
    decreases |texts|
  {
    if texts != [] && ParseInterfaceCidr(texts[0]).Some? {
      var c, rest := ParseInterfaceCidr(texts[0]).value, texts[1..];
      ReadableIs(rest);
      ReadsCons(texts, c, rest, Readable(rest));
    }
  }

  predicate ReadsAs(texts: seq<string>, k: nat, c: Cidr) {
    k < |texts| && ParseInterfaceCidr(texts[k]) == Some(c)
  }

  lemma ReadsCons(texts: seq<string>, c: Cidr, rest: seq<string>, read: seq<Cidr>)
    requires texts != [] && ParseInterfaceCidr(texts[0]) == Some(c) && rest == texts[1..]
    requires forall k: nat :: k < |read| ==> ReadsAs(rest, k, read[k])
    ensures forall k: nat :: k < |[c] + read| ==> ReadsAs(texts, k, ([c] + read)[k])
  {
    forall k: nat | k < |[c] + read| ensures ReadsAs(texts, k, ([c] + read)[k]) {
      if k > 0 {
        assert ReadsAs(rest, k - 1, read[k - 1]);
      }
    }
  }

  lemma AllRead(texts: seq<string>)
    ensures |Readable(texts)| == |texts| <==> forall k :: 0 <= k < |texts| ==> ParseInterfaceCidr(texts[k]).Some?
  {
    ReadableIs(texts);
    if |Readable(texts)| == |texts| {
      forall k: nat | k < |texts| ensures ParseInterfaceCidr(texts[k]).Some? {
        assert ReadsAs(texts, k, Readable(texts)[k]);
      }
    }
  }

  /**
   Attaching succeeds exactly on an interface that the stack lists and that never was attached, if all texts
   can be read and no route stands in the way of a connected one. The interface then has this MTU and these
   addresses and no others, there are connected routes to their networks and no other new ones, and nothing
   else has changed.
   */
  lemma AttachSucceedsIff(w: World, i: Interface, texts: seq<string>, mtu: nat)
    requires Owned(w)
    ensures Attach(w, i, texts, mtu).ok <==> CanAttach(w, i, texts)
    ensures Attach(w, i, texts, mtu).ok ==> (
      var v := Attach(w, i, texts, mtu).world;
      && i in v.states && !v.states[i].detached && v.states[i].mtu == mtu
      && |Readable(texts)| == |texts|
      && Brought(w.(states := w.states[i := Iface(map[], map[], false, mtu)]), v, i, Readable(texts)))
  {
    ReadableIs(texts);
    AllRead(texts);
    if !w.disposed && i in w.owned && i !in w.states {
      var u := w.(states := w.states[i := Iface(map[], map[], false, mtu)]);
      FreshKeepsOwned(w, i, mtu);
      AttachAllBrings(u, i, texts);
      AttachAllMtu(u, i, texts, i);
      AttachAllStays(u, i, texts);
      RoutableIs(u, i, texts);
    }
  }

  lemma RoutableIs(u: World, i: Interface, texts: seq<string>)
    requires i in u.states && u.states[i].connected == map[]
    requires forall k: nat :: k < |Readable(texts)| ==> ReadsAs(texts, k, Readable(texts)[k])
    ensures |Readable(texts)| == |texts| ==> (Routable(u, i, Readable(texts)) <==>
      forall k :: 0 <= k < |texts| && ParseInterfaceCidr(texts[k]).Some? ==>
        !Blocked(u.table, i, Network(ParseInterfaceCidr(texts[k]).value)))
  {
    if |Readable(texts)| == |texts| {
      forall k: nat | k < |texts| ensures ParseInterfaceCidr(texts[k]) == Some(Readable(texts)[k]) {
        assert ReadsAs(texts, k, Readable(texts)[k]);
      }
    }
  }

  lemma {:induction false} AttachAllStays(w: World, i: Interface, texts: seq<string>)
    requires Attached(w, i)
    ensures Attached(AttachAll(w, i, texts).world, i)
    decreases texts
  {
    if texts != [] && ParseInterfaceCidr(texts[0]).Some? {
      var c := ParseInterfaceCidr(texts[0]).value;
      AttachAllStays(Acquire(PutAddress(w, i, c), i, Network(c)).world, i, texts[1..]);
    }
  }
}
