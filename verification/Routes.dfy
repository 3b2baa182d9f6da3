/** The routing table. */
module Routes {
  // packages/tcpip/src/routes.ts: longest prefix, then metric, then age.

  import opened Options
  import opened Ip

  type Interface = nat

  datatype Source = Static | Connected

  datatype Route = Route(destination: Cidr, via: Interface, metric: nat, source: Source, order: nat) {
    function Prefix(): nat {
      destination.prefix
    }
  }

  const MAX_SAFE_INTEGER: int := 0x1f_ffff_ffff_ffff

  datatype Table = Table(routes: seq<Route>, nextOrder: nat)

  const Empty := Table([], 1)

  // ---------------------------------------------------------------- changing the table

  predicate Same(r: Route, destination: Cidr, via: Interface, metric: int) {
    r.destination == destination && r.metric == metric && r.via == via
  }

  predicate Refused(t: Table, destination: Cidr, via: Interface, metric: int) {
    || Network(destination) != destination
    || metric < 0 || metric > MAX_SAFE_INTEGER
    || exists i :: 0 <= i < |t.routes| && Same(t.routes[i], destination, via, metric)
  }

  /** `add`: the new table and the order of the new route, which stands for its handle. */
  function Add(t: Table, destination: Cidr, via: Interface, metric: int, source: Source): Option<(Table, nat)> {
    if Refused(t, destination, via, metric) then None
    else Some((Table(t.routes + [Route(destination, via, metric, source, t.nextOrder)], t.nextOrder + 1), t.nextOrder))
  }

  function Filter(s: seq<Route>, keep: Route -> bool): (r: seq<Route>)
    ensures forall x :: x in r <==> x in s && keep(x)
    ensures |r| <= |s|
  {
    if s == [] then []
    else if keep(s[0]) then [s[0]] + Filter(s[1..], keep) else Filter(s[1..], keep)
  }

  lemma NoMembers(s: seq<Route>)
    ensures s == [] <==> forall r :: r !in s
  {
    if s != [] {
      assert s[0] in s;
    }
  }

  lemma {:induction false} FilterAppend(s: seq<Route>, r: Route, keep: Route -> bool)
    ensures Filter(s + [r], keep) == Filter(s, keep) + if keep(r) then [r] else []
  {
    if s == [] {
      assert s + [r] == [r];
      assert Filter([r], keep) == if keep(r) then [r] else [];
    } else {
      assert (s + [r])[1..] == s[1..] + [r];
      FilterAppend(s[1..], r, keep);
    }
  }

  /** Filtering twice is filtering by both tests. */
  lemma {:induction false} FilterTwice(s: seq<Route>, first: Route -> bool, second: Route -> bool, both: Route -> bool)
    requires forall r :: r in s ==> (both(r) <==> first(r) && second(r))
    ensures Filter(Filter(s, first), second) == Filter(s, both)
  {
    if s != [] {
      FilterTwice(s[1..], first, second, both);
      if first(s[0]) {
        var rest := Filter(s[1..], first);
        assert ([s[0]] + rest)[1..] == rest;
      }
    }
  }

  lemma {:induction false} FilterAll(s: seq<Route>, keep: Route -> bool)
    requires forall r :: r in s ==> keep(r)
    ensures Filter(s, keep) == s
  {
    if s != [] {
      FilterAll(s[1..], keep);
    }
  }

  function DisposeRoute(t: Table, order: nat): Table {
    t.(routes := Filter(t.routes, (r: Route) => r.order != order))
  }

  function RemoveInterface(t: Table, via: Interface): Table {
    t.(routes := Filter(t.routes, (r: Route) => r.via != via))
  }

  predicate Distinct(r: Route, s: Route) {
    r.order < s.order && !Same(r, s.destination, s.via, s.metric)
  }

  ghost predicate InOrder(s: seq<Route>) {
    forall i, j :: 0 <= i < j < |s| ==> Distinct(s[i], s[j])
  }

  predicate Sound(r: Route, nextOrder: nat) {
    r.order < nextOrder && Network(r.destination) == r.destination
  }

  /** Routes lead to networks, are kept in the order of their creation and no two of them are the same. */
  ghost predicate Proper(t: Table) {
    (forall r :: r in t.routes ==> Sound(r, t.nextOrder)) && InOrder(t.routes)
  }

  lemma {:induction false} FilterInOrder(s: seq<Route>, keep: Route -> bool)
    requires InOrder(s)
    ensures InOrder(Filter(s, keep))
  {
    if s != [] {
      var rest := s[1..];
      FilterInOrder(rest, keep);
      forall x | x in Filter(rest, keep) ensures Distinct(s[0], x) {
        var j :| 0 <= j < |rest| && rest[j] == x;
        assert s[j + 1] == x;
      }
    }
  }

  lemma FilterKeepsProper(s: seq<Route>, keep: Route -> bool, next: nat)
    requires Proper(Table(s, next))
    ensures Proper(Table(Filter(s, keep), next))
  {
    FilterInOrder(s, keep);
  }

  lemma AddKeepsProper(t: Table, destination: Cidr, via: Interface, metric: int, source: Source)
    requires Proper(t) && Add(t, destination, via, metric, source).Some?
    ensures Proper(Add(t, destination, via, metric, source).value.0)
  {
    var last := Route(destination, via, metric, source, t.nextOrder);
    assert forall i :: 0 <= i < |t.routes| ==> Sound(t.routes[i], t.nextOrder) && Distinct(t.routes[i], last);
  }

  // ---------------------------------------------------------------- the order of routes

  /** `compareRoutes` */
  function Compare(left: Route, right: Route): int {
    if right.Prefix() != left.Prefix() then right.Prefix() - left.Prefix()
    else if left.metric != right.metric then left.metric - right.metric
    else left.order - right.order
  }

  function Insert(r: Route, s: seq<Route>): (t: seq<Route>)
    ensures multiset(t) == multiset(s) + multiset{r}
  {
    if s == [] then [r]
    else if Compare(r, s[0]) <= 0 then [r] + s
    else
      assert s == [s[0]] + s[1..];
      [s[0]] + Insert(r, s[1..])
  }

  /** `s.sort(compareRoutes)`, a stable sort. */
  function Sort(s: seq<Route>): (t: seq<Route>)
    ensures multiset(t) == multiset(s)
  {
    if s == [] then []
    else
      assert s == [s[0]] + s[1..];
      Insert(s[0], Sort(s[1..]))
  }

  ghost predicate Sorted(s: seq<Route>) {
    forall i, j :: 0 <= i < j < |s| ==> Compare(s[i], s[j]) <= 0
  }

  lemma {:induction false} InsertSorted(r: Route, s: seq<Route>)
    requires Sorted(s)
    ensures Sorted(Insert(r, s))
  {
    if s != [] && Compare(r, s[0]) > 0 {
      var rest := s[1..];
      assert Sorted(rest);
      InsertSorted(r, rest);
      var t := Insert(r, rest);
      forall k | 0 <= k < |t| ensures Compare(s[0], t[k]) <= 0 {
        assert t[k] in multiset(t);
        assert t[k] == r || t[k] in rest;
      }
    }
  }

  lemma {:induction false} SortSorted(s: seq<Route>)
    ensures Sorted(Sort(s))
  {
    if s != [] {
      SortSorted(s[1..]);
      InsertSorted(s[0], Sort(s[1..]));
    }
  }

  lemma SameMembers(s: seq<Route>, t: seq<Route>)
    requires multiset(s) == multiset(t)
    ensures |s| == |t| && forall r :: r in s <==> r in t
  {
    assert |multiset(s)| == |s| && |multiset(t)| == |t|;
    forall r ensures r in s <==> r in t {
      assert r in multiset(s) <==> r in multiset(t);
    }
  }

  // ---------------------------------------------------------------- reading the table

  /** `list`: the routes as they are searched. */
  function List(t: Table): seq<Route> {
    Sort(t.routes)
  }

  ghost predicate Applies(r: Route, a: Address, via: Option<Interface>) {
    && r.destination.address.family == a.family
    && (via.Some? ==> r.via == via.value)
    && Matches(a.bytes, r.destination.address.bytes, r.Prefix())
  }

  /** `lookupOnInterface`: the routes that apply are collected and sorted, the first one is it. */
  ghost function Lookup(t: Table, a: Address, via: Option<Interface>): Option<Route> {
    var found := Filter(t.routes, r => Applies(r, a, via));
    if found == [] then None else Some(Sort(found)[0])
  }

  ghost function FirstApplying(s: seq<Route>, a: Address, via: Option<Interface>): Option<Route> {
    if s == [] then None else if Applies(s[0], a, via) then Some(s[0]) else FirstApplying(s[1..], a, via)
  }

  /** `r` applies, and no route that applies is more specific, or as specific and cheaper, or as cheap and older. */
  ghost predicate Best(t: Table, r: Route, a: Address, via: Option<Interface>) {
    && r in t.routes && Applies(r, a, via)
    && forall x :: x in t.routes && Applies(x, a, via) ==>
         || x.Prefix() < r.Prefix()
         || (x.Prefix() == r.Prefix() && x.metric > r.metric)
         || (x.Prefix() == r.Prefix() && x.metric == r.metric && x.order >= r.order)
  }

  lemma {:induction false} FirstIsSmallest(s: seq<Route>, a: Address, via: Option<Interface>)
    requires Sorted(s)
    ensures var r := FirstApplying(s, a, via);
      && (r.None? <==> forall x :: x in s ==> !Applies(x, a, via))
      && (r.Some? ==> (
            && r.value in s && Applies(r.value, a, via)
            && forall x :: x in s && Applies(x, a, via) ==> Compare(r.value, x) <= 0))
  {
    if s != [] && !Applies(s[0], a, via) {
      assert Sorted(s[1..]);
      FirstIsSmallest(s[1..], a, via);
      assert forall x :: x in s <==> x == s[0] || x in s[1..];
    } else if s != [] {
      forall x | x in s ensures Compare(s[0], x) <= 0 {
        var k :| 0 <= k < |s| && s[k] == x;
      }
    }
  }

  lemma LookupIsBest(t: Table, a: Address, via: Option<Interface>)
    requires Proper(t)
    ensures var r := Lookup(t, a, via);
      && (r.None? <==> forall x :: x in t.routes ==> !Applies(x, a, via))
      && (r.Some? ==> Best(t, r.value, a, via))
  {
    var found := Filter(t.routes, r => Applies(r, a, via));
    SortSorted(found);
    SameMembers(Sort(found), found);
    if found == [] {
      forall x | x in t.routes ensures !Applies(x, a, via) {
        assert x !in found;
      }
    } else {
      var first := Sort(found)[0];
      assert first in found;
      forall x | x in t.routes && Applies(x, a, via) ensures Compare(first, x) <= 0 {
        assert x in found && x in Sort(found);
        var k :| 0 <= k < |Sort(found)| && Sort(found)[k] == x;
      }
    }
  }

  lemma BestUnique(t: Table, r: Route, s: Route, a: Address, via: Option<Interface>)
    requires Proper(t) && Best(t, r, a, via) && Best(t, s, a, via)
    ensures r == s
  {
    var i :| 0 <= i < |t.routes| && t.routes[i] == r;
    var j :| 0 <= j < |t.routes| && t.routes[j] == s;
  }

  /**
   Longest-prefix match. A lookup gives the one route that applies and is best - most specific, then
   cheapest, then oldest - and nothing exactly when no route applies. It is the first entry of the
   listing that applies.
   */
  lemma LookupIsLongestPrefixMatch(t: Table, a: Address, via: Option<Interface>)
    requires Proper(t)
    ensures var r := Lookup(t, a, via);
      && (r.None? <==> forall x :: x in t.routes ==> !Applies(x, a, via))
      && (forall x :: Best(t, x, a, via) <==> r == Some(x))
      && r == FirstApplying(List(t), a, via)
  {
    var r := Lookup(t, a, via);
    LookupIsBest(t, a, via);
    forall x ensures Best(t, x, a, via) <==> r == Some(x) {
      if Best(t, x, a, via) && r.Some? {
        BestUnique(t, x, r.value, a, via);
      }
    }
    SortSorted(t.routes);
    SameMembers(List(t), t.routes);
    FirstIsSmallest(List(t), a, via);
    var f := FirstApplying(List(t), a, via);
    if f.Some? {
      assert Best(t, f.value, a, via);
    }
  }

  lemma LookupIs(t: Table, x: Route, a: Address, via: Option<Interface>)
    requires Proper(t) && Best(t, x, a, via)
    ensures Lookup(t, a, via) == Some(x)
  {
    LookupIsLongestPrefixMatch(t, a, via);
  }

  /** An added route takes over exactly the lookups for which it applies and ranks before the old answer. */
  lemma LookupAfterAdd(
    t: Table, destination: Cidr, via: Interface, metric: int, source: Source, a: Address, on: Option<Interface>)
    requires Proper(t) && Add(t, destination, via, metric, source).Some?
    ensures var added := Route(destination, via, metric, source, t.nextOrder); var before := Lookup(t, a, on);
      Lookup(Add(t, destination, via, metric, source).value.0, a, on) ==
        if Applies(added, a, on) && (before.None? || Compare(added, before.value) < 0) then Some(added) else before
  {
    var added := Route(destination, via, metric, source, t.nextOrder);
    var u := Add(t, destination, via, metric, source).value.0;
    var before := Lookup(t, a, on);
    AddKeepsProper(t, destination, via, metric, source);
    LookupIsBest(t, a, on);
    LookupIsBest(u, a, on);
    assert forall x :: x in u.routes <==> x in t.routes || x == added;
    if Applies(added, a, on) && (before.None? || Compare(added, before.value) < 0) {
      LookupIs(u, added, a, on);
    } else if before.Some? {
      LookupIs(u, before.value, a, on);
    }
  }

  /** Routes that go away change no lookup but those they were the answer of. */
  lemma LookupAfterFilter(t: Table, keep: Route -> bool, a: Address, on: Option<Interface>)
    requires Proper(t) && (Lookup(t, a, on).Some? ==> keep(Lookup(t, a, on).value))
    ensures Lookup(t.(routes := Filter(t.routes, keep)), a, on) == Lookup(t, a, on)
  {
    var u := t.(routes := Filter(t.routes, keep));
    FilterKeepsProper(t.routes, keep, t.nextOrder);
    LookupIsBest(t, a, on);
    LookupIsBest(u, a, on);
    if Lookup(t, a, on).Some? {
      LookupIs(u, Lookup(t, a, on).value, a, on);
    }
  }

  /** A lookup on an interface is a lookup among the routes that lead to it. */
  lemma LookupOnInterface(t: Table, a: Address, on: Interface)
    requires Proper(t)
    ensures Lookup(t, a, Some(on)) == Lookup(t.(routes := Filter(t.routes, (r: Route) => r.via == on)), a, None)
  {
    var u := t.(routes := Filter(t.routes, (r: Route) => r.via == on));
    FilterKeepsProper(t.routes, (r: Route) => r.via == on, t.nextOrder);
    LookupIsBest(t, a, Some(on));
    LookupIsBest(u, a, None);
    if Lookup(t, a, Some(on)).Some? {
      LookupIs(u, Lookup(t, a, Some(on)).value, a, None);
    }
  }

  /** Disposing a handle, or removing an interface, changes only the lookups that gave its routes. */
  lemma LookupAfterRemoval(t: Table, order: nat, via: Interface, a: Address, on: Option<Interface>)
    requires Proper(t) && Lookup(t, a, on).Some?
    ensures Lookup(t, a, on).value.order != order ==> Lookup(DisposeRoute(t, order), a, on) == Lookup(t, a, on)
    ensures Lookup(t, a, on).value.via != via ==> Lookup(RemoveInterface(t, via), a, on) == Lookup(t, a, on)
    ensures forall r :: r in DisposeRoute(t, order).routes ==> r.order != order
    ensures forall r :: r in RemoveInterface(t, via).routes ==> r.via != via
  {
    if Lookup(t, a, on).value.order != order {
      LookupAfterFilter(t, (r: Route) => r.order != order, a, on);
    }
    if Lookup(t, a, on).value.via != via {
      LookupAfterFilter(t, (r: Route) => r.via != via, a, on);
    }
  }

  /** All applying routes of the longest length lead to the same destination network. */
  lemma LongestShareDestination(t: Table, a: Address, r: Route, s: Route)
    requires Proper(t) && r in t.routes && s in t.routes
    requires Applies(r, a, None) && Applies(s, a, None) && r.Prefix() == s.Prefix()
    ensures r.destination == s.destination
  {
    MatchedNetworkUnique(a.bytes, r.destination.address.bytes, s.destination.address.bytes, r.Prefix());
  }

  lemma ComparedEqual(t: Table, x: Route, y: Route)
    requires Proper(t) && x in t.routes && y in t.routes && Compare(x, y) == 0
    ensures x == y
  {
    var i :| 0 <= i < |t.routes| && t.routes[i] == x;
    var j :| 0 <= j < |t.routes| && t.routes[j] == y;
    assert i < j ==> Distinct(x, y);
    assert j < i ==> Distinct(y, x);
  }

  /** The listing is sorted and has exactly the routes of the table; it is the only such listing. */
  lemma ListIsTheSorting(t: Table, other: seq<Route>)
    requires Proper(t)
    ensures Sorted(List(t)) && multiset(List(t)) == multiset(t.routes)
    ensures Sorted(other) && multiset(other) == multiset(t.routes) ==> other == List(t)
  {
    SortSorted(t.routes);
    if Sorted(other) && multiset(other) == multiset(t.routes) {
      SameMembers(List(t), t.routes);
      forall x, y | x in t.routes && y in t.routes && Compare(x, y) == 0 ensures x == y {
        ComparedEqual(t, x, y);
      }
      SortingUnique(List(t), other);
    }
  }

  /** No two routes rank the same. */
  ghost predicate Strict(s: seq<Route>) {
    forall x, y :: x in s && y in s && Compare(x, y) == 0 ==> x == y
  }

  lemma HeadsEqual(s: seq<Route>, t: seq<Route>)
    requires Sorted(s) && Sorted(t) && multiset(s) == multiset(t) && s != []
    requires Strict(s)
    ensures |s| == |t| && s[0] == t[0]
  {
    SameMembers(s, t);
    assert s[0] in t && t[0] in s;
    var k :| 0 <= k < |t| && t[k] == s[0];
    var j :| 0 <= j < |s| && s[j] == t[0];
    assert k > 0 ==> Compare(t[0], s[0]) <= 0;
    assert j > 0 ==> Compare(s[0], t[0]) <= 0;
  }

  lemma TailMultiset(s: seq<Route>)
    requires s != []
    ensures multiset(s[1..]) == multiset(s) - multiset{s[0]}
    ensures Sorted(s) ==> Sorted(s[1..])
    ensures Strict(s) ==> Strict(s[1..])
  {
    assert s == [s[0]] + s[1..];
  }

  lemma {:induction false} SortingUnique(s: seq<Route>, t: seq<Route>)
    requires Sorted(s) && Sorted(t) && multiset(s) == multiset(t) && Strict(s)
    ensures s == t
  {
    if s == [] {
      assert |multiset(t)| == 0;
    } else {
      assert |s| == |t| && s[0] == t[0] by {
        HeadsEqual(s, t);
      }
      assert s[1..] == t[1..] by {
        TailMultiset(s);
        TailMultiset(t);
        SortingUnique(s[1..], t[1..]);
      }
      assert s == [s[0]] + s[1..] && t == [t[0]] + t[1..];
    }
  }

  // ---------------------------------------------------------------- the table object

  class RouteTable {
    var routes: seq<Route>
    var nextOrder: nat

    ghost function Abstract(): Table
      reads this
    {
      Table(routes, nextOrder)
    }

    ghost predicate Valid()
      reads this
    {
      Proper(Abstract())
    }

    constructor ()
      ensures Abstract() == Empty && Valid()
    {
      routes, nextOrder := [], 1;
    }

    method AddRoute(destination: Cidr, via: Interface, metric: int, source: Source) returns (handle: Option<nat>)
      requires Valid()
      modifies this
      ensures Valid()
      ensures var added := Add(old(Abstract()), destination, via, metric, source);
        if added.Some? then handle == Some(added.value.1) && Abstract() == added.value.0
        else handle == None && Abstract() == old(Abstract())
    {
      if Network(destination) != destination || metric < 0 || metric > MAX_SAFE_INTEGER {
        return None;
      }
      if exists i :: 0 <= i < |routes| && Same(routes[i], destination, via, metric) {
        return None;
      }
      AddKeepsProper(Abstract(), destination, via, metric, source);
      routes := routes + [Route(destination, via, metric, source, nextOrder)];
      handle := Some(nextOrder);
      nextOrder := nextOrder + 1;
    }

    /** `dispose` of the handle of the route with this order. */
    method Dispose(handle: nat)
      requires Valid()
      modifies this`routes
      ensures Valid() && Abstract() == DisposeRoute(old(Abstract()), handle)
    {
      FilterKeepsProper(routes, (r: Route) => r.order != handle, nextOrder);
      routes := Filter(routes, (r: Route) => r.order != handle);
    }

    method Remove(via: Interface)
      requires Valid()
      modifies this`routes
      ensures Valid() && Abstract() == RemoveInterface(old(Abstract()), via)
    {
      FilterKeepsProper(routes, (r: Route) => r.via != via, nextOrder);
      routes := Filter(routes, (r: Route) => r.via != via);
    }
  }
}
