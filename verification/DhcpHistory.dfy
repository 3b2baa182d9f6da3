/** What the DHCP server remembers, told from its history. */
module DhcpHistory {
  // The two maps of packages/dhcp/src/dhcp-server.ts hold nothing but what the replies sent so far say.

  import opened Options
  import opened Ipv4Numbers
  import opened DhcpServer

  /** It was so at some `i` before `n`, and nothing has ended it since. */
  ghost predicate Since(begun: nat -> bool, kept: nat -> bool, n: nat) {
    exists i: nat :: i < n && From(begun, kept, n, i)
  }

  ghost predicate From(begun: nat -> bool, kept: nat -> bool, n: nat, i: nat) {
    begun(i) && forall k: nat :: i < k < n ==> kept(k)
  }

  lemma SinceStep(begun: nat -> bool, kept: nat -> bool, n: nat)
    ensures Since(begun, kept, n + 1) <==> begun(n) || (Since(begun, kept, n) && kept(n))
  {
    if Since(begun, kept, n + 1) && !begun(n) {
      var i: nat :| i < n + 1 && From(begun, kept, n + 1, i);
      assert From(begun, kept, n, i);
    }
    if begun(n) {
      assert From(begun, kept, n + 1, n);
    } else if Since(begun, kept, n) && kept(n) {
      var i: nat :| i < n && From(begun, kept, n, i);
      assert From(begun, kept, n + 1, i);
    }
  }

  /** What starts as false, and changes just when it begins or is not kept, has been so since it began. */
  lemma {:induction false} SinceIff(held: nat -> bool, begun: nat -> bool, kept: nat -> bool, n: nat)
    requires !held(0) && forall k: nat :: k < n ==> Changes(held, begun, kept, k)
    ensures held(n) <==> Since(begun, kept, n)
  {
    if n > 0 {
      assert Changes(held, begun, kept, n - 1);
      SinceIff(held, begun, kept, n - 1);
      SinceStep(begun, kept, n - 1);
    }
  }

  ghost predicate Changes(held: nat -> bool, begun: nat -> bool, kept: nat -> bool, k: nat) {
    held(k + 1) <==> begun(k) || (held(k) && kept(k))
  }

  // ---------------------------------------------------------------- one message

  predicate AckTo(r: Reply, mac: Mac) {
    r.Ack? && r.mac == mac
  }

  predicate OfferTo(r: Reply, mac: Mac) {
    r.Offer? && r.mac == mac
  }

  /** The message is a request for an address that this server has to decide on. */
  predicate Decided(cfg: Config, msg: Message) {
    && msg.kind == REQUEST && (msg.requestedIP.Some? || msg.ciaddr != 0)
    && (msg.serverIdentifier.None? || msg.serverIdentifier.value == cfg.serverIdentifier)
  }

  /** What ends a lease of `mac`, apart from its expiry. */
  predicate EndsLease(msg: Message, r: Reply, mac: Mac) {
    AckTo(r, mac) || (msg.kind == RELEASE && msg.mac == mac)
  }

  /** What ends an offer to `mac`, apart from its expiry. */
  predicate EndsOffer(cfg: Config, msg: Message, r: Reply, mac: Mac) {
    || OfferTo(r, mac)
    || (msg.mac == mac && (msg.kind == RELEASE || msg.kind == DECLINE || Decided(cfg, msg)))
  }

  /** The message deletes expired entries first, and this is one. */
  predicate Lapsed(msg: Message, clk: Clock, until: int) {
    (msg.kind == DISCOVER || msg.kind == REQUEST) && until <= clk.purge
  }

  predicate Has(m: Allocations, mac: Mac, lease: Lease) {
    mac in m && m[mac] == lease
  }

  predicate Granted(cfg: Config, r: Reply, clk: Clock, mac: Mac, lease: Lease) {
    AckTo(r, mac) && lease == Lease(r.ip, mac, clk.second + cfg.leaseDuration * 1000)
  }

  predicate Offered(r: Reply, clk: Clock, mac: Mac, lease: Lease) {
    OfferTo(r, mac) && lease == Lease(r.ip, mac, clk.third + OFFER_DURATION_MS)
  }

  lemma LeaseStep(cfg: Config, s: State, msg: Message, clk: Clock, mac: Mac, lease: Lease)
    ensures var (t, r) := Step(cfg, s, msg, clk);
      Has(t.leases, mac, lease) <==>
        || Granted(cfg, r, clk, mac, lease)
        || (Has(s.leases, mac, lease) && !EndsLease(msg, r, mac) && !Lapsed(msg, clk, lease.expiresAt))
  {
  }

  lemma OfferStep(cfg: Config, s: State, msg: Message, clk: Clock, mac: Mac, lease: Lease)
    ensures var (t, r) := Step(cfg, s, msg, clk);
      Has(t.offers, mac, lease) <==>
        || Offered(r, clk, mac, lease)
        || (Has(s.offers, mac, lease) && !EndsOffer(cfg, msg, r, mac) && !Lapsed(msg, clk, lease.expiresAt))
  {
  }

  // ---------------------------------------------------------------- where the entries stem from

  function LeaseBegins(cfg: Config, events: seq<Event>, mac: Mac, lease: Lease): nat -> bool {
    (i: nat) => i < |events| && Granted(cfg, ReplyAt(cfg, events, i), events[i].clk, mac, lease)
  }

  function LeaseKept(cfg: Config, events: seq<Event>, mac: Mac, until: int): nat -> bool {
    (k: nat) =>
      k < |events| && !EndsLease(events[k].msg, ReplyAt(cfg, events, k), mac)
      && !Lapsed(events[k].msg, events[k].clk, until)
  }

  function OfferBegins(cfg: Config, events: seq<Event>, mac: Mac, lease: Lease): nat -> bool {
    (i: nat) => i < |events| && Offered(ReplyAt(cfg, events, i), events[i].clk, mac, lease)
  }

  function OfferKept(cfg: Config, events: seq<Event>, mac: Mac, until: int): nat -> bool {
    (k: nat) =>
      k < |events| && !EndsOffer(cfg, events[k].msg, ReplyAt(cfg, events, k), mac)
      && !Lapsed(events[k].msg, events[k].clk, until)
  }

  function HasLease(cfg: Config, events: seq<Event>, mac: Mac, lease: Lease): nat -> bool {
    (n: nat) => n <= |events| && Has(StateAt(cfg, events, n).leases, mac, lease)
  }

  function HasOffer(cfg: Config, events: seq<Event>, mac: Mac, lease: Lease): nat -> bool {
    (n: nat) => n <= |events| && Has(StateAt(cfg, events, n).offers, mac, lease)
  }

  lemma EntriesChange(cfg: Config, events: seq<Event>, k: nat, mac: Mac, lease: Lease)
    requires k < |events|
    ensures Changes(HasLease(cfg, events, mac, lease), LeaseBegins(cfg, events, mac, lease),
      LeaseKept(cfg, events, mac, lease.expiresAt), k)
    ensures Changes(HasOffer(cfg, events, mac, lease), OfferBegins(cfg, events, mac, lease),
      OfferKept(cfg, events, mac, lease.expiresAt), k)
  {
    LeaseStep(cfg, StateAt(cfg, events, k), events[k].msg, events[k].clk, mac, lease);
    OfferStep(cfg, StateAt(cfg, events, k), events[k].msg, events[k].clk, mac, lease);
  }

  /**
   The leases are what the acknowledgements say: in every reachable state a client has a lease exactly if
   some acknowledgement gave it this address, it runs out the lease duration after that acknowledgement,
   and since then the client was neither acknowledged anything else nor released it, and nobody's message
   found it expired.
   */
  lemma LeaseStemsFrom(cfg: Config, events: seq<Event>, n: nat, mac: Mac, lease: Lease)
    requires n <= |events|
    ensures Has(StateAt(cfg, events, n).leases, mac, lease) <==>
      Since(LeaseBegins(cfg, events, mac, lease), LeaseKept(cfg, events, mac, lease.expiresAt), n)
  {
    forall k: nat | k < n
      ensures Changes(HasLease(cfg, events, mac, lease), LeaseBegins(cfg, events, mac, lease),
        LeaseKept(cfg, events, mac, lease.expiresAt), k)
    {
      EntriesChange(cfg, events, k, mac, lease);
    }
    SinceIff(HasLease(cfg, events, mac, lease), LeaseBegins(cfg, events, mac, lease),
      LeaseKept(cfg, events, mac, lease.expiresAt), n);
  }

  /** So are the offers, which run out a minute after they were made. */
  lemma OfferStemsFrom(cfg: Config, events: seq<Event>, n: nat, mac: Mac, lease: Lease)
    requires n <= |events|
    ensures Has(StateAt(cfg, events, n).offers, mac, lease) <==>
      Since(OfferBegins(cfg, events, mac, lease), OfferKept(cfg, events, mac, lease.expiresAt), n)
  {
    forall k: nat | k < n
      ensures Changes(HasOffer(cfg, events, mac, lease), OfferBegins(cfg, events, mac, lease),
        OfferKept(cfg, events, mac, lease.expiresAt), k)
    {
      EntriesChange(cfg, events, k, mac, lease);
    }
    SinceIff(HasOffer(cfg, events, mac, lease), OfferBegins(cfg, events, mac, lease),
      OfferKept(cfg, events, mac, lease.expiresAt), n);
  }

  // ---------------------------------------------------------------- who holds an address

  predicate LeaseLive(s: State, mac: Mac, ip: Ipv4, now: int) {
    mac in s.leases && s.leases[mac].ip == ip && s.leases[mac].expiresAt > now
  }

  predicate OfferLive(s: State, mac: Mac, ip: Ipv4, now: int) {
    mac in s.offers && s.offers[mac].ip == ip && s.offers[mac].expiresAt > now
  }

  /** The reply acknowledges `ip` to `mac` for longer than until `now`. */
  function AckFor(cfg: Config, events: seq<Event>, mac: Mac, ip: Ipv4, now: int): nat -> bool {
    (i: nat) =>
      && i < |events| && AckTo(ReplyAt(cfg, events, i), mac) && ReplyAt(cfg, events, i).ip == ip
      && now < events[i].clk.second + cfg.leaseDuration * 1000
  }

  function OfferFor(cfg: Config, events: seq<Event>, mac: Mac, ip: Ipv4, now: int): nat -> bool {
    (i: nat) =>
      && i < |events| && OfferTo(ReplyAt(cfg, events, i), mac) && ReplyAt(cfg, events, i).ip == ip
      && now < events[i].clk.third + OFFER_DURATION_MS
  }

  function LeaseLeft(cfg: Config, events: seq<Event>, mac: Mac): nat -> bool {
    (k: nat) => k < |events| && !EndsLease(events[k].msg, ReplyAt(cfg, events, k), mac)
  }

  function OfferLeft(cfg: Config, events: seq<Event>, mac: Mac): nat -> bool {
    (k: nat) => k < |events| && !EndsOffer(cfg, events[k].msg, ReplyAt(cfg, events, k), mac)
  }

  /** The last acknowledgement to `mac` was of `ip`, it was not released since, and has not run out at `now`. */
  ghost predicate AckStands(cfg: Config, events: seq<Event>, n: nat, mac: Mac, ip: Ipv4, now: int) {
    Since(AckFor(cfg, events, mac, ip, now), LeaseLeft(cfg, events, mac), n)
  }

  ghost predicate OfferStands(cfg: Config, events: seq<Event>, n: nat, mac: Mac, ip: Ipv4, now: int) {
    Since(OfferFor(cfg, events, mac, ip, now), OfferLeft(cfg, events, mac), n)
  }

  lemma LiveStep(cfg: Config, s: State, msg: Message, clk: Clock, mac: Mac, ip: Ipv4, now: int)
    requires clk.purge <= now
    ensures var (t, r) := Step(cfg, s, msg, clk);
      LeaseLive(t, mac, ip, now) <==>
        || (AckTo(r, mac) && r.ip == ip && now < clk.second + cfg.leaseDuration * 1000)
        || (LeaseLive(s, mac, ip, now) && !EndsLease(msg, r, mac))
    ensures var (t, r) := Step(cfg, s, msg, clk);
      OfferLive(t, mac, ip, now) <==>
        || (OfferTo(r, mac) && r.ip == ip && now < clk.third + OFFER_DURATION_MS)
        || (OfferLive(s, mac, ip, now) && !EndsOffer(cfg, msg, r, mac))
  {
  }

  /** No message before `n` looked at a later time than `now`. */
  ghost predicate NotBefore(events: seq<Event>, n: nat, now: int)
    requires n <= |events|
  {
    forall k :: 0 <= k < n ==> events[k].clk.purge <= now
  }

  function LeaseHeld(cfg: Config, events: seq<Event>, mac: Mac, ip: Ipv4, now: int): nat -> bool {
    (n: nat) => n <= |events| && LeaseLive(StateAt(cfg, events, n), mac, ip, now)
  }

  function OfferHeld(cfg: Config, events: seq<Event>, mac: Mac, ip: Ipv4, now: int): nat -> bool {
    (n: nat) => n <= |events| && OfferLive(StateAt(cfg, events, n), mac, ip, now)
  }

  lemma LiveStepAt(cfg: Config, events: seq<Event>, k: nat, mac: Mac, ip: Ipv4, now: int)
    requires k < |events| && events[k].clk.purge <= now
    ensures LeaseHeld(cfg, events, mac, ip, now)(k + 1) <==>
      AckFor(cfg, events, mac, ip, now)(k) || (LeaseLive(StateAt(cfg, events, k), mac, ip, now) &&
        LeaseLeft(cfg, events, mac)(k))
    ensures OfferHeld(cfg, events, mac, ip, now)(k + 1) <==>
      OfferFor(cfg, events, mac, ip, now)(k) || (OfferLive(StateAt(cfg, events, k), mac, ip, now) &&
        OfferLeft(cfg, events, mac)(k))
  {
    LiveStep(cfg, StateAt(cfg, events, k), events[k].msg, events[k].clk, mac, ip, now);
  }

  lemma ClaimsChange(cfg: Config, events: seq<Event>, k: nat, mac: Mac, ip: Ipv4, now: int)
    requires k < |events| && events[k].clk.purge <= now
    ensures Changes(LeaseHeld(cfg, events, mac, ip, now), AckFor(cfg, events, mac, ip, now),
      LeaseLeft(cfg, events, mac), k)
    ensures Changes(OfferHeld(cfg, events, mac, ip, now), OfferFor(cfg, events, mac, ip, now),
      OfferLeft(cfg, events, mac), k)
  {
    LiveStepAt(cfg, events, k, mac, ip, now);
    assert LeaseHeld(cfg, events, mac, ip, now)(k) <==> LeaseLive(StateAt(cfg, events, k), mac, ip, now);
    assert OfferHeld(cfg, events, mac, ip, now)(k) <==> OfferLive(StateAt(cfg, events, k), mac, ip, now);
  }

  lemma LiveIffStands(cfg: Config, events: seq<Event>, n: nat, mac: Mac, ip: Ipv4, now: int)
    requires n <= |events| && NotBefore(events, n, now)
    ensures LeaseLive(StateAt(cfg, events, n), mac, ip, now) <==> AckStands(cfg, events, n, mac, ip, now)
    ensures OfferLive(StateAt(cfg, events, n), mac, ip, now) <==> OfferStands(cfg, events, n, mac, ip, now)
  {
    forall k: nat | k < n
      ensures Changes(LeaseHeld(cfg, events, mac, ip, now), AckFor(cfg, events, mac, ip, now),
        LeaseLeft(cfg, events, mac), k)
      ensures Changes(OfferHeld(cfg, events, mac, ip, now), OfferFor(cfg, events, mac, ip, now),
        OfferLeft(cfg, events, mac), k)
    {
      ClaimsChange(cfg, events, k, mac, ip, now);
    }
    SinceIff(LeaseHeld(cfg, events, mac, ip, now), AckFor(cfg, events, mac, ip, now),
      LeaseLeft(cfg, events, mac), n);
    SinceIff(OfferHeld(cfg, events, mac, ip, now), OfferFor(cfg, events, mac, ip, now),
      OfferLeft(cfg, events, mac), n);
  }

  /** An acknowledgement or an offer of `ip` to `mac` still stands. */
  ghost predicate Claims(cfg: Config, events: seq<Event>, n: nat, mac: Mac, ip: Ipv4, now: int) {
    AckStands(cfg, events, n, mac, ip, now) || OfferStands(cfg, events, n, mac, ip, now)
  }

  ghost predicate Claimed(cfg: Config, events: seq<Event>, n: nat, ip: Ipv4, now: int) {
    exists mac :: Claims(cfg, events, n, mac, ip, now)
  }

  /** At any time from the last message on, who holds an address can be read off the replies. */
  lemma LiveIffClaimed(cfg: Config, events: seq<Event>, n: nat, mac: Mac, ip: Ipv4, now: int)
    requires n <= |events| && NotBefore(events, n, now)
    ensures Live(StateAt(cfg, events, n), mac, ip, now) <==> Claims(cfg, events, n, mac, ip, now)
  {
    LiveIffStands(cfg, events, n, mac, ip, now);
  }

  lemma TimelyNotBefore(events: seq<Event>, j: nat)
    requires Timely(events) && j < |events|
    ensures NotBefore(events, j, events[j].clk.purge)
  {
    forall k | 0 <= k < j ensures events[k].clk.purge <= events[j].clk.purge {
      assert events[k].clk.Monotone() && events[k].clk.third <= events[j].clk.purge;
    }
  }

  ghost predicate FreeFor(cfg: Config, events: seq<Event>, j: nat, mac: Mac, ip: Ipv4, now: int) {
    cfg.start <= ip <= cfg.end && forall other :: other != mac ==> !Claims(cfg, events, j, other, ip, now)
  }

  /**
   Requests, decided by the history alone. With one reading of the clock for the message, a client that asks
   for an address is acknowledged exactly if the address is in the range and no acknowledgement or offer of
   it to anybody else still stands; otherwise it is refused. So an address is free again as soon as the last
   acknowledgement of it has run out, and not before unless it was given up.
   */
  lemma AcknowledgedByHistory(cfg: Config, events: seq<Event>, j: nat, mac: Mac, ip: Ipv4)
    requires Timely(events) && j < |events| && events[j].clk.Single() && Asks(cfg, events[j].msg, mac, ip)
    ensures ReplyAt(cfg, events, j) ==
      if FreeFor(cfg, events, j, mac, ip, events[j].clk.purge) then Ack(events[j].msg.xid, mac, ip)
      else Nak(events[j].msg.xid, mac)
  {
    var s, now := StateAt(cfg, events, j), events[j].clk.purge;
    ReachableConsistent(cfg, events, j);
    TimelyNotBefore(events, j);
    AcknowledgedIff(cfg, s, events[j].msg, events[j].clk, mac, ip);
    forall other ensures Live(s, other, ip, now) <==> Claims(cfg, events, j, other, ip, now) {
      LiveIffClaimed(cfg, events, j, other, ip, now);
    }
  }

  /** The lowest address of the range that nobody claims, or silence if there is none. */
  ghost predicate LowestUnclaimed(cfg: Config, events: seq<Event>, j: nat, r: Reply, msg: Message, now: int) {
    && (r == Silent <==> forall a: Ipv4 :: cfg.start <= a <= cfg.end ==> Claimed(cfg, events, j, a, now))
    && (r != Silent ==>
          && r.Offer? && r.xid == msg.xid && r.mac == msg.mac
          && cfg.start <= r.ip <= cfg.end && !Claimed(cfg, events, j, r.ip, now)
          && forall a: Ipv4 :: cfg.start <= a < r.ip ==> Claimed(cfg, events, j, a, now))
  }

  /**
   So is the search: with one reading for the message, a client whose last acknowledgement still stands is
   offered that address, else the one of its last offer if that still stands, else the lowest address that
   nobody claims.
   */
  lemma DiscoverByHistory(cfg: Config, events: seq<Event>, j: nat)
    requires Timely(events) && j < |events| && events[j].clk.Single() && events[j].msg.kind == DISCOVER
    ensures var now, msg, r := events[j].clk.purge, events[j].msg, ReplyAt(cfg, events, j);
      && (forall a: Ipv4 :: AckStands(cfg, events, j, msg.mac, a, now) ==> r == Offer(msg.xid, msg.mac, a))
      && (forall a: Ipv4 :: OfferStands(cfg, events, j, msg.mac, a, now) ==>
            r == Offer(msg.xid, msg.mac, a) || exists b: Ipv4 :: AckStands(cfg, events, j, msg.mac, b, now))
      && ((forall a: Ipv4 :: !Claims(cfg, events, j, msg.mac, a, now)) ==>
            LowestUnclaimed(cfg, events, j, r, msg, now))
  {
    var s, now, mac := StateAt(cfg, events, j), events[j].clk.purge, events[j].msg.mac;
    TimelyNotBefore(events, j);
    forall a: Ipv4, o: Mac ensures Live(s, o, a, now) <==> Claims(cfg, events, j, o, a, now)
      ensures LeaseLive(s, o, a, now) <==> AckStands(cfg, events, j, o, a, now)
      ensures OfferLive(s, o, a, now) <==> OfferStands(cfg, events, j, o, a, now)
    {
      LiveIffStands(cfg, events, j, o, a, now);
    }
    forall a: Ipv4 ensures HeldByAnyone(s, a, now) <==> Claimed(cfg, events, j, a, now) {
    }
    assert OwnLease(s, mac, events[j].clk) ==> LeaseLive(s, mac, s.leases[mac].ip, now);
    assert OwnOffer(s, mac, events[j].clk) ==> OfferLive(s, mac, s.offers[mac].ip, now);
    DiscoverAnswer(cfg, s, events[j].msg, events[j].clk);
  }
}
