/** The DHCP server as an address allocator. */
module DhcpServer {
  // The server of packages/dhcp/src/dhcp-server.ts. The pure functions say what one message does to
  // the two allocation maps; the class `Server` updates the maps in place, loop by loop, and is proved
  // to do exactly that. The theorems about whole runs are stated on the functions.

  import opened Options
  import opened Ipv4Numbers

  type Mac = string

  /** Milliseconds an unanswered offer stays reserved. */
  const OFFER_DURATION_MS: nat := 60_000

  datatype Config = Config(start: Ipv4, end: Ipv4, leaseDuration: nat, serverIdentifier: Ipv4)

  datatype Lease = Lease(ip: Ipv4, mac: Mac, expiresAt: int)

  datatype Kind = DISCOVER | REQUEST | RELEASE | INFORM | DECLINE | Unsupported

  datatype Message = Message(kind: Kind, xid: nat, mac: Mac, ciaddr: Ipv4,
                             requestedIP: Option<Ipv4>, serverIdentifier: Option<Ipv4>)

  /** What is sent; `Failed` is where the handler throws and nothing is sent. */
  datatype Reply =
    | Silent
    | Failed
    | Offer(xid: nat, mac: Mac, ip: Ipv4)
    | Ack(xid: nat, mac: Mac, ip: Ipv4)
    | Nak(xid: nat, mac: Mac)
    | InformAck(xid: nat, mac: Mac, host: Ipv4)

  /**
   The readings of the clock that handling one message may take, in the order it takes them:
   when expired entries are deleted, when a lease is tested, when an offer is tested (or a lease
   is stored), and when an offer is stored.
   */
  datatype Clock = Clock(purge: int, first: int, second: int, third: int) {
    predicate Monotone() {
      purge <= first <= second <= third
    }

    /** All readings of one message agree. */
    predicate Single() {
      purge == first == second == third
    }
  }

  type Allocations = map<Mac, Lease>

  datatype State = State(leases: Allocations, offers: Allocations)

  // ---------------------------------------------------------------- one message

  function Purge(m: Allocations, now: int): Allocations {
    map mac | mac in m && m[mac].expiresAt > now :: m[mac]
  }

  function PurgeAll(s: State, now: int): State {
    State(Purge(s.leases, now), Purge(s.offers, now))
  }

  function Addresses(m: Allocations): set<Ipv4> {
    set mac | mac in m :: m[mac].ip
  }

  function Used(s: State): set<Ipv4> {
    Addresses(s.leases) + Addresses(s.offers)
  }

  /** The first address from `from` up to the end of the range that is not used. */
  function LowestFree(used: set<Ipv4>, from: nat, end: Ipv4): (r: Option<Ipv4>)
    ensures r.Some? ==> from <= r.value <= end && r.value !in used
    ensures r.Some? ==> forall a: Ipv4 :: from <= a < r.value ==> a in used
    ensures r.None? ==> forall a: Ipv4 :: from <= a <= end ==> a in used
    decreases end + 1 - from
  {
    if from > end then None
    else if from !in used then Some(from)
    else LowestFree(used, from + 1, end)
  }

  /** `s` has already been purged. */
  function FindAvailable(cfg: Config, s: State, mac: Mac, clk: Clock): Option<Ipv4> {
    if mac in s.leases && s.leases[mac].expiresAt > clk.first then Some(s.leases[mac].ip)
    else if mac in s.offers && s.offers[mac].expiresAt > clk.second then Some(s.offers[mac].ip)
    else LowestFree(Used(s), cfg.start, cfg.end)
  }

  function Discover(cfg: Config, s: State, msg: Message, clk: Clock): (State, Reply) {
    var p := PurgeAll(s, clk.purge);
    match FindAvailable(cfg, p, msg.mac, clk)
    case None => (p, Silent)
    case Some(ip) =>
      (p.(offers := p.offers[msg.mac := Lease(ip, msg.mac, clk.third + OFFER_DURATION_MS)]),
       Offer(msg.xid, msg.mac, ip))
  }

  function RequestedAddress(msg: Message): Option<Ipv4> {
    if msg.requestedIP.Some? then msg.requestedIP
    else if msg.ciaddr != 0 then Some(msg.ciaddr)
    else None
  }

  /**
   Whether `mac` may have `ip`. The scan looks at the leases before the offers and decides on the
   first entry that has the address, whoever owns it.
   */
  function CanUse(cfg: Config, s: State, ip: Ipv4, mac: Mac, now: int): bool {
    if ip < cfg.start || ip > cfg.end then false
    else if ip in Addresses(s.leases) then
      mac in s.leases && s.leases[mac].ip == ip && s.leases[mac].expiresAt > now
    else if ip in Addresses(s.offers) then
      mac in s.offers && s.offers[mac].ip == ip && s.offers[mac].expiresAt > now
    else true
  }

  predicate AddressedElsewhere(cfg: Config, msg: Message) {
    msg.serverIdentifier.Some? && msg.serverIdentifier.value != cfg.serverIdentifier
  }

  function Request(cfg: Config, s: State, msg: Message, clk: Clock): (State, Reply) {
    var p := PurgeAll(s, clk.purge);
    if AddressedElsewhere(cfg, msg) then (p, Silent)
    else
      match RequestedAddress(msg)
      case None => (p, Nak(msg.xid, msg.mac))
      case Some(ip) =>
        if CanUse(cfg, p, ip, msg.mac, clk.first) then
          (State(p.leases[msg.mac := Lease(ip, msg.mac, clk.second + cfg.leaseDuration * 1000)],
                 p.offers - {msg.mac}),
           Ack(msg.xid, msg.mac, ip))
        else
          (p.(offers := p.offers - {msg.mac}), Nak(msg.xid, msg.mac))
  }

  function Step(cfg: Config, s: State, msg: Message, clk: Clock): (State, Reply) {
    match msg.kind
    case DISCOVER => Discover(cfg, s, msg, clk)
    case REQUEST => Request(cfg, s, msg, clk)
    case RELEASE => (State(s.leases - {msg.mac}, s.offers - {msg.mac}), Silent)
    case INFORM => (s, if msg.ciaddr == 0 then Silent else InformAck(msg.xid, msg.mac, msg.ciaddr))
    case DECLINE => (s.(offers := s.offers - {msg.mac}), Silent)
    case Unsupported => (s, Failed)
  }

  // ---------------------------------------------------------------- the invariant

  /** `mac` has a lease or an offer for `ip`, expired or not. */
  predicate Owns(s: State, mac: Mac, ip: Ipv4) {
    || (mac in s.leases && s.leases[mac].ip == ip)
    || (mac in s.offers && s.offers[mac].ip == ip)
  }

  /** `mac` has a lease or an offer for `ip` that has not expired at `now`. */
  predicate Live(s: State, mac: Mac, ip: Ipv4, now: int) {
    || (mac in s.leases && s.leases[mac].ip == ip && s.leases[mac].expiresAt > now)
    || (mac in s.offers && s.offers[mac].ip == ip && s.offers[mac].expiresAt > now)
  }

  /**
   No address is allocated to two clients, whether as leases, as offers or one of each, and every
   allocated address is in the range.
   */
  ghost predicate Consistent(cfg: Config, s: State) {
    && (forall a, b, ip: Ipv4 :: Owns(s, a, ip) && Owns(s, b, ip) ==> a == b)
    && (forall a, ip: Ipv4 :: Owns(s, a, ip) ==> cfg.start <= ip <= cfg.end)
  }

  lemma UsedIffOwned(s: State, ip: Ipv4)
    ensures ip in Used(s) <==> exists mac :: Owns(s, mac, ip)
  {
    if ip in Addresses(s.leases) {
      var mac :| mac in s.leases && s.leases[mac].ip == ip;
      assert Owns(s, mac, ip);
    } else if ip in Addresses(s.offers) {
      var mac :| mac in s.offers && s.offers[mac].ip == ip;
      assert Owns(s, mac, ip);
    }
  }

  /** An allocation that grants `ip` to `mac` alone, when nobody else owns it, is safe. */
  lemma GrantKeepsConsistent(cfg: Config, s: State, t: State, mac: Mac, ip: Ipv4)
    requires Consistent(cfg, s) && cfg.start <= ip <= cfg.end
    requires forall other :: Owns(s, other, ip) ==> other == mac
    requires forall a, x: Ipv4 :: Owns(t, a, x) ==> Owns(s, a, x) || (a == mac && x == ip)
    ensures Consistent(cfg, t)
  {
  }

  lemma PurgeKeepsConsistent(cfg: Config, s: State, now: int)
    requires Consistent(cfg, s)
    ensures Consistent(cfg, PurgeAll(s, now))
    ensures forall mac, ip: Ipv4 :: Owns(PurgeAll(s, now), mac, ip) <==> Live(s, mac, ip, now)
  {
    assert forall a, x: Ipv4 :: Owns(PurgeAll(s, now), a, x) ==> Owns(s, a, x);
  }

  lemma DiscoverKeepsConsistent(cfg: Config, s: State, msg: Message, clk: Clock)
    requires Consistent(cfg, s)
    ensures Consistent(cfg, Discover(cfg, s, msg, clk).0)
  {
    var p := PurgeAll(s, clk.purge);
    PurgeKeepsConsistent(cfg, s, clk.purge);
    var found := FindAvailable(cfg, p, msg.mac, clk);
    if found.Some? {
      var ip := found.value;
      UsedIffOwned(p, ip);
      assert Owns(p, msg.mac, ip) || ip !in Used(p);
      GrantKeepsConsistent(cfg, p, Discover(cfg, s, msg, clk).0, msg.mac, ip);
    }
  }

  lemma CanUseMeans(cfg: Config, s: State, ip: Ipv4, mac: Mac, now: int)
    requires Consistent(cfg, s) && CanUse(cfg, s, ip, mac, now)
    ensures cfg.start <= ip <= cfg.end && forall other :: Owns(s, other, ip) ==> other == mac
  {
    UsedIffOwned(s, ip);
    if ip in Used(s) {
      assert Owns(s, mac, ip);
    }
  }

  lemma RequestKeepsConsistent(cfg: Config, s: State, msg: Message, clk: Clock)
    requires Consistent(cfg, s)
    ensures Consistent(cfg, Request(cfg, s, msg, clk).0)
  {
    var p := PurgeAll(s, clk.purge);
    var t := Request(cfg, s, msg, clk).0;
    PurgeKeepsConsistent(cfg, s, clk.purge);
    if Request(cfg, s, msg, clk).1.Ack? {
      var ip := RequestedAddress(msg).value;
      CanUseMeans(cfg, p, ip, msg.mac, clk.first);
      GrantKeepsConsistent(cfg, p, t, msg.mac, ip);
    } else {
      assert forall a, x: Ipv4 :: Owns(t, a, x) ==> Owns(p, a, x);
    }
  }

  /** Every message keeps the invariant, whatever its clock readings. */
  lemma StepKeepsConsistent(cfg: Config, s: State, msg: Message, clk: Clock)
    requires Consistent(cfg, s)
    ensures Consistent(cfg, Step(cfg, s, msg, clk).0)
  {
    match msg.kind
    case DISCOVER => DiscoverKeepsConsistent(cfg, s, msg, clk);
    case REQUEST => RequestKeepsConsistent(cfg, s, msg, clk);
    case _ =>
      var t := Step(cfg, s, msg, clk).0;
      assert forall a, x: Ipv4 :: Owns(t, a, x) ==> Owns(s, a, x);
  }

  // ---------------------------------------------------------------- runs

  datatype Event = Event(msg: Message, clk: Clock)

  /** The state before event `n` of a run that starts with no allocations. */
  function StateAt(cfg: Config, events: seq<Event>, n: nat): State
    requires n <= |events|
  {
    if n == 0 then State(map[], map[])
    else Step(cfg, StateAt(cfg, events, n - 1), events[n - 1].msg, events[n - 1].clk).0
  }

  function ReplyAt(cfg: Config, events: seq<Event>, n: nat): Reply
    requires n < |events|
  {
    Step(cfg, StateAt(cfg, events, n), events[n].msg, events[n].clk).1
  }

  /** Clock readings never go back, within a message or from one message to the next. */
  ghost predicate Timely(events: seq<Event>) {
    && (forall i :: 0 <= i < |events| ==> events[i].clk.Monotone())
    && (forall i, j :: 0 <= i < j < |events| ==> events[i].clk.third <= events[j].clk.purge)
  }

  /** In every reachable state no address has two owners and every address is in the range. */
  lemma {:induction false} ReachableConsistent(cfg: Config, events: seq<Event>, n: nat)
    requires n <= |events|
    ensures Consistent(cfg, StateAt(cfg, events, n))
  {
    if n > 0 {
      ReachableConsistent(cfg, events, n - 1);
      StepKeepsConsistent(cfg, StateAt(cfg, events, n - 1), events[n - 1].msg, events[n - 1].clk);
    }
  }

  predicate Gives(r: Reply, mac: Mac, ip: Ipv4) {
    (r.Offer? || r.Ack?) && r.mac == mac && r.ip == ip
  }

  /** A release gives up all that its client holds, and nothing else; a refused offer is withdrawn, and nothing else. */
  lemma ReleaseAndDecline(cfg: Config, s: State, msg: Message, clk: Clock)
    ensures msg.kind == RELEASE ==>
      forall mac, ip: Ipv4 :: Owns(Step(cfg, s, msg, clk).0, mac, ip) <==> Owns(s, mac, ip) && mac != msg.mac
    ensures msg.kind == DECLINE ==>
      && Step(cfg, s, msg, clk).0.leases == s.leases
      && forall mac :: mac in Step(cfg, s, msg, clk).0.offers <==> mac in s.offers && mac != msg.mac
  {
    var t := Step(cfg, s, msg, clk).0;
    if msg.kind == RELEASE {
      forall mac, ip: Ipv4 ensures Owns(t, mac, ip) <==> Owns(s, mac, ip) && mac != msg.mac {
      }
    }
  }

  /** The event ends the claim of `mac` on `ip`: a release, or a grant of another address. */
  predicate GivesUp(cfg: Config, events: seq<Event>, k: nat, mac: Mac, ip: Ipv4)
    requires k < |events|
  {
    || (events[k].msg.kind == RELEASE && events[k].msg.mac == mac)
    || (ReplyAt(cfg, events, k).Ack? && ReplyAt(cfg, events, k).mac == mac && ReplyAt(cfg, events, k).ip != ip)
  }

  /** When the lease given by the acknowledgement at `i` runs out. */
  function GrantExpiry(cfg: Config, e: Event): int {
    e.clk.second + cfg.leaseDuration * 1000
  }

  predicate HoldsLease(s: State, mac: Mac, ip: Ipv4, until: int) {
    mac in s.leases && s.leases[mac].ip == ip && s.leases[mac].expiresAt >= until
  }

  /** One message leaves the lease in place, unless it gives the address up or finds the lease expired. */
  lemma StepKeepsLease(cfg: Config, s: State, msg: Message, clk: Clock, mac: Mac, ip: Ipv4, until: int)
    requires HoldsLease(s, mac, ip, until) && clk.Monotone() && clk.purge < until
    requires !(msg.kind == RELEASE && msg.mac == mac)
    requires var r := Step(cfg, s, msg, clk).1; !(r.Ack? && r.mac == mac && r.ip != ip)
    requires clk.second + cfg.leaseDuration * 1000 >= until
    ensures HoldsLease(Step(cfg, s, msg, clk).0, mac, ip, until)
  {
  }

  lemma {:induction false} LeaseSurvives(cfg: Config, events: seq<Event>, i: nat, j: nat, mac: Mac, ip: Ipv4)
    requires Timely(events) && i < j <= |events|
    requires ReplyAt(cfg, events, i).Ack? && Gives(ReplyAt(cfg, events, i), mac, ip)
    requires forall k :: i < k < j ==> !GivesUp(cfg, events, k, mac, ip)
    requires forall k :: i < k < j ==> events[k].clk.purge < GrantExpiry(cfg, events[i])
    ensures HoldsLease(StateAt(cfg, events, j), mac, ip, GrantExpiry(cfg, events[i]))
    decreases j
  {
    if j > i + 1 {
      LeaseSurvives(cfg, events, i, j - 1, mac, ip);
      var e := events[j - 1];
      assert !GivesUp(cfg, events, j - 1, mac, ip);
      assert events[i].clk.third <= e.clk.purge && events[i].clk.Monotone() && e.clk.Monotone();
      StepKeepsLease(cfg, StateAt(cfg, events, j - 1), e.msg, e.clk, mac, ip, GrantExpiry(cfg, events[i]));
    }
  }

  /** Whoever is given an address, nobody else owns it when the message's expired entries are gone. */
  lemma GiftIsUnowned(cfg: Config, s: State, msg: Message, clk: Clock, mac: Mac, ip: Ipv4)
    requires Consistent(cfg, s) && Gives(Step(cfg, s, msg, clk).1, mac, ip)
    ensures forall other :: Owns(PurgeAll(s, clk.purge), other, ip) ==> other == mac
  {
    var p := PurgeAll(s, clk.purge);
    PurgeKeepsConsistent(cfg, s, clk.purge);
    UsedIffOwned(p, ip);
    if msg.kind == REQUEST {
      CanUseMeans(cfg, p, ip, mac, clk.first);
    } else {
      assert Owns(p, mac, ip) || ip !in Used(p);
    }
  }

  /**
   Exclusive grants over whole runs. Once `ip` is acknowledged to `mac`, no later message gets
   anybody else an offer or an acknowledgement of `ip`, unless `mac` gave the address up in
   between or the message is handled after the lease has run out.
   */
  lemma ExclusiveGrants(cfg: Config, events: seq<Event>, i: nat, j: nat, mac: Mac, other: Mac, ip: Ipv4)
    requires Timely(events) && i < j < |events| && mac != other
    requires ReplyAt(cfg, events, i).Ack? && Gives(ReplyAt(cfg, events, i), mac, ip)
    requires Gives(ReplyAt(cfg, events, j), other, ip)
    ensures || events[j].clk.purge >= GrantExpiry(cfg, events[i])
            || exists k :: i < k < j && GivesUp(cfg, events, k, mac, ip)
  {
    if events[j].clk.purge < GrantExpiry(cfg, events[i])
       && forall k :: i < k < j ==> !GivesUp(cfg, events, k, mac, ip)
    {
      forall k | i < k < j ensures events[k].clk.purge < GrantExpiry(cfg, events[i]) {
        assert events[k].clk.Monotone();
        assert events[k].clk.third <= events[j].clk.purge;
      }
      LeaseSurvives(cfg, events, i, j, mac, ip);
      ReachableConsistent(cfg, events, j);
      var p := PurgeAll(StateAt(cfg, events, j), events[j].clk.purge);
      assert Owns(p, mac, ip);
      GiftIsUnowned(cfg, StateAt(cfg, events, j), events[j].msg, events[j].clk, other, ip);
    }
  }

  // ---------------------------------------------------------------- offers are honoured

  /** `mac` asks this server for `ip`. */
  predicate Asks(cfg: Config, msg: Message, mac: Mac, ip: Ipv4) {
    && msg.kind == REQUEST && msg.mac == mac
    && (msg.serverIdentifier.None? || msg.serverIdentifier.value == cfg.serverIdentifier)
    && (msg.requestedIP == Some(ip) || (msg.requestedIP.None? && msg.ciaddr == ip && ip != 0))
  }

  /**
   Messages that allocate nothing. A request for another server is ignored, and one that names no address is
   refused, without a trace but for the deletion of expired entries; INFORM is answered to the address that
   the client says it has, if it says one; what is not supported fails. All answers go to their senders.
   */
  lemma UndecidedMessages(cfg: Config, s: State, msg: Message, clk: Clock)
    ensures var (t, r) := Step(cfg, s, msg, clk);
      && (msg.kind == REQUEST && (forall ip: Ipv4 :: !Asks(cfg, msg, msg.mac, ip)) ==>
            && (forall mac, ip: Ipv4 :: Owns(t, mac, ip) <==> Live(s, mac, ip, clk.purge))
            && (r == Silent <==> msg.serverIdentifier.Some? && msg.serverIdentifier.value != cfg.serverIdentifier)
            && (r != Silent ==> r == Nak(msg.xid, msg.mac) && msg.requestedIP.None? && msg.ciaddr == 0))
      && (msg.kind == INFORM ==>
            t == s && (r == Silent <==> msg.ciaddr == 0) && (r.InformAck? ==> r.host == msg.ciaddr))
      && (r == Failed <==> msg.kind == Unsupported) && (r == Failed ==> t == s)
      && (r.InformAck? <==> msg.kind == INFORM && msg.ciaddr != 0)
      && (r != Silent && r != Failed ==> r.xid == msg.xid && r.mac == msg.mac)
  {
    if msg.kind == REQUEST && forall ip: Ipv4 :: !Asks(cfg, msg, msg.mac, ip) {
      assert msg.requestedIP.Some? ==> !Asks(cfg, msg, msg.mac, msg.requestedIP.value);
      assert !Asks(cfg, msg, msg.mac, msg.ciaddr);
    }
  }

  /** The client's own lease on `ip` runs out between two readings of the same message. */
  predicate LapsesMidway(s: State, mac: Mac, ip: Ipv4, clk: Clock) {
    && mac in s.leases && s.leases[mac].ip == ip
    && clk.purge < s.leases[mac].expiresAt <= clk.first
  }

  ghost predicate HeldByOther(s: State, mac: Mac, ip: Ipv4, now: int) {
    exists other :: other != mac && Live(s, other, ip, now)
  }

  lemma UsedIffLive(s: State, ip: Ipv4, now: int)
    ensures ip in Used(PurgeAll(s, now)) <==> exists mac :: Live(s, mac, ip, now)
  {
    var p := PurgeAll(s, now);
    UsedIffOwned(p, ip);
    assert forall mac :: Owns(p, mac, ip) <==> Live(s, mac, ip, now);
  }

  /**
   Exactly when a request is acknowledged: the address is in the range, nobody else holds it, and
   the entry that the client itself has for it - its lease, or else its offer - does not lapse
   while the message is being handled. Otherwise the request is refused.
   */
  lemma AcknowledgedIff(cfg: Config, s: State, msg: Message, clk: Clock, mac: Mac, ip: Ipv4)
    requires Consistent(cfg, s) && clk.Monotone() && Asks(cfg, msg, mac, ip)
    ensures Step(cfg, s, msg, clk).1 == Ack(msg.xid, mac, ip) <==>
      && cfg.start <= ip <= cfg.end
      && !HeldByOther(s, mac, ip, clk.purge)
      && !LapsesMidway(s, mac, ip, clk)
      && (Live(s, mac, ip, clk.purge) ==> Live(s, mac, ip, clk.first))
    ensures Step(cfg, s, msg, clk).1 != Ack(msg.xid, mac, ip) ==> Step(cfg, s, msg, clk).1 == Nak(msg.xid, mac)
  {
    var p := PurgeAll(s, clk.purge);
    UsedIffLive(s, ip, clk.purge);
    if ip in Addresses(p.leases) {
      var o :| o in p.leases && p.leases[o].ip == ip;
      assert Owns(s, o, ip) && Live(s, o, ip, clk.purge);
      if mac in p.leases && p.leases[mac].ip == ip {
        assert Owns(s, mac, ip);
      }
    } else if ip in Addresses(p.offers) {
      var o :| o in p.offers && p.offers[o].ip == ip;
      assert Owns(s, o, ip) && Live(s, o, ip, clk.purge);
      assert !(mac in p.leases && p.leases[mac].ip == ip);
      if mac in p.offers && p.offers[mac].ip == ip {
        assert Owns(s, mac, ip);
      }
    }
    if HeldByOther(s, mac, ip, clk.purge) {
      var o :| o != mac && Live(s, o, ip, clk.purge);
      assert Owns(s, o, ip);
      assert !Owns(s, mac, ip);
    }
    if Live(s, mac, ip, clk.purge) {
      assert ip in Used(p);
    }
  }

  predicate HoldsOffer(s: State, mac: Mac, ip: Ipv4, until: int) {
    mac in s.offers && s.offers[mac].ip == ip && s.offers[mac].expiresAt == until
  }

  lemma OfferRecorded(cfg: Config, s: State, msg: Message, clk: Clock, mac: Mac, ip: Ipv4)
    requires var r := Step(cfg, s, msg, clk).1; r.Offer? && Gives(r, mac, ip)
    ensures HoldsOffer(Step(cfg, s, msg, clk).0, mac, ip, clk.third + OFFER_DURATION_MS)
  {
  }

  /** One message of another client leaves the offer in place, unless it finds it expired. */
  lemma StepKeepsOffer(cfg: Config, s: State, msg: Message, clk: Clock, mac: Mac, ip: Ipv4, until: int)
    requires HoldsOffer(s, mac, ip, until) && clk.purge < until && msg.mac != mac
    ensures HoldsOffer(Step(cfg, s, msg, clk).0, mac, ip, until)
  {
  }

  lemma {:induction false} OfferSurvives(cfg: Config, events: seq<Event>, i: nat, j: nat, mac: Mac, ip: Ipv4)
    requires Timely(events) && i < j <= |events|
    requires ReplyAt(cfg, events, i).Offer? && Gives(ReplyAt(cfg, events, i), mac, ip)
    requires forall k :: i < k < j ==> events[k].msg.mac != mac
    requires forall k :: i < k < j ==> events[k].clk.purge < events[i].clk.third + OFFER_DURATION_MS
    ensures HoldsOffer(StateAt(cfg, events, j), mac, ip, events[i].clk.third + OFFER_DURATION_MS)
    decreases j
  {
    if j > i + 1 {
      OfferSurvives(cfg, events, i, j - 1, mac, ip);
      var e := events[j - 1];
      StepKeepsOffer(cfg, StateAt(cfg, events, j - 1), e.msg, e.clk, mac, ip, events[i].clk.third + OFFER_DURATION_MS);
    } else {
      OfferRecorded(cfg, StateAt(cfg, events, i), events[i].msg, events[i].clk, mac, ip);
    }
  }

  /**
   Offers are honoured. A client that was offered `ip` and asks for it before the offer expires is
   acknowledged, whatever other clients did in between, exactly unless its own earlier lease on
   `ip` lapses between the two clock readings of the request; it is then refused.
   */
  lemma OffersHonoured(cfg: Config, events: seq<Event>, i: nat, j: nat, mac: Mac, ip: Ipv4)
    requires Timely(events) && i < j < |events|
    requires ReplyAt(cfg, events, i).Offer? && Gives(ReplyAt(cfg, events, i), mac, ip)
    requires forall k :: i < k < j ==> events[k].msg.mac != mac
    requires Asks(cfg, events[j].msg, mac, ip)
    requires events[j].clk.first < events[i].clk.third + OFFER_DURATION_MS
    ensures var lapses := LapsesMidway(StateAt(cfg, events, j), mac, ip, events[j].clk);
      && (!lapses <==> ReplyAt(cfg, events, j) == Ack(events[j].msg.xid, mac, ip))
      && (lapses <==> ReplyAt(cfg, events, j) == Nak(events[j].msg.xid, mac))
    ensures events[j].clk.Single() ==> ReplyAt(cfg, events, j) == Ack(events[j].msg.xid, mac, ip)
  {
    forall k | i < k < j ensures events[k].clk.purge < events[i].clk.third + OFFER_DURATION_MS {
      assert events[k].clk.third <= events[j].clk.purge;
      assert events[k].clk.Monotone() && events[j].clk.Monotone();
    }
    OfferSurvives(cfg, events, i, j, mac, ip);
    ReachableConsistent(cfg, events, j);
    var s := StateAt(cfg, events, j);
    assert events[j].clk.Monotone();
    assert Owns(s, mac, ip) && forall o :: Live(s, o, ip, events[j].clk.purge) ==> Owns(s, o, ip);
    assert Live(s, mac, ip, events[j].clk.first);
    AcknowledgedIff(cfg, s, events[j].msg, events[j].clk, mac, ip);
  }

  const OneAddress := Config(7, 7, 1, 1)

  function Lapsing(): seq<Event> {
    [Event(Message(DISCOVER, 0, "m", 0, None, None), Clock(0, 0, 0, 0)),
     Event(Message(REQUEST, 1, "m", 0, Some(7), Some(1)), Clock(0, 0, 0, 0)),
     Event(Message(DISCOVER, 2, "m", 0, None, None), Clock(500, 500, 500, 500)),
     Event(Message(REQUEST, 3, "m", 0, Some(7), Some(1)), Clock(999, 1000, 1000, 1000))]
  }

  lemma LapsingStates()
    ensures StateAt(OneAddress, Lapsing(), 2) == State(map["m" := Lease(7, "m", 1000)], map[])
    ensures StateAt(OneAddress, Lapsing(), 3) ==
      State(map["m" := Lease(7, "m", 1000)], map["m" := Lease(7, "m", 60500)])
    ensures ReplyAt(OneAddress, Lapsing(), 2) == Offer(2, "m", 7)
  {
    var s0 := State(map[], map[]);
    assert StateAt(OneAddress, Lapsing(), 0) == s0 && Used(s0) == {};
    var s1 := State(map[], map["m" := Lease(7, "m", 60000)]);
    assert StateAt(OneAddress, Lapsing(), 1) == s1;
    var s2 := State(map["m" := Lease(7, "m", 1000)], map[]);
    assert PurgeAll(s1, 0) == s1 && 7 !in Addresses(s1.leases);
    assert StateAt(OneAddress, Lapsing(), 2) == s2;
    assert PurgeAll(s2, 500) == s2;
  }

  /** A run in which an offer that is still live is refused, because the old lease lapses midway. */
  lemma OfferRefusedWhenLeaseLapses() returns (cfg: Config, events: seq<Event>)
    ensures |events| == 4 && Timely(events)
    ensures ReplyAt(cfg, events, 2) == Offer(2, "m", 7)
    ensures Asks(cfg, events[3].msg, "m", 7)
    ensures events[3].clk.third < events[2].clk.third + OFFER_DURATION_MS
    ensures ReplyAt(cfg, events, 3) == Nak(3, "m")
  {
    cfg, events := OneAddress, Lapsing();
    LapsingStates();
    var s3 := StateAt(cfg, events, 3);
    assert PurgeAll(s3, 999) == s3;
    assert s3.leases["m"].ip in Addresses(s3.leases);
  }

  // ---------------------------------------------------------------- allocator completeness

  /** The client's own lease, or offer, that is still valid when it is looked at. */
  predicate OwnLease(s: State, mac: Mac, clk: Clock) {
    mac in s.leases && s.leases[mac].expiresAt > clk.first
  }

  predicate OwnOffer(s: State, mac: Mac, clk: Clock) {
    mac in s.offers && s.offers[mac].expiresAt > clk.second
  }

  ghost predicate HeldByAnyone(s: State, ip: Ipv4, now: int) {
    exists mac :: Live(s, mac, ip, now)
  }

  /** The answer of `FindAvailable` in terms of the entries before the purge. */
  lemma FoundAddress(s: State, cfg: Config, mac: Mac, clk: Clock)
    requires clk.Monotone()
    ensures var r := FindAvailable(cfg, PurgeAll(s, clk.purge), mac, clk);
      if OwnLease(s, mac, clk) then r == Some(s.leases[mac].ip)
      else if OwnOffer(s, mac, clk) then r == Some(s.offers[mac].ip)
      else
        && (r.None? <==> forall a: Ipv4 :: cfg.start <= a <= cfg.end ==> HeldByAnyone(s, a, clk.purge))
        && (r.Some? ==>
              && cfg.start <= r.value <= cfg.end && !HeldByAnyone(s, r.value, clk.purge)
              && forall a: Ipv4 :: cfg.start <= a < r.value ==> HeldByAnyone(s, a, clk.purge))
  {
    forall a: Ipv4 ensures a in Used(PurgeAll(s, clk.purge)) <==> HeldByAnyone(s, a, clk.purge) {
      UsedIffLive(s, a, clk.purge);
    }
  }

  /**
   The answer to DISCOVER, whatever the clock readings: the client's own lease if it is still valid when
   it is looked at, else its own offer if it is, else the lowest address of the range that nobody held at
   the purge; and no answer exactly if there is none of these. An entry of the client itself that lapses
   between the purge and the look at it keeps its address from being offered.
   */
  lemma DiscoverAnswer(cfg: Config, s: State, msg: Message, clk: Clock)
    requires clk.Monotone() && msg.kind == DISCOVER
    ensures var r := Step(cfg, s, msg, clk).1; var mac := msg.mac;
      if OwnLease(s, mac, clk) then r == Offer(msg.xid, mac, s.leases[mac].ip)
      else if OwnOffer(s, mac, clk) then r == Offer(msg.xid, mac, s.offers[mac].ip)
      else
        && (r == Silent <==> forall a: Ipv4 :: cfg.start <= a <= cfg.end ==> HeldByAnyone(s, a, clk.purge))
        && (r != Silent ==>
              && r.Offer? && r.xid == msg.xid && r.mac == mac
              && cfg.start <= r.ip <= cfg.end && !HeldByAnyone(s, r.ip, clk.purge)
              && forall a: Ipv4 :: cfg.start <= a < r.ip ==> HeldByAnyone(s, a, clk.purge))
  {
    FoundAddress(s, cfg, msg.mac, clk);
  }

  /**
   With one clock reading per message, DISCOVER goes unanswered exactly when every address of the
   range is held by somebody else; otherwise the client is offered its own live lease, else its own
   live offer, else the lowest address that nobody holds.
   */
  lemma DiscoverComplete(cfg: Config, s: State, msg: Message, clk: Clock)
    requires Consistent(cfg, s) && clk.Single() && msg.kind == DISCOVER
    ensures var r := Step(cfg, s, msg, clk).1; var mac := msg.mac;
      && (r == Silent <==> forall a: Ipv4 :: cfg.start <= a <= cfg.end ==> HeldByOther(s, mac, a, clk.purge))
      && (r != Silent ==> (
            && r.Offer? && r.mac == mac && r.xid == msg.xid && cfg.start <= r.ip <= cfg.end
            && !HeldByOther(s, mac, r.ip, clk.purge)
            && (OwnLease(s, mac, clk) ==> r.ip == s.leases[mac].ip)
            && (!OwnLease(s, mac, clk) && OwnOffer(s, mac, clk) ==> r.ip == s.offers[mac].ip)
            && (!OwnLease(s, mac, clk) && !OwnOffer(s, mac, clk) ==>
                  forall a: Ipv4 :: cfg.start <= a < r.ip ==> HeldByOther(s, mac, a, clk.purge))))
  {
    var mac, now := msg.mac, clk.purge;
    DiscoverAnswer(cfg, s, msg, clk);
    if OwnLease(s, mac, clk) || OwnOffer(s, mac, clk) {
      OwnAddressIsFree(cfg, s, mac, Step(cfg, s, msg, clk).1.ip, now);
    } else {
      forall a: Ipv4 ensures HeldByAnyone(s, a, now) <==> HeldByOther(s, mac, a, now) {
        assert !Live(s, mac, a, now);
      }
    }
  }

  /** What a client holds lies in the range, and nobody else holds it. */
  lemma OwnAddressIsFree(cfg: Config, s: State, mac: Mac, ip: Ipv4, now: int)
    requires Consistent(cfg, s) && Live(s, mac, ip, now)
    ensures cfg.start <= ip <= cfg.end && !HeldByOther(s, mac, ip, now)
  {
    assert Owns(s, mac, ip);
    forall o | Live(s, o, ip, now) ensures o == mac {
      assert Owns(s, o, ip);
    }
  }

  /** Distinct keys with distinct values between `lo` and `hi` are at most as many as the values. */
  lemma {:induction false} InjectionBound(m: map<Mac, Ipv4>, lo: Ipv4, hi: int)
    requires lo <= hi + 1
    requires forall a, b :: a in m && b in m && m[a] == m[b] ==> a == b
    requires forall a :: a in m ==> lo <= m[a] <= hi
    ensures |m| <= hi - lo + 1
    decreases hi - lo
  {
    if hi < lo {
      assert forall a :: a !in m;
      assert m == map[];
    } else if a :| a in m && m[a] == hi {
      var rest := m - {a};
      assert m.Keys == rest.Keys + {a};
      InjectionBound(rest, lo, hi - 1);
    } else {
      InjectionBound(m, lo, hi - 1);
    }
  }

  /** In every reachable state, no more clients hold an allocation than the range has addresses. */
  lemma AllocationsFitRange(cfg: Config, events: seq<Event>, n: nat)
    requires n <= |events|
    ensures var s := StateAt(cfg, events, n);
      |s.leases.Keys + s.offers.Keys| <= if cfg.end < cfg.start then 0 else cfg.end - cfg.start + 1
  {
    var s := StateAt(cfg, events, n);
    ReachableConsistent(cfg, events, n);
    var m := map mac | mac in s.leases.Keys + s.offers.Keys ::
      if mac in s.leases then s.leases[mac].ip else s.offers[mac].ip;
    assert m.Keys == s.leases.Keys + s.offers.Keys;
    forall a | a in m ensures Owns(s, a, m[a]) {
    }
    InjectionBound(m, cfg.start, if cfg.end < cfg.start then cfg.start - 1 else cfg.end);
  }

  // ---------------------------------------------------------------- the server object

  class Server {
    const cfg: Config
    var leases: Allocations
    var offers: Allocations

    ghost function Abstract(): State
      reads this
    {
      State(leases, offers)
    }

    ghost predicate Valid()
      reads this
    {
      Consistent(cfg, Abstract())
    }

    constructor (cfg: Config)
      ensures this.cfg == cfg && Abstract() == State(map[], map[]) && Valid()
    {
      this.cfg := cfg;
      leases, offers := map[], map[];
    }

    method DeleteExpiredAllocations(now: int)
      modifies this`leases, this`offers
      ensures Abstract() == PurgeAll(old(Abstract()), now)
    {
      var macs := leases.Keys;
      while macs != {}
        invariant macs <= leases.Keys <= old(leases).Keys
        invariant offers == old(offers)
        invariant forall mac :: mac in leases ==> leases[mac] == old(leases)[mac]
        invariant forall mac :: mac in leases && mac !in macs ==> leases[mac].expiresAt > now
        invariant forall mac :: mac in old(leases) && mac !in leases ==> old(leases)[mac].expiresAt <= now
      {
        var mac :| mac in macs;
        macs := macs - {mac};
        if leases[mac].expiresAt <= now {
          leases := leases - {mac};
        }
      }
      macs := offers.Keys;
      while macs != {}
        invariant macs <= offers.Keys <= old(offers).Keys
        invariant leases == Purge(old(leases), now)
        invariant forall mac :: mac in offers ==> offers[mac] == old(offers)[mac]
        invariant forall mac :: mac in offers && mac !in macs ==> offers[mac].expiresAt > now
        invariant forall mac :: mac in old(offers) && mac !in offers ==> old(offers)[mac].expiresAt <= now
      {
        var mac :| mac in macs;
        macs := macs - {mac};
        if offers[mac].expiresAt <= now {
          offers := offers - {mac};
        }
      }
    }

    method FindAvailableIP(mac: Mac, clk: Clock) returns (ip: Option<Ipv4>)
      modifies this`leases, this`offers
      ensures Abstract() == PurgeAll(old(Abstract()), clk.purge)
      ensures ip == FindAvailable(cfg, Abstract(), mac, clk)
    {
      DeleteExpiredAllocations(clk.purge);
      if mac in leases && leases[mac].expiresAt > clk.first {
        return Some(leases[mac].ip);
      }
      if mac in offers && offers[mac].expiresAt > clk.second {
        return Some(offers[mac].ip);
      }
      var usedIPs := Addresses(leases) + Addresses(offers);
      var i: nat := cfg.start;
      while i <= cfg.end
        invariant LowestFree(usedIPs, i, cfg.end) == LowestFree(usedIPs, cfg.start, cfg.end)
      {
        if i !in usedIPs {
          return Some(i);
        }
        i := i + 1;
      }
      return None;
    }

    /** The entries are visited in any order; with the invariant the answer does not depend on it. */
    method CanUseRequestedIP(requestedIP: Ipv4, clientMac: Mac, now: int) returns (ok: bool)
      requires Valid()
      ensures ok == CanUse(cfg, Abstract(), requestedIP, clientMac, now)
    {
      if requestedIP < cfg.start || requestedIP > cfg.end {
        return false;
      }
      assert forall mac :: mac in leases && leases[mac].ip == requestedIP ==> Owns(Abstract(), mac, requestedIP);
      assert forall mac :: mac in offers && offers[mac].ip == requestedIP ==> Owns(Abstract(), mac, requestedIP);
      var macs := leases.Keys;
      while macs != {}
        invariant macs <= leases.Keys
        invariant forall mac :: mac in leases && mac !in macs ==> leases[mac].ip != requestedIP
      {
        var mac :| mac in macs;
        if leases[mac].ip == requestedIP {
          return mac == clientMac && leases[mac].expiresAt > now;
        }
        macs := macs - {mac};
      }
      macs := offers.Keys;
      while macs != {}
        invariant macs <= offers.Keys
        invariant forall mac :: mac in offers && mac !in macs ==> offers[mac].ip != requestedIP
      {
        var mac :| mac in macs;
        if offers[mac].ip == requestedIP {
          return mac == clientMac && offers[mac].expiresAt > now;
        }
        macs := macs - {mac};
      }
      return true;
    }

    method HandleDiscover(msg: Message, clk: Clock) returns (reply: Reply)
      requires Valid()
      modifies this`leases, this`offers
      ensures (Abstract(), reply) == Discover(cfg, old(Abstract()), msg, clk) && Valid()
    {
      DiscoverKeepsConsistent(cfg, Abstract(), msg, clk);
      var ip := FindAvailableIP(msg.mac, clk);
      if ip.None? {
        return Silent;
      }
      offers := offers[msg.mac := Lease(ip.value, msg.mac, clk.third + OFFER_DURATION_MS)];
      return Offer(msg.xid, msg.mac, ip.value);
    }

    method HandleRequest(msg: Message, clk: Clock) returns (reply: Reply)
      requires Valid()
      modifies this`leases, this`offers
      ensures (Abstract(), reply) == Request(cfg, old(Abstract()), msg, clk) && Valid()
    {
      RequestKeepsConsistent(cfg, Abstract(), msg, clk);
      PurgeKeepsConsistent(cfg, Abstract(), clk.purge);
      DeleteExpiredAllocations(clk.purge);
      if AddressedElsewhere(cfg, msg) {
        return Silent;
      }
      var requestedIP := if msg.requestedIP.Some? then msg.requestedIP
                         else if msg.ciaddr != 0 then Some(msg.ciaddr) else None;
      if requestedIP.None? {
        return Nak(msg.xid, msg.mac);
      }
      var ok := CanUseRequestedIP(requestedIP.value, msg.mac, clk.first);
      if ok {
        leases := leases[msg.mac := Lease(requestedIP.value, msg.mac, clk.second + cfg.leaseDuration * 1000)];
        offers := offers - {msg.mac};
      } else {
        offers := offers - {msg.mac};
        return Nak(msg.xid, msg.mac);
      }
      return Ack(msg.xid, msg.mac, requestedIP.value);
    }

    method HandleDhcpMessage(msg: Message, clk: Clock) returns (reply: Reply)
      requires Valid()
      modifies this`leases, this`offers
      ensures (Abstract(), reply) == Step(cfg, old(Abstract()), msg, clk) && Valid()
    {
      StepKeepsConsistent(cfg, Abstract(), msg, clk);
      match msg.kind
      case DISCOVER => reply := HandleDiscover(msg, clk);
      case REQUEST => reply := HandleRequest(msg, clk);
      case RELEASE =>
        leases, offers := leases - {msg.mac}, offers - {msg.mac};
        reply := Silent;
      case INFORM =>
        reply := if msg.ciaddr == 0 then Silent else InformAck(msg.xid, msg.mac, msg.ciaddr);
      case DECLINE =>
        offers := offers - {msg.mac};
        reply := Silent;
      case Unsupported =>
        reply := Failed;
    }
  }
}
