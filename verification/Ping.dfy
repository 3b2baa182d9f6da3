/** Bookkeeping of echo probes (packages/tcpip/src/bindings/icmp.ts). */
module Ping {
  import opened Options
  import opened Bytes
  import opened Text
  import opened Bits
  import Ip

  datatype Key = Key(host: string, identifier: nat, sequenceNumber: nat)

  /** A probe is named by its number; its timer has the same number. */
  datatype Probe = Probe(id: nat, payload: Data)

  datatype Outcome = Replied | TimedOut | SendFailed | SessionClosed | StackDisposed

  /** A call of the `resolve` or `reject` function of a probe. */
  datatype Settlement = Settlement(id: nat, outcome: Outcome)

  /**
   `timers` are the running timers with the key their callback deletes; `queue` holds the replies that
   wait for their microtask; `settled` is what has been settled so far.
   */
  datatype State = State(
    pending: map<Key, Probe>,
    timers: map<nat, Key>,
    queue: seq<nat>,
    settled: multiset<Settlement>,
    nextId: nat,
    disposed: bool)

  const Initially := State(map[], map[], [], multiset{}, 0, false)

  const MAX_ICMP_ECHO_PAYLOAD_LENGTH: nat := 65507

  // ---------------------------------------------------------------- the key

  /** `#getPendingKey` */
  function KeyText(k: Key): string {
    k.host + ":" + ToText(k.identifier, 10) + ":" + ToText(k.sequenceNumber, 10)
  }

  lemma LastField(a: string, b: string, c: string, d: string)
    requires Free(b, ':') && Free(d, ':') && a + ":" + b == c + ":" + d
    ensures a == c && b == d
  {
    Ip.LastIndexAt(a, ':', b);
    Ip.LastIndexAt(c, ':', d);
    assert (a + ":" + b)[..|a|] == a && (c + ":" + d)[..|c|] == c;
    assert (a + ":" + b)[|a| + 1..] == b && (c + ":" + d)[|c| + 1..] == d;
  }

  lemma NumberTextIsPlain(n: nat)
    ensures Free(ToText(n, 10), ':')
  {
    TextIsDigits(n, 10);
  }

  lemma SameNumber(m: nat, n: nat)
    ensures ToText(m, 10) == ToText(n, 10) <==> m == n
  {
    NumberOfText(m, 10);
    NumberOfText(n, 10);
  }

  /** Key texts are equal exactly when the keys are, even where the host contains colons. */
  lemma KeyTextInjective(k: Key, l: Key)
    ensures KeyText(k) == KeyText(l) <==> k == l
  {
    if KeyText(k) == KeyText(l) {
      NumberTextIsPlain(k.sequenceNumber);
      NumberTextIsPlain(l.sequenceNumber);
      NumberTextIsPlain(k.identifier);
      NumberTextIsPlain(l.identifier);
      LastField(k.host + ":" + ToText(k.identifier, 10), ToText(k.sequenceNumber, 10),
                l.host + ":" + ToText(l.identifier, 10), ToText(l.sequenceNumber, 10));
      LastField(k.host, ToText(k.identifier, 10), l.host, ToText(l.identifier, 10));
      SameNumber(k.identifier, l.identifier);
      SameNumber(k.sequenceNumber, l.sequenceNumber);
    }
  }

  // ---------------------------------------------------------------- operations

  /** `send`: a probe is created, unless it is refused; `accepted` is whether the echo request could be sent. */
  function Send(s: State, key: Key, payload: Data, accepted: bool): (r: (State, Option<nat>)) {
    if s.disposed || |payload| > MAX_ICMP_ECHO_PAYLOAD_LENGTH || key in s.pending then (s, None)
    else if !accepted then
      (s.(settled := s.settled + multiset{Settlement(s.nextId, SendFailed)}, nextId := s.nextId + 1), Some(s.nextId))
    else
      (s.(pending := s.pending[key := Probe(s.nextId, payload)],
          timers := s.timers[s.nextId := key],
          nextId := s.nextId + 1),
       Some(s.nextId))
  }

  /** `receive_icmp_echo_reply` */
  function Reply(s: State, key: Key, payload: Data): State {
    if s.disposed || key !in s.pending || s.pending[key].payload != payload then s
    else
      s.(pending := s.pending - {key},
         timers := s.timers - {s.pending[key].id},
         queue := s.queue + [s.pending[key].id])
  }

  /** The microtask of the oldest reply. */
  function RunMicrotask(s: State): State {
    if s.queue == [] then s
    else
      s.(queue := s.queue[1..],
         settled := s.settled + multiset{Settlement(s.queue[0], if s.disposed then StackDisposed else Replied)})
  }

  /** The callback of a timer that runs out. */
  function OnTimeout(s: State, id: nat): State {
    if id !in s.timers then s
    else
      s.(pending := s.pending - {s.timers[id]},
         timers := s.timers - {id},
         settled := s.settled + multiset{Settlement(id, TimedOut)})
  }

  function Settlements(ids: set<nat>, outcome: Outcome): multiset<Settlement> {
    multiset(set id | id in ids :: Settlement(id, outcome))
  }

  function IdsOf(s: State, keys: set<Key>): set<nat> {
    set k | k in keys && k in s.pending :: s.pending[k].id
  }

  /** The entries under `keys` are taken out, their timers cleared and their promises rejected. */
  function Reject(s: State, keys: set<Key>, outcome: Outcome): State {
    s.(pending := s.pending - keys,
       timers := s.timers - IdsOf(s, keys),
       settled := s.settled + Settlements(IdsOf(s, keys), outcome))
  }

  function KeysOfSession(s: State, host: string, identifier: nat): set<Key> {
    set k | k in s.pending && k.host == host && k.identifier == identifier
  }

  /** The `close` hook of a session. */
  function CloseSession(s: State, host: string, identifier: nat): State {
    Reject(s, KeysOfSession(s, host, identifier), SessionClosed)
  }

  function Dispose(s: State): State {
    Reject(s.(disposed := true), s.pending.Keys, StackDisposed)
  }

  // ---------------------------------------------------------------- sessions and runs

  datatype Session = Session(host: string, identifier: nat, closed: bool, sequenceNumber: nat)

  /** `(n + 1) & 0xffff` */
  function NextNumber(n: nat): int {
    BitAnd(n + 1, 0xffff)
  }

  lemma NextNumberWraps(n: nat)
    requires n < 0x1_0000
    ensures NextNumber(n) == (n + 1) % 0x1_0000
  {
    assert Pow2(16) == 0x1_0000 by {
      PowersUsed();
    }
    AndLow(n + 1, 16);
    SmallAnd(n + 1, 0xffff, (n + 1) % 0x1_0000);
  }

  /** `makers` is history: the session that made each probe. */
  datatype World = World(state: State, sessions: seq<Session>, makers: seq<nat>)

  const Start := World(Initially, [], [])

  datatype Event =
    | SessionCreated(host: string, identifier: nat)
    | PingCalled(session: nat, payload: Data, accepted: bool)
    | EchoReply(key: Key, payload: Data)
    | Microtask
    | Timeout(id: nat)
    | CloseCalled(session: nat)
    | Disposed

  /** `ping` of a session object. */
  function PingOn(s: State, session: Session, payload: Data, accepted: bool): (State, Session, Option<nat>) {
    if session.closed then (s, session, None)
    else
      var (v, probe) := Send(s, Key(session.host, session.identifier, session.sequenceNumber), payload, accepted);
      (v, session.(sequenceNumber := (session.sequenceNumber + 1) % 0x1_0000), probe)
  }

  /** `close` of a session object. */
  function CloseOn(s: State, session: Session): (State, Session) {
    if session.closed then (s, session)
    else (CloseSession(s, session.host, session.identifier), session.(closed := true))
  }

  function Ping(w: World, i: nat, payload: Data, accepted: bool): World
    requires i < |w.sessions|
  {
    var (s, session, probe) := PingOn(w.state, w.sessions[i], payload, accepted);
    World(s, w.sessions[i := session], if probe.Some? then w.makers + [i] else w.makers)
  }

  function Close(w: World, i: nat): World
    requires i < |w.sessions|
  {
    var (s, session) := CloseOn(w.state, w.sessions[i]);
    w.(state := s, sessions := w.sessions[i := session])
  }

  function Step(w: World, e: Event): World {
    match e
    case SessionCreated(host, identifier) =>
      if w.state.disposed then w else w.(sessions := w.sessions + [Session(host, identifier, false, 0)])
    case PingCalled(i, payload, accepted) => if i < |w.sessions| then Ping(w, i, payload, accepted) else w
    case EchoReply(key, payload) => w.(state := Reply(w.state, key, payload))
    case Microtask => w.(state := RunMicrotask(w.state))
    case Timeout(id) => w.(state := OnTimeout(w.state, id))
    case CloseCalled(i) => if i < |w.sessions| then Close(w, i) else w
    case Disposed => w.(state := Dispose(w.state))
  }

  function After(w: World, events: seq<Event>): World
    decreases |events|
  {
    if events == [] then w else After(Step(w, events[0]), events[1..])
  }

  // ---------------------------------------------------------------- bookkeeping

  /** How often a probe has been settled. */
  function Times(s: State, id: nat): nat {
    s.settled[Settlement(id, Replied)] + s.settled[Settlement(id, TimedOut)] + s.settled[Settlement(id, SendFailed)]
    + s.settled[Settlement(id, SessionClosed)] + s.settled[Settlement(id, StackDisposed)]
  }

  /** A timer runs exactly for each pending entry, and its callback deletes that very entry. */
  ghost predicate TimersMatch(s: State) {
    && (forall k :: k in s.pending ==> s.pending[k].id in s.timers && s.timers[s.pending[k].id] == k)
    && (forall id :: id in s.timers ==> s.timers[id] in s.pending && s.pending[s.timers[id]].id == id)
  }

  /** Each probe waits for an answer, or for the microtask of its reply, or has been settled once. */
  ghost predicate AccountedFor(s: State) {
    forall id: nat ::
      (if id in s.timers then 1 else 0) + multiset(s.queue)[id] + Times(s, id) == if id < s.nextId then 1 else 0
  }

  ghost predicate Kept(s: State) {
    && TimersMatch(s) && AccountedFor(s)
    && (s.disposed ==> s.pending == map[] && s.timers == map[])
  }

  lemma SettledOne(s: State, v: State, id: nat, outcome: Outcome)
    requires v.settled == s.settled + multiset{Settlement(id, outcome)}
    ensures forall other: nat :: Times(v, other) == Times(s, other) + if other == id then 1 else 0
  {
  }

  lemma SettledMany(s: State, v: State, ids: set<nat>, outcome: Outcome)
    requires v.settled == s.settled + Settlements(ids, outcome)
    ensures forall other: nat :: Times(v, other) == Times(s, other) + if other in ids then 1 else 0
  {
    var added := Settlements(ids, outcome);
    forall id: nat, o: Outcome ensures added[Settlement(id, o)] == if id in ids && o == outcome then 1 else 0 {
    }
  }

  lemma SendKeeps(s: State, key: Key, payload: Data, accepted: bool)
    requires Kept(s)
    ensures Kept(Send(s, key, payload, accepted).0)
  {
    var v := Send(s, key, payload, accepted).0;
    if v != s && !accepted {
      SettledOne(s, v, s.nextId, SendFailed);
    }
  }

  lemma ReplyKeeps(s: State, key: Key, payload: Data)
    requires Kept(s)
    ensures Kept(Reply(s, key, payload))
  {
    if !(s.disposed || key !in s.pending || s.pending[key].payload != payload) {
      var v := Reply(s, key, payload);
      var id := s.pending[key].id;
      assert multiset(v.queue) == multiset(s.queue) + multiset{id};
    }
  }

  lemma MicrotaskKeeps(s: State)
    requires Kept(s)
    ensures Kept(RunMicrotask(s))
  {
    if s.queue != [] {
      var v := RunMicrotask(s);
      assert s.queue == [s.queue[0]] + v.queue;
      assert multiset(s.queue) == multiset{s.queue[0]} + multiset(v.queue);
      SettledOne(s, v, s.queue[0], if s.disposed then StackDisposed else Replied);
    }
  }

  lemma TimeoutKeeps(s: State, id: nat)
    requires Kept(s)
    ensures Kept(OnTimeout(s, id))
  {
    if id in s.timers {
      SettledOne(s, OnTimeout(s, id), id, TimedOut);
    }
  }

  lemma RejectKeeps(s: State, keys: set<Key>, outcome: Outcome)
    requires TimersMatch(s) && AccountedFor(s) && keys <= s.pending.Keys
    ensures var v := Reject(s, keys, outcome);
      TimersMatch(v) && AccountedFor(v) && (keys == s.pending.Keys ==> v.pending == map[] && v.timers == map[])
  {
    var v := Reject(s, keys, outcome);
    var ids := IdsOf(s, keys);
    forall id | id in s.timers ensures id in ids <==> s.timers[id] in keys {
    }
    SettledMany(s, v, ids, outcome);
  }

  lemma PingKeeps(w: World, i: nat, payload: Data, accepted: bool)
    requires Kept(w.state) && i < |w.sessions|
    ensures Kept(Ping(w, i, payload, accepted).state)
  {
    var session := w.sessions[i];
    SendKeeps(w.state, Key(session.host, session.identifier, session.sequenceNumber), payload, accepted);
  }

  lemma CloseKeeps(w: World, i: nat)
    requires Kept(w.state) && i < |w.sessions|
    ensures Kept(Close(w, i).state)
  {
    RejectKeeps(w.state, KeysOfSession(w.state, w.sessions[i].host, w.sessions[i].identifier), SessionClosed);
  }

  lemma DisposeKeeps(s: State)
    requires Kept(s)
    ensures Kept(Dispose(s))
  {
    RejectKeeps(s.(disposed := true), s.pending.Keys, StackDisposed);
  }

  lemma StepKeeps(w: World, e: Event)
    requires Kept(w.state)
    ensures Kept(Step(w, e).state)
  {
    match e {
      case SessionCreated(_, _) =>
      case PingCalled(i, payload, accepted) =>
        if i < |w.sessions| {
          PingKeeps(w, i, payload, accepted);
        }
      case EchoReply(key, payload) => ReplyKeeps(w.state, key, payload);
      case Microtask => MicrotaskKeeps(w.state);
      case Timeout(id) => TimeoutKeeps(w.state, id);
      case CloseCalled(i) =>
        if i < |w.sessions| {
          CloseKeeps(w, i);
        }
      case Disposed => DisposeKeeps(w.state);
    }
  }

  lemma {:induction false} RunKeeps(w: World, events: seq<Event>)
    requires Kept(w.state)
    ensures Kept(After(w, events).state)
    decreases |events|
  {
    if events != [] {
      StepKeeps(w, events[0]);
      RunKeeps(Step(w, events[0]), events[1..]);
    }
  }

  /** In every run a timer is running exactly for the probes that have an entry. */
  lemma TimerRunsIffPending(events: seq<Event>, id: nat)
    ensures var s := After(Start, events).state;
      id in s.timers <==> exists k :: k in s.pending && s.pending[k].id == id
  {
    RunKeeps(Start, events);
  }

  /**
   In every run each probe is settled at most once, and has been exactly if it neither waits nor has its
   reply queued.
   */
  lemma SettledOnce(events: seq<Event>, id: nat)
    ensures var s := After(Start, events).state;
      && Times(s, id) <= 1
      && (Times(s, id) == 1 <==> id < s.nextId && id !in s.timers && id !in s.queue)
  {
    RunKeeps(Start, events);
    var s := After(Start, events).state;
    assert id in s.queue <==> multiset(s.queue)[id] > 0;
  }

  /**
   A timer that runs out takes out the entry of its own probe and no other, in every run, so that it
   cannot harm a later probe of the same sequence number; a timer that was cleared does nothing.
   */
  lemma TimeoutTakesOwnEntry(events: seq<Event>, id: nat, k: Key)
    ensures var s := After(Start, events).state; var v := OnTimeout(s, id);
      && (id !in s.timers ==> v == s)
      && (k in s.pending ==>
            (k in v.pending <==> s.pending[k].id != id) && (k in v.pending ==> v.pending[k] == s.pending[k]))
      && v.pending.Keys <= s.pending.Keys
  {
    RunKeeps(Start, events);
  }

  /** A probe that is not refused and can be sent waits under its key, with a timer, and has not been settled. */
  lemma AcceptedProbeWaits(s: State, key: Key, payload: Data)
    requires Kept(s) && !s.disposed && |payload| <= MAX_ICMP_ECHO_PAYLOAD_LENGTH && key !in s.pending
    ensures var (v, probe) := Send(s, key, payload, true);
      && probe.Some? && probe.value !in s.timers && probe.value !in s.queue && Times(s, probe.value) == 0
      && probe.value in v.timers && Times(v, probe.value) == 0
      && key in v.pending && v.pending[key] == Probe(probe.value, payload)
      && forall k :: k in s.pending ==> k in v.pending && v.pending[k] == s.pending[k]
  {
    FreshId(s);
    assert s.nextId in s.queue <==> multiset(s.queue)[s.nextId] > 0;
  }

  function Microtasks(s: State, n: nat): State
    decreases n
  {
    if n == 0 then s else Microtasks(RunMicrotask(s), n - 1)
  }

  lemma {:induction false} QueueRuns(s: State, k: nat)
    requires k < |s.queue|
    ensures var v := Microtasks(s, k + 1);
      Settlement(s.queue[k], if s.disposed then StackDisposed else Replied) in v.settled
    ensures s.settled <= Microtasks(s, k + 1).settled
    decreases k
  {
    var t := RunMicrotask(s);
    if k > 0 {
      QueueRuns(t, k - 1);
    } else {
      assert Microtasks(t, 0) == t;
    }
  }

  /**
   A reply with the key and the payload of a waiting probe cancels its timer, frees its key at once,
   and fulfils it when the microtasks queued up to then have run, unless the stack is disposed before.
   */
  lemma ReplyReachesProbe(s: State, key: Key, payload: Data)
    requires Kept(s) && !s.disposed && key in s.pending && s.pending[key].payload == payload
    ensures var id := s.pending[key].id; var v := Reply(s, key, payload);
      && key !in v.pending && id !in v.timers
      && Settlement(id, Replied) in Microtasks(v, |v.queue|).settled
  {
    var v := Reply(s, key, payload);
    QueueRuns(v, |s.queue|);
  }

  /** Closing settles exactly the waiting probes of this host and identifier. */
  lemma CloseSettles(s: State, host: string, identifier: nat, k: Key)
    requires Kept(s) && k in s.pending
    ensures var v := CloseSession(s, host, identifier);
      if k.host == host && k.identifier == identifier
      then k !in v.pending && Settlement(s.pending[k].id, SessionClosed) in v.settled
      else k in v.pending && v.pending[k] == s.pending[k] && s.pending[k].id in v.timers
  {
    var keys := KeysOfSession(s, host, identifier);
    var ids := IdsOf(s, keys);
    assert s.pending[k].id in ids <==> k in keys;
  }

  /** Every probe has a maker, whose host and identifier are in the key under which it waits. */
  ghost predicate MakersKnown(w: World) {
    && |w.makers| == w.state.nextId
    && (forall id :: 0 <= id < |w.makers| ==> w.makers[id] < |w.sessions|)
    && (forall k :: k in w.state.pending ==> (
          var id := w.state.pending[k].id;
          && id < |w.makers|
          && w.sessions[w.makers[id]].host == k.host && w.sessions[w.makers[id]].identifier == k.identifier))
  }

  lemma StepKeepsMakers(w: World, e: Event)
    requires MakersKnown(w)
    ensures MakersKnown(Step(w, e))
  {
    match e
    case PingCalled(i, payload, accepted) =>
      if i < |w.sessions| {
        PingKeepsMakers(w, i, payload, accepted);
      }
    case CloseCalled(i) =>
      if i < |w.sessions| {
        CloseKeepsMakers(w, i);
      }
    case _ =>
  }

  lemma PingKeepsMakers(w: World, i: nat, payload: Data, accepted: bool)
    requires MakersKnown(w) && i < |w.sessions|
    ensures MakersKnown(Ping(w, i, payload, accepted))
  {
  }

  lemma CloseKeepsMakers(w: World, i: nat)
    requires MakersKnown(w) && i < |w.sessions|
    ensures MakersKnown(Close(w, i))
  {
  }

  lemma {:induction false} RunKeepsMakers(w: World, events: seq<Event>)
    requires MakersKnown(w)
    ensures MakersKnown(After(w, events))
    decreases |events|
  {
    if events != [] {
      StepKeepsMakers(w, events[0]);
      RunKeepsMakers(Step(w, events[0]), events[1..]);
    }
  }

  predicate SameAddress(a: Session, b: Session) {
    a.host == b.host && a.identifier == b.identifier
  }

  /**
   In every run, closing an open session settles a waiting probe exactly if the session that made the probe
   has the same host and identifier. Identifiers are random and never checked for reuse, so this need not
   be the closed session itself.
   */
  lemma CloseSettlesIff(events: seq<Event>, i: nat, k: Key)
    requires i < |After(Start, events).sessions| && !After(Start, events).sessions[i].closed
    requires k in After(Start, events).state.pending
    ensures var w := After(Start, events); var v := Close(w, i); var id := w.state.pending[k].id;
      && id < |w.makers| && w.makers[id] < |w.sessions|
      && (if SameAddress(w.sessions[w.makers[id]], w.sessions[i])
          then k !in v.state.pending && Settlement(id, SessionClosed) in v.state.settled
          else k in v.state.pending && v.state.pending[k] == w.state.pending[k] && id in v.state.timers)
  {
    RunKeeps(Start, events);
    RunKeepsMakers(Start, events);
    var w := After(Start, events);
    CloseSettles(w.state, w.sessions[i].host, w.sessions[i].identifier, k);
  }

  /** Closing a session takes the waiting probes of no other session. */
  ghost predicate ClosesOnlyOwn(w: World, i: nat)
    requires i < |w.sessions| && MakersKnown(w)
  {
    forall k :: k in w.state.pending && k !in Close(w, i).state.pending ==> w.makers[w.state.pending[k].id] == i
  }

  /** No other session that has the same host and identifier waits for a probe. */
  ghost predicate Unshared(w: World, i: nat)
    requires i < |w.sessions| && MakersKnown(w)
  {
    forall k :: k in w.state.pending ==> (
      var j := w.makers[w.state.pending[k].id];
      j == i || !SameAddress(w.sessions[j], w.sessions[i]))
  }

  /**
   In every run, closing an open session settles only its own probes exactly if it shares its host and
   identifier with no other that waits.
   */
  lemma ClosesOnlyOwnIff(events: seq<Event>, i: nat)
    requires i < |After(Start, events).sessions| && !After(Start, events).sessions[i].closed
    ensures var w := After(Start, events); MakersKnown(w) && (ClosesOnlyOwn(w, i) <==> Unshared(w, i))
  {
    RunKeepsMakers(Start, events);
    var w := After(Start, events);
    forall k | k in w.state.pending
      ensures k !in Close(w, i).state.pending <==>
        SameAddress(w.sessions[w.makers[w.state.pending[k].id]], w.sessions[i])
    {
      CloseSettlesIff(events, i, k);
    }
  }

  /** Two sessions with the same host and identifier: closing the second one rejects the probe of the first. */
  lemma CloseTakesAnothersProbe(host: string, identifier: nat)
    ensures var events := [SessionCreated(host, identifier), SessionCreated(host, identifier), PingCalled(0, [], true)];
      var w := After(Start, events);
      && |w.makers| == 1 && w.makers[0] == 0 && 0 in w.state.timers && |w.sessions| == 2
      && Settlement(0, SessionClosed) in Step(w, CloseCalled(1)).state.settled
  {
    var events := [SessionCreated(host, identifier), SessionCreated(host, identifier), PingCalled(0, [], true)];
    TwoSessionsOneProbe(host, identifier);
    RunKeeps(Start, events);
    CloseSettles(After(Start, events).state, host, identifier, Key(host, identifier, 0));
  }

  lemma TwoSessionsOneProbe(host: string, identifier: nat)
    ensures var w := After(Start,
      [SessionCreated(host, identifier), SessionCreated(host, identifier), PingCalled(0, [], true)]);
      && w.makers == [0] && |w.sessions| == 2 && w.sessions[1] == Session(host, identifier, false, 0)
      && 0 in w.state.timers && w.state.pending == map[Key(host, identifier, 0) := Probe(0, [])]
  {
    ThreeEvents(Start, SessionCreated(host, identifier), SessionCreated(host, identifier), PingCalled(0, [], true));
  }

  lemma ThreeEvents(w: World, a: Event, b: Event, c: Event)
    ensures After(w, [a, b, c]) == Step(Step(Step(w, a), b), c)
  {
    assert [a, b, c][1..] == [b, c] && [b, c][1..] == [c] && [c][1..] == [];
    assert After(Step(w, a), [b, c]) == After(Step(Step(w, a), b), [c]);
    assert After(Step(Step(w, a), b), [c]) == After(Step(Step(Step(w, a), b), c), []);
  }

  lemma StepKeepsSettled(w: World, e: Event)
    ensures w.state.settled <= Step(w, e).state.settled
    ensures w.state.disposed ==> Step(w, e).state.disposed
  {
  }

  lemma {:induction false} RunKeepsSettled(w: World, events: seq<Event>)
    ensures w.state.settled <= After(w, events).state.settled
    ensures w.state.disposed ==> After(w, events).state.disposed
    decreases |events|
  {
    if events != [] {
      StepKeepsSettled(w, events[0]);
      RunKeepsSettled(Step(w, events[0]), events[1..]);
    }
  }

  /** What a probe was settled with is final, whatever happens later. */
  lemma OutcomeIsFinal(before: seq<Event>, id: nat, outcome: Outcome, other: Outcome, events: seq<Event>)
    requires Settlement(id, outcome) in After(Start, before).state.settled
    ensures var s := After(After(Start, before), events).state;
      Settlement(id, outcome) in s.settled && (Settlement(id, other) in s.settled ==> other == outcome)
  {
    RunKeeps(Start, before);
    RunKeeps(After(Start, before), events);
    RunKeepsSettled(After(Start, before), events);
    var s := After(After(Start, before), events).state;
    assert s.settled[Settlement(id, outcome)] > 0;
    assert Times(s, id) <= 1;
  }

  /**
   From `dispose` on nothing waits and no timer runs; what is not yet settled are replies whose microtask
   is still to come.
   */
  lemma DisposedForGood(before: seq<Event>, events: seq<Event>, id: nat)
    ensures var s := After(Step(After(Start, before), Disposed), events).state;
      && s.pending == map[] && s.timers == map[]
      && (id < s.nextId ==> (id in s.queue <==> Times(s, id) == 0))
  {
    var w := After(Start, before);
    RunKeeps(Start, before);
    StepKeeps(w, Disposed);
    RunKeeps(Step(w, Disposed), events);
    RunKeepsSettled(Step(w, Disposed), events);
    var s := After(Step(w, Disposed), events).state;
    assert id in s.queue <==> multiset(s.queue)[id] > 0;
  }

  predicate IsCall(e: Event, i: nat) {
    e.PingCalled? && e.session == i
  }

  /** The calls of `ping` on a session while it is open. */
  function Calls(w: World, events: seq<Event>, i: nat): nat
    decreases |events|
  {
    if events == [] then 0
    else
      (if IsCall(events[0], i) && i < |w.sessions| && !w.sessions[i].closed then 1 else 0)
      + Calls(Step(w, events[0]), events[1..], i)
  }

  /** The number after `k` calls. */
  function Counted(n: nat, k: nat): nat
    decreases k
  {
    if k == 0 then n else Counted((n + 1) % 0x1_0000, k - 1)
  }

  lemma {:induction false} CountedIs(n: nat, k: nat)
    requires n < 0x1_0000
    ensures Counted(n, k) == (n + k) % 0x1_0000
    decreases k
  {
    if k > 0 {
      CountedIs((n + 1) % 0x1_0000, k - 1);
      AddOne(n, k - 1);
    }
  }

  lemma AddOne(a: nat, n: nat)
    ensures ((a + 1) % 0x1_0000 + n) % 0x1_0000 == (a + (1 + n)) % 0x1_0000
  {
    var q, r := (a + 1) / 0x1_0000, (a + 1) % 0x1_0000;
    DivModUnique(a + 1 + n, 0x1_0000, q + (r + n) / 0x1_0000, (r + n) % 0x1_0000);
  }

  lemma NumberStep(w: World, e: Event, i: nat)
    requires i < |w.sessions|
    ensures i < |Step(w, e).sessions|
    ensures Step(w, e).sessions[i].sequenceNumber ==
      Counted(w.sessions[i].sequenceNumber, if IsCall(e, i) && !w.sessions[i].closed then 1 else 0)
  {
  }

  lemma {:induction false} CallsCounted(w: World, events: seq<Event>, i: nat)
    requires i < |w.sessions|
    ensures var v := After(w, events);
      i < |v.sessions| && v.sessions[i].sequenceNumber == Counted(w.sessions[i].sequenceNumber, Calls(w, events, i))
    decreases |events|
  {
    if events != [] {
      NumberStep(w, events[0], i);
      CallsCounted(Step(w, events[0]), events[1..], i);
    }
  }

  /** Sequence numbers count the calls, modulo 65536. */
  lemma NumbersCount(w: World, events: seq<Event>, i: nat)
    requires i < |w.sessions| && w.sessions[i].sequenceNumber < 0x1_0000
    ensures var v := After(w, events);
      i < |v.sessions| && v.sessions[i].sequenceNumber ==
        (w.sessions[i].sequenceNumber + Calls(w, events, i)) % 0x1_0000
  {
    CallsCounted(w, events, i);
    CountedIs(w.sessions[i].sequenceNumber, Calls(w, events, i));
  }

  // ---------------------------------------------------------------- the objects

  class IcmpBindings {
    var pendingPings: map<Key, Probe>
    var timers: map<nat, Key>
    var queue: seq<nat>
    ghost var settled: multiset<Settlement>
    var nextId: nat
    var disposed: bool

    ghost function Abstract(): State
      reads this
    {
      State(pendingPings, timers, queue, settled, nextId, disposed)
    }

    ghost predicate Valid()
      reads this
    {
      Kept(Abstract())
    }

    constructor ()
      ensures Valid() && Abstract() == Initially
    {
      pendingPings, timers, queue, settled, nextId, disposed := map[], map[], [], multiset{}, 0, false;
    }

    method SendProbe(key: Key, payload: Data, accepted: bool) returns (probe: Option<nat>)
      requires Valid()
      modifies this
      ensures Valid() && (Abstract(), probe) == Send(old(Abstract()), key, payload, accepted)
    {
      SendKeeps(Abstract(), key, payload, accepted);
      FreshId(Abstract());
      probe := StartProbe(key, payload, accepted);
    }

    method StartProbe(key: Key, payload: Data, accepted: bool) returns (probe: Option<nat>)
      requires nextId !in timers
      modifies this
      ensures (Abstract(), probe) == Send(old(Abstract()), key, payload, accepted)
    {
      if disposed || |payload| > MAX_ICMP_ECHO_PAYLOAD_LENGTH || key in pendingPings {
        return None;
      }
      var id := nextId;
      nextId := nextId + 1;
      PutUndone(Abstract(), key, Probe(id, payload));
      timers := timers[id := key];
      pendingPings := pendingPings[key := Probe(id, payload)];
      if !accepted {
        timers := timers - {id};
        pendingPings := pendingPings - {key};
        settled := settled + multiset{Settlement(id, SendFailed)};
      }
      return Some(id);
    }

    /** `#payloadEquals` */
    method PayloadEquals(a: Data, b: Data) returns (r: bool)
      ensures r <==> a == b
    {
      if |a| != |b| {
        return false;
      }
      for i := 0 to |a|
        invariant a[..i] == b[..i]
      {
        if a[i] != b[i] {
          return false;
        }
      }
      assert a[..|a|] == a && b[..|b|] == b;
      return true;
    }

    method ReceiveEchoReply(key: Key, payload: Data) returns (matched: bool)
      requires Valid()
      modifies this
      ensures Valid() && Abstract() == Reply(old(Abstract()), key, payload)
      ensures matched <==> Abstract() != old(Abstract())
    {
      ReplyKeeps(Abstract(), key, payload);
      if disposed || key !in pendingPings {
        return false;
      }
      var probe := pendingPings[key];
      var equal := PayloadEquals(payload, probe.payload);
      if !equal {
        return false;
      }
      pendingPings := pendingPings - {key};
      timers := timers - {probe.id};
      queue := queue + [probe.id];
      return true;
    }

    method RunReplyMicrotask()
      requires Valid()
      modifies this
      ensures Valid() && Abstract() == RunMicrotask(old(Abstract()))
    {
      MicrotaskKeeps(Abstract());
      if |queue| == 0 {
        return;
      }
      settled := settled + multiset{Settlement(queue[0], if disposed then StackDisposed else Replied)};
      queue := queue[1..];
    }

    method TimerRunsOut(id: nat)
      requires Valid() && id in timers
      modifies this
      ensures Valid() && Abstract() == OnTimeout(old(Abstract()), id)
    {
      TimeoutKeeps(Abstract(), id);
      pendingPings := pendingPings - {timers[id]};
      timers := timers - {id};
      settled := settled + multiset{Settlement(id, TimedOut)};
    }

    method CloseHook(host: string, identifier: nat)
      requires Valid()
      modifies this
      ensures Valid() && Abstract() == CloseSession(old(Abstract()), host, identifier)
    {
      RejectKeeps(Abstract(), KeysOfSession(Abstract(), host, identifier), SessionClosed);
      RejectSession(host, identifier);
    }

    /** `gone` of the entries of `start` have been rejected. */
    ghost predicate Rejected(start: State, gone: set<Key>, outcome: Outcome)
      reads this
    {
      && queue == start.queue && nextId == start.nextId && disposed == start.disposed
      && timers == Reject(start, gone, outcome).timers && settled == Reject(start, gone, outcome).settled
    }

    /** The loop of the `close` hook, which visits the entries in any order and deletes those of the session. */
    method RejectSession(host: string, identifier: nat)
      requires TimersMatch(Abstract())
      modifies this
      ensures Abstract() == CloseSession(old(Abstract()), host, identifier)
    {
      ghost var start := Abstract();
      ghost var gone: set<Key> := {};
      RejectNone(start, SessionClosed);
      var rest := pendingPings.Keys;
      while rest != {}
        invariant rest <= start.pending.Keys && gone <= start.pending.Keys
        invariant forall k :: k in gone <==>
          k in start.pending && k !in rest && k.host == host && k.identifier == identifier
        invariant pendingPings == start.pending - gone && Rejected(start, gone, SessionClosed)
      {
        var key :| key in rest;
        if key.host == host && key.identifier == identifier {
          RejectAndDelete(start, gone, key, SessionClosed);
          gone := gone + {key};
        }
        rest := rest - {key};
      }
      assert gone == KeysOfSession(start, host, identifier);
    }

    /** `clearTimeout` and `reject` for one entry. */
    method RejectEntry(ghost start: State, ghost gone: set<Key>, key: Key, outcome: Outcome)
      requires TimersMatch(start) && gone <= start.pending.Keys && key in start.pending && key !in gone
      requires key in pendingPings && pendingPings[key] == start.pending[key] && Rejected(start, gone, outcome)
      modifies this`timers, this`settled
      ensures Rejected(start, gone + {key}, outcome)
    {
      RejectOneMore(start, gone, key, outcome);
      timers := timers - {pendingPings[key].id};
      settled := settled + multiset{Settlement(pendingPings[key].id, outcome)};
    }

    method RejectAndDelete(ghost start: State, ghost gone: set<Key>, key: Key, outcome: Outcome)
      requires TimersMatch(start) && gone <= start.pending.Keys && key in start.pending && key !in gone
      requires pendingPings == start.pending - gone && Rejected(start, gone, outcome)
      modifies this`timers, this`settled, this`pendingPings
      ensures pendingPings == start.pending - (gone + {key}) && Rejected(start, gone + {key}, outcome)
    {
      RejectEntry(start, gone, key, outcome);
      MinusTwice(start.pending, gone, key);
      pendingPings := pendingPings - {key};
    }

    method DisposeBindings()
      requires Valid()
      modifies this
      ensures Valid() && Abstract() == Dispose(old(Abstract()))
    {
      RejectKeeps(Abstract().(disposed := true), pendingPings.Keys, StackDisposed);
      disposed := true;
      RejectAll();
    }

    /** The loop of `dispose`; the map is cleared behind it. */
    method RejectAll()
      requires TimersMatch(Abstract())
      modifies this
      ensures Abstract() == Reject(old(Abstract()), old(pendingPings.Keys), StackDisposed)
    {
      ghost var start := Abstract();
      RejectNone(start, StackDisposed);
      var rest := pendingPings.Keys;
      ghost var gone: set<Key> := {};
      while rest != {}
        invariant rest <= start.pending.Keys && gone <= start.pending.Keys
        invariant forall k :: k in gone <==> k in start.pending && k !in rest
        invariant pendingPings == start.pending && Rejected(start, gone, StackDisposed)
      {
        var key :| key in rest;
        RejectEntry(start, gone, key, StackDisposed);
        gone := gone + {key};
        rest := rest - {key};
      }
      assert gone == start.pending.Keys;
      pendingPings := map[];
    }
  }

  lemma FreshId(s: State)
    requires Kept(s)
    ensures s.nextId !in s.timers
  {
    assert Times(s, s.nextId) >= 0;
  }

  lemma PutUndone(s: State, key: Key, probe: Probe)
    requires key !in s.pending && probe.id !in s.timers
    ensures s.timers[probe.id := key] - {probe.id} == s.timers
    ensures s.pending[key := probe] - {key} == s.pending
  {
  }

  lemma RejectNone(s: State, outcome: Outcome)
    ensures Reject(s, {}, outcome) == s
  {
    assert IdsOf(s, {}) == {};
    assert s.timers - {} == s.timers && s.pending - {} == s.pending;
    assert Settlements({}, outcome) == multiset{};
  }

  lemma OneMoreSettlement(ids: set<nat>, id: nat, outcome: Outcome)
    requires id !in ids
    ensures Settlements(ids + {id}, outcome) == Settlements(ids, outcome) + multiset{Settlement(id, outcome)}
  {
    var a := set i | i in ids :: Settlement(i, outcome);
    assert (set i | i in ids + {id} :: Settlement(i, outcome)) == a + {Settlement(id, outcome)};
    assert Settlement(id, outcome) !in a;
  }

  lemma OneMoreId(s: State, gone: set<Key>, key: Key)
    requires TimersMatch(s) && gone <= s.pending.Keys && key in s.pending && key !in gone
    ensures IdsOf(s, gone + {key}) == IdsOf(s, gone) + {s.pending[key].id}
    ensures s.pending[key].id !in IdsOf(s, gone)
  {
  }

  /** Rejecting one more entry. */
  lemma RejectOneMore(s: State, gone: set<Key>, key: Key, outcome: Outcome)
    requires TimersMatch(s) && gone <= s.pending.Keys && key in s.pending && key !in gone
    ensures var v, u := Reject(s, gone, outcome), Reject(s, gone + {key}, outcome);
      && u.pending == v.pending - {key}
      && u.timers == v.timers - {s.pending[key].id}
      && u.settled == v.settled + multiset{Settlement(s.pending[key].id, outcome)}
  {
    OneMoreId(s, gone, key);
    OneMoreSettlement(IdsOf(s, gone), s.pending[key].id, outcome);
    MinusTwice(s.pending, gone, key);
    MinusTwice(s.timers, IdsOf(s, gone), s.pending[key].id);
  }

  lemma MinusTwice<K, V>(m: map<K, V>, gone: set<K>, k: K)
    ensures m - (gone + {k}) == m - gone - {k}
  {
  }

  class VirtualPingSession {
    const host: string
    const identifier: nat
    var closed: bool
    var sequenceNumber: nat
    const bindings: IcmpBindings

    ghost function Abstract(): Session
      reads this
    {
      Session(host, identifier, closed, sequenceNumber)
    }

    ghost predicate Valid()
      reads this, bindings
    {
      bindings.Valid() && sequenceNumber < 0x1_0000
    }

    constructor (host: string, identifier: nat, bindings: IcmpBindings)
      requires bindings.Valid()
      ensures Valid() && Abstract() == Session(host, identifier, false, 0) && this.bindings == bindings
    {
      this.host, this.identifier, this.bindings := host, identifier, bindings;
      closed, sequenceNumber := false, 0;
    }

    method NextSequenceNumber() returns (n: nat)
      requires sequenceNumber < 0x1_0000
      modifies this`sequenceNumber
      ensures n == old(sequenceNumber) && sequenceNumber == (old(sequenceNumber) + 1) % 0x1_0000
    {
      n := sequenceNumber;
      NextNumberWraps(sequenceNumber);
      sequenceNumber := NextNumber(sequenceNumber);
    }

    method PingHost(payload: Data, accepted: bool) returns (probe: Option<nat>)
      requires Valid()
      modifies this`sequenceNumber, bindings
      ensures Valid()
      ensures (bindings.Abstract(), Abstract(), probe) ==
        PingOn(old(bindings.Abstract()), old(Abstract()), payload, accepted)
    {
      if closed {
        return None;
      }
      var n := NextSequenceNumber();
      probe := bindings.SendProbe(Key(host, identifier, n), payload, accepted);
    }

    method CloseIt()
      requires Valid()
      modifies this`closed, bindings
      ensures Valid()
      ensures (bindings.Abstract(), Abstract()) == CloseOn(old(bindings.Abstract()), old(Abstract()))
    {
      if closed {
        return;
      }
      closed := true;
      bindings.CloseHook(host, identifier);
    }
  }
}
