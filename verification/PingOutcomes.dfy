/** How each probe ends, and why. */
module PingOutcomes {
  // packages/tcpip/src/bindings/icmp.ts

  import opened Options
  import opened Bytes
  import opened Ping
  import Ipv4Packets

  // ---------------------------------------------------------------- what settles a probe

  /** The entry under `k` waits for this answer. */
  predicate Waits(s: State, k: Key, id: nat, payload: Data) {
    k in s.pending && s.pending[k] == Probe(id, payload)
  }

  ghost predicate WaitsFor(s: State, id: nat, host: string, identifier: nat) {
    exists k :: k in s.pending && s.pending[k].id == id && k.host == host && k.identifier == identifier
  }

  ghost predicate WaitsSomewhere(s: State, id: nat) {
    exists k :: k in s.pending && s.pending[k].id == id
  }

  /** The key that the next call of a session uses. */
  function NextKey(session: Session): Key {
    Key(session.host, session.identifier, session.sequenceNumber)
  }

  /** The call makes the probe `id` under this key. */
  predicate Makes(w: World, e: Event, id: nat, key: Key) {
    && e.PingCalled? && e.session < |w.sessions| && !w.sessions[e.session].closed && !w.state.disposed
    && key == NextKey(w.sessions[e.session]) && key !in w.state.pending
    && |e.payload| <= MAX_ICMP_ECHO_PAYLOAD_LENGTH && id == w.state.nextId
  }

  ghost predicate FailsToSend(w: World, e: Event, id: nat) {
    e.PingCalled? && !e.accepted && exists key :: Makes(w, e, id, key)
  }

  predicate AtHead(s: State, id: nat) {
    s.queue != [] && s.queue[0] == id
  }

  /** The event settles the probe in this way. */
  ghost predicate Settles(w: World, e: Event, id: nat, outcome: Outcome) {
    match outcome
    case Replied => e == Microtask && AtHead(w.state, id) && !w.state.disposed
    case TimedOut => e == Timeout(id) && WaitsSomewhere(w.state, id)
    case SendFailed => FailsToSend(w, e, id)
    case SessionClosed =>
      && e.CloseCalled? && e.session < |w.sessions| && !w.sessions[e.session].closed
      && WaitsFor(w.state, id, w.sessions[e.session].host, w.sessions[e.session].identifier)
    case StackDisposed =>
      || (e == Disposed && WaitsSomewhere(w.state, id))
      || (e == Microtask && AtHead(w.state, id) && w.state.disposed)
  }

  function Count(s: State, id: nat, outcome: Outcome): nat {
    s.settled[Settlement(id, outcome)]
  }

  lemma WaitsIff(s: State, id: nat)
    requires Kept(s)
    ensures WaitsSomewhere(s, id) <==> id in s.timers
  {
    if id in s.timers {
      assert s.pending[s.timers[id]].id == id;
    }
  }

  lemma PingSettles(w: World, e: Event, id: nat, outcome: Outcome)
    requires e.PingCalled?
    ensures Count(Step(w, e).state, id, outcome) ==
      Count(w.state, id, outcome) + if outcome == SendFailed && FailsToSend(w, e, id) then 1 else 0
  {
    if e.session < |w.sessions| {
      var key := NextKey(w.sessions[e.session]);
      assert FailsToSend(w, e, id) <==> !e.accepted && Makes(w, e, id, key);
    }
  }

  lemma SettlementsCount(ids: set<nat>, id: nat, done: Outcome, outcome: Outcome)
    ensures Settlements(ids, done)[Settlement(id, outcome)] == if id in ids && outcome == done then 1 else 0
  {
  }

  lemma RejectSettles(s: State, keys: set<Key>, done: Outcome, id: nat, outcome: Outcome)
    ensures Count(Reject(s, keys, done), id, outcome) ==
      Count(s, id, outcome) + if id in IdsOf(s, keys) && outcome == done then 1 else 0
  {
    SettlementsCount(IdsOf(s, keys), id, done, outcome);
  }

  lemma CloseSettlesIds(w: World, e: Event, id: nat, outcome: Outcome)
    requires e.CloseCalled? && e.session < |w.sessions| && !w.sessions[e.session].closed
    ensures var s := w.sessions[e.session];
      Count(Step(w, e).state, id, outcome) == Count(w.state, id, outcome) +
        if outcome == SessionClosed && WaitsFor(w.state, id, s.host, s.identifier) then 1 else 0
  {
    var s := w.sessions[e.session];
    var keys := KeysOfSession(w.state, s.host, s.identifier);
    RejectSettles(w.state, keys, SessionClosed, id, outcome);
    assert id in IdsOf(w.state, keys) <==> WaitsFor(w.state, id, s.host, s.identifier);
  }

  lemma DisposeSettles(w: World, id: nat, outcome: Outcome)
    ensures Count(Step(w, Disposed).state, id, outcome) == Count(w.state, id, outcome) +
      if outcome == StackDisposed && WaitsSomewhere(w.state, id) then 1 else 0
  {
    RejectSettles(w.state.(disposed := true), w.state.pending.Keys, StackDisposed, id, outcome);
    assert id in IdsOf(w.state.(disposed := true), w.state.pending.Keys) <==> WaitsSomewhere(w.state, id);
  }

  lemma TimeoutSettles(w: World, e: Event, id: nat, outcome: Outcome)
    requires Kept(w.state) && e.Timeout?
    ensures Count(Step(w, e).state, id, outcome) ==
      Count(w.state, id, outcome) + if Settles(w, e, id, outcome) then 1 else 0
  {
    WaitsIff(w.state, id);
  }

  /** Each event settles exactly what is said, and each of these once. */
  lemma StepSettles(w: World, e: Event, id: nat, outcome: Outcome)
    requires Kept(w.state)
    ensures Count(Step(w, e).state, id, outcome) ==
      Count(w.state, id, outcome) + if Settles(w, e, id, outcome) then 1 else 0
  {
    match e {
      case PingCalled(_, _, _) => PingSettles(w, e, id, outcome);
      case Timeout(_) => TimeoutSettles(w, e, id, outcome);
      case CloseCalled(i) =>
        if i < |w.sessions| && !w.sessions[i].closed {
          CloseSettlesIds(w, e, id, outcome);
        }
      case Disposed => DisposeSettles(w, id, outcome);
      case _ =>
    }
  }

  // ---------------------------------------------------------------- runs

  lemma {:induction false} AfterOneMore(w: World, events: seq<Event>, e: Event)
    ensures After(w, events + [e]) == Step(After(w, events), e)
    decreases |events|
  {
    if events == [] {
      assert [e][1..] == [] && events + [e] == [e];
    } else {
      assert (events + [e])[1..] == events[1..] + [e];
      AfterOneMore(Step(w, events[0]), events[1..], e);
    }
  }

  /** The world before event `n`. */
  ghost function At(events: seq<Event>, n: nat): (w: World)
    requires n <= |events|
    ensures Kept(w.state)
  {
    RunKeeps(Start, events[..n]);
    After(Start, events[..n])
  }

  lemma AtNext(events: seq<Event>, n: nat)
    requires n < |events|
    ensures At(events, n + 1) == Step(At(events, n), events[n])
  {
    assert events[..n + 1] == events[..n] + [events[n]];
    AfterOneMore(Start, events[..n], events[n]);
  }

  ghost predicate SettledBy(events: seq<Event>, j: nat, id: nat, outcome: Outcome)
    requires j < |events|
  {
    Settles(At(events, j), events[j], id, outcome)
  }

  ghost function CountAt(events: seq<Event>, n: nat, id: nat, outcome: Outcome): nat
    requires n <= |events|
  {
    Count(At(events, n).state, id, outcome)
  }

  lemma CountNext(events: seq<Event>, n: nat, id: nat, outcome: Outcome)
    requires n < |events|
    ensures CountAt(events, n + 1, id, outcome) ==
      CountAt(events, n, id, outcome) + if SettledBy(events, n, id, outcome) then 1 else 0
  {
    AtNext(events, n);
    StepSettles(At(events, n), events[n], id, outcome);
  }

  ghost predicate SettledBefore(events: seq<Event>, n: nat, id: nat, outcome: Outcome)
    requires n <= |events|
  {
    exists j: nat :: j < n && SettledBy(events, j, id, outcome)
  }

  /** What counts the hits is positive exactly after the first one. */
  lemma {:induction false} CountsHits(count: nat -> nat, hits: nat -> bool, n: nat)
    requires count(0) == 0 && forall k: nat :: k < n ==> Counts(count, hits, k)
    ensures count(n) > 0 <==> exists j: nat :: j < n && hits(j)
  {
    if n > 0 {
      CountsHits(count, hits, n - 1);
      assert Counts(count, hits, n - 1);
    }
  }

  predicate Counts(count: nat -> nat, hits: nat -> bool, k: nat) {
    count(k + 1) == count(k) + if hits(k) then 1 else 0
  }

  lemma SettledAt(events: seq<Event>, n: nat, id: nat, outcome: Outcome)
    requires n <= |events|
    ensures CountAt(events, n, id, outcome) > 0 <==> SettledBefore(events, n, id, outcome)
  {
    var count := (k: nat) => if k <= |events| then CountAt(events, k, id, outcome) else 0;
    var hits := (k: nat) => k < |events| && SettledBy(events, k, id, outcome);
    forall k: nat | k < n ensures Counts(count, hits, k) {
      CountNext(events, k, id, outcome);
    }
    NothingYet(events, id, outcome);
    CountsHits(count, hits, n);
    assert count(n) == CountAt(events, n, id, outcome);
    SameHits(events, n, id, outcome, hits);
  }

  lemma SameHits(events: seq<Event>, n: nat, id: nat, outcome: Outcome, hits: nat -> bool)
    requires n <= |events| && forall k: nat :: k < |events| ==> (hits(k) <==> SettledBy(events, k, id, outcome))
    ensures (exists j: nat :: j < n && hits(j)) <==> SettledBefore(events, n, id, outcome)
  {
    if j: nat :| j < n && hits(j) {
      assert SettledBy(events, j, id, outcome);
    }
    if j: nat :| j < n && SettledBy(events, j, id, outcome) {
      assert hits(j);
    }
  }

  lemma NothingYet(events: seq<Event>, id: nat, outcome: Outcome)
    ensures CountAt(events, 0, id, outcome) == 0
  {
    assert events[..0] == [];
  }

  /**
   How a probe ends, in every run: it is fulfilled exactly if the microtask of its reply runs before the stack
   is disposed, times out exactly if its timer runs out while it waits, fails exactly if its request cannot be
   sent, is rejected as closed exactly if a session of its host and identifier is closed while it waits, and as
   disposed exactly if the stack is disposed before its answer is handled.
   */
  lemma SettledIff(events: seq<Event>, id: nat, outcome: Outcome)
    ensures Settlement(id, outcome) in After(Start, events).state.settled <==>
      exists j: nat :: j < |events| && SettledBy(events, j, id, outcome)
  {
    assert events[..|events|] == events;
    SettledAt(events, |events|, id, outcome);
  }

  // ---------------------------------------------------------------- where replies come from

  /** Event `i` made the probe `id` and could send it. */
  ghost predicate Made(events: seq<Event>, i: nat, id: nat, key: Key, payload: Data)
    requires i < |events|
  {
    Makes(At(events, i), events[i], id, key) && events[i].payload == payload && events[i].accepted
  }

  /** Event `j` is a reply with the key and the payload of the waiting probe `id`. */
  ghost predicate Answers(events: seq<Event>, j: nat, id: nat, key: Key, payload: Data)
    requires j < |events|
  {
    && events[j] == EchoReply(key, payload) && Waits(At(events, j).state, key, id, payload)
    && !At(events, j).state.disposed
  }

  lemma WaitingStep(w: World, e: Event, id: nat, key: Key, payload: Data)
    requires Waits(Step(w, e).state, key, id, payload) && !Waits(w.state, key, id, payload)
    ensures Makes(w, e, id, key) && e.payload == payload && e.accepted
  {
  }

  lemma {:induction false} WaitingWasMade(events: seq<Event>, n: nat, id: nat, key: Key, payload: Data)
    requires n <= |events| && Waits(At(events, n).state, key, id, payload)
    ensures exists i: nat :: i < n && Made(events, i, id, key, payload)
  {
    if n > 0 {
      AtNext(events, n - 1);
      if Waits(At(events, n - 1).state, key, id, payload) {
        WaitingWasMade(events, n - 1, id, key, payload);
      } else {
        WaitingStep(At(events, n - 1), events[n - 1], id, key, payload);
        assert Made(events, n - 1, id, key, payload);
      }
    }
  }

  lemma QueuedStep(w: World, e: Event, id: nat) returns (key: Key, payload: Data)
    requires id in Step(w, e).state.queue && id !in w.state.queue
    ensures e == EchoReply(key, payload) && Waits(w.state, key, id, payload) && !w.state.disposed
  {
    assert e.EchoReply?;
    key, payload := e.key, e.payload;
  }

  ghost predicate Answered(events: seq<Event>, n: nat, id: nat)
    requires n <= |events|
  {
    exists j: nat, key, payload :: j < n && Answers(events, j, id, key, payload)
  }

  lemma {:induction false} QueuedWasAnswered(events: seq<Event>, n: nat, id: nat)
    requires n <= |events| && id in At(events, n).state.queue
    ensures Answered(events, n, id)
  {
    if n > 0 {
      AtNext(events, n - 1);
      if id in At(events, n - 1).state.queue {
        QueuedWasAnswered(events, n - 1, id);
        AnsweredBefore(events, n, id);
      } else {
        var key, payload := QueuedStep(At(events, n - 1), events[n - 1], id);
        AnsweredNow(events, n, id, key, payload);
      }
    }
  }

  lemma AnsweredBefore(events: seq<Event>, n: nat, id: nat)
    requires 0 < n <= |events| && Answered(events, n - 1, id)
    ensures Answered(events, n, id)
  {
  }

  lemma AnsweredNow(events: seq<Event>, n: nat, id: nat, key: Key, payload: Data)
    requires 0 < n <= |events| && Answers(events, n - 1, id, key, payload)
    ensures Answered(events, n, id)
  {
  }

  /**
   No probe is fulfilled but by its own reply: in every run, one that was has been made by some call under some
   key with some payload, and after that a reply with this very key and payload came while it waited.
   */
  lemma RepliedOnlyByOwn(events: seq<Event>, id: nat)
    requires Settlement(id, Replied) in After(Start, events).state.settled
    ensures exists i: nat, j: nat, key, payload ::
      i < j < |events| && Made(events, i, id, key, payload) && Answers(events, j, id, key, payload)
  {
    SettledIff(events, id, Replied);
    var m: nat :| m < |events| && SettledBy(events, m, id, Replied);
    assert id in At(events, m).state.queue;
    QueuedWasAnswered(events, m, id);
    var j: nat, key, payload :| j < m && Answers(events, j, id, key, payload);
    WaitingWasMade(events, j, id, key, payload);
  }

  /** A reply that is nobody's, because of its key or of its payload, changes nothing. */
  lemma OtherRepliesChangeNothing(s: State, key: Key, payload: Data)
    requires forall id :: !Waits(s, key, id, payload)
    ensures Reply(s, key, payload) == s
  {
    if key in s.pending {
      assert Waits(s, key, s.pending[key].id, payload) || s.pending[key].payload != payload;
    }
  }

  // ---------------------------------------------------------------- sessions

  /** A new session is open, has the host and identifier it was made with, and starts at number 0. */
  lemma SessionStep(w: World, e: Event, i: nat)
    requires i < |Step(w, e).sessions|
    ensures var v := Step(w, e).sessions[i];
      if i < |w.sessions| then
        && v.host == w.sessions[i].host && v.identifier == w.sessions[i].identifier
        && (v.closed <==> w.sessions[i].closed || e == CloseCalled(i))
      else
        e.SessionCreated? && !w.state.disposed && i == |w.sessions| && v == Session(e.host, e.identifier, false, 0)
  {
  }

  lemma SessionsGrow(w: World, e: Event)
    ensures |w.sessions| <= |Step(w, e).sessions|
    ensures w.state.disposed ==>
      |Step(w, e).sessions| == |w.sessions| && Step(w, e).state.nextId == w.state.nextId && Step(w, e).state.disposed
  {
  }

  /** In every run a session keeps its host and its identifier, and is closed exactly once `close` has been called. */
  lemma {:induction false} ClosedIff(w: World, events: seq<Event>, i: nat)
    requires i < |w.sessions|
    ensures i < |After(w, events).sessions|
    ensures var v := After(w, events).sessions[i];
      && v.host == w.sessions[i].host && v.identifier == w.sessions[i].identifier
      && (v.closed <==> w.sessions[i].closed || CloseCalled(i) in events)
    decreases |events|
  {
    if events != [] {
      SessionsGrow(w, events[0]);
      SessionStep(w, events[0], i);
      ClosedIff(Step(w, events[0]), events[1..], i);
      assert CloseCalled(i) in events <==> events[0] == CloseCalled(i) || CloseCalled(i) in events[1..];
    }
  }

  /** A closed session makes no more probes: its calls change nothing. */
  lemma ClosedSessionIsSilent(w: World, events: seq<Event>, i: nat, payload: Data, accepted: bool)
    requires i < |w.sessions| && CloseCalled(i) in events
    ensures Step(After(w, events), PingCalled(i, payload, accepted)) == After(w, events)
  {
    ClosedIff(w, events, i);
    var v := After(w, events);
    assert v.sessions[i := v.sessions[i]] == v.sessions;
  }

  /** After `dispose` no session and no probe is ever made again. */
  lemma {:induction false} NothingMadeAfterDispose(w: World, events: seq<Event>)
    requires w.state.disposed
    ensures |After(w, events).sessions| == |w.sessions| && After(w, events).state.nextId == w.state.nextId
    decreases |events|
  {
    if events != [] {
      SessionsGrow(w, events[0]);
      NothingMadeAfterDispose(Step(w, events[0]), events[1..]);
    }
  }

  /** The longest payload that is not refused is the longest whose echo request fits an IPv4 packet. */
  lemma LongestPayload(b: Data, n: nat)
    requires |b| == 4
    ensures n <= MAX_ICMP_ECHO_PAYLOAD_LENGTH <==> Ipv4Packets.Fits(Ipv4Packets.EchoRequest(b, n))
  {
  }
}
