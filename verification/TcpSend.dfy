/** The sending half of a TCP connection. */
module TcpSend {
  // Of packages/tcpip/src/bindings/tcp.ts: promises that wait for an acknowledgement or for a connection
  // (`#waitForAck`, and `EventMap` of packages/tcpip/src/util.ts), and the loop that queues the data of
  // one write.

  import opened Options
  import opened Bytes

  type Handle = nat

  /** A promise somebody awaits; it is named after the event that made it. */
  type Waiter = nat

  datatype Kind = Sending | Closing | Connecting

  datatype Outcome = Acked(length: nat) | Connected(connection: nat) | Rejected

  datatype Event =
    | Wait(kind: Kind, handle: Handle)
    | Sent(handle: Handle, length: nat)
    | Connect(handle: Handle, connection: nat)
    | Dispose

  datatype State = State(waiting: map<Waiter, (Kind, Handle)>, settled: map<Waiter, Outcome>, disposed: bool,
    clock: nat)

  const Fresh := State(map[], map[], false, 0)

  /** Nobody waits and is settled at once, and nobody waits any more after disposal. */
  ghost predicate Inv(s: State) {
    && s.waiting.Keys !! s.settled.Keys
    && (forall w :: w in s.waiting || w in s.settled ==> w < s.clock)
    && (s.disposed ==> s.waiting == map[])
  }

  /** How `e` settles a promise of this kind for this handle, if it does. */
  function Settles(e: Event, k: Kind, h: Handle): Option<Outcome> {
    match e
    case Wait(_, _) => None
    case Sent(x, length) => if x == h && k != Connecting then Some(Acked(length)) else None
    case Connect(x, c) => if x == h && k == Connecting then Some(Connected(c)) else None
    case Dispose => Some(Rejected)
  }

  /** The promises that `e` settles. */
  function Hit(s: State, e: Event): set<Waiter> {
    set w | w in s.waiting && Settles(e, s.waiting[w].0, s.waiting[w].1).Some?
  }

  function Step(s: State, e: Event): State {
    if e.Wait? then
      State(if s.disposed then s.waiting
        else s.waiting[s.clock := (e.kind, e.handle)], s.settled, s.disposed, s.clock + 1)
    else
      State(s.waiting - Hit(s, e),
            s.settled + map w | w in Hit(s, e) :: Settles(e, s.waiting[w].0, s.waiting[w].1).value,
            s.disposed || e.Dispose?, s.clock + 1)
  }

  lemma StepKeeps(s: State, e: Event)
    requires Inv(s)
    ensures Inv(Step(s, e))
  {
  }

  /** What one event means for one promise. */
  lemma StepOn(s: State, e: Event, w: Waiter)
    requires Inv(s) && (w in s.waiting || w in s.settled)
    ensures var t := Step(s, e);
      && (w in s.settled ==> w in t.settled && t.settled[w] == s.settled[w])
      && (w in s.waiting ==>
            var o := Settles(e, s.waiting[w].0, s.waiting[w].1);
            if o.Some? then w in t.settled && t.settled[w] == o.value
            else w !in t.settled && w in t.waiting && t.waiting[w] == s.waiting[w])
  {
  }

  ghost function After(events: seq<Event>, n: nat): (s: State)
    requires n <= |events|
    ensures Inv(s) && s.clock == n
  {
    if n == 0 then Fresh else Step(After(events, n - 1), events[n - 1])
  }

  /** The first event in `from..to` that settles a promise of this kind for this handle. */
  function FirstSettling(events: seq<Event>, from: nat, to: nat, k: Kind, h: Handle): (r: Option<Outcome>)
    requires from <= to <= |events|
    ensures r.None? <==> (forall j :: from <= j < to ==> Settles(events[j], k, h).None?)
    decreases |events| - from
  {
    if from == to then None
    else if Settles(events[from], k, h).Some? then Settles(events[from], k, h)
    else FirstSettling(events, from + 1, to, k, h)
  }

  lemma {:induction false} FirstSettlingSplit(events: seq<Event>, from: nat, to: nat, k: Kind, h: Handle)
    requires from <= to < |events|
    ensures FirstSettling(events, from, to + 1, k, h) ==
      (if FirstSettling(events, from, to, k, h).Some? then FirstSettling(events, from, to, k, h)
       else Settles(events[to], k, h))
    decreases |events| - from
  {
    if from < to && Settles(events[from], k, h).None? {
      FirstSettlingSplit(events, from + 1, to, k, h);
    } else if from == to && Settles(events[from], k, h).None? {
      assert FirstSettling(events, from + 1, to + 1, k, h).None?;
    }
  }

  predicate NoDispose(events: seq<Event>, n: nat)
    requires n <= |events|
  {
    forall j :: 0 <= j < n ==> events[j] != Dispose
  }

  lemma {:induction false} DisposedIff(events: seq<Event>, n: nat)
    requires n <= |events|
    ensures After(events, n).disposed <==> !NoDispose(events, n)
  {
    if n > 0 {
      DisposedIff(events, n - 1);
    }
  }

  /** The promise of the wait at `i` stands as the first matching event in `i + 1..n` left it. */
  ghost predicate SettledByFirst(events: seq<Event>, i: nat, n: nat)
    requires i < n <= |events| && events[i].Wait?
  {
    var s, first := After(events, n), FirstSettling(events, i + 1, n, events[i].kind, events[i].handle);
    && (i in s.settled <==> first.Some?)
    && (first.Some? ==> s.settled[i] == first.value)
    && (first.None? ==> i in s.waiting && s.waiting[i] == (events[i].kind, events[i].handle))
  }

  lemma OneMoreEvent(events: seq<Event>, i: nat, n: nat)
    requires i < n < |events| && events[i].Wait? && SettledByFirst(events, i, n)
    ensures SettledByFirst(events, i, n + 1)
  {
    FirstSettlingSplit(events, i + 1, n, events[i].kind, events[i].handle);
    StepOn(After(events, n), events[n], i);
  }

  /**
   Every acknowledgement, close or connect waiter is settled exactly when a matching event follows
   the wait, and by the first one: an acknowledgement or connection of its handle, or the disposal
   of the stack.
   */
  lemma {:induction false} SettledOnceByFirst(events: seq<Event>, i: nat, n: nat)
    requires i < n <= |events| && events[i].Wait? && NoDispose(events, i)
    ensures SettledByFirst(events, i, n)
  {
    if n == i + 1 {
      DisposedIff(events, i);
    } else {
      SettledOnceByFirst(events, i, n - 1);
      OneMoreEvent(events, i, n - 1);
    }
  }

  /** Event `j` is what the promise of the wait at `i` waits for, or the disposal. */
  predicate Ends(events: seq<Event>, i: nat, j: nat)
    requires i < |events| && events[i].Wait? && j < |events|
  {
    || events[j] == Dispose
    || (events[i].kind != Connecting && events[j].Sent? && events[j].handle == events[i].handle)
    || (events[i].kind == Connecting && events[j].Connect? && events[j].handle == events[i].handle)
  }

  predicate EndsWith(e: Event, o: Outcome) {
    match o
    case Acked(length) => e.Sent? && e.length == length
    case Connected(connection) => e.Connect? && e.connection == connection
    case Rejected => e == Dispose
  }

  ghost predicate FirstEnd(events: seq<Event>, i: nat, j: nat, o: Outcome)
    requires i < j < |events| && events[i].Wait?
  {
    && Ends(events, i, j) && EndsWith(events[j], o)
    && forall m: nat :: i < m < j ==> !Ends(events, i, m)
  }

  lemma {:induction false} FirstSettlingIs(events: seq<Event>, i: nat, from: nat, to: nat)
    requires i < from <= to <= |events| && events[i].Wait?
    requires forall m: nat :: i < m < from ==> !Ends(events, i, m)
    ensures var first := FirstSettling(events, from, to, events[i].kind, events[i].handle);
      if first.Some? then exists j: nat :: from <= j < to && FirstEnd(events, i, j, first.value)
      else forall m: nat :: from <= m < to ==> !Ends(events, i, m)
    decreases |events| - from
  {
    if from < to {
      var now := Settles(events[from], events[i].kind, events[i].handle);
      assert Ends(events, i, from) <==> now.Some?;
      if now.Some? {
        assert FirstEnd(events, i, from, now.value);
      } else {
        FirstSettlingIs(events, i, from + 1, to);
      }
    }
  }

  lemma OneFirstEnd(events: seq<Event>, i: nat, j: nat, k: nat, o: Outcome, p: Outcome)
    requires i < j < |events| && i < k < |events| && events[i].Wait?
    requires FirstEnd(events, i, j, o) && FirstEnd(events, i, k, p)
    ensures j == k && o == p
  {
  }

  /**
   What a waiter gets: a send or a close is resolved with the length of the first acknowledgement of its handle,
   a connect with the first connection of its handle, and each is rejected if the disposal comes before that.
   */
  lemma SettledWithIff(events: seq<Event>, i: nat, n: nat, o: Outcome)
    requires i < n <= |events| && events[i].Wait? && NoDispose(events, i)
    ensures var s := After(events, n);
      i in s.settled && s.settled[i] == o <==> exists j: nat :: i < j < n && FirstEnd(events, i, j, o)
  {
    SettledOnceByFirst(events, i, n);
    FirstSettlingIs(events, i, i + 1, n);
    var first := FirstSettling(events, i + 1, n, events[i].kind, events[i].handle);
    if first.Some? {
      var k: nat :| i < k < n && FirstEnd(events, i, k, first.value);
      if j: nat :| i < j < n && FirstEnd(events, i, j, o) {
        OneFirstEnd(events, i, j, k, o, first.value);
      }
    } else {
      forall j: nat | i < j < n ensures !FirstEnd(events, i, j, o) {
        assert !Ends(events, i, j);
      }
    }
  }

  /** A settled promise is never settled again: it keeps its outcome for the rest of the run. */
  lemma {:induction false} SettledForGood(events: seq<Event>, w: Waiter, n: nat, m: nat)
    requires n <= m <= |events| && w in After(events, n).settled
    ensures w in After(events, m).settled && After(events, m).settled[w] == After(events, n).settled[w]
    decreases m
  {
    if n < m {
      SettledForGood(events, w, n, m - 1);
    }
  }

  /** Nothing but a wait that came before disposal is ever settled. */
  lemma {:induction false} OnlyWaitersSettle(events: seq<Event>, w: Waiter, n: nat)
    requires n <= |events|
    requires w in After(events, n).settled || w in After(events, n).waiting
    ensures w < n && events[w].Wait? && NoDispose(events, w)
  {
    if n > 0 {
      var s := After(events, n - 1);
      if w in s.settled || w in s.waiting {
        OnlyWaitersSettle(events, w, n - 1);
      } else {
        DisposedIff(events, n - 1);
      }
    }
  }

  // ---------------------------------------------------------------- the tables

  type Waiters = map<Handle, set<Waiter>>

  function At(m: Waiters, h: Handle): set<Waiter> {
    if h in m then m[h] else {}
  }

  /** The table lists exactly the promises of its kind that wait. */
  ghost predicate Lists(m: Waiters, waiting: map<Waiter, (Kind, Handle)>, k: Kind) {
    forall h: Handle, w: Waiter :: w in At(m, h) <==> w in waiting && waiting[w] == (k, h)
  }

  lemma ListsAdd(m: Waiters, waiting: map<Waiter, (Kind, Handle)>, k: Kind, to: Kind, h: Handle, w: Waiter)
    requires Lists(m, waiting, k) && w !in waiting
    ensures Lists(if k == to then m[h := At(m, h) + {w}] else m, waiting[w := (to, h)], k)
  {
    var n := if k == to then m[h := At(m, h) + {w}] else m;
    forall x: Handle, v: Waiter ensures v in At(n, x) <==>
      v in waiting[w := (to, h)] && waiting[w := (to, h)][v] == (k, x) {
      assert v in At(m, x) <==> v in waiting && waiting[v] == (k, x);
    }
  }

  lemma ListsCut(m: Waiters, n: Waiters, waiting: map<Waiter, (Kind, Handle)>, gone: set<Waiter>, k: Kind)
    requires Lists(m, waiting, k)
    requires forall h :: At(n, h) == At(m, h) - gone
    ensures Lists(n, waiting - gone, k)
  {
    forall h: Handle, w: Waiter ensures w in At(n, h) <==> w in waiting - gone && (waiting - gone)[w] == (k, h) {
      assert w in At(m, h) <==> w in waiting && waiting[w] == (k, h);
      assert At(n, h) == At(m, h) - gone;
    }
  }

  /** A set of promises of another kind may leave without touching the table. */
  lemma ListsOther(m: Waiters, waiting: map<Waiter, (Kind, Handle)>, gone: set<Waiter>, k: Kind)
    requires Lists(m, waiting, k) && forall w :: w in gone && w in waiting ==> waiting[w].0 != k
    ensures Lists(m, waiting - gone, k)
  {
    forall h: Handle ensures At(m, h) == At(m, h) - gone {
      assert forall w: Waiter :: w in At(m, h) <==> w in waiting && waiting[w] == (k, h);
    }
    ListsCut(m, m, waiting, gone, k);
  }

  /** Settling the promises that `e` hits, pair by pair, is the step. */
  lemma StepByHits(s: State, e: Event, waiting: map<Waiter, (Kind, Handle)>, settled: map<Waiter, Outcome>)
    requires Inv(s) && !e.Wait?
    requires waiting == s.waiting - Hit(s, e) && settled.Keys == s.settled.Keys + Hit(s, e)
    requires forall w :: w in s.settled ==> settled[w] == s.settled[w]
    requires forall w :: w in Hit(s, e) ==> settled[w] == Settles(e, s.waiting[w].0, s.waiting[w].1).value
    ensures Step(s, e) == State(waiting, settled, s.disposed || e.Dispose?, s.clock + 1)
  {
    assert settled == Step(s, e).settled;
  }

  lemma HitBySent(s: State, h: Handle, length: nat, first: set<Waiter>, second: set<Waiter>)
    requires forall w :: w in first <==> w in s.waiting && s.waiting[w] == (Sending, h)
    requires forall w :: w in second <==> w in s.waiting && s.waiting[w] == (Closing, h)
    ensures Hit(s, Sent(h, length)) == first + second
  {
  }

  function OfKind(waiting: map<Waiter, (Kind, Handle)>, k: Kind): set<Waiter> {
    set w | w in waiting && waiting[w].0 == k
  }

  /** The promises in `hit` moved from the waiting ones to the settled ones, with this outcome. */
  ghost predicate Moved(waiting: map<Waiter, (Kind, Handle)>, settled: map<Waiter, Outcome>, hit: set<Waiter>,
    o: Outcome,
                        waiting': map<Waiter, (Kind, Handle)>, settled': map<Waiter, Outcome>)
  {
    && hit <= waiting.Keys && waiting' == waiting - hit && settled'.Keys == settled.Keys + hit
    && forall w :: w in settled' ==> settled'[w] == if w in hit then o else settled[w]
  }

  function OfHandle(waiting: map<Waiter, (Kind, Handle)>, k: Kind, h: Handle): set<Waiter> {
    set w | w in waiting && waiting[w] == (k, h)
  }

  lemma MovedTwice(w0: map<Waiter, (Kind, Handle)>, s0: map<Waiter, Outcome>, a: set<Waiter>,
                   w1: map<Waiter, (Kind, Handle)>, s1: map<Waiter, Outcome>, b: set<Waiter>,
                   w2: map<Waiter, (Kind, Handle)>, s2: map<Waiter, Outcome>, o: Outcome)
    requires Moved(w0, s0, a, o, w1, s1) && Moved(w1, s1, b, o, w2, s2)
    ensures Moved(w0, s0, a + b, o, w2, s2)
  {
  }

  /** Rejecting one kind after the other is disposing of everything. */
  lemma RejectedByKinds(s: State, w1: map<Waiter, (Kind, Handle)>, s1: map<Waiter, Outcome>,
                        w2: map<Waiter, (Kind, Handle)>, s2: map<Waiter, Outcome>,
                        w3: map<Waiter, (Kind, Handle)>, s3: map<Waiter, Outcome>)
    requires Inv(s)
    requires Moved(s.waiting, s.settled, OfKind(s.waiting, Connecting), Rejected, w1, s1)
    requires Moved(w1, s1, OfKind(w1, Sending), Rejected, w2, s2)
    requires Moved(w2, s2, OfKind(w2, Closing), Rejected, w3, s3)
    ensures w3 == map[] && Step(s, Dispose) == State(w3, s3, true, s.clock + 1)
  {
    var first, second, third := OfKind(s.waiting, Connecting), OfKind(s.waiting, Sending), OfKind(s.waiting, Closing);
    assert OfKind(w1, Sending) == second && OfKind(w2, Closing) == third;
    MovedTwice(s.waiting, s.settled, first, w1, s1, second, w2, s2, Rejected);
    MovedTwice(s.waiting, s.settled, first + second, w2, s2, third, w3, s3, Rejected);
    AllKinds(s.waiting);
    assert Hit(s, Dispose) == s.waiting.Keys;
    StepByHits(s, Dispose, w3, s3);
  }

  lemma AllKinds(waiting: map<Waiter, (Kind, Handle)>)
    ensures waiting.Keys == OfKind(waiting, Connecting) + OfKind(waiting, Sending) + OfKind(waiting, Closing)
  {
    forall w | w in waiting
      ensures w in OfKind(waiting, Connecting) + OfKind(waiting, Sending) + OfKind(waiting, Closing)
    {
      var k := waiting[w].0;
    }
  }

  class TcpBindings {
    var tcpAcks: Waiters
    var tcpCloseAcks: Waiters
    var connectListeners: Waiters
    var connections: map<Handle, nat>
    var disposed: bool
    ghost var waiting: map<Waiter, (Kind, Handle)>
    var settled: map<Waiter, Outcome>
    var clock: nat

    ghost function Abstract(): State
      reads this
    {
      State(waiting, settled, disposed, clock)
    }

    ghost predicate Coupled()
      reads this
    {
      && waiting.Keys !! settled.Keys
      && Lists(tcpAcks, waiting, Sending) && Lists(tcpCloseAcks, waiting, Closing)
      && Lists(connectListeners, waiting, Connecting)
    }

    ghost predicate Valid()
      reads this
    {
      Inv(Abstract()) && Coupled()
    }

    constructor ()
      ensures Abstract() == Fresh && Valid()
    {
      tcpAcks, tcpCloseAcks, connectListeners, connections := map[], map[], map[], map[];
      waiting, disposed, settled, clock := map[], false, map[], 0;
    }

    /** Settles every promise of a set, one after the other. */
    method SettleAll(waiters: set<Waiter>, o: Outcome)
      requires waiters <= waiting.Keys && waiting.Keys !! settled.Keys
      modifies this`settled, this`waiting
      ensures Moved(old(waiting), old(settled), waiters, o, waiting, settled)
    {
      var rest := waiters;
      while rest != {}
        invariant rest <= waiters
        invariant Moved(old(waiting), old(settled), waiters - rest, o, waiting, settled)
      {
        var w :| w in rest;
        settled := settled[w := o];
        waiting := waiting - {w};
        rest := rest - {w};
      }
    }

    /** Rejects the promises of every handle of a table. */
    method RejectTable(m: Waiters, ghost k: Kind)
      requires Lists(m, waiting, k) && waiting.Keys !! settled.Keys
      modifies this`settled, this`waiting
      ensures Moved(old(waiting), old(settled), OfKind(old(waiting), k), Rejected, waiting, settled)
    {
      var handles := m.Keys;
      ghost var was, done: set<Waiter> := waiting, {};
      while handles != {}
        invariant handles <= m.Keys
        invariant forall w :: w in was ==> (w in done <==> was[w].0 == k && was[w].1 !in handles)
        invariant Moved(was, old(settled), done, Rejected, waiting, settled)
      {
        var h :| h in handles;
        assert forall w: Waiter :: w in At(m, h) <==> w in was && was[w] == (k, h);
        assert m[h] !! done;
        SettleAll(m[h], Rejected);
        done := done + m[h];
        handles := handles - {h};
      }
      assert done == OfKind(was, k) by {
        assert forall w :: w in OfKind(was, k) ==> w in At(m, was[w].1);
      }
    }

    /** Settles the promises of one handle, which left the table `m` and so made it `n`. */
    method SettleHandle(m: Waiters, ghost k: Kind, handle: Handle, o: Outcome, ghost n: Waiters)
      requires Lists(m, waiting, k) && waiting.Keys !! settled.Keys
      requires At(n, handle) == {} && forall h :: h != handle ==> At(n, h) == At(m, h)
      modifies this`settled, this`waiting
      ensures Lists(n, waiting, k)
      ensures Moved(old(waiting), old(settled), OfHandle(old(waiting), k, handle), o, waiting, settled)
    {
      assert At(m, handle) == OfHandle(waiting, k, handle) by {
        assert forall w: Waiter :: w in At(m, handle) <==> w in waiting && waiting[w] == (k, handle);
      }
      forall h: Handle ensures At(n, h) == At(m, h) - At(m, handle) {
        assert forall w: Waiter :: w in At(m, h) <==> w in waiting && waiting[w] == (k, h);
      }
      ListsCut(m, n, waiting, At(m, handle), k);
      SettleAll(At(m, handle), o);
    }

    method Wait(kind: Kind, handle: Handle) returns (accepted: bool)
      requires Valid()
      modifies this
      ensures Abstract() == Step(old(Abstract()), Event.Wait(kind, handle)) && Valid()
      ensures accepted == !old(disposed)
    {
      accepted := !disposed;
      if accepted {
        ListsAdd(tcpAcks, waiting, Sending, kind, handle, clock);
        ListsAdd(tcpCloseAcks, waiting, Closing, kind, handle, clock);
        ListsAdd(connectListeners, waiting, Connecting, kind, handle, clock);
        match kind {
          case Sending => tcpAcks := tcpAcks[handle := At(tcpAcks, handle) + {clock}];
          case Closing => tcpCloseAcks := tcpCloseAcks[handle := At(tcpCloseAcks, handle) + {clock}];
          case Connecting => connectListeners := connectListeners[handle := At(connectListeners, handle) + {clock}];
        }
        waiting := waiting[clock := (kind, handle)];
      }
      clock := clock + 1;
    }

    method SettleSending(handle: Handle, length: nat)
      requires Coupled()
      modifies this`tcpAcks, this`settled, this`waiting
      ensures Coupled()
      ensures Moved(old(waiting), old(settled), OfHandle(old(waiting), Sending, handle), Acked(length), waiting,
        settled)
    {
      ListsOther(tcpCloseAcks, waiting, OfHandle(waiting, Sending, handle), Closing);
      ListsOther(connectListeners, waiting, OfHandle(waiting, Sending, handle), Connecting);
      var waiters := tcpAcks;
      tcpAcks := tcpAcks - {handle};
      SettleHandle(waiters, Sending, handle, Acked(length), tcpAcks);
    }

    method SettleClosing(handle: Handle, length: nat)
      requires Coupled()
      modifies this`tcpCloseAcks, this`settled, this`waiting
      ensures Coupled()
      ensures Moved(old(waiting), old(settled), OfHandle(old(waiting), Closing, handle), Acked(length), waiting,
        settled)
    {
      ListsOther(tcpAcks, waiting, OfHandle(waiting, Closing, handle), Sending);
      ListsOther(connectListeners, waiting, OfHandle(waiting, Closing, handle), Connecting);
      var waiters := tcpCloseAcks;
      tcpCloseAcks := tcpCloseAcks - {handle};
      SettleHandle(waiters, Closing, handle, Acked(length), tcpCloseAcks);
    }

    method SentTcpChunk(handle: Handle, length: nat)
      requires Valid()
      modifies this
      ensures Abstract() == Step(old(Abstract()), Sent(handle, length)) && Valid()
    {
      ghost var s, e := Abstract(), Sent(handle, length);
      ghost var first, second := OfHandle(waiting, Sending, handle), OfHandle(waiting, Closing, handle);
      SettleSending(handle, length);
      assert OfHandle(waiting, Closing, handle) == second;
      SettleClosing(handle, length);
      clock := clock + 1;
      HitBySent(s, handle, length, first, second);
      StepByHits(s, e, waiting, settled);
    }

    /** `EventMap.set`: the listeners of the handle are told and removed. */
    method ConnectedTcpConnection(handle: Handle, connection: nat)
      requires Valid()
      modifies this
      ensures Abstract() == Step(old(Abstract()), Connect(handle, connection)) && Valid()
      ensures connections == if old(disposed) then old(connections) else old(connections)[handle := connection]
    {
      ghost var s, e := Abstract(), Connect(handle, connection);
      ghost var hit := OfHandle(waiting, Connecting, handle);
      assert Hit(s, e) == hit;
      if !disposed {
        connections := connections[handle := connection];
        var before := connectListeners;
        if handle in connectListeners {
          connectListeners := connectListeners[handle := {}];
        }
        ListsOther(tcpAcks, waiting, hit, Sending);
        ListsOther(tcpCloseAcks, waiting, hit, Closing);
        SettleHandle(before, Connecting, handle, Connected(connection), connectListeners);
      }
      clock := clock + 1;
      StepByHits(s, e, waiting, settled);
    }

    /** `EventMap.rejectAll`. */
    method RejectAll()
      requires Coupled()
      modifies this`connectListeners, this`settled, this`waiting, this`connections
      ensures Coupled()
      ensures Moved(old(waiting), old(settled), OfKind(old(waiting), Connecting), Rejected, waiting, settled)
      ensures connections == map[]
    {
      ListsOther(tcpAcks, waiting, OfKind(waiting, Connecting), Sending);
      ListsOther(tcpCloseAcks, waiting, OfKind(waiting, Connecting), Closing);
      RejectTable(connectListeners, Connecting);
      connectListeners := map[];
      connections := map[];
    }

    method RejectSending()
      requires Coupled()
      modifies this`tcpAcks, this`settled, this`waiting
      ensures Coupled()
      ensures Moved(old(waiting), old(settled), OfKind(old(waiting), Sending), Rejected, waiting, settled)
    {
      ListsOther(tcpCloseAcks, waiting, OfKind(waiting, Sending), Closing);
      ListsOther(connectListeners, waiting, OfKind(waiting, Sending), Connecting);
      RejectTable(tcpAcks, Sending);
      tcpAcks := map[];
    }

    method RejectClosing()
      requires Coupled()
      modifies this`tcpCloseAcks, this`settled, this`waiting
      ensures Coupled()
      ensures Moved(old(waiting), old(settled), OfKind(old(waiting), Closing), Rejected, waiting, settled)
    {
      ListsOther(tcpAcks, waiting, OfKind(waiting, Closing), Sending);
      ListsOther(connectListeners, waiting, OfKind(waiting, Closing), Connecting);
      RejectTable(tcpCloseAcks, Closing);
      tcpCloseAcks := map[];
    }

    method DisposeAll()
      requires Valid()
      modifies this
      ensures Abstract() == Step(old(Abstract()), Dispose) && Valid() && connections == map[]
    {
      ghost var s := Abstract();
      disposed := true;
      RejectAll();
      ghost var w1, s1 := waiting, settled;
      RejectSending();
      ghost var w2, s2 := waiting, settled;
      RejectClosing();
      clock := clock + 1;
      RejectedByKinds(s, w1, s1, w2, s2, waiting, settled);
    }
  }

  // ---------------------------------------------------------------- one write

  function Min(a: nat, b: nat): nat {
    if a < b then a else b
  }

  /** The send buffer of the network stack: `queued` is everything it ever accepted, in order. */
  class SendBuffer {
    var queued: Data

    constructor ()
      ensures queued == []
    {
      queued := [];
    }

    /** `send_tcp_chunk` with `room` bytes of free space. */
    method SendTcpChunk(chunk: Data, room: nat) returns (accepted: nat)
      modifies this
      ensures accepted == Min(|chunk|, room) && queued == old(queued) + chunk[..accepted]
    {
      if room == 0 {
        assert queued + chunk[..0] == queued;
        return 0;
      }
      accepted := if |chunk| < room then |chunk| else room;
      queued := queued + chunk[..accepted];
    }

    /**
     The loop of `send`. `rooms` lists the free space found by its calls, one call at once and then
     one after every acknowledgement it waited for; the list ends where acknowledgements stop coming.
     What is queued is always a prefix of the data, as long as all the space together, and when
     `send` is done it is all of the data.
     */
    method Send(data: Data, rooms: seq<nat>) returns (done: bool)
      requires rooms != []
      modifies this
      ensures queued == old(queued) + data[..Min(|data|, Sum(rooms))]
      ensures done <==> Sum(rooms) >= |data|
    {
      var bytesQueued := SendTcpChunk(data, rooms[0]);
      var calls := 1;
      SumPrefix(rooms, 0);
      while bytesQueued < |data| && calls < |rooms|
        invariant 1 <= calls <= |rooms|
        invariant bytesQueued == Min(|data|, Sum(rooms[..calls]))
        invariant queued == old(queued) + data[..bytesQueued]
      {
        var accepted := SendTcpChunk(data[bytesQueued..], rooms[calls]);
        NextPart(old(queued), data, bytesQueued, accepted);
        bytesQueued := bytesQueued + accepted;
        SumPrefix(rooms, calls);
        calls := calls + 1;
      }
      SumMonotone(rooms, calls);
      assert calls == |rooms| ==> rooms[..calls] == rooms;
      return bytesQueued == |data|;
    }
  }

  lemma NextPart(before: Data, data: Data, k: nat, n: nat)
    requires k + n <= |data|
    ensures before + data[..k] + data[k..][..n] == before + data[..k + n]
  {
    assert data[..k + n] == data[..k] + data[k..][..n];
  }

  lemma SumPrefix(s: seq<nat>, k: nat)
    requires k < |s|
    ensures Sum(s[..k + 1]) == Sum(s[..k]) + s[k]
  {
    if k > 0 {
      assert s[..k + 1][1..] == s[1..][..k] && s[..k][1..] == s[1..][..k - 1];
      SumPrefix(s[1..], k - 1);
    }
  }

  lemma SumMonotone(s: seq<nat>, k: nat)
    requires k <= |s|
    ensures Sum(s[..k]) <= Sum(s)
    decreases |s| - k
  {
    if k < |s| {
      SumPrefix(s, k);
      SumMonotone(s, k + 1);
    } else {
      assert s[..k] == s;
    }
  }

  // ---------------------------------------------------------------- closing

  const ERR_OK: int := 0
  const ERR_MEM: int := -1

  datatype CloseResult = Closed | CloseError(code: int) | StillWaiting

  /**
   The retry loop of closing a connection, or its write side: `results` are the answers of the
   network stack to the calls, one at once and one after every acknowledgement.
   */
  method CloseConnection(results: seq<int>) returns (r: CloseResult, calls: nat)
    ensures calls <= |results| && forall i :: 0 <= i < calls - 1 ==> results[i] == ERR_MEM
    ensures r == Closed <==> calls > 0 && results[calls - 1] == ERR_OK
    ensures r.CloseError? <==> calls > 0 && results[calls - 1] !in {ERR_OK, ERR_MEM}
    ensures r.CloseError? ==> r.code == results[calls - 1]
    ensures r == StillWaiting ==> calls == |results| && forall i :: 0 <= i < |results| ==> results[i] == ERR_MEM
  {
    calls := 0;
    while calls < |results|
      invariant calls <= |results| && forall i :: 0 <= i < calls ==> results[i] == ERR_MEM
    {
      var result := results[calls];
      calls := calls + 1;
      if result == ERR_OK {
        return Closed, calls;
      }
      if result != ERR_MEM {
        return CloseError(result), calls;
      }
    }
    return StillWaiting, calls;
  }
}
