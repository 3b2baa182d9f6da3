/** The receiving half of a TCP connection. */
module TcpStream {
  // `VirtualTcpConnection` of packages/tcpip/src/bindings/tcp.ts together with the `ReadableStream` it
  // feeds. The stream is modelled after sections 4.5 and 4.6 of the WHATWG Streams Standard: enqueueing
  // a chunk or reading one may call `pull` synchronously, and `pull` re-enters `EnqueueBuffer`. Chunks
  // and the close notification of the network stack reach the connection through one first-in
  // first-out queue of microtasks; the start promise and the pull promise of the stream may settle at
  // any moment in between.

  import opened Bytes

  type Chunk = Data

  const MAX_SEGMENT_SIZE: nat := 1448
  const READABLE_HIGH_WATER_MARK: nat := MAX_SEGMENT_SIZE
  /** TCP_WND of lwipopts.h: what the peer may send before it gets credit. */
  const TCP_WND: nat := 4 * 1460

  datatype Task = Receive(data: Chunk) | RemoteClose

  /**
   The fields of the connection; those of the controller of its readable stream, from `queue` on; what
   the reader has seen and the window credit that was sent; and the network stack.
   */
  datatype Conn = Conn(
    receiveBuffer: seq<Chunk>,
    remoteClosed: bool,
    readableClosed: bool,
    writableErrored: bool,
    queue: seq<Chunk>,
    started: bool,
    closeRequested: bool,
    closed: bool,
    pulling: bool,
    pullAgain: bool,
    pendingReads: nat,
    read: seq<Chunk>,
    ends: nat,
    credits: seq<nat>,
    net: Network)

  /** What the network stack reported so far, and what of it the connection has not handled yet. */
  datatype Network = Network(inbox: seq<Task>, received: seq<Chunk>, finished: bool)

  const Fresh := Conn([], false, false, false, [], false, false, false, false, false, 0, [], 0, [],
    Network([], [], false))

  // ---------------------------------------------------------------- the code

  function DesiredSize(c: Conn): int {
    if c.closed then 0 else READABLE_HIGH_WATER_MARK - |Flatten(c.queue)|
  }

  predicate CanCloseOrEnqueue(c: Conn) {
    !c.closeRequested && !c.closed
  }

  predicate ShouldCallPull(c: Conn) {
    CanCloseOrEnqueue(c) && c.started && (c.pendingReads > 0 || DesiredSize(c) > 0)
  }

  /** A chunk is only ever buffered while the stream can still take it, so `enqueue` never throws. */
  predicate Open(c: Conn) {
    c.receiveBuffer != [] ==> CanCloseOrEnqueue(c)
  }

  /** The network stack's side of the connection is the same. */
  predicate SameNetwork(c: Conn, d: Conn) {
    d.net == c.net && d.remoteClosed == c.remoteClosed
  }

  function CallPullIfNeeded(c: Conn): (r: Conn)
    requires Open(c)
    ensures Open(r) && |r.receiveBuffer| <= |c.receiveBuffer| && SameNetwork(c, r)
    decreases |c.receiveBuffer|, 2
  {
    if !ShouldCallPull(c) then c
    else if c.pulling then c.(pullAgain := true)
    else EnqueueBuffer(c.(pulling := true))
  }

  /** The part of `Enqueue` before the stream may pull. */
  function Accept(c: Conn, chunk: Chunk): (r: Conn)
    ensures CanCloseOrEnqueue(c) ==> CanCloseOrEnqueue(r)
    ensures r.receiveBuffer == c.receiveBuffer && SameNetwork(c, r)
  {
    if c.pendingReads > 0 then c.(pendingReads := c.pendingReads - 1, read := c.read + [chunk])
    else c.(queue := c.queue + [chunk])
  }

  function Enqueue(c: Conn, chunk: Chunk): (r: Conn)
    requires CanCloseOrEnqueue(c)
    ensures Open(r) && |r.receiveBuffer| <= |c.receiveBuffer| && SameNetwork(c, r)
    decreases |c.receiveBuffer|, 3
  {
    CallPullIfNeeded(Accept(c, chunk))
  }

  function CloseReadable(c: Conn): Conn {
    if c.readableClosed then c
    else if !CanCloseOrEnqueue(c) then c.(readableClosed := true)
    else if c.queue != [] then c.(readableClosed := true, closeRequested := true)
    else c.(readableClosed := true, closeRequested := true, closed := true,
            ends := c.ends + c.pendingReads, pendingReads := 0)
  }

  function FinishIfDrained(c: Conn): (r: Conn)
    ensures Open(c) ==> Open(r)
    ensures r.receiveBuffer == c.receiveBuffer && SameNetwork(c, r)
  {
    if c.remoteClosed && c.receiveBuffer == [] then CloseReadable(c).(writableErrored := true) else c
  }

  /** The loop of `EnqueueBuffer`: `n` bytes have been handed over by this call so far. */
  function EnqueueLoop(c: Conn, n: nat): (r: (Conn, nat))
    requires Open(c)
    ensures Open(r.0) && |r.0.receiveBuffer| <= |c.receiveBuffer| && SameNetwork(c, r.0)
    decreases |c.receiveBuffer|, 0
  {
    if c.receiveBuffer == [] then (c, n)
    else if n > 0 && n + |c.receiveBuffer[0]| > DesiredSize(c) then (c, n)
    else
      var chunk := c.receiveBuffer[0];
      EnqueueLoop(Enqueue(c.(receiveBuffer := c.receiveBuffer[1..]), chunk), n + |chunk|)
  }

  function EnqueueBuffer(c: Conn): (r: Conn)
    requires Open(c)
    ensures Open(r) && |r.receiveBuffer| <= |c.receiveBuffer| && SameNetwork(c, r)
    decreases |c.receiveBuffer|, 1
  {
    if c.remoteClosed && c.receiveBuffer == [] then FinishIfDrained(c)
    else if DesiredSize(c) <= 0 then c
    else
      var (d, n) := EnqueueLoop(c, 0);
      FinishIfDrained(Credited(d, n))
  }

  function Credited(c: Conn, n: nat): (r: Conn)
    requires Open(c)
    ensures Open(r) && r.receiveBuffer == c.receiveBuffer && SameNetwork(c, r)
  {
    if n > 0 then c.(credits := c.credits + [n]) else c
  }

  function Take(c: Conn): Conn
    requires c.queue != []
  {
    c.(queue := c.queue[1..], read := c.read + [c.queue[0]], closed := c.closed ||
      (c.closeRequested && c.queue[1..] == []))
  }

  function Read(c: Conn): Conn
    requires Open(c)
  {
    if c.queue != [] then
      if c.closeRequested && c.queue[1..] == [] then Take(c) else CallPullIfNeeded(Take(c))
    else if c.closed then c.(ends := c.ends + 1)
    else CallPullIfNeeded(c.(pendingReads := c.pendingReads + 1))
  }

  function RunTask(c: Conn): Conn
    requires c.net.inbox != [] && CanCloseOrEnqueue(c)
  {
    var d := c.(net := c.net.(inbox := c.net.inbox[1..]));
    match c.net.inbox[0]
    case Receive(data) => EnqueueBuffer(d.(receiveBuffer := d.receiveBuffer + [data]))
    case RemoteClose => EnqueueBuffer(d.(remoteClosed := true))
  }

  function PullSettled(c: Conn): Conn
    requires Open(c)
  {
    if c.pullAgain then CallPullIfNeeded(c.(pulling := false, pullAgain := false)) else c.(pulling := false)
  }

  datatype Event = Deliver(data: Chunk) | Finish | Task | StartDone | PullDone | ReadChunk

  /** What may happen next: the network stack reports nothing after the remote close. */
  predicate Enabled(c: Conn, e: Event) {
    match e
    case Deliver(_) => !c.net.finished
    case Finish => !c.net.finished
    case Task => c.net.inbox != []
    case StartDone => !c.started
    case PullDone => c.pulling
    case ReadChunk => true
  }

  function Step(c: Conn, e: Event): Conn
    requires Inv(c) && Enabled(c, e)
  {
    match e
    case Deliver(data) => c.(net := c.net.(inbox := c.net.inbox + [Receive(data)], received := c.net.received + [data]))
    case Finish => c.(net := c.net.(inbox := c.net.inbox + [RemoteClose], finished := true))
    case Task => RunTask(c)
    case StartDone => CallPullIfNeeded(c.(started := true))
    case PullDone => PullSettled(c)
    case ReadChunk => Read(c)
  }

  // ---------------------------------------------------------------- invariants

  function Carried(t: Task): seq<Chunk> {
    if t.Receive? then [t.data] else []
  }

  function InboxChunks(inbox: seq<Task>): seq<Chunk> {
    if inbox == [] then [] else Carried(inbox[0]) + InboxChunks(inbox[1..])
  }

  /** Every chunk the network stack reported, in the order in which the reader gets to see them. */
  function Flow(c: Conn): seq<Chunk> {
    c.read + c.queue + c.receiveBuffer + InboxChunks(c.net.inbox)
  }

  function Handed(c: Conn): nat {
    |Flatten(c.read)| + |Flatten(c.queue)|
  }

  ghost predicate InboxOrder(c: Conn) {
    && (forall i :: 0 <= i < |c.net.inbox| && c.net.inbox[i].RemoteClose? ==> i == |c.net.inbox| - 1)
    && (c.net.finished <==> c.remoteClosed || (c.net.inbox != [] && c.net.inbox[|c.net.inbox| - 1].RemoteClose?))
    && (c.remoteClosed ==> c.net.inbox == [])
  }

  /** Holds at every moment, also inside the re-entrant calls; `owed` bytes still lack their credit. */
  ghost predicate Core(c: Conn, owed: nat) {
    && Sum(c.credits) + owed == Handed(c)
    && Flow(c) == c.net.received
    && InboxOrder(c)
    && Open(c)
    && (c.pendingReads > 0 ==> c.queue == [] && !c.closed)
    && (c.readableClosed <==> c.closeRequested)
    && (c.closed <==> c.closeRequested && c.queue == [])
    && (c.readableClosed ==> c.remoteClosed)
    && (c.writableErrored <==> c.readableClosed)
    && (c.ends > 0 ==> c.closed)
    && (c.pullAgain ==> c.pulling)
  }

  /** If bytes are held back although the stream wants some, another pull is already certain. */
  predicate Pulled(c: Conn) {
    c.started && c.receiveBuffer != [] && DesiredSize(c) > 0 ==> c.pulling && c.pullAgain
  }

  predicate Drained(c: Conn) {
    c.remoteClosed && c.receiveBuffer == [] ==> c.readableClosed
  }

  /** Holds between events. */
  ghost predicate Inv(c: Conn) {
    Core(c, 0) && Pulled(c) && Drained(c)
  }

  lemma Regrouped(a: seq<Chunk>, b: seq<Chunk>, c: seq<Chunk>)
    ensures a + b + c == a + (b + c)
  {
  }

  lemma NothingAdded(data: seq<Chunk>)
    ensures data + [] == data
  {
  }

  lemma SumAppend(s: seq<nat>, n: nat)
    ensures Sum(s + [n]) == Sum(s) + n
  {
    if s != [] {
      assert (s + [n])[1..] == s[1..] + [n];
      SumAppend(s[1..], n);
    }
  }

  lemma FinishKeeps(c: Conn, owed: nat)
    requires Core(c, owed)
    ensures Core(FinishIfDrained(c), owed) && Drained(FinishIfDrained(c))
    ensures Pulled(c) ==> Pulled(FinishIfDrained(c))
  {
  }

  lemma {:induction false} PullKeeps(c: Conn, owed: nat)
    requires Core(c, owed)
    ensures Core(CallPullIfNeeded(c), owed) && Pulled(CallPullIfNeeded(c))
    ensures Drained(c) ==> Drained(CallPullIfNeeded(c))
    decreases |c.receiveBuffer|, 2
  {
    if ShouldCallPull(c) && !c.pulling {
      EnqueueBufferKeeps(c.(pulling := true), owed);
    }
  }

  lemma SizeGrows(chunks: seq<Chunk>, chunk: Chunk)
    ensures |Flatten(chunks + [chunk])| == |Flatten(chunks)| + |chunk|
  {
    FlattenOne(chunk);
    FlattenAppend(chunks, [chunk]);
  }

  lemma QueuedKeepsFlow(c: Conn, d: Conn)
    requires c.receiveBuffer != []
    requires d == c.(receiveBuffer := c.receiveBuffer[1..], queue := c.queue + [c.receiveBuffer[0]])
    ensures Flow(d) == Flow(c) && Handed(d) == Handed(c) + |c.receiveBuffer[0]|
  {
    SizeGrows(c.queue, c.receiveBuffer[0]);
    assert d.queue + d.receiveBuffer == c.queue + c.receiveBuffer;
  }

  lemma FulfilledKeepsFlow(c: Conn, d: Conn)
    requires c.receiveBuffer != [] && c.queue == []
    requires d == c.(receiveBuffer := c.receiveBuffer[1..], read := c.read + [c.receiveBuffer[0]],
                     pendingReads := d.pendingReads)
    ensures Flow(d) == Flow(c) && Handed(d) == Handed(c) + |c.receiveBuffer[0]|
  {
    SizeGrows(c.read, c.receiveBuffer[0]);
    assert d.read + d.receiveBuffer == c.read + c.receiveBuffer;
  }

  lemma AcceptKeeps(c: Conn, owed: nat)
    requires Core(c, owed) && c.receiveBuffer != []
    ensures Core(Accept(c.(receiveBuffer := c.receiveBuffer[1..]), c.receiveBuffer[0]), owed + |c.receiveBuffer[0]|)
  {
    var d := Accept(c.(receiveBuffer := c.receiveBuffer[1..]), c.receiveBuffer[0]);
    if c.pendingReads > 0 {
      FulfilledKeepsFlow(c, d);
    } else {
      QueuedKeepsFlow(c, d);
    }
  }

  lemma {:induction false} EnqueueKeeps(c: Conn, owed: nat)
    requires Core(c, owed) && c.receiveBuffer != []
    ensures var d := Enqueue(c.(receiveBuffer := c.receiveBuffer[1..]), c.receiveBuffer[0]);
      Core(d, owed + |c.receiveBuffer[0]|) && Pulled(d)
    decreases |c.receiveBuffer| - 1, 3
  {
    AcceptKeeps(c, owed);
    PullKeeps(Accept(c.(receiveBuffer := c.receiveBuffer[1..]), c.receiveBuffer[0]), owed + |c.receiveBuffer[0]|);
  }

  lemma LoopTakesChunk(c: Conn, n: nat)
    requires Open(c) && c.receiveBuffer != [] && (n > 0 ==> n + |c.receiveBuffer[0]| <= DesiredSize(c))
    ensures EnqueueLoop(c, n) ==
      EnqueueLoop(Enqueue(c.(receiveBuffer := c.receiveBuffer[1..]), c.receiveBuffer[0]), n + |c.receiveBuffer[0]|)
  {
  }

  lemma {:induction false} EnqueueLoopKeeps(c: Conn, n: nat, owed: nat)
    requires Core(c, owed + n) && (n > 0 ==> Pulled(c))
    ensures Core(EnqueueLoop(c, n).0, owed + EnqueueLoop(c, n).1)
    ensures Pulled(c) || c.receiveBuffer != [] ==> Pulled(EnqueueLoop(c, n).0)
    decreases |c.receiveBuffer|, 0
  {
    if c.receiveBuffer != [] && (n > 0 ==> n + |c.receiveBuffer[0]| <= DesiredSize(c)) {
      var d, m := Enqueue(c.(receiveBuffer := c.receiveBuffer[1..]), c.receiveBuffer[0]), n + |c.receiveBuffer[0]|;
      assert Core(d, owed + m) && Pulled(d) by {
        EnqueueKeeps(c, owed + n);
      }
      EnqueueLoopKeeps(d, m, owed);
      LoopTakesChunk(c, n);
    }
  }

  lemma {:induction false} EnqueueBufferKeeps(c: Conn, owed: nat)
    requires Core(c, owed)
    ensures Core(EnqueueBuffer(c), owed) && Pulled(EnqueueBuffer(c)) && Drained(EnqueueBuffer(c))
    decreases |c.receiveBuffer|, 1
  {
    if c.remoteClosed && c.receiveBuffer == [] {
      FinishKeeps(c, owed);
    } else if DesiredSize(c) <= 0 {
    } else {
      EnqueueLoopKeeps(c, 0, owed);
      var (d, n) := EnqueueLoop(c, 0);
      CreditKeeps(d, n, owed);
      FinishKeeps(Credited(d, n), owed);
    }
  }

  lemma CreditKeeps(c: Conn, n: nat, owed: nat)
    requires Core(c, owed + n)
    ensures Core(Credited(c, n), owed) && (Pulled(c) ==> Pulled(Credited(c, n)))
  {
    if n > 0 {
      SumAppend(c.credits, n);
      assert Flow(Credited(c, n)) == Flow(c);
    }
  }

  // ---------------------------------------------------------------- events keep the invariant

  lemma InboxChunksAppend(a: seq<Task>, b: seq<Task>)
    ensures InboxChunks(a + b) == InboxChunks(a) + InboxChunks(b)
  {
    if a == [] {
      assert a + b == b;
    } else {
      assert (a + b)[1..] == a[1..] + b;
      InboxChunksAppend(a[1..], b);
      Regrouped(Carried(a[0]), InboxChunks(a[1..]), InboxChunks(b));
    }
  }

  lemma ReceiveKeepsFlow(c: Conn)
    requires c.net.inbox != [] && c.net.inbox[0].Receive?
    ensures Flow(c.(net := c.net.(inbox := c.net.inbox[1..]),
      receiveBuffer := c.receiveBuffer + [c.net.inbox[0].data])) == Flow(c)
  {
  }

  lemma RunTaskKeeps(c: Conn)
    requires Inv(c) && c.net.inbox != []
    ensures CanCloseOrEnqueue(c) && Inv(RunTask(c))
  {
    var d := c.(net := c.net.(inbox := c.net.inbox[1..]));
    match c.net.inbox[0]
    case Receive(data) =>
      ReceiveKeepsFlow(c);
      EnqueueBufferKeeps(d.(receiveBuffer := d.receiveBuffer + [data]), 0);
    case RemoteClose =>
      assert InboxChunks(c.net.inbox) == [] + InboxChunks(d.net.inbox) == InboxChunks(d.net.inbox);
      EnqueueBufferKeeps(d.(remoteClosed := true), 0);
  }

  lemma OneReported(t: Task, data: seq<Chunk>)
    requires data == Carried(t)
    ensures InboxChunks([t]) == data
  {
    assert [t][1..] == [];
    NothingAdded(data);
  }

  lemma ReportKeepsFlow(c: Conn, t: Task, data: seq<Chunk>)
    requires Flow(c) == c.net.received && data == Carried(t)
    ensures Flow(c.(net := Network(c.net.inbox + [t], c.net.received + data, t.RemoteClose?))) == c.net.received + data
  {
    InboxChunksAppend(c.net.inbox, [t]);
    OneReported(t, data);
    Regrouped(c.read + c.queue + c.receiveBuffer, InboxChunks(c.net.inbox), data);
  }

  lemma ReportKeeps(c: Conn, t: Task)
    requires Inv(c) && !c.net.finished
    ensures Inv(c.(net := Network(c.net.inbox + [t], c.net.received + Carried(t), t.RemoteClose?)))
  {
    var data := Carried(t);
    var d := c.(net := Network(c.net.inbox + [t], c.net.received + data, t.RemoteClose?));
    ReportKeepsFlow(c, t, data);
    assert InboxOrder(d);
  }

  lemma TakenKeepsFlow(c: Conn, d: Conn)
    requires c.queue != [] && d == c.(queue := c.queue[1..], read := c.read + [c.queue[0]], closed := d.closed)
    ensures Flow(d) == Flow(c) && Handed(d) == Handed(c)
  {
    SizeGrows(c.read, c.queue[0]);
    assert c.queue == [c.queue[0]] + d.queue;
    assert c.read + c.queue == d.read + d.queue;
  }

  lemma TakeKeeps(c: Conn)
    requires Core(c, 0) && c.queue != []
    ensures Core(Take(c), 0) && (Drained(c) ==> Drained(Take(c)))
  {
    TakenKeepsFlow(c, Take(c));
  }

  lemma ReadKeeps(c: Conn)
    requires Inv(c)
    ensures Inv(Read(c))
  {
    if c.queue != [] {
      TakeKeeps(c);
      if !(c.closeRequested && c.queue[1..] == []) {
        PullKeeps(Take(c), 0);
      }
    } else if !c.closed {
      WaitKeeps(c);
      PullKeeps(c.(pendingReads := c.pendingReads + 1), 0);
    }
  }

  lemma WaitKeeps(c: Conn)
    requires Core(c, 0) && c.queue == [] && !c.closed
    ensures var d := c.(pendingReads := c.pendingReads + 1);
      Core(d, 0) && (Drained(c) ==> Drained(d))
  {
  }

  lemma StepKeeps(c: Conn, e: Event)
    requires Inv(c) && Enabled(c, e)
    ensures Inv(Step(c, e))
  {
    match e
    case Deliver(data) => ReportKeeps(c, Receive(data));
    case Finish =>
      ReportKeeps(c, RemoteClose);
      assert c.net.received + [] == c.net.received;
    case Task => RunTaskKeeps(c);
    case StartDone => PullKeeps(c.(started := true), 0);
    case PullDone => PullSettledKeeps(c);
    case ReadChunk => ReadKeeps(c);
  }

  lemma PullSettledKeeps(c: Conn)
    requires Inv(c)
    ensures Inv(PullSettled(c))
  {
    if c.pullAgain {
      PullKeeps(c.(pulling := false, pullAgain := false), 0);
    }
  }

  // ---------------------------------------------------------------- runs

  /** Every event of the run may happen when it does. */
  ghost predicate Legal(c: Conn, events: seq<Event>)
    requires Inv(c)
    decreases |events|
  {
    events == [] || (Enabled(c, events[0]) && (StepKeeps(c, events[0]); Legal(Step(c, events[0]), events[1..])))
  }

  ghost function After(c: Conn, events: seq<Event>): (r: Conn)
    requires Inv(c) && Legal(c, events)
    ensures Inv(r)
    decreases |events|
  {
    if events == [] then c else StepKeeps(c, events[0]); After(Step(c, events[0]), events[1..])
  }

  function Delivered(events: seq<Event>): seq<Chunk> {
    if events == [] then []
    else Brought(events[0]) + Delivered(events[1..])
  }

  /** The only event that adds to what was received is a delivery, and none follows the remote close. */
  lemma StepReceives(c: Conn, e: Event)
    requires Inv(c) && Enabled(c, e)
    ensures Step(c, e).net.received == if e.Deliver? then c.net.received + [e.data] else c.net.received
    ensures Step(c, e).net.finished == (c.net.finished || e.Finish?)
  {
    if e.Task? {
      RunTaskKeeps(c);
    }
  }

  function Brought(e: Event): seq<Chunk> {
    if e.Deliver? then [e.data] else []
  }

  lemma StepBrings(c: Conn, e: Event)
    requires Inv(c) && Enabled(c, e)
    ensures Step(c, e).net.received == c.net.received + Brought(e)
    ensures c.net.finished ==> Step(c, e).net.finished && Brought(e) == []
  {
    StepReceives(c, e);
    NothingAdded(c.net.received);
  }

  lemma {:induction false} RunReceives(c: Conn, events: seq<Event>)
    requires Inv(c) && Legal(c, events)
    ensures After(c, events).net.received == c.net.received + Delivered(events)
    ensures c.net.finished ==> Delivered(events) == []
    decreases |events|
  {
    if events == [] {
      NothingAdded(c.net.received);
    } else {
      StepKeeps(c, events[0]);
      StepBrings(c, events[0]);
      RunReceives(Step(c, events[0]), events[1..]);
      Regrouped(c.net.received, Brought(events[0]), Delivered(events[1..]));
    }
  }

  lemma StartsEmpty(events: seq<Event>)
    ensures Fresh.net.received + Delivered(events) == Delivered(events)
  {
  }

  /**
   Conservation and order over whole runs, with `pull` re-entering from inside `enqueue`: the chunks that
   the reader has read, that the stream queues, that the connection holds back and that it has not
   handled yet are, in this order, exactly those that the network stack delivered. The window
   credit sent equals the bytes handed to the stream.
   */
  lemma Conservation(events: seq<Event>)
    requires Legal(Fresh, events)
    ensures var c := After(Fresh, events);
      && c.read + c.queue + c.receiveBuffer + InboxChunks(c.net.inbox) == Delivered(events)
      && Sum(c.credits) == |Flatten(c.read)| + |Flatten(c.queue)|
  {
    RunReceives(Fresh, events);
    StartsEmpty(events);
  }

  lemma AfterAppend(c: Conn, first: seq<Event>, rest: seq<Event>)
    requires Inv(c) && Legal(c, first + rest)
    ensures Legal(c, first) && Legal(After(c, first), rest)
    ensures After(c, first + rest) == After(After(c, first), rest)
    decreases |first|
  {
    if first == [] {
      assert first + rest == rest;
    } else {
      StepKeeps(c, first[0]);
      assert (first + rest)[1..] == first[1..] + rest;
      AfterAppend(Step(c, first[0]), first[1..], rest);
    }
  }

  lemma EndIsDrained(c: Conn)
    requires Inv(c) && c.ends > 0
    ensures c.net.finished && c.net.received == c.read
  {
    assert c.closed && c.queue == [] && c.readableClosed && c.remoteClosed;
    assert c.receiveBuffer == [] && c.net.inbox == [];
    assert Flow(c) == c.read + [] + [] + [] == c.read;
  }

  /**
   The writable side stays open as long as it is of use: in every run it has been errored exactly if the
   remote side has closed and nothing is held back. So it never is before the remote close is reported and
   every byte of the run has been handed over, and once all tasks are done only bytes held back keep it open.
   */
  lemma WritableOpenUntil(events: seq<Event>)
    requires Legal(Fresh, events)
    ensures var c := After(Fresh, events);
      && (c.writableErrored <==> c.remoteClosed && c.receiveBuffer == [])
      && (c.writableErrored ==> Finish in events && c.read + c.queue == Delivered(events))
      && (Finish in events && c.net.inbox == [] && c.receiveBuffer == [] ==> c.writableErrored)
  {
    var c := After(Fresh, events);
    Conservation(events);
    RunFinishes(Fresh, events);
    if c.writableErrored {
      NothingAdded(c.read + c.queue);
    }
  }

  lemma {:induction false} RunFinishes(c: Conn, events: seq<Event>)
    requires Inv(c) && Legal(c, events)
    ensures After(c, events).net.finished <==> c.net.finished || Finish in events
    decreases |events|
  {
    if events != [] {
      StepKeeps(c, events[0]);
      StepReceives(c, events[0]);
      RunFinishes(Step(c, events[0]), events[1..]);
      assert Finish in events <==> events[0] == Finish || Finish in events[1..];
    }
  }

  lemma DeliveredAppend(a: seq<Event>, b: seq<Event>)
    ensures Delivered(a + b) == Delivered(a) + Delivered(b)
  {
    if a == [] {
      assert a + b == b;
    } else {
      assert (a + b)[1..] == a[1..] + b;
      DeliveredAppend(a[1..], b);
      Regrouped(Brought(a[0]), Delivered(a[1..]), Delivered(b));
    }
  }

  /** A reader that has seen the end has read every byte, including any that could come later. */
  lemma EndMeansEverything(events: seq<Event>, later: seq<Event>)
    requires Legal(Fresh, events + later) && Legal(Fresh, events) && After(Fresh, events).ends > 0
    ensures After(Fresh, events).read == Delivered(events + later)
  {
    var c := After(Fresh, events);
    EndIsDrained(c);
    AfterAppend(Fresh, events, later);
    RunReceives(c, later);
    RunReceives(Fresh, events);
    StartsEmpty(events);
    DeliveredAppend(events, later);
    assert Delivered(events) + [] == Delivered(events);
  }

  lemma ClosedStays(c: Conn, e: Event)
    requires Inv(c) && Enabled(c, e) && c.closed
    ensures Step(c, e).closed && Step(c, e).read == c.read && Step(c, e).queue == []
    ensures Step(c, e).ends == c.ends + (if e.ReadChunk? then 1 else 0)
  {
  }

  function Reads(events: seq<Event>): nat {
    if events == [] then 0 else (if events[0].ReadChunk? then 1 else 0) + Reads(events[1..])
  }

  /**
   The readable closes at most once: through every run a closed stream stays closed and empty, hands out
   no more bytes, and answers each further read with the end.
   */
  lemma {:induction false} ClosedForGood(c: Conn, events: seq<Event>)
    requires Inv(c) && Legal(c, events) && c.closed
    ensures var d := After(c, events);
      d.closed && d.queue == [] && d.read == c.read && d.ends == c.ends + Reads(events)
    decreases |events|
  {
    if events != [] {
      ClosedStays(c, events[0]);
      StepKeeps(c, events[0]);
      ClosedForGood(Step(c, events[0]), events[1..]);
    }
  }

  /** The reads that got a chunk, those that got the end, and those that wait. */
  function Answers(c: Conn): nat {
    |c.read| + c.ends + c.pendingReads
  }

  lemma {:induction false} PullAnswers(c: Conn)
    requires Open(c)
    ensures Answers(CallPullIfNeeded(c)) == Answers(c)
    decreases |c.receiveBuffer|, 2
  {
    if ShouldCallPull(c) && !c.pulling {
      BufferAnswers(c.(pulling := true));
    }
  }

  lemma {:induction false} EnqueueAnswers(c: Conn)
    requires Open(c) && c.receiveBuffer != []
    ensures Answers(Enqueue(c.(receiveBuffer := c.receiveBuffer[1..]), c.receiveBuffer[0])) == Answers(c)
    decreases |c.receiveBuffer| - 1, 3
  {
    var d := c.(receiveBuffer := c.receiveBuffer[1..]);
    assert Open(Accept(d, c.receiveBuffer[0]));
    AcceptAnswers(d, c.receiveBuffer[0]);
    PullAnswers(Accept(d, c.receiveBuffer[0]));
  }

  lemma AcceptAnswers(c: Conn, chunk: Chunk)
    ensures Answers(Accept(c, chunk)) == Answers(c)
  {
    var d := Accept(c, chunk);
    AnswersOf(d, if c.pendingReads > 0 then |c.read| + 1 else |c.read|, d.ends, d.pendingReads);
  }

  lemma AnswersOf(c: Conn, read: nat, ends: nat, pending: nat)
    requires |c.read| == read && c.ends == ends && c.pendingReads == pending
    ensures Answers(c) == read + ends + pending
  {
  }

  lemma {:induction false} LoopAnswers(c: Conn, n: nat)
    requires Open(c)
    ensures Answers(EnqueueLoop(c, n).0) == Answers(c)
    decreases |c.receiveBuffer|, 0
  {
    if c.receiveBuffer != [] && (n > 0 ==> n + |c.receiveBuffer[0]| <= DesiredSize(c)) {
      var d, m := Enqueue(c.(receiveBuffer := c.receiveBuffer[1..]), c.receiveBuffer[0]), n + |c.receiveBuffer[0]|;
      assert Answers(d) == Answers(c) by {
        EnqueueAnswers(c);
      }
      LoopAnswers(d, m);
      LoopTakesChunk(c, n);
    }
  }

  lemma {:induction false} BufferAnswers(c: Conn)
    requires Open(c)
    ensures Answers(EnqueueBuffer(c)) == Answers(c)
    decreases |c.receiveBuffer|, 1
  {
    if !(c.remoteClosed && c.receiveBuffer == []) && DesiredSize(c) > 0 {
      LoopAnswers(c, 0);
    }
  }

  lemma StepAnswers(c: Conn, e: Event)
    requires Inv(c) && Enabled(c, e)
    ensures Answers(Step(c, e)) == Answers(c) + if e.ReadChunk? then 1 else 0
  {
    match e
    case Deliver(_) =>
    case Finish =>
    case Task => TaskAnswers(c);
    case StartDone => PullAnswers(c.(started := true));
    case PullDone =>
      if c.pullAgain {
        PullAnswers(c.(pulling := false, pullAgain := false));
      }
    case ReadChunk => ReadAnswers(c);
  }

  lemma TaskAnswers(c: Conn)
    requires Inv(c) && c.net.inbox != []
    ensures CanCloseOrEnqueue(c) && Answers(RunTask(c)) == Answers(c)
  {
    RunTaskKeeps(c);
    var d := c.(net := c.net.(inbox := c.net.inbox[1..]));
    match c.net.inbox[0]
    case Receive(data) => BufferAnswers(d.(receiveBuffer := d.receiveBuffer + [data]));
    case RemoteClose => BufferAnswers(d.(remoteClosed := true));
  }

  lemma ReadAnswers(c: Conn)
    requires Inv(c)
    ensures Answers(Read(c)) == Answers(c) + 1
  {
    if c.queue != [] {
      TakeKeeps(c);
      PullAnswers(Take(c));
    } else if !c.closed {
      PullAnswers(c.(pendingReads := c.pendingReads + 1));
    }
  }

  lemma {:induction false} RunAnswers(c: Conn, events: seq<Event>)
    requires Inv(c) && Legal(c, events)
    ensures Answers(After(c, events)) == Answers(c) + Reads(events)
    decreases |events|
  {
    if events != [] {
      StepKeeps(c, events[0]);
      StepAnswers(c, events[0]);
      RunAnswers(Step(c, events[0]), events[1..]);
    }
  }

  /**
   No read is lost and none is answered twice: in every run the reads that got a chunk, those that got the
   end and those that wait add up to the reads that were made; and a read waits only while nothing is queued.
   */
  lemma EveryReadCounts(events: seq<Event>)
    requires Legal(Fresh, events)
    ensures var c := After(Fresh, events);
      && |c.read| + c.ends + c.pendingReads == Reads(events)
      && (c.pendingReads > 0 ==> c.queue == [] && c.ends == 0)
  {
    RunAnswers(Fresh, events);
  }

  /** The loop of `EnqueueBuffer` ends only where the next chunk would not fit any more. */
  lemma {:induction false} LoopEnds(c: Conn, n: nat)
    requires Open(c)
    ensures var (d, m) := EnqueueLoop(c, n);
      d.receiveBuffer == [] || (m > 0 && m + |d.receiveBuffer[0]| > DesiredSize(d))
    decreases |c.receiveBuffer|
  {
    if c.receiveBuffer != [] && (n > 0 ==> n + |c.receiveBuffer[0]| <= DesiredSize(c)) {
      var chunk := c.receiveBuffer[0];
      LoopTakesChunk(c, n);
      LoopEnds(Enqueue(c.(receiveBuffer := c.receiveBuffer[1..]), chunk), n + |chunk|);
    }
  }

  /**
   A call hands over as much as it may: if the stream wants bytes and some are held back afterwards, then the
   next chunk together with those for which this call sent its credit exceeds what the stream still wants.
   */
  lemma HandsOverWhatFits(c: Conn)
    requires Open(c) && c.receiveBuffer != [] && DesiredSize(c) > 0
    ensures var d := EnqueueBuffer(c);
      d.receiveBuffer == [] ||
        (d.credits != [] && d.credits[|d.credits| - 1] + |d.receiveBuffer[0]| > DesiredSize(d))
  {
    LoopEnds(c, 0);
  }

  /** Nothing is left to do until the network stack or the reader acts. */
  predicate Quiet(c: Conn) {
    c.started && !c.pulling && c.net.inbox == []
  }

  /**
   No lost wake-up: when everything has settled, a reader is only kept waiting after it has read
   every byte delivered and before the remote side closes. Bytes are held back only while the
   stream has as many as it wants, and the end is never held back.
   */
  lemma NoStall(events: seq<Event>)
    requires Legal(Fresh, events) && Quiet(After(Fresh, events))
    ensures var c := After(Fresh, events);
      && (c.pendingReads > 0 ==> c.read == Delivered(events) && !c.net.finished)
      && (c.receiveBuffer != [] ==> |Flatten(c.queue)| >= 1448)
      && (c.net.finished && c.queue == [] ==> c.closed && c.read == Delivered(events))
  {
    var c := After(Fresh, events);
    Conservation(events);
    if c.queue == [] && c.receiveBuffer == [] {
      assert c.read + [] + [] + [] == c.read;
    }
  }

  // ---------------------------------------------------------------- window credit and buffer bound

  /** What the network stack promises besides: no empty chunk, none longer than `longest`, and no
      more than a window beyond the credit it was sent. */
  predicate Polite(c: Conn, e: Event, longest: nat) {
    e.Deliver? ==> 0 < |e.data| <= longest && |Flatten(c.net.received)| + |e.data| <= Sum(c.credits) + TCP_WND
  }

  ghost predicate PoliteRun(c: Conn, events: seq<Event>, longest: nat)
    requires Inv(c) && Legal(c, events)
    decreases |events|
  {
    events == [] || (Polite(c, events[0], longest) &&
      (StepKeeps(c, events[0]); PoliteRun(Step(c, events[0]), events[1..], longest)))
  }

  predicate Sized(chunk: Chunk, longest: nat) {
    0 < |chunk| <= longest
  }

  ghost predicate Bounded(c: Conn, longest: nat) {
    && |Flatten(c.queue)| < READABLE_HIGH_WATER_MARK + longest
    && (forall i :: 0 <= i < |c.receiveBuffer| ==> Sized(c.receiveBuffer[i], longest))
    && (forall i :: 0 <= i < |c.net.inbox| && c.net.inbox[i].Receive? ==> Sized(c.net.inbox[i].data, longest))
    && |Flatten(c.net.received)| <= Sum(c.credits) + TCP_WND
    && (forall i :: 0 <= i < |c.credits| ==> 0 < c.credits[i] <= TCP_WND)
  }

  lemma {:induction false} PullBounded(c: Conn, owed: nat, longest: nat)
    requires Core(c, owed) && Bounded(c, longest)
    ensures Bounded(CallPullIfNeeded(c), longest)
    decreases |c.receiveBuffer|, 2
  {
    if ShouldCallPull(c) && !c.pulling {
      BufferBounded(c.(pulling := true), owed, longest);
    }
  }

  lemma AcceptBounded(c: Conn, chunk: Chunk, longest: nat)
    requires Bounded(c, longest) && |Flatten(c.queue)| + |chunk| < READABLE_HIGH_WATER_MARK + longest
    ensures Bounded(Accept(c, chunk), longest)
  {
    if c.pendingReads == 0 {
      SizeGrows(c.queue, chunk);
    }
  }

  lemma {:induction false} EnqueueBounded(c: Conn, owed: nat, longest: nat)
    requires Core(c, owed) && Bounded(c, longest) && c.receiveBuffer != []
    requires |Flatten(c.queue)| + |c.receiveBuffer[0]| < READABLE_HIGH_WATER_MARK + longest
    ensures Bounded(Enqueue(c.(receiveBuffer := c.receiveBuffer[1..]), c.receiveBuffer[0]), longest)
    decreases |c.receiveBuffer| - 1, 3
  {
    var d := Accept(c.(receiveBuffer := c.receiveBuffer[1..]), c.receiveBuffer[0]);
    AcceptKeeps(c, owed);
    AcceptBounded(c.(receiveBuffer := c.receiveBuffer[1..]), c.receiveBuffer[0], longest);
    PullBounded(d, owed + |c.receiveBuffer[0]|, longest);
  }

  lemma {:induction false} LoopBounded(c: Conn, n: nat, owed: nat, longest: nat)
    requires Core(c, owed + n) && (n > 0 ==> Pulled(c)) && Bounded(c, longest) && (n == 0 ==> DesiredSize(c) > 0)
    ensures Bounded(EnqueueLoop(c, n).0, longest)
    decreases |c.receiveBuffer|, 0
  {
    if c.receiveBuffer != [] && !(n > 0 && n + |c.receiveBuffer[0]| > DesiredSize(c)) {
      var chunk := c.receiveBuffer[0];
      assert Sized(chunk, longest);
      EnqueueBounded(c, owed + n, longest);
      EnqueueKeeps(c, owed + n);
      LoopBounded(Enqueue(c.(receiveBuffer := c.receiveBuffer[1..]), chunk), n + |chunk|, owed, longest);
    }
  }

  lemma HandedAtMostReceived(c: Conn, owed: nat)
    requires Core(c, owed)
    ensures Sum(c.credits) + owed <= |Flatten(c.net.received)|
  {
    FlattenAppend(c.read + c.queue + c.receiveBuffer, InboxChunks(c.net.inbox));
    FlattenAppend(c.read + c.queue, c.receiveBuffer);
    FlattenAppend(c.read, c.queue);
  }

  lemma CreditBounded(c: Conn, n: nat, owed: nat, longest: nat)
    requires Core(c, owed + n) && Bounded(c, longest) && n > 0
    ensures Bounded(c.(credits := c.credits + [n]), longest)
  {
    HandedAtMostReceived(c, owed + n);
    SumAppend(c.credits, n);
  }

  lemma {:induction false} BufferBounded(c: Conn, owed: nat, longest: nat)
    requires Core(c, owed) && Bounded(c, longest)
    ensures Bounded(EnqueueBuffer(c), longest)
    decreases |c.receiveBuffer|, 1
  {
    if !(c.remoteClosed && c.receiveBuffer == []) && DesiredSize(c) > 0 {
      LoopBounded(c, 0, owed, longest);
      EnqueueLoopKeeps(c, 0, owed);
      var (d, n) := EnqueueLoop(c, 0);
      if n > 0 {
        CreditBounded(d, n, owed, longest);
      }
      FinishBounded(Credited(d, n), longest);
    }
  }

  lemma FinishBounded(c: Conn, longest: nat)
    requires Bounded(c, longest)
    ensures Bounded(FinishIfDrained(c), longest)
  {
  }

  lemma ReceiveBounded(c: Conn, d: Conn, longest: nat)
    requires Inv(c) && c.net.inbox != [] && c.net.inbox[0].Receive? && Bounded(c, longest)
    requires d == c.(net := c.net.(inbox := c.net.inbox[1..]),
      receiveBuffer := c.receiveBuffer + [c.net.inbox[0].data])
    ensures CanCloseOrEnqueue(c) && Core(d, 0) && Bounded(d, longest)
  {
    RunTaskKeeps(c);
    ReceiveKeepsFlow(c);
  }

  lemma RemoteCloseBounded(c: Conn, d: Conn, longest: nat)
    requires Inv(c) && c.net.inbox != [] && c.net.inbox[0].RemoteClose? && Bounded(c, longest)
    requires d == c.(net := c.net.(inbox := c.net.inbox[1..]), remoteClosed := true)
    ensures CanCloseOrEnqueue(c) && Core(d, 0) && Bounded(d, longest)
  {
    RunTaskKeeps(c);
    assert InboxChunks(c.net.inbox) == [] + InboxChunks(d.net.inbox) == InboxChunks(d.net.inbox);
  }

  lemma TaskBounded(c: Conn, longest: nat)
    requires Inv(c) && c.net.inbox != [] && Bounded(c, longest)
    ensures CanCloseOrEnqueue(c) && Bounded(RunTask(c), longest)
  {
    var rest := c.net.(inbox := c.net.inbox[1..]);
    match c.net.inbox[0] {
      case Receive(data) =>
        var d := c.(net := rest, receiveBuffer := c.receiveBuffer + [data]);
        ReceiveBounded(c, d, longest);
        BufferBounded(d, 0, longest);
      case RemoteClose =>
        var d := c.(net := rest, remoteClosed := true);
        RemoteCloseBounded(c, d, longest);
        BufferBounded(d, 0, longest);
    }
  }

  lemma ReadBounded(c: Conn, longest: nat)
    requires Inv(c) && Bounded(c, longest)
    ensures Bounded(Read(c), longest)
  {
    if c.queue != [] {
      TakeKeeps(c);
      if !(c.closeRequested && c.queue[1..] == []) {
        PullBounded(Take(c), 0, longest);
      }
    } else if !c.closed {
      WaitKeeps(c);
      PullBounded(c.(pendingReads := c.pendingReads + 1), 0, longest);
    }
  }

  lemma StepBounded(c: Conn, e: Event, longest: nat)
    requires Inv(c) && Enabled(c, e) && Bounded(c, longest) && Polite(c, e, longest)
    ensures Bounded(Step(c, e), longest)
  {
    match e
    case Task => TaskBounded(c, longest);
    case StartDone => PullBounded(c.(started := true), 0, longest);
    case PullDone => PullSettledBounded(c, longest);
    case ReadChunk => ReadBounded(c, longest);
    case _ => ReportBounded(c, e, longest);
  }

  lemma PullSettledBounded(c: Conn, longest: nat)
    requires Inv(c) && Bounded(c, longest)
    ensures Bounded(PullSettled(c), longest)
  {
    if c.pullAgain {
      PullBounded(c.(pulling := false, pullAgain := false), 0, longest);
    }
  }

  lemma ReportBounded(c: Conn, e: Event, longest: nat)
    requires Inv(c) && Enabled(c, e) && Bounded(c, longest) && Polite(c, e, longest) && (e.Deliver? || e.Finish?)
    ensures Bounded(Step(c, e), longest)
  {
    if e.Deliver? {
      SizeGrows(c.net.received, e.data);
    }
  }

  lemma {:induction false} RunBounded(c: Conn, events: seq<Event>, longest: nat)
    requires Inv(c) && Legal(c, events) && PoliteRun(c, events, longest) && Bounded(c, longest)
    ensures Bounded(After(c, events), longest)
    decreases |events|
  {
    if events != [] {
      StepKeeps(c, events[0]);
      StepBounded(c, events[0], longest);
      RunBounded(Step(c, events[0]), events[1..], longest);
    }
  }

  /**
   The buffer bound: with a well-behaved network stack, the stream never queues as much as its high
   water mark and one longest chunk together, and every single window credit fits an unsigned 16-bit integer.
   */
  lemma BufferBound(events: seq<Event>, longest: nat)
    requires Legal(Fresh, events) && PoliteRun(Fresh, events, longest)
    ensures var c := After(Fresh, events);
      && |Flatten(c.queue)| < 1448 + longest
      && forall i :: 0 <= i < |c.credits| ==> 0 < c.credits[i] < 0x1_0000
  {
    RunBounded(Fresh, events, longest);
  }

  // ---------------------------------------------------------------- the connection object

  class VirtualTcpConnection {
    var receiveBuffer: seq<Chunk>
    var remoteClosed: bool
    var readableClosed: bool
    var writableErrored: bool

    // the controller of the readable stream, and its reader
    var queue: seq<Chunk>
    var queueTotalSize: nat
    var started: bool
    var closeRequested: bool
    var closed: bool
    var pulling: bool
    var pullAgain: bool
    var pendingReads: nat
    var read: seq<Chunk>
    var ends: nat

    var credits: seq<nat>
    var net: Network

    ghost function Abstract(): Conn
      reads this
    {
      Conn(receiveBuffer, remoteClosed, readableClosed, writableErrored, queue, started, closeRequested, closed,
           pulling, pullAgain, pendingReads, read, ends, credits, net)
    }

    ghost predicate Sound()
      reads this
    {
      Open(Abstract()) && queueTotalSize == |Flatten(queue)|
    }

    ghost predicate Valid()
      reads this
    {
      Inv(Abstract()) && queueTotalSize == |Flatten(queue)|
    }

    constructor ()
      ensures Abstract() == Fresh && Valid()
    {
      receiveBuffer, remoteClosed, readableClosed, writableErrored := [], false, false, false;
      queue, queueTotalSize, started, closeRequested, closed := [], 0, false, false, false;
      pulling, pullAgain, pendingReads, read, ends, credits := false, false, 0, [], 0, [];
      net := Network([], [], false);
    }

    function DesiredSizeNow(): int
      reads this
    {
      if closed then 0 else READABLE_HIGH_WATER_MARK - queueTotalSize
    }

    /** May call `EnqueueBuffer`, which is the `pull` of the stream. */
    method CallPullIfNeededNow()
      requires Sound()
      modifies this
      ensures Abstract() == CallPullIfNeeded(old(Abstract())) && Sound()
      decreases |receiveBuffer|, 2
    {
      if closeRequested || closed || !started || (pendingReads == 0 && DesiredSizeNow() <= 0) {
        return;
      }
      if pulling {
        pullAgain := true;
        return;
      }
      pulling := true;
      EnqueueBufferNow();
    }

    method EnqueueNow(chunk: Chunk)
      requires Sound() && CanCloseOrEnqueue(Abstract())
      modifies this
      ensures Abstract() == Enqueue(old(Abstract()), chunk) && Sound()
      decreases |receiveBuffer|, 3
    {
      if pendingReads > 0 {
        pendingReads := pendingReads - 1;
        read := read + [chunk];
      } else {
        FlattenAppend(queue, [chunk]);
        FlattenOne(chunk);
        queue := queue + [chunk];
        queueTotalSize := queueTotalSize + |chunk|;
      }
      CallPullIfNeededNow();
    }

    method CloseReadableNow()
      modifies this
      ensures Abstract() == CloseReadable(old(Abstract())) && queueTotalSize == old(queueTotalSize)
    {
      if readableClosed {
        return;
      }
      readableClosed := true;
      if closeRequested || closed {
        return;
      }
      closeRequested := true;
      if queue == [] {
        closed := true;
        ends := ends + pendingReads;
        pendingReads := 0;
      }
    }

    /** Hands chunks to the stream; each one may re-enter `EnqueueBufferNow`. */
    method EnqueueChunksNow() returns (bytesEnqueued: nat)
      requires Sound()
      modifies this
      ensures (Abstract(), bytesEnqueued) == EnqueueLoop(old(Abstract()), 0) && Sound()
      decreases |receiveBuffer|, 0
    {
      bytesEnqueued := 0;
      while receiveBuffer != []
        invariant Sound() && |receiveBuffer| <= |old(receiveBuffer)|
        invariant EnqueueLoop(Abstract(), bytesEnqueued) == EnqueueLoop(old(Abstract()), 0)
        decreases |receiveBuffer|
      {
        var chunkLength := |receiveBuffer[0]|;
        if bytesEnqueued > 0 && bytesEnqueued + chunkLength > DesiredSizeNow() {
          break;
        }
        LoopTakesChunk(Abstract(), bytesEnqueued);
        var chunk := ShiftNow();
        EnqueueNow(chunk);
        bytesEnqueued := bytesEnqueued + |chunk|;
      }
    }

    /** `receiveBuffer.shift()` */
    method ShiftNow() returns (chunk: Chunk)
      requires Sound() && receiveBuffer != []
      modifies this`receiveBuffer
      ensures chunk == old(receiveBuffer[0]) && CanCloseOrEnqueue(Abstract()) && Sound()
      ensures Abstract() == old(Abstract()).(receiveBuffer := old(receiveBuffer[1..]))
    {
      chunk := receiveBuffer[0];
      receiveBuffer := receiveBuffer[1..];
    }

    /** Closes the readable once the remote side has closed and every chunk was handed over. */
    method FinishIfDrainedNow()
      requires Sound()
      modifies this
      ensures Abstract() == FinishIfDrained(old(Abstract())) && Sound()
    {
      if remoteClosed && receiveBuffer == [] {
        CloseReadableNow();
        writableErrored := true;
      }
    }

    method EnqueueBufferNow()
      requires Sound()
      modifies this
      ensures Abstract() == EnqueueBuffer(old(Abstract())) && Sound()
      decreases |receiveBuffer|, 1
    {
      if remoteClosed && receiveBuffer == [] {
        FinishIfDrainedNow();
        return;
      }
      if !(DesiredSizeNow() > 0) {
        return;
      }
      var bytesEnqueued := EnqueueChunksNow();
      ghost var (c, n) := EnqueueLoop(old(Abstract()), 0);
      if bytesEnqueued > 0 {
        credits := credits + [bytesEnqueued];
      }
      assert Abstract() == if n > 0 then c.(credits := c.credits + [n]) else c;
      FinishIfDrainedNow();
    }

    method ReceiveNow(data: Chunk)
      requires Sound() && CanCloseOrEnqueue(Abstract())
      modifies this
      ensures Abstract() == EnqueueBuffer(old(Abstract()).(receiveBuffer := old(receiveBuffer) + [data])) && Sound()
    {
      receiveBuffer := receiveBuffer + [data];
      EnqueueBufferNow();
    }

    method RemoteCloseNow()
      requires Sound()
      modifies this
      ensures Abstract() == EnqueueBuffer(old(Abstract()).(remoteClosed := true)) && Sound()
    {
      remoteClosed := true;
      EnqueueBufferNow();
    }

    /** The reader takes the first chunk of the queue. */
    method TakeChunk()
      requires Sound() && queue != []
      modifies this`queue, this`queueTotalSize, this`read, this`closed
      ensures Abstract() == Take(old(Abstract())) && Sound()
    {
      var chunk := queue[0];
      queue := queue[1..];
      queueTotalSize := queueTotalSize - |chunk|;
      read := read + [chunk];
      if closeRequested && queue == [] {
        closed := true;
      }
    }

    method ReadNow()
      requires Sound()
      modifies this
      ensures Abstract() == Read(old(Abstract())) && Sound()
    {
      if queue != [] {
        TakeChunk();
        if !(closeRequested && queue == []) {
          CallPullIfNeededNow();
        }
      } else if closed {
        ends := ends + 1;
      } else {
        WaitForChunk();
      }
    }

    method WaitForChunk()
      requires Sound()
      modifies this
      ensures Abstract() == CallPullIfNeeded(old(Abstract()).(pendingReads := old(pendingReads) + 1)) && Sound()
    {
      pendingReads := pendingReads + 1;
      CallPullIfNeededNow();
    }

    method RunTaskNow()
      requires Sound() && net.inbox != [] && CanCloseOrEnqueue(Abstract())
      modifies this
      ensures Abstract() == RunTask(old(Abstract())) && Sound()
    {
      var task := net.inbox[0];
      net := net.(inbox := net.inbox[1..]);
      match task {
        case Receive(data) => ReceiveNow(data);
        case RemoteClose => RemoteCloseNow();
      }
    }

    method PullSettledNow()
      requires Sound()
      modifies this
      ensures Abstract() == PullSettled(old(Abstract())) && Sound()
    {
      pulling := false;
      if pullAgain {
        pullAgain := false;
        CallPullIfNeededNow();
      }
    }

    /** One event; between events the connection is `Valid`. */
    method Handle(e: Event)
      requires Valid() && Enabled(Abstract(), e)
      modifies this
      ensures Abstract() == Step(old(Abstract()), e) && Valid()
    {
      StepKeeps(Abstract(), e);
      match e {
        case Deliver(data) => net := net.(inbox := net.inbox + [Receive(data)], received := net.received + [data]);
        case Finish => net := net.(inbox := net.inbox + [RemoteClose], finished := true);
        case Task =>
          RunTaskKeeps(Abstract());
          RunTaskNow();
        case StartDone =>
          started := true;
          CallPullIfNeededNow();
        case PullDone => PullSettledNow();
        case ReadChunk => ReadNow();
      }
    }
  }
}
