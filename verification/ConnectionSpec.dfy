/** An established TCP connection as a state machine (NetServer/TcpConnection.cpp): messages from the
    loop thread and from other threads, partial writes, write errors, half-close in the middle of a
    write, close. The socket calls return whatever the system allows. */
module ConnectionSpec {
  import opened Octets

  datatype ConnectionState = Connecting | Connected | Disconnecting | Disconnected

  type Thread = nat
  const LOOP_THREAD: Thread := 0

  datatype Message = Message(thread: Thread, text: Bytes)

  /** A message whose sendInLoop has run, and whether it was taken or dropped. */
  datatype Ran = Ran(message: Message, taken: bool)

  /** A task of the loop that concerns this connection. */
  datatype Job = Send(message: Message) | ShutdownInLoop | ForceCloseInLoop

  /** What write() returns. Again is every error but EPIPE and ECONNRESET. */
  datatype Write = Wrote(n: nat) | Again | Broken

  datatype Connection = Connection(
    state: ConnectionState,
    writing: bool,            // EPOLLOUT is in the channel's event mask
    out: Bytes,               // outputBuffer_
    fin: bool,                // SHUT_WR was issued
    queue: seq<Job>,          // the loop's pending tasks
    sent: Bytes,              // history: bytes the socket took
    issued: seq<Message>,     // history: messages passed to send(), or about to be queued by it
    ran: seq<Ran>)            // history: messages whose sendInLoop has run

  function Established(): Connection { Connection(Connected, false, [], false, [], [], [], []) }

  // ----- the methods -----

  /** A socket takes no more bytes than it is offered, and none after SHUT_WR. */
  predicate Possible(c: Connection, length: nat, w: Write) {
    (w.Wrote? ==> w.n <= length) && (c.fin ==> w.Broken?)
  }

  /** sendInLoop. */
  function SendNow(c: Connection, m: Message, w: Write): Connection
    requires Possible(c, |m.text|, w)
  {
    if c.state == Disconnected || (!c.writing && w.Broken?) then c.(ran := c.ran + [Ran(m, false)])
    else
      var n := if !c.writing && w.Wrote? then w.n else 0;
      c.(ran := c.ran + [Ran(m, true)],
         sent := c.sent + m.text[..n],
         out := c.out + m.text[n..],
         writing := c.writing || n < |m.text|)
  }

  /** shutdownInLoop. */
  function ShutdownNow(c: Connection): Connection {
    if c.state != Disconnected && !c.writing then c.(fin := true) else c
  }

  /** handleClose: removing the channel clears its event mask. */
  function Close(c: Connection): Connection { c.(state := Disconnected, writing := false) }

  function RunJob(c: Connection, job: Job, w: Write): Connection
    requires job.Send? ==> Possible(c, |job.message.text|, w)
  {
    match job
    case Send(m) => SendNow(c, m, w)
    case ShutdownInLoop => ShutdownNow(c)
    case ForceCloseInLoop => if c.state != Disconnected then Close(c) else c
  }

  /** handleWrite. */
  function WriteMore(c: Connection, w: Write): Connection
    requires Possible(c, |c.out|, w)
  {
    if c.state == Disconnected || !w.Wrote? then c
    else
      var d := c.(sent := c.sent + c.out[..w.n], out := c.out[w.n..]);
      if d.out != [] then d
      else
        var e := d.(writing := false);
        if e.state == Disconnecting then ShutdownNow(e) else e
  }

  /** shutdown, whose test and exchange of the state are taken as one step. */
  function AskShutdown(c: Connection, thread: Thread): Connection {
    var d := c.(state := Disconnecting);
    if c.state != Connected then d
    else if thread == LOOP_THREAD then ShutdownNow(d)
    else d.(queue := d.queue + [ShutdownInLoop])
  }

  function AskForceClose(c: Connection): Connection {
    if c.state == Disconnected then c
    else c.(state := Disconnecting, queue := c.queue + [ForceCloseInLoop])
  }

  // ----- steps and runs -----

  datatype Action =
    | OwnSend(text: Bytes, written: Write)       // send() on the loop thread
    | QueueSend(message: Message)                // send() on another thread, at its queueInLoop
    | RunNext(result: Write)                     // the loop runs the next task
    | Writable(flushed: Write)                   // EPOLLOUT
    | Shutdown(asker: Thread)
    | ForceClose
    | PeerCloses                                 // end of file or hang-up

  /** A thread that saw the connection connected may queue its message any time later. */
  predicate Enabled(c: Connection, a: Action) {
    match a
    case OwnSend(t, w) => c.state == Connected && Possible(c, |t|, w)
    case QueueSend(m) => m.thread != LOOP_THREAD
    case RunNext(w) => c.queue != [] && (c.queue[0].Send? ==> Possible(c, |c.queue[0].message.text|, w))
    case Writable(w) => c.writing && Possible(c, |c.out|, w)
    case Shutdown(_) => c.state != Disconnected
    case ForceClose => true
    case PeerCloses => c.state != Disconnected
  }

  function Effect(c: Connection, a: Action): Connection
    requires Enabled(c, a)
  {
    match a
    case OwnSend(t, w) =>
      var m := Message(LOOP_THREAD, t);
      SendNow(c.(issued := c.issued + [m]), m, w)
    case QueueSend(m) => c.(issued := c.issued + [m], queue := c.queue + [Send(m)])
    case RunNext(w) => RunJob(c.(queue := c.queue[1..]), c.queue[0], w)
    case Writable(w) => WriteMore(c, w)
    case Shutdown(p) => AskShutdown(c, p)
    case ForceClose => AskForceClose(c)
    case PeerCloses => Close(c)
  }

  datatype Outcome = Stuck | Reached(connection: Connection)

  function After(c: Connection, run: seq<Action>): Outcome
    decreases |run|
  {
    if run == [] then Reached(c)
    else if Enabled(c, run[0]) then After(Effect(c, run[0]), run[1..])
    else Stuck
  }

  lemma {:induction false} AfterAppend(c: Connection, a: seq<Action>, b: seq<Action>)
    ensures After(c, a + b) == if After(c, a).Reached? then After(After(c, a).connection, b) else Stuck
    decreases |a|
  {
    hide Effect, Enabled;
    if a == [] {
      assert a + b == b;
    } else {
      assert (a + b)[1..] == a[1..] + b;
      if Enabled(c, a[0]) { AfterAppend(Effect(c, a[0]), a[1..], b); }
    }
  }

  lemma OneStep(c: Connection, a: Action)
    requires Enabled(c, a)
    ensures After(c, [a]) == Reached(Effect(c, a))
  {
    assert [a][1..] == [];
  }

  // ----- histories -----

  /** The bytes of the messages that were taken, in order. */
  function TakenBytes(ran: seq<Ran>): Bytes {
    if ran == [] then []
    else
      var last := ran[|ran| - 1];
      TakenBytes(ran[..|ran| - 1]) + if last.taken then last.message.text else []
  }

  function Messages(ran: seq<Ran>): seq<Message> {
    if ran == [] then [] else Messages(ran[..|ran| - 1]) + [ran[|ran| - 1].message]
  }

  /** The messages still waiting in the loop's queue. */
  function Waiting(queue: seq<Job>): seq<Message> {
    if queue == [] then []
    else (if queue[0].Send? then [queue[0].message] else []) + Waiting(queue[1..])
  }

  /** One thread's messages. */
  function Of(p: Thread, ms: seq<Message>): seq<Bytes> {
    if ms == [] then [] else (if ms[0].thread == p then [ms[0].text] else []) + Of(p, ms[1..])
  }

  lemma {:induction false} OfAppend(p: Thread, a: seq<Message>, b: seq<Message>)
    ensures Of(p, a + b) == Of(p, a) + Of(p, b)
  {
    if a == [] {
      assert [] + b == b;
    } else {
      assert (a + b)[1..] == a[1..] + b;
      OfAppend(p, a[1..], b);
      Regroup(if a[0].thread == p then [a[0].text] else [], Of(p, a[1..]), Of(p, b));
    }
  }

  lemma OfOne(p: Thread, m: Message)
    ensures Of(p, [m]) == if m.thread == p then [m.text] else []
  {
    assert [m][1..] == [];
  }

  lemma {:induction false} WaitingAppend(a: seq<Job>, b: seq<Job>)
    ensures Waiting(a + b) == Waiting(a) + Waiting(b)
  {
    if a == [] {
      assert [] + b == b;
    } else {
      assert (a + b)[1..] == a[1..] + b;
      WaitingAppend(a[1..], b);
      Regroup(if a[0].Send? then [a[0].message] else [], Waiting(a[1..]), Waiting(b));
    }
  }

  lemma Regroup<T>(x: seq<T>, y: seq<T>, z: seq<T>)
    ensures x + y + z == x + (y + z)
  {
  }

  lemma WaitingOne(job: Job)
    ensures Waiting([job]) == if job.Send? then [job.message] else []
  {
    assert [job][1..] == [];
  }

  lemma RanOne(ran: seq<Ran>, r: Ran)
    ensures TakenBytes(ran + [r]) == TakenBytes(ran) + if r.taken then r.message.text else []
    ensures Messages(ran + [r]) == Messages(ran) + [r.message]
  {
    assert (ran + [r])[..|ran|] == ran;
  }

  // ----- what every step keeps -----

  /** While the channel is in the poller, EPOLLOUT is asked for exactly when there is output. */
  predicate WritesWhatItHas(c: Connection) {
    c.state != Disconnected ==> (c.writing <==> c.out != [])
  }

  /** Bytes sent, then bytes buffered, are whole messages: the ones taken, in order. */
  predicate Conserved(c: Connection) { c.sent + c.out == TakenBytes(c.ran) }

  /** After SHUT_WR nothing is buffered or asked for. */
  predicate FinIsLast(c: Connection) { c.fin ==> c.out == [] && !c.writing && c.state != Connected }

  /** A requested half-close is never forgotten. */
  predicate FinIsDue(c: Connection) {
    c.state == Disconnecting ==> c.fin || c.writing || ShutdownInLoop in c.queue || ForceCloseInLoop in c.queue
  }

  /** Only a connection that was asked to close has closing tasks. */
  predicate ClosingTasksAreDue(c: Connection) {
    ShutdownInLoop in c.queue || ForceCloseInLoop in c.queue ==> c.state != Connected
  }

  predicate Inv(c: Connection) {
    && ClosingTasksAreDue(c) && WritesWhatItHas(c) && Conserved(c) && FinIsLast(c) && FinIsDue(c)
    && c.state != Connecting && (c.state == Disconnected ==> !c.writing)
  }

  /** Each thread's messages run in the order in which the thread sent them, none lost or repeated. */
  ghost predicate InOrder(c: Connection) {
    forall p :: Of(p, c.issued) == Of(p, Messages(c.ran)) + Of(p, Waiting(c.queue))
  }

  lemma SendConserves(c: Connection, m: Message, w: Write)
    requires Inv(c) && Possible(c, |m.text|, w)
    ensures Conserved(SendNow(c, m, w))
  {
    hide TakenBytes;
    var d := SendNow(c, m, w);
    var taken := d.ran[|c.ran|].taken;
    RanOne(c.ran, Ran(m, taken));
    if taken {
      Splits(c.sent, c.out, m.text, if !c.writing && w.Wrote? then w.n else 0);
    } else {
      assert TakenBytes(c.ran) + [] == TakenBytes(c.ran);
    }
  }

  /** What write() says it took is sent, no more and no less, and only while nothing is buffered; only
      EPIPE, ECONNRESET and a closed connection drop a message. */
  lemma SendReports(c: Connection, m: Message, w: Write)
    requires Inv(c) && Possible(c, |m.text|, w)
    ensures var d, direct := SendNow(c, m, w), c.state != Disconnected && !c.writing;
      && d.ran == c.ran + [Ran(m, c.state != Disconnected && !(direct && w.Broken?))]
      && |d.sent| == |c.sent| + (if direct && w.Wrote? then w.n else 0) && c.sent <= d.sent
      && d.state == c.state && d.fin == c.fin && d.queue == c.queue
  {
    hide TakenBytes;
  }

  lemma WriteReports(c: Connection, w: Write)
    requires Inv(c) && Enabled(c, Writable(w))
    ensures var d := Effect(c, Writable(w));
      |d.sent| == |c.sent| + (if w.Wrote? then w.n else 0) && c.sent <= d.sent && d.ran == c.ran
  {
    hide TakenBytes;
  }

  lemma Splits(sent: Bytes, out: Bytes, text: Bytes, n: nat)
    requires n <= |text| && (out == [] || n == 0)
    ensures sent + text[..n] + (out + text[n..]) == sent + out + text
  {
    assert text[..n] + text[n..] == text;
  }

  lemma SendKeepsInv(c: Connection, m: Message, w: Write)
    requires Inv(c) && Possible(c, |m.text|, w)
    ensures Inv(SendNow(c, m, w))
  {
    hide Conserved;
    SendConserves(c, m, w);
    assert Conserved(c);
  }

  lemma WriteKeepsInv(c: Connection, w: Write)
    requires Inv(c) && c.writing && Possible(c, |c.out|, w)
    ensures Inv(WriteMore(c, w))
  {
    hide TakenBytes;
    if w.Wrote? {
      assert c.out[..w.n] + c.out[w.n..] == c.out;
      assert c.sent + c.out[..w.n] + c.out[w.n..] == c.sent + c.out;
    }
  }

  lemma RunNextKeepsInv(c: Connection, w: Write)
    requires Inv(c) && Enabled(c, RunNext(w))
    ensures Inv(Effect(c, RunNext(w)))
  {
    hide TakenBytes;
    var job, d := c.queue[0], c.(queue := c.queue[1..]);
    assert c.queue == [job] + d.queue;
    if job.Send? { SendKeepsInv(d, job.message, w); }
  }

  lemma StepKeepsInv(c: Connection, a: Action)
    requires Inv(c) && Enabled(c, a)
    ensures Inv(Effect(c, a))
  {
    hide TakenBytes, SendNow, WriteMore, RunJob;
    match a
    case OwnSend(t, w) =>
      var m := Message(LOOP_THREAD, t);
      SendKeepsInv(c.(issued := c.issued + [m]), m, w);
    case RunNext(w) => RunNextKeepsInv(c, w);
    case Writable(w) => WriteKeepsInv(c, w);
    case _ =>
  }

  lemma {:induction false} RunKeepsInv(c: Connection, run: seq<Action>)
    requires Inv(c) && After(c, run).Reached?
    ensures Inv(After(c, run).connection)
    decreases |run|
  {
    hide Effect, Enabled, Inv;
    if run != [] {
      StepKeepsInv(c, run[0]);
      RunKeepsInv(Effect(c, run[0]), run[1..]);
    }
  }

  // ----- order -----

  lemma SendRecords(c: Connection, m: Message, w: Write)
    requires Possible(c, |m.text|, w)
    ensures var d := SendNow(c, m, w);
      Messages(d.ran) == Messages(c.ran) + [m] && d.queue == c.queue && d.issued == c.issued
  {
    hide Messages;
    RanOne(c.ran, Ran(m, SendNow(c, m, w).ran[|c.ran|].taken));
  }

  lemma StepKeepsOrderOf(p: Thread, c: Connection, a: Action)
    requires Enabled(c, a)
    requires p != LOOP_THREAD || Of(p, Waiting(c.queue)) == []
    requires Of(p, c.issued) == Of(p, Messages(c.ran)) + Of(p, Waiting(c.queue))
    ensures var d := Effect(c, a);
      && Of(p, d.issued) == Of(p, Messages(d.ran)) + Of(p, Waiting(d.queue))
      && (p != LOOP_THREAD || Of(p, Waiting(d.queue)) == [])
  {
    hide Of, Messages, Waiting, SendNow;
    match a
    case OwnSend(t, w) =>
      var m := Message(LOOP_THREAD, t);
      SendRecords(c.(issued := c.issued + [m]), m, w);
      OfAppend(p, c.issued, [m]);
      OfAppend(p, Messages(c.ran), [m]);
      OfOne(p, m);
    case QueueSend(m) =>
      OfAppend(p, c.issued, [m]);
      Queued(p, c.queue, Send(m));
      OfOne(p, m);
    case RunNext(w) => NextKeepsOrderOf(p, c, w);
    case Shutdown(_) => Queued(p, c.queue, ShutdownInLoop);
    case ForceClose => Queued(p, c.queue, ForceCloseInLoop);
    case _ =>
  }

  lemma Queued(p: Thread, queue: seq<Job>, job: Job)
    ensures Of(p, Waiting(queue + [job])) == Of(p, Waiting(queue)) + if job.Send? then Of(p, [job.message]) else []
  {
    hide Of, Waiting;
    WaitingAppend(queue, [job]);
    WaitingOne(job);
    if job.Send? {
      OfAppend(p, Waiting(queue), [job.message]);
    } else {
      assert Waiting(queue) + [] == Waiting(queue);
    }
  }

  lemma NextKeepsOrderOf(p: Thread, c: Connection, w: Write)
    requires Enabled(c, RunNext(w))
    requires p != LOOP_THREAD || Of(p, Waiting(c.queue)) == []
    ensures var d := Effect(c, RunNext(w));
      && d.issued == c.issued
      && Of(p, Messages(d.ran)) + Of(p, Waiting(d.queue)) == Of(p, Messages(c.ran)) + Of(p, Waiting(c.queue))
      && (p != LOOP_THREAD || Of(p, Waiting(d.queue)) == [])
  {
    hide Of, Messages, Waiting, SendNow;
    var job, rest := c.queue[0], c.queue[1..];
    FirstWaits(p, c.queue);
    if job.Send? {
      SendRecords(c.(queue := rest), job.message, w);
      OfAppend(p, Messages(c.ran), [job.message]);
    }
  }

  lemma FirstWaits(p: Thread, queue: seq<Job>)
    requires queue != []
    ensures Of(p, Waiting(queue))
         == (if queue[0].Send? then Of(p, [queue[0].message]) else []) + Of(p, Waiting(queue[1..]))
  {
    hide Of, Waiting;
    var job, rest := queue[0], queue[1..];
    assert queue == [job] + rest;
    WaitingAppend([job], rest);
    WaitingOne(job);
    if job.Send? {
      OfAppend(p, [job.message], Waiting(rest));
    } else {
      assert [] + Waiting(rest) == Waiting(rest);
    }
  }

  lemma {:induction false} RunKeepsOrderOf(p: Thread, c: Connection, run: seq<Action>)
    requires After(c, run).Reached?
    requires p != LOOP_THREAD || Of(p, Waiting(c.queue)) == []
    requires Of(p, c.issued) == Of(p, Messages(c.ran)) + Of(p, Waiting(c.queue))
    ensures var d := After(c, run).connection; Of(p, d.issued) == Of(p, Messages(d.ran)) + Of(p, Waiting(d.queue))
    decreases |run|
  {
    hide Effect, Enabled, Of, Messages, Waiting;
    if run != [] {
      StepKeepsOrderOf(p, c, run[0]);
      RunKeepsOrderOf(p, Effect(c, run[0]), run[1..]);
    }
  }

  // ----- whole runs -----

  /** In every run from an established connection, what the socket took followed by what is buffered
      is a concatenation of whole messages, and each thread's messages run in its own order. */
  lemma EveryRunConserves(run: seq<Action>)
    requires After(Established(), run).Reached?
    ensures var d := After(Established(), run).connection;
      && d.sent + d.out == TakenBytes(d.ran) && InOrder(d)
      && (d.state != Disconnected ==> (d.writing <==> d.out != []))
  {
    hide After, Of, Messages, Waiting, TakenBytes;
    EstablishedIsEmpty();
    RunKeepsInv(Established(), run);
    var d := After(Established(), run).connection;
    forall p
      ensures Of(p, d.issued) == Of(p, Messages(d.ran)) + Of(p, Waiting(d.queue))
    {
      NothingOf(p);
      RunKeepsOrderOf(p, Established(), run);
    }
  }

  lemma EstablishedIsEmpty()
    ensures Inv(Established()) && Messages([]) == [] && Waiting([]) == []
  {
  }

  lemma NothingOf(p: Thread)
    ensures Of(p, []) == [] && Messages([]) == [] && Waiting([]) == []
  {
  }

  /** SHUT_WR is issued only when every byte of every message taken so far is with the socket. */
  lemma FinAfterEverythingTaken(run: seq<Action>)
    requires After(Established(), run).Reached? && After(Established(), run).connection.fin
    ensures var d := After(Established(), run).connection; d.sent == TakenBytes(d.ran) && d.out == []
  {
    hide After;
    EstablishedIsEmpty();
    RunKeepsInv(Established(), run);
    var d := After(Established(), run).connection;
    assert d.sent + [] == d.sent;
  }

  /** A half-close requested while output is buffered is carried out by the write that drains it. */
  lemma DrainingWriteShutsDown(c: Connection)
    requires Inv(c) && c.state == Disconnecting && c.writing
    ensures Enabled(c, Writable(Wrote(|c.out|)))
    ensures var d := Effect(c, Writable(Wrote(|c.out|))); d.fin && d.sent == TakenBytes(c.ran)
    ensures forall w :: Possible(c, |c.out|, w) && w != Wrote(|c.out|) ==> !Effect(c, Writable(w)).fin
  {
    hide TakenBytes;
    assert c.out[..|c.out|] == c.out;
  }

  /** After SHUT_WR no later message gets through: the histories of taken bytes stand still. */
  lemma {:induction false} NothingAfterFin(c: Connection, run: seq<Action>)
    requires Inv(c) && c.fin && After(c, run).Reached?
    ensures var d := After(c, run).connection;
      d.fin && d.sent == c.sent && TakenBytes(d.ran) == TakenBytes(c.ran)
    decreases |run|
  {
    hide Effect, Enabled, Inv, TakenBytes;
    if run != [] {
      StepKeepsInv(c, run[0]);
      StepAfterFin(c, run[0]);
      NothingAfterFin(Effect(c, run[0]), run[1..]);
    }
  }

  lemma StepAfterFin(c: Connection, a: Action)
    requires Inv(c) && c.fin && Enabled(c, a)
    ensures var d := Effect(c, a); d.fin && d.sent == c.sent && TakenBytes(d.ran) == TakenBytes(c.ran)
  {
    hide TakenBytes;
    match a
    case OwnSend(_, _) => assert false;
    case RunNext(w) =>
      if c.queue[0].Send? {
        RanOne(c.ran, Ran(c.queue[0].message, false));
        assert TakenBytes(c.ran) + [] == TakenBytes(c.ran);
      }
    case _ =>
  }

  // ----- what a forced close brings -----

  /** The loop's task of a forced close, and the end of the stream from the peer, disconnect. */
  lemma ClosesNow(c: Connection, a: Action)
    requires Inv(c) && Enabled(c, a)
    requires a.PeerCloses? || (a.RunNext? && c.queue[0].ForceCloseInLoop?)
    ensures Effect(c, a).state == Disconnected && !Effect(c, a).writing && Effect(c, a).sent == c.sent
  {
  }

  /** A disconnected connection stays so; it takes and sends nothing more. */
  lemma {:induction false} DisconnectedStays(c: Connection, run: seq<Action>)
    requires Inv(c) && c.state == Disconnected && After(c, run).Reached?
    ensures var d := After(c, run).connection;
      d.state == Disconnected && d.sent == c.sent && TakenBytes(d.ran) == TakenBytes(c.ran)
    decreases |run|
  {
    hide TakenBytes, Inv;
    if run != [] {
      StepKeepsInv(c, run[0]);
      StaysDisconnected(c, run[0]);
      DisconnectedStays(Effect(c, run[0]), run[1..]);
    }
  }

  lemma StaysDisconnected(c: Connection, a: Action)
    requires Inv(c) && c.state == Disconnected && Enabled(c, a)
    ensures var d := Effect(c, a);
      d.state == Disconnected && d.sent == c.sent && TakenBytes(d.ran) == TakenBytes(c.ran)
  {
    hide TakenBytes;
    if a.RunNext? && c.queue[0].Send? {
      RanOne(c.ran, Ran(c.queue[0].message, false));
      assert TakenBytes(c.ran) + [] == TakenBytes(c.ran);
    }
  }

  /** How many tasks the loop has run. */
  function TasksRun(run: seq<Action>): nat {
    if run == [] then 0 else (if run[0].RunNext? then 1 else 0) + TasksRun(run[1..])
  }

  /** The connection is closed, or the task that will close it is the one behind k others. */
  predicate Closing(c: Connection, k: nat) {
    c.state == Disconnected || (k < |c.queue| && c.queue[k].ForceCloseInLoop?)
  }

  lemma StepKeepsClosing(c: Connection, k: nat, a: Action)
    requires Inv(c) && Closing(c, k) && Enabled(c, a)
    ensures var d := Effect(c, a);
      if a.RunNext? then if k == 0 then d.state == Disconnected else Closing(d, k - 1) else Closing(d, k)
  {
    hide TakenBytes;
    if c.state == Disconnected { StaysDisconnected(c, a); }
  }

  lemma {:induction false} RunKeepsClosing(c: Connection, k: nat, run: seq<Action>)
    requires Inv(c) && Closing(c, k) && After(c, run).Reached?
    ensures var d := After(c, run).connection;
      if TasksRun(run) > k then d.state == Disconnected else Closing(d, k - TasksRun(run))
    decreases |run|
  {
    hide Inv, Closing, Effect, Enabled;
    if run != [] {
      var d := Effect(c, run[0]);
      StepKeepsInv(c, run[0]);
      StepKeepsClosing(c, k, run[0]);
      if run[0].RunNext? && k == 0 {
        DisconnectedStays(d, run[1..]);
      } else {
        RunKeepsClosing(d, if run[0].RunNext? then k - 1 else k, run[1..]);
      }
    }
  }

  /** In every run that follows a forced close: once the loop has run the tasks that waited before it
      and its own, the connection is disconnected; and whenever no such task waits any more it is. */
  lemma ForceCloseCloses(c: Connection, run: seq<Action>)
    requires Inv(c) && After(c, [ForceClose] + run).Reached?
    ensures var d := After(c, [ForceClose] + run).connection;
      TasksRun(run) > |c.queue| || ForceCloseInLoop !in d.queue ==> d.state == Disconnected
  {
    hide Inv, Effect;
    assert ([ForceClose] + run)[1..] == run;
    StepKeepsInv(c, ForceClose);
    assert Closing(AskForceClose(c), |c.queue|);
    assert AskForceClose(c) == Effect(c, ForceClose) by { AsksForceClose(c); }
    RunKeepsClosing(AskForceClose(c), |c.queue|, run);
  }

  lemma AsksForceClose(c: Connection)
    ensures Effect(c, ForceClose) == AskForceClose(c)
  {
  }

  // ----- what a shutdown() cuts off -----

  /** Until SHUT_WR is issued no write breaks, and the connection is closed by nobody else. A task that
      finds output buffered does not write. */
  predicate Calm(c: Connection, a: Action) {
    match a
    case RunNext(w) => w.Broken? ==> c.fin || c.writing
    case ForceClose => false
    case PeerCloses => false
    case _ => true
  }

  predicate Undisturbed(c: Connection, run: seq<Action>)
    decreases |run|
  {
    run != [] ==> Enabled(c, run[0]) && Calm(c, run[0]) && Undisturbed(Effect(c, run[0]), run[1..])
  }

  /** An undisturbed run that has issued SHUT_WR. */
  predicate ShutsDown(c: Connection, run: seq<Action>) {
    Undisturbed(c, run) && After(c, run).Reached? && After(c, run).connection.fin
  }

  predicate HasText(job: Job) { job.Send? && job.message.text != [] }

  predicate Mine(p: Thread, job: Job) { HasText(job) && job.message.thread == p }

  /** Some bytes of p wait behind bytes that are buffered or that wait before them. */
  predicate Behind(p: Thread, c: Connection) {
    exists j :: 0 <= j < |c.queue| && Mine(p, c.queue[j]) && (c.writing || TextBefore(c.queue, j))
  }

  predicate TextBefore(queue: seq<Job>, j: nat)
    requires j <= |queue|
  {
    exists i :: 0 <= i < j && HasText(queue[i])
  }

  /** Whatever p had waiting at c has been taken at d. */
  predicate Delivered(p: Thread, c: Connection, d: Connection) {
    forall j :: 0 <= j < |c.queue| && Mine(p, c.queue[j]) ==> TakenAt(c, d, j)
  }

  predicate TakenAt(c: Connection, d: Connection, j: nat)
    requires j < |c.queue|
  {
    c.queue[j].Send? && |c.ran| + j < |d.ran| && d.ran[|c.ran| + j] == Ran(c.queue[j].message, true)
  }

  /** Whether a thread's own shutdown() lets everything through that the thread sent before it: in every
      undisturbed continuation SHUT_WR finds all its bytes taken, exactly when none of them waits
      behind buffered output or behind another message with bytes. */
  lemma FinCompleteIff(c: Connection, p: Thread)
    requires Inv(c) && c.state == Connected && p != LOOP_THREAD
    ensures (forall run :: ShutsDown(AskShutdown(c, p), run) ==>
               Delivered(p, c, After(AskShutdown(c, p), run).connection))
       <==> !Behind(p, c)
  {
    hide Inv, AskShutdown, Undisturbed, After, Delivered, Behind;
    if Behind(p, c) {
      var run := Overtakes(c, p);
    } else {
      forall run | ShutsDown(AskShutdown(c, p), run)
        ensures Delivered(p, c, After(AskShutdown(c, p), run).connection)
      {
        NotOvertaken(c, p, run);
      }
    }
  }

  /** The first message with bytes. */
  function FirstText(queue: seq<Job>): (f: nat)
    ensures f <= |queue| && (f < |queue| ==> HasText(queue[f]))
    ensures forall i :: 0 <= i < f ==> !HasText(queue[i])
  {
    if queue == [] || HasText(queue[0]) then 0 else 1 + FirstText(queue[1..])
  }

  /** Up to message f: nothing is buffered, and the half-close waits behind the messages of c. */
  predicate Early(c: Connection, f: nat, d: Connection) {
    var i := |d.ran| - |c.ran|;
    && d.state == Disconnecting && !d.fin && !d.writing && d.out == []
    && 0 <= i <= f < |c.queue| < i + |d.queue|
    && c.queue[i..] + [ShutdownInLoop] <= d.queue
  }

  predicate Phase(c: Connection, f: nat, d: Connection)
    requires f < |c.queue|
  {
    Early(c, f, d) || TakenAt(c, d, f)
  }

  lemma EarlyStep(c: Connection, f: nat, d: Connection, w: Write)
    requires Early(c, f, d) && f == FirstText(c.queue) && Enabled(d, RunNext(w)) && Calm(d, RunNext(w))
    requires forall i :: 0 <= i < |c.queue| ==> c.queue[i].Send?
    ensures Phase(c, f, Effect(d, RunNext(w)))
  {
    var i, e := |d.ran| - |c.ran|, Effect(d, RunNext(w));
    var rest := c.queue[i..] + [ShutdownInLoop];
    assert d.queue[0] == rest[0] == c.queue[i];
    if i < f {
      assert c.queue[i].message.text == [];
      assert c.queue[i + 1..] + [ShutdownInLoop] == rest[1..] <= d.queue[1..];
    }
  }

  lemma PhaseKept(c: Connection, f: nat, d: Connection, a: Action)
    requires f < |c.queue| && Phase(c, f, d) && f == FirstText(c.queue) && Enabled(d, a) && Calm(d, a)
    requires forall i :: 0 <= i < |c.queue| ==> c.queue[i].Send?
    ensures Phase(c, f, Effect(d, a))
  {
    if Early(c, f, d) && a.RunNext? {
      EarlyStep(c, f, d, a.result);
    } else if TakenAt(c, d, f) {
      RanGrows(d, a);
    }
  }

  lemma RanGrows(d: Connection, a: Action)
    requires Enabled(d, a)
    ensures d.ran <= Effect(d, a).ran
  {
  }

  lemma {:induction false} PhaseStays(c: Connection, f: nat, d: Connection, run: seq<Action>)
    requires f < |c.queue| && Phase(c, f, d) && f == FirstText(c.queue)
    requires forall i :: 0 <= i < |c.queue| ==> c.queue[i].Send?
    requires Undisturbed(d, run) && After(d, run).Reached?
    ensures Phase(c, f, After(d, run).connection)
    decreases |run|
  {
    hide Phase, Effect, Enabled, Calm, FirstText;
    if run != [] {
      PhaseKept(c, f, d, run[0]);
      PhaseStays(c, f, Effect(d, run[0]), run[1..]);
    }
  }

  lemma OnlySends(c: Connection)
    requires Inv(c) && c.state == Connected
    ensures !c.fin && (!c.writing ==> c.out == []) && forall i :: 0 <= i < |c.queue| ==> c.queue[i].Send?
  {
    forall i | 0 <= i < |c.queue|
      ensures c.queue[i].Send?
    {
      assert c.queue[i] in c.queue;
    }
  }

  lemma FirstIs(queue: seq<Job>, j: nat)
    requires j < |queue| && HasText(queue[j]) && !TextBefore(queue, j)
    ensures FirstText(queue) == j
  {
    assert FirstText(queue) <= j;
  }

  lemma NotOvertaken(c: Connection, p: Thread, run: seq<Action>)
    requires Inv(c) && c.state == Connected && p != LOOP_THREAD && !Behind(p, c)
    requires ShutsDown(AskShutdown(c, p), run)
    ensures Delivered(p, c, After(AskShutdown(c, p), run).connection)
  {
    hide Inv, AskShutdown, Undisturbed, Behind, TakenAt, TextBefore, After, HasText;
    var d := After(AskShutdown(c, p), run).connection;
    forall j | 0 <= j < |c.queue| && Mine(p, c.queue[j])
      ensures TakenAt(c, d, j)
    {
      AloneInFront(p, c, j);
      FirstTaken(c, p, run);
    }
  }

  lemma AloneInFront(p: Thread, c: Connection, j: nat)
    requires !Behind(p, c) && j < |c.queue| && Mine(p, c.queue[j])
    ensures !c.writing && FirstText(c.queue) == j
  {
    hide TextBefore, HasText;
    FirstIs(c.queue, j);
  }

  lemma FirstTaken(c: Connection, p: Thread, run: seq<Action>)
    requires Inv(c) && c.state == Connected && p != LOOP_THREAD && !c.writing && FirstText(c.queue) < |c.queue|
    requires ShutsDown(AskShutdown(c, p), run)
    ensures TakenAt(c, After(AskShutdown(c, p), run).connection, FirstText(c.queue))
  {
    hide Inv, Effect, Enabled, Calm, Undisturbed, After, HasText, TakenAt;
    OnlySends(c);
    assert c.queue[0..] == c.queue;
    assert Early(c, FirstText(c.queue), AskShutdown(c, p));
    PhaseStays(c, FirstText(c.queue), AskShutdown(c, p), run);
  }

  /** The run in which the half-close comes before the bytes of p. */
  lemma Overtakes(c: Connection, p: Thread) returns (run: seq<Action>)
    requires Inv(c) && c.state == Connected && p != LOOP_THREAD && Behind(p, c)
    ensures ShutsDown(AskShutdown(c, p), run) && !Delivered(p, c, After(AskShutdown(c, p), run).connection)
  {
    hide Inv;
    var start := AskShutdown(c, p);
    var j :| 0 <= j < |c.queue| && Mine(p, c.queue[j]) && (c.writing || TextBefore(c.queue, j));
    OnlySends(c);
    if c.writing {
      run := Drains(start);
      assert !TakenAt(c, After(start, run).connection, j);
    } else {
      var i :| 0 <= i < j && HasText(c.queue[i]);
      assert FirstText(c.queue) <= i;
      SameFirst(c.queue, [ShutdownInLoop]);
      run := BuffersFirst(start, FirstText(c.queue));
      assert !TakenAt(c, After(start, run).connection, j);
    }
  }

  lemma SameFirst(queue: seq<Job>, more: seq<Job>)
    requires FirstText(queue) < |queue|
    ensures forall i :: 0 <= i < FirstText(queue) ==> !HasText((queue + more)[i])
    ensures HasText((queue + more)[FirstText(queue)])
  {
  }

  /** The write that drains the output shuts down. */
  lemma Drains(d: Connection) returns (run: seq<Action>)
    requires d.state == Disconnecting && d.writing && !d.fin
    ensures ShutsDown(d, run) && After(d, run).connection.ran == d.ran
  {
    var a := Writable(Wrote(|d.out|));
    run := [a];
    var e := Effect(d, a);
    assert d.out[|d.out|..] == [];
    assert run[1..] == [];
    assert Undisturbed(e, run[1..]) && After(d, run) == After(e, run[1..]);
  }

  /** The first message with bytes, number f of the queue, goes to the buffer, and its drain shuts down. */
  lemma {:induction false} BuffersFirst(d: Connection, f: nat) returns (run: seq<Action>)
    requires d.state == Disconnecting && !d.writing && d.out == [] && !d.fin
    requires f < |d.queue| && HasText(d.queue[f])
    requires forall i :: 0 <= i < f ==> d.queue[i].Send? && !HasText(d.queue[i])
    ensures ShutsDown(d, run) && |After(d, run).connection.ran| == |d.ran| + f + 1
    decreases f
  {
    var a := RunNext(Again);
    var e := Effect(d, a);
    var rest: seq<Action>;
    if f == 0 {
      rest := Drains(e);
    } else {
      assert d.queue[0].message.text == [];
      assert e.out == [];
      rest := BuffersFirst(e, f - 1);
    }
    run := [a] + rest;
    assert run[1..] == rest;
    assert After(d, run) == After(e, rest);
  }

  /** A thread can lose a message that it sent before its own shutdown(): the write that drains older
      output shuts down while the message is still queued. */
  lemma OwnShutdownOvertakes(text: Bytes, p: Thread)
    requires p != LOOP_THREAD && text != []
    ensures var d := After(Established(), Overtaking(p, text));
      && d.Reached? && d.connection.fin && d.connection.sent == CRLF
      && Of(p, d.connection.issued) == [text]
      && d.connection.ran == [Ran(Message(LOOP_THREAD, CRLF), true), Ran(Message(p, text), false)]
  {
    var run := Overtaking(p, text);
    var own, m := Message(LOOP_THREAD, CRLF), Message(p, text);
    var c := Established();
    var c2 := c.(issued := [own, m], ran := [Ran(own, true)], sent := [CR], out := [LF], writing := true,
      queue := [Send(m)]);
    var c4 := c2.(state := Disconnecting, sent := CRLF, out := [], writing := false, fin := true,
                  queue := [Send(m), ShutdownInLoop]);
    FirstTwo(p, text);
    NextTwo(c2, m);
    Follows(c4, [RunNext(Broken)], c4.(queue := [ShutdownInLoop], ran := [Ran(own, true), Ran(m, false)]));
    assert run[2..][2..] == [RunNext(Broken)] && [RunNext(Broken)][1..] == [];
    OfAppend(p, [own], [m]);
    OfOne(p, own);
    OfOne(p, m);
    assert [own] + [m] == [own, m];
  }

  function Overtaking(p: Thread, text: Bytes): seq<Action> {
    [OwnSend(CRLF, Wrote(1)), QueueSend(Message(p, text)), Shutdown(p), Writable(Wrote(1)), RunNext(Broken)]
  }

  lemma FirstTwo(p: Thread, text: Bytes)
    requires p != LOOP_THREAD
    ensures var own, m := Message(LOOP_THREAD, CRLF), Message(p, text);
      var d := Established().(issued := [own, m], ran := [Ran(own, true)], sent := [CR], out := [LF],
                              writing := true, queue := [Send(m)]);
      After(Established(), Overtaking(p, text)) == After(d, Overtaking(p, text)[2..])
  {
    var own, run := Message(LOOP_THREAD, CRLF), Overtaking(p, text);
    var c := Established().(issued := [own], ran := [Ran(own, true)], sent := [CR], out := [LF], writing := true);
    assert CRLF[1..] == [LF] && CRLF[..1] == [CR];
    Follows(Established(), run, c);
    Follows(c, run[1..], Effect(c, run[1]));
    assert run[1..][1..] == run[2..];
    assert [own] + [run[1].message] == [own, run[1].message] && [] + [Send(run[1].message)] == [Send(run[1].message)];
  }

  lemma NextTwo(c: Connection, m: Message)
    requires c.state == Connected && c.writing && c.out == [LF] && c.sent == [CR] && !c.fin && c.queue == [Send(m)]
    requires m.thread != LOOP_THREAD
    ensures var run := Overtaking(m.thread, m.text)[2..];
      After(c, run) == After(c.(state := Disconnecting, sent := CRLF, out := [], writing := false, fin := true,
                                queue := [Send(m), ShutdownInLoop]), run[2..])
  {
    var run := Overtaking(m.thread, m.text)[2..];
    var d := c.(state := Disconnecting, queue := [Send(m), ShutdownInLoop]);
    Follows(c, run, d);
    assert [LF][..1] == [LF] && [LF][1..] == [];
    Follows(d, run[1..], d.(sent := CRLF, out := [], writing := false, fin := true));
    assert run[1..][1..] == run[2..];
  }

  lemma Follows(c: Connection, run: seq<Action>, d: Connection)
    requires run != [] && Enabled(c, run[0]) && Effect(c, run[0]) == d
    ensures After(c, run) == After(d, run[1..])
  {
  }
}
