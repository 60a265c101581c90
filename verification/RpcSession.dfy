/** A whole session of one client, the server and the server's end of their connection
    (RpcServer/Client/BaseClient.cpp, RpcServer/Server/BaseServer.cpp, NetServer/TcpConnection.cpp).
    Procedures are opaque: they return in any order, on the loop thread or on any other, and their
    replies go through the connection as ConnectionSpec has it. */
module RpcSession {
  import opened Octets
  import opened JsonValue
  import opened ReaderSpec
  import opened RpcClient
  import Messages
  import Net = ConnectionSpec
  import RoundTrip

  datatype Reply = Result(id: int, result: Value) | Refusal(refused: Option<int>, error: Value)

  function Named(id: Option<int>): set<int> { if id.Some? then {id.value} else {} }

  function ReplyIds(r: Reply): set<int> { if r.Result? then {r.id} else Named(r.refused) }

  function ReplyValue(r: Reply): Value { if r.Result? then Response(r.id, r.result) else ErrorResponse(r.error) }

  function ReplyBody(r: Reply): Bytes { Messages.Body(ReplyValue(r)) }

  function Frame(r: Reply): Bytes { Messages.Framed(ReplyValue(r)) }

  function Frames(wire: seq<Reply>): Bytes {
    if wire == [] then [] else Frame(wire[0]) + Frames(wire[1..])
  }

  type OtherThread = p: nat | p != Net.LOOP_THREAD witness 1

  datatype Session = Session(
    client: Client,
    open: set<int>,                    // calls being executed
    between: map<int, OtherThread>,    // returned on another thread, which is past the test in send()
    queue: seq<int>,                   // returned on another thread, the reply in the loop's queue
    link: Net.Connection,
    wire: seq<Reply>,                  // taken by the connection, not yet with the client
    received: Bytes,                   // history: the bytes that have reached the client
    results: map<int, Value>,          // history: what procedures returned
    lost: set<int>,                    // history: calls whose error response was delivered
    muted: set<int>,                   // history: calls whose send() found the connection not connected
    dropped: set<int>)                 // history: calls whose queued reply the socket refused

  datatype Action =
    | MakeCall(maker: Callback)
    | Complete(done: int, value: Value, thread: Net.Thread, written: Net.Write)  // a procedure returns, once
    | Queue(queued: int)                    // the thread of a returned call queues its reply
    | RunQueued(ran: Net.Write)             // the loop sends the next queued reply
    | Refuse(badId: Option<int>, reason: Value, told: Net.Write)  // the server throws a RequestException
    | Flush(flushed: Net.Write)             // EPOLLOUT
    | Arrive                                // the next reply reaches the client, all of it

  /** The connection is not lost: a write breaks after SHUT_WR only. */
  predicate Writes(link: Net.Connection, text: Bytes, w: Net.Write) {
    Net.Possible(link, |text|, w) && (w.Broken? ==> link.fin || link.writing)
  }

  predicate Enabled(s: Session, a: Action) {
    match a
    case MakeCall(_) => 0 <= s.client.nextId < INT32_MAX
    case Complete(id, v, p, w) =>
      && id in s.open && RoundTrip.Readable(v)
      && if p == Net.LOOP_THREAD then s.link.state == Net.Connected ==> Writes(s.link, Frame(Result(id, v)), w)
         else forall i :: i in s.between ==> s.between[i] != p
    case Queue(id) => id in s.between
    case RunQueued(w) =>
      && s.queue != [] && s.link.queue != [] && s.link.queue[0].Send?
      && Writes(s.link, s.link.queue[0].message.text, w)
    case Refuse(id, e, w) =>
      && Named(id) <= s.open && RoundTrip.Readable(ErrorResponse(e)) && s.link.state != Net.Disconnected
      && (s.link.state == Net.Connected ==> Writes(s.link, Frame(Refusal(id, e)), w))
    case Flush(w) => Net.Enabled(s.link, Net.Writable(w))
    case Arrive => s.wire != [] && |s.received| + |Frame(s.wire[0])| <= |s.link.sent|
  }

  function Answered(results: map<int, Value>, id: int): Reply {
    Result(id, if id in results then results[id] else Null)
  }

  /** The connection has run the send of r. */
  function Carried(s: Session, r: Reply, link: Net.Connection): Session
    requires link.ran != []
  {
    if link.ran[|link.ran| - 1].taken then s.(link := link, wire := s.wire + [r])
    else s.(link := link, dropped := s.dropped + ReplyIds(r))
  }

  /** send() on the loop thread of a connected connection. */
  function OwnSent(link: Net.Connection, text: Bytes, w: Net.Write): (d: Net.Connection)
    requires link.state == Net.Connected && Writes(link, text, w)
    ensures d.ran != []
  {
    Net.Effect(link, Net.OwnSend(text, w))
  }

  /** The loop runs the next queued send. */
  function NextRun(link: Net.Connection, w: Net.Write): (d: Net.Connection)
    requires link.queue != [] && link.queue[0].Send? && Writes(link, link.queue[0].message.text, w)
    ensures d.ran != []
  {
    Net.Effect(link, Net.RunNext(w))
  }

  function Returned(s: Session, id: int, v: Value): Session {
    s.(open := s.open - {id}, results := s.results[id := v])
  }

  /** A procedure returns: send() gives up unless the connection is connected. */
  function Completed(s: Session, id: int, v: Value, p: Net.Thread, w: Net.Write): Session
    requires p == Net.LOOP_THREAD && s.link.state == Net.Connected ==> Writes(s.link, Frame(Result(id, v)), w)
  {
    var d := Returned(s, id, v);
    if s.link.state != Net.Connected then d.(muted := s.muted + {id})
    else if p != Net.LOOP_THREAD then d.(between := s.between[id := p])
    else Carried(d, Result(id, v), OwnSent(s.link, Frame(Result(id, v)), w))
  }

  function Queued(s: Session, id: int): Session
    requires id in s.between
  {
    var m := Net.Message(s.between[id], Frame(Answered(s.results, id)));
    s.(between := s.between - {id}, queue := s.queue + [id], link := Net.Effect(s.link, Net.QueueSend(m)))
  }

  function Ran(s: Session, w: Net.Write): Session
    requires s.queue != [] && s.link.queue != [] && s.link.queue[0].Send?
    requires Writes(s.link, s.link.queue[0].message.text, w)
  {
    Carried(s.(queue := s.queue[1..]), Answered(s.results, s.queue[0]), NextRun(s.link, w))
  }

  /** The catch block of onMessage: the error response is sent, and then the connection is shut down. */
  function Refused(s: Session, id: Option<int>, e: Value, w: Net.Write): Session
    requires s.link.state == Net.Connected ==> Writes(s.link, Frame(Refusal(id, e)), w)
  {
    var c := s.(open := s.open - Named(id));
    var d :=
      if s.link.state != Net.Connected then c.(muted := s.muted + Named(id))
      else Carried(c, Refusal(id, e), OwnSent(s.link, Frame(Refusal(id, e)), w));
    d.(link := Net.AskShutdown(d.link, Net.LOOP_THREAD))
  }

  function Arrived(s: Session): Session
    requires s.wire != [] && |s.received| + |Frame(s.wire[0])| <= |s.link.sent|
  {
    var r, n := s.wire[0], |s.received|;
    s.(client := Received(s.client, ReplyBody(r)),
       wire := s.wire[1..],
       received := s.received + s.link.sent[n..n + |Frame(r)|],
       lost := if r.Refusal? then s.lost + ReplyIds(r) else s.lost)
  }

  function Effect(s: Session, a: Action): Session
    requires Enabled(s, a)
  {
    match a
    case MakeCall(cb) => s.(client := Registered(s.client, cb), open := s.open + {s.client.nextId})
    case Complete(id, v, p, w) => Completed(s, id, v, p, w)
    case Queue(id) => Queued(s, id)
    case RunQueued(w) => Ran(s, w)
    case Refuse(id, e, w) => Refused(s, id, e, w)
    case Flush(w) => s.(link := Net.Effect(s.link, Net.Writable(w)))
    case Arrive => Arrived(s)
  }

  /** The client after one more body; a crash is excluded below. */
  function Received(c: Client, json: Bytes): Client {
    match Handle(c, json)
    case Kept(d) => d
    case Crashed => c
  }

  function Start(): Session {
    Session(NewClient(), {}, map[], [], Net.Established(), [], [], map[], {}, {}, {})
  }

  datatype Outcome = Stuck | Reached(session: Session)

  function After(s: Session, run: seq<Action>): Outcome
    decreases |run|
  {
    if run == [] then Reached(s)
    else if Enabled(s, run[0]) then After(Effect(s, run[0]), run[1..])
    else Stuck
  }

  // ----- the connection under it -----

  /** Only replies wait in the loop's queue, in the order of s.queue. */
  predicate Parallel(s: Session) {
    && |s.link.queue| == |s.queue|
    && forall i :: 0 <= i < |s.queue| ==>
         s.link.queue[i].Send? && s.link.queue[i].message.text == Frame(Answered(s.results, s.queue[i]))
  }

  /** The bytes with the client, then the frames on their way, are the bytes that the socket took and
      those still buffered. */
  predicate Streams(s: Session) {
    s.received + Frames(s.wire) == s.link.sent + s.link.out && |s.received| <= |s.link.sent|
  }

  /** A half-close that was asked for is issued, or waits for the output to drain. */
  predicate LinkOk(link: Net.Connection) {
    && Net.Inv(link) && (link.state == Net.Connected || link.state == Net.Disconnecting)
    && (link.state == Net.Disconnecting ==> link.fin || link.writing)
  }

  lemma {:induction false} FramesSnoc(wire: seq<Reply>, r: Reply)
    ensures Frames(wire + [r]) == Frames(wire) + Frame(r)
  {
    hide Frame;
    if wire == [] {
      assert [] + [r] == [r] && [r][1..] == [];
      assert Frames([r]) == Frame(r) + [];
    } else {
      assert (wire + [r])[1..] == wire[1..] + [r];
      FramesSnoc(wire[1..], r);
      Net.Regroup(Frame(wire[0]), Frames(wire[1..]), Frame(r));
    }
  }

  /** What a send on the loop thread does to the connection. */
  lemma SendsNow(link: Net.Connection, m: Net.Message, w: Net.Write)
    requires LinkOk(link) && Writes(link, m.text, w)
    ensures var d := Net.SendNow(link, m, w);
      && LinkOk(d) && d.state == link.state && d.fin == link.fin && d.queue == link.queue && d.ran != []
      && d.ran[|d.ran| - 1].taken == !link.fin && link.sent <= d.sent
      && d.sent + d.out == link.sent + link.out + if link.fin then [] else m.text
  {
    hide Net.TakenBytes;
    var d := Net.SendNow(link, m, w);
    Net.SendKeepsInv(link, m, w);
    if link.fin {
      assert link.sent + link.out + [] == link.sent + link.out;
    } else {
      Net.Splits(link.sent, link.out, m.text, if !link.writing && w.Wrote? then w.n else 0);
    }
  }

  lemma OwnSends(link: Net.Connection, text: Bytes, w: Net.Write)
    requires LinkOk(link) && link.state == Net.Connected && Writes(link, text, w)
    ensures var d := OwnSent(link, text, w);
      && LinkOk(d) && d.state == Net.Connected && d.queue == link.queue && d.ran != []
      && d.ran[|d.ran| - 1].taken && link.sent <= d.sent && d.sent + d.out == link.sent + link.out + text
  {
    hide Net.SendNow, Net.TakenBytes;
    var m := Net.Message(Net.LOOP_THREAD, text);
    SendsNow(link.(issued := link.issued + [m]), m, w);
  }

  lemma RunsNext(link: Net.Connection, w: Net.Write)
    requires LinkOk(link) && link.queue != [] && link.queue[0].Send? && Writes(link, link.queue[0].message.text, w)
    ensures var d := NextRun(link, w);
      && LinkOk(d) && d.state == link.state && d.fin == link.fin && d.queue == link.queue[1..] && d.ran != []
      && d.ran[|d.ran| - 1].taken == !link.fin && link.sent <= d.sent
      && d.sent + d.out == link.sent + link.out + if link.fin then [] else link.queue[0].message.text
  {
    hide Net.SendNow, Net.TakenBytes;
    assert link.queue == [link.queue[0]] + link.queue[1..];
    SendsNow(link.(queue := link.queue[1..]), link.queue[0].message, w);
  }

  lemma Flushes(link: Net.Connection, w: Net.Write)
    requires LinkOk(link) && Net.Enabled(link, Net.Writable(w))
    ensures var d := Net.Effect(link, Net.Writable(w));
      && LinkOk(d) && d.state == link.state && d.queue == link.queue && (link.fin ==> d.fin)
      && link.sent <= d.sent && d.sent + d.out == link.sent + link.out
      && (w == Net.Wrote(|link.out|) && link.state == Net.Disconnecting ==> d.fin)
  {
    hide Net.TakenBytes;
    Net.WriteKeepsInv(link, w);
    if w.Wrote? {
      assert link.out[..w.n] + link.out[w.n..] == link.out;
      assert link.sent + link.out[..w.n] + link.out[w.n..] == link.sent + link.out;
    }
  }

  lemma ShutsDown(link: Net.Connection)
    requires LinkOk(link)
    ensures var d := Net.AskShutdown(link, Net.LOOP_THREAD);
      LinkOk(d) && d == link.(state := Net.Disconnecting, fin := d.fin) && (link.fin ==> d.fin)
  {
  }

  /** What a step does on the connection, in its own terms. */
  function Moves(s: Session, a: Action): seq<Net.Action>
    requires Enabled(s, a)
  {
    match a
    case Complete(id, v, p, w) =>
      if s.link.state == Net.Connected && p == Net.LOOP_THREAD then [Net.OwnSend(Frame(Result(id, v)), w)] else []
    case Queue(id) => [Net.QueueSend(Net.Message(s.between[id], Frame(Answered(s.results, id))))]
    case RunQueued(w) => [Net.RunNext(w)]
    case Refuse(id, e, w) =>
      (if s.link.state == Net.Connected then [Net.OwnSend(Frame(Refusal(id, e)), w)] else [])
        + [Net.Shutdown(Net.LOOP_THREAD)]
    case Flush(w) => [Net.Writable(w)]
    case _ => []
  }

  function NetRun(s: Session, run: seq<Action>): seq<Net.Action>
    requires After(s, run).Reached?
    decreases |run|
  {
    if run == [] then [] else Moves(s, run[0]) + NetRun(Effect(s, run[0]), run[1..])
  }

  lemma StepMoves(s: Session, a: Action)
    requires Enabled(s, a)
    ensures Net.After(s.link, Moves(s, a)) == Net.Reached(Effect(s, a).link)
  {
    hide Received, Frame, RoundTrip.Readable, Net.Effect, Net.After, Refused;
    match a
    case Complete(id, v, p, w) =>
      if s.link.state == Net.Connected && p == Net.LOOP_THREAD {
        Net.OneStep(s.link, Net.OwnSend(Frame(Result(id, v)), w));
      } else {
        NoMove(s.link);
      }
    case Queue(id) => Net.OneStep(s.link, Net.QueueSend(Net.Message(s.between[id], Frame(Answered(s.results, id)))));
    case RunQueued(w) => Net.OneStep(s.link, Net.RunNext(w));
    case Refuse(id, e, w) => RefuseMoves(s, id, e, w);
    case Flush(w) => Net.OneStep(s.link, Net.Writable(w));
    case _ => NoMove(s.link);
  }

  lemma NoMove(link: Net.Connection)
    ensures Net.After(link, []) == Net.Reached(link)
  {
  }

  lemma RefuseMoves(s: Session, id: Option<int>, e: Value, w: Net.Write)
    requires Enabled(s, Refuse(id, e, w))
    ensures Net.After(s.link, Moves(s, Refuse(id, e, w))) == Net.Reached(Refused(s, id, e, w).link)
  {
    hide Frame, RoundTrip.Readable, Net.After;
    var shut := Net.Shutdown(Net.LOOP_THREAD);
    if s.link.state == Net.Connected {
      var send := Net.OwnSend(Frame(Refusal(id, e)), w);
      Net.OneStep(s.link, send);
      Net.AfterAppend(s.link, [send], [shut]);
      Net.OneStep(OwnSent(s.link, Frame(Refusal(id, e)), w), shut);
    } else {
      assert [] + [shut] == [shut];
      Net.OneStep(s.link, shut);
    }
  }

  /** The connection of a session takes the steps of ConnectionSpec and no others, so whatever holds of
      its runs holds here. */
  lemma {:induction false} SessionRunsConnection(s: Session, run: seq<Action>)
    requires After(s, run).Reached?
    ensures Net.After(s.link, NetRun(s, run)) == Net.Reached(After(s, run).session.link)
    decreases |run|
  {
    hide Effect, Enabled, Moves, Net.After;
    if run == [] {
      NoMove(s.link);
    } else {
      StepMoves(s, run[0]);
      SessionRunsConnection(Effect(s, run[0]), run[1..]);
      Net.AfterAppend(s.link, Moves(s, run[0]), NetRun(Effect(s, run[0]), run[1..]));
    }
  }

  // ----- where the calls are -----

  function WireIds(wire: seq<Reply>): set<int> {
    if wire == [] then {} else ReplyIds(wire[0]) + WireIds(wire[1..])
  }

  function QueueIds(queue: seq<int>): set<int> { set i | i in queue }

  /** No two replies of the wire are for one call. */
  predicate Distinct(wire: seq<Reply>) {
    wire != [] ==> ReplyIds(wire[0]) !! WireIds(wire[1..]) && Distinct(wire[1..])
  }

  predicate GoodReply(results: map<int, Value>, r: Reply) {
    match r
    case Result(id, v) => INT32_MIN <= id <= INT32_MAX && id in results && results[id] == v && RoundTrip.Readable(v)
    case Refusal(id, e) => results.Keys !! Named(id) && RoundTrip.Readable(ErrorResponse(e))
  }

  ghost predicate GoodReplies(results: map<int, Value>, wire: seq<Reply>) {
    forall i :: 0 <= i < |wire| ==> GoodReply(results, wire[i])
  }

  /** Calls that returned and whose reply was not sent yet have a result that can be sent. */
  ghost predicate GoodQueue(s: Session) {
    && (forall i, j :: 0 <= i < j < |s.queue| ==> s.queue[i] != s.queue[j])
    && (forall id :: id in s.between.Keys + QueueIds(s.queue) ==>
          id in s.results && GoodReply(s.results, Answered(s.results, id)))
  }

  /** Every callback so far was given, not as an error, what the procedure of its call returned. */
  ghost predicate RightResults(s: Session) {
    forall i :: 0 <= i < |s.client.fired| ==>
      var f := s.client.fired[i];
      f.id in s.results && f.payload == s.results[f.id] && !f.isError
  }

  /** The pending calls are those being executed, those that wait for the loop, those whose reply
      travels, those whose error response came in vain, and those whose reply was not sent. */
  ghost predicate Partition(s: Session) {
    && s.client.pending.Keys
         == s.open + s.between.Keys + QueueIds(s.queue) + WireIds(s.wire) + s.lost + s.muted + s.dropped
    && (s.open !! s.between.Keys !! QueueIds(s.queue) !! WireIds(s.wire) !! s.lost !! s.muted !! s.dropped)
    && s.results.Keys !! s.open && s.results.Keys !! s.lost && s.results.Keys <= s.client.issued.Keys
    && s.results.Keys <= FiredIds(s.client.fired) + s.between.Keys + QueueIds(s.queue) + WireIds(s.wire)
         + s.muted + s.dropped
    && s.client.erased == {} && 0 <= s.client.nextId <= INT32_MAX
  }

  /** The replies under way, wherever they are. */
  ghost predicate Lines(s: Session) {
    && GoodReplies(s.results, s.wire) && GoodQueue(s) && Distinct(s.wire) && LinkOk(s.link) && Parallel(s)
    && Streams(s)
  }

  ghost predicate Inv(s: Session) { ClientInv(s.client) && RightResults(s) && Partition(s) && Lines(s) }

  lemma {:induction false} WireIdsSnoc(wire: seq<Reply>, r: Reply)
    requires Distinct(wire) && ReplyIds(r) !! WireIds(wire)
    ensures WireIds(wire + [r]) == WireIds(wire) + ReplyIds(r) && Distinct(wire + [r])
  {
    hide ReplyIds;
    if wire == [] {
      assert [] + [r] == [r] && [r][1..] == [];
    } else {
      assert (wire + [r])[1..] == wire[1..] + [r];
      WireIdsSnoc(wire[1..], r);
    }
  }

  lemma {:induction false} InWire(wire: seq<Reply>, i: nat)
    requires i < |wire|
    ensures ReplyIds(wire[i]) <= WireIds(wire)
  {
    hide ReplyIds;
    if i > 0 { InWire(wire[1..], i - 1); }
  }

  lemma QueueIdsSnoc(queue: seq<int>, id: int)
    ensures QueueIds(queue + [id]) == QueueIds(queue) + {id}
  {
  }

  lemma QueueIdsRest(queue: seq<int>)
    requires queue != [] && forall i, j :: 0 <= i < j < |queue| ==> queue[i] != queue[j]
    ensures queue[0] in QueueIds(queue) && QueueIds(queue[1..]) == QueueIds(queue) - {queue[0]}
  {
    assert queue == [queue[0]] + queue[1..];
  }

  // ----- what every step keeps -----

  lemma FreshId(c: Client)
    requires ClientInv(c)
    ensures c.nextId !in c.pending && c.nextId !in c.issued
  {
  }

  lemma PendingId(c: Client, id: int)
    requires ClientInv(c) && id in c.pending
    ensures 0 <= id < c.nextId && id in c.issued && id !in FiredIds(c.fired)
  {
  }

  lemma CallKeepsInv(s: Session, cb: Callback)
    requires Inv(s) && Enabled(s, MakeCall(cb))
    ensures Inv(Effect(s, MakeCall(cb)))
  {
    hide ClientInv, WireIds, FiredIds, GoodReply, Distinct, QueueIds, LinkOk, Streams, Parallel, GoodReplies,
      GoodQueue, RightResults;
    var d, id := Effect(s, MakeCall(cb)), s.client.nextId;
    RegisterKeepsInv(s.client, cb);
    FreshId(s.client);
    assert d.client.pending.Keys == s.client.pending.Keys + {id};
    SameLines(s, d);
  }

  lemma SameLines(s: Session, d: Session)
    requires d == s.(client := d.client, open := d.open) && d.client.fired == s.client.fired
    ensures Lines(s) ==> Lines(d)
    ensures RightResults(s) ==> RightResults(d)
  {
  }

  /** A call that returns had no result before, and its reply can be sent. */
  lemma Returns(s: Session, id: int, v: Value)
    requires Inv(s) && id in s.open && RoundTrip.Readable(v)
    ensures var d := Returned(s, id, v);
      && GoodReplies(d.results, s.wire) && GoodReply(d.results, Result(id, v)) && RightResults(d) && GoodQueue(d)
      && Parallel(d) && id !in s.results && id !in FiredIds(s.client.fired) && id in s.client.issued
      && Answered(d.results, id) == Result(id, v)
  {
    hide ClientInv, FiredIds, QueueIds, RoundTrip.Readable, Frame, Distinct, LinkOk, Streams;
    var d := Returned(s, id, v);
    PendingId(s.client, id);
    FiredApart(s.client.fired, id);
    forall i | 0 <= i < |s.wire|
      ensures GoodReply(d.results, s.wire[i])
    {
      InWire(s.wire, i);
    }
    forall i | 0 <= i < |s.queue|
      ensures Answered(d.results, s.queue[i]) == Answered(s.results, s.queue[i])
    {
      assert s.queue[i] in QueueIds(s.queue) by { InQueue(s.queue, i); }
    }
  }

  lemma InQueue(queue: seq<int>, i: nat)
    requires i < |queue|
    ensures queue[i] in QueueIds(queue)
  {
  }

  lemma TakenStreams(s: Session, d: Session, r: Reply)
    requires Streams(s) && d.wire == s.wire + [r] && d.received == s.received && s.link.sent <= d.link.sent
    requires d.link.sent + d.link.out == s.link.sent + s.link.out + Frame(r)
    ensures Streams(d)
  {
    hide Frame;
    FramesSnoc(s.wire, r);
    Net.Regroup(s.received, Frames(s.wire), Frame(r));
  }

  lemma SameReplies(s: Session, d: Session)
    requires s.results == d.results && s.client == d.client && s.queue == d.queue && s.between == d.between
    ensures RightResults(s) ==> RightResults(d)
    ensures GoodQueue(s) ==> GoodQueue(d)
    ensures Parallel(s) && s.link.queue == d.link.queue ==> Parallel(d)
  {
  }

  lemma StreamKept(s: Session, d: Session)
    requires Streams(s) && s.wire == d.wire && s.received == d.received && s.link.sent <= d.link.sent
    requires d.link.sent + d.link.out == s.link.sent + s.link.out
    ensures Streams(d)
  {
  }

  /** The connection takes one more reply. */
  lemma Takes(s: Session, d: Session, r: Reply)
    requires Distinct(s.wire) && GoodReplies(d.results, s.wire) && Streams(s)
    requires GoodReply(d.results, r) && ReplyIds(r) !! WireIds(s.wire)
    requires d.wire == s.wire + [r] && d.received == s.received && s.link.sent <= d.link.sent
    requires d.link.sent + d.link.out == s.link.sent + s.link.out + Frame(r)
    ensures Distinct(d.wire) && GoodReplies(d.results, d.wire) && Streams(d)
    ensures WireIds(d.wire) == WireIds(s.wire) + ReplyIds(r)
  {
    hide GoodReply, Streams, ReplyIds, WireIds, Distinct;
    WireIdsSnoc(s.wire, r);
    TakenStreams(s, d, r);
  }

  /** The procedure returns on the loop thread of a connected connection. */
  lemma SentKeepsInv(s: Session, id: int, v: Value, w: Net.Write)
    requires Inv(s) && id in s.open && RoundTrip.Readable(v) && s.link.state == Net.Connected
    requires Writes(s.link, Frame(Result(id, v)), w)
    ensures Inv(Completed(s, id, v, Net.LOOP_THREAD, w))
    ensures WireIds(Completed(s, id, v, Net.LOOP_THREAD, w).wire) == WireIds(s.wire) + {id}
  {
    hide ClientInv, WireIds, FiredIds, QueueIds, GoodReply, Distinct, LinkOk, Streams, Parallel, OwnSent,
      RightResults, GoodQueue, GoodReplies, Frame, Partition;
    var d, e := Completed(s, id, v, Net.LOOP_THREAD, w), Returned(s, id, v);
    Returns(s, id, v);
    OwnSends(s.link, Frame(Result(id, v)), w);
    assert {id} !! WireIds(s.wire) by { OpenIsApart(s, id); }
    Takes(s, d, Result(id, v));
    SameReplies(e, d);
    assert Partition(d) by { OpenToWire(s, d, id); }
  }

  lemma OpenIsApart(s: Session, id: int)
    requires Partition(s) && id in s.open
    ensures id !in WireIds(s.wire)
  {
    hide WireIds, FiredIds, QueueIds;
  }

  lemma OpenToWire(s: Session, d: Session, id: int)
    requires Partition(s) && id in s.open && id in s.client.issued
    requires d == s.(open := s.open - {id}, wire := d.wire, results := d.results, link := d.link)
    requires WireIds(d.wire) == WireIds(s.wire) + {id} && d.results.Keys == s.results.Keys + {id}
    ensures Partition(d)
  {
    hide WireIds, FiredIds, QueueIds;
  }

  /** It returns on another thread while the connection is connected. */
  lemma TestedKeepsInv(s: Session, id: int, v: Value, p: Net.Thread, w: Net.Write)
    requires Inv(s) && id in s.open && RoundTrip.Readable(v) && s.link.state == Net.Connected
    requires p != Net.LOOP_THREAD
    ensures Inv(Completed(s, id, v, p, w))
  {
    hide ClientInv, WireIds, FiredIds, QueueIds, GoodReply, Distinct, LinkOk, Streams, Parallel, RightResults,
      GoodQueue, GoodReplies, Frame, Partition;
    var d, e := Completed(s, id, v, p, w), Returned(s, id, v);
    Returns(s, id, v);
    StreamKept(s, d);
    SameReplies(e, d.(between := s.between));
    MoreBetween(e, d, id);
    assert Partition(d) by { OpenToBetween(s, d, id); }
  }

  lemma MoreBetween(s: Session, d: Session, id: int)
    requires GoodQueue(s) && Parallel(s) && RightResults(s) && GoodReply(s.results, Answered(s.results, id))
    requires d == s.(between := d.between) && d.between.Keys == s.between.Keys + {id} && id in s.results
    ensures GoodQueue(d) && Parallel(d) && RightResults(d)
  {
    hide GoodReply, Frame;
  }

  lemma OpenToBetween(s: Session, d: Session, id: int)
    requires Partition(s) && id in s.open && id in s.client.issued
    requires d == s.(open := s.open - {id}, between := d.between, results := d.results)
    requires d.between.Keys == s.between.Keys + {id} && d.results.Keys == s.results.Keys + {id}
    ensures Partition(d)
  {
    hide WireIds, FiredIds, QueueIds;
  }

  /** send() gives up. */
  lemma MutedKeepsInv(s: Session, id: int, v: Value, p: Net.Thread, w: Net.Write)
    requires Inv(s) && id in s.open && RoundTrip.Readable(v) && s.link.state != Net.Connected
    ensures Inv(Completed(s, id, v, p, w))
  {
    hide ClientInv, WireIds, FiredIds, QueueIds, GoodReply, Distinct, LinkOk, Streams, Parallel, RightResults,
      GoodQueue, GoodReplies, Frame, Partition;
    var d, e := Completed(s, id, v, p, w), Returned(s, id, v);
    Returns(s, id, v);
    StreamKept(s, d);
    SameReplies(e, d);
    assert Partition(d) by { OpenToMuted(s, d, {id}); }
  }

  lemma OpenToMuted(s: Session, d: Session, ids: set<int>)
    requires Partition(s) && ids <= s.open && (d.results == s.results || ids <= s.client.issued.Keys)
    requires d == s.(open := s.open - ids, muted := s.muted + ids, results := d.results, link := d.link)
    requires d.results.Keys == s.results.Keys || d.results.Keys == s.results.Keys + ids
    ensures Partition(d)
  {
    hide WireIds, FiredIds, QueueIds;
  }

  lemma QueueKeepsInv(s: Session, id: int)
    requires Inv(s) && id in s.between
    ensures Inv(Queued(s, id))
  {
    hide ClientInv, WireIds, FiredIds, QueueIds, GoodReply, GoodReplies, Distinct, Frame, RightResults, Partition,
      LinkOk, Streams;
    var d := Queued(s, id);
    QueueIdsSnoc(s.queue, id);
    assert id !in QueueIds(s.queue) by { BetweenIsApart(s, id); }
    NotQueued(s.queue, id);
    SameReplies(s, d.(queue := s.queue, between := s.between));
    SameFired(s, d);
    LinkQueues(s.link, Net.Message(s.between[id], Frame(Answered(s.results, id))));
    StreamKept(s, d);
    assert d.between.Keys == s.between.Keys - {id};
    assert Partition(d) by { BetweenToQueue(s, d, id); }
  }

  lemma SameFired(s: Session, d: Session)
    requires s.results == d.results && s.client == d.client
    ensures RightResults(s) ==> RightResults(d)
  {
  }

  lemma LinkQueues(link: Net.Connection, m: Net.Message)
    requires LinkOk(link) && m.thread != Net.LOOP_THREAD
    ensures LinkOk(Net.Effect(link, Net.QueueSend(m)))
  {
    hide Net.TakenBytes;
  }

  lemma BetweenIsApart(s: Session, id: int)
    requires Partition(s) && id in s.between
    ensures id !in QueueIds(s.queue)
  {
    hide WireIds, FiredIds, QueueIds;
  }

  lemma BetweenToQueue(s: Session, d: Session, id: int)
    requires Partition(s) && id in s.between
    requires d == s.(between := s.between - {id}, queue := d.queue, link := d.link)
    requires QueueIds(d.queue) == QueueIds(s.queue) + {id}
    ensures Partition(d)
  {
    hide WireIds, FiredIds, QueueIds;
    assert d.between.Keys == s.between.Keys - {id};
  }

  lemma NotQueued(queue: seq<int>, id: int)
    requires id !in QueueIds(queue)
    ensures forall i :: 0 <= i < |queue| ==> queue[i] != id
  {
  }

  lemma RanKeepsInv(s: Session, w: Net.Write)
    requires Inv(s) && Enabled(s, RunQueued(w))
    ensures Inv(Ran(s, w))
    ensures WireIds(Ran(s, w).wire) == WireIds(s.wire) + if s.link.fin then {} else {s.queue[0]}
  {
    hide ClientInv, WireIds, FiredIds, QueueIds, GoodReply, GoodReplies, Distinct, Frame, RightResults, Partition,
      LinkOk, Streams, NextRun;
    var d, id := Ran(s, w), s.queue[0];
    var r := Answered(s.results, id);
    RunsNext(s.link, w);
    QueueIdsRest(s.queue);
    SameFired(s, d);
    assert id !in WireIds(s.wire) by { QueueIsApart(s, id); }
    if s.link.fin {
      StreamKept(s, d);
      assert Partition(d) by { QueueToDropped(s, d, id); }
    } else {
      Takes(s, d, r);
      assert Partition(d) by { QueueToWire(s, d, id); }
    }
  }

  lemma QueueIsApart(s: Session, id: int)
    requires Partition(s) && id in QueueIds(s.queue)
    ensures id !in WireIds(s.wire)
  {
    hide WireIds, FiredIds, QueueIds;
  }

  lemma QueueToWire(s: Session, d: Session, id: int)
    requires Partition(s) && id in QueueIds(s.queue)
    requires d == s.(queue := d.queue, wire := d.wire, link := d.link)
    requires QueueIds(d.queue) == QueueIds(s.queue) - {id} && WireIds(d.wire) == WireIds(s.wire) + {id}
    ensures Partition(d)
  {
    hide WireIds, FiredIds, QueueIds;
  }

  lemma QueueToDropped(s: Session, d: Session, id: int)
    requires Partition(s) && id in QueueIds(s.queue)
    requires d == s.(queue := d.queue, dropped := s.dropped + {id}, link := d.link)
    requires QueueIds(d.queue) == QueueIds(s.queue) - {id}
    ensures Partition(d)
  {
    hide WireIds, FiredIds, QueueIds;
  }

  lemma RefusedKeepsInv(s: Session, id: Option<int>, e: Value, w: Net.Write)
    requires Inv(s) && Enabled(s, Refuse(id, e, w))
    ensures Inv(Refused(s, id, e, w))
    ensures WireIds(s.wire) <= WireIds(Refused(s, id, e, w).wire) <= WireIds(s.wire) + Named(id)
  {
    hide ClientInv, WireIds, FiredIds, QueueIds, GoodReply, GoodReplies, GoodQueue, Distinct, Frame, RightResults,
      Partition, LinkOk, Streams, OwnSent, Parallel, Net.AskShutdown;
    var d, r := Refused(s, id, e, w), Refusal(id, e);
    if s.link.state == Net.Connected {
      OwnSends(s.link, Frame(r), w);
      ShutsDown(OwnSent(s.link, Frame(r), w));
      assert GoodReply(s.results, r) && ReplyIds(r) !! WireIds(s.wire) by { RefusalIsGood(s, id, e); }
      Takes(s, d, r);
      assert Partition(d) by { RefusedToWire(s, d, Named(id)); }
    } else {
      ShutsDown(s.link);
      StreamKept(s, d);
      assert Partition(d) by { OpenToMuted(s, d, Named(id)); }
    }
    SameReplies(s, d);
  }

  lemma RefusalIsGood(s: Session, id: Option<int>, e: Value)
    requires Partition(s) && Named(id) <= s.open && RoundTrip.Readable(ErrorResponse(e))
    ensures GoodReply(s.results, Refusal(id, e)) && Named(id) !! WireIds(s.wire)
  {
    hide WireIds, FiredIds, QueueIds, RoundTrip.Readable;
  }

  lemma RefusedToWire(s: Session, d: Session, ids: set<int>)
    requires Partition(s) && ids <= s.open
    requires d == s.(open := s.open - ids, wire := d.wire, link := d.link)
    requires WireIds(d.wire) == WireIds(s.wire) + ids
    ensures Partition(d)
  {
    hide WireIds, FiredIds, QueueIds;
  }

  lemma FlushKeepsInv(s: Session, w: Net.Write)
    requires Inv(s) && Enabled(s, Flush(w))
    ensures Inv(Effect(s, Flush(w)))
  {
    hide ClientInv, WireIds, FiredIds, QueueIds, GoodReply, GoodReplies, GoodQueue, Distinct, Frame, RightResults,
      LinkOk, Streams, Parallel, Net.Effect;
    Flushes(s.link, w);
    var d := Effect(s, Flush(w));
    SameReplies(s, d);
    StreamKept(s, d);
  }

  /** The bytes that come next are the frame of the first reply of the wire. */
  lemma NextBytes(s: Session)
    requires Streams(s) && Enabled(s, Arrive)
    ensures s.link.sent[|s.received|..|s.received| + |Frame(s.wire[0])|] == Frame(s.wire[0])
    ensures Streams(s.(wire := s.wire[1..], received := s.received + Frame(s.wire[0])))
  {
    hide Frame;
    var f, rest, n := Frame(s.wire[0]), Frames(s.wire[1..]), |s.received|;
    NextSlice(s.received, f, rest, s.link.sent, s.link.out);
    Net.Regroup(s.received, f, rest);
  }

  lemma NextSlice(a: Bytes, f: Bytes, rest: Bytes, sent: Bytes, out: Bytes)
    requires a + (f + rest) == sent + out && |a| + |f| <= |sent|
    ensures sent[|a|..|a| + |f|] == f
  {
    assert (a + (f + rest))[|a|..|a| + |f|] == f;
    assert (sent + out)[|a|..|a| + |f|] == sent[|a|..|a| + |f|];
  }

  lemma ArriveKeepsInv(s: Session)
    requires Inv(s) && Enabled(s, Arrive)
    ensures Inv(Arrived(s)) && Handle(s.client, ReplyBody(s.wire[0])).Kept?
    ensures var d := Arrived(s); forall x :: x in s.results ==>
      (x in FiredIds(d.client.fired) + WireIds(d.wire) <==> x in FiredIds(s.client.fired) + WireIds(s.wire))
  {
    hide ClientInv, WireIds, FiredIds, QueueIds, GoodReplies, GoodQueue, Frame, RightResults, Partition, LinkOk,
      Streams, Parallel, Handle, Distinct, RoundTrip.Readable;
    var d, r := Arrived(s), s.wire[0];
    NextBytes(s);
    StreamKept(s.(wire := s.wire[1..], received := s.received + Frame(r)), d);
    FirstIsGood(s);
    SameReplies(s, d.(client := s.client));
    ClientApart(d.(client := s.client), d);
    if r.Result? {
      ResultArrives(s);
      SameFired(s.(client := d.client), d);
      assert Partition(d) by { WireToFired(s, d, r.id); }
    } else {
      ErrorsReachNoCallback(s.client, r.error);
      SameFired(s, d);
      assert Partition(d) by { WireToLost(s, d, ReplyIds(r)); }
    }
  }

  lemma ClientApart(s: Session, d: Session)
    requires d == s.(client := d.client)
    ensures GoodQueue(s) ==> GoodQueue(d)
    ensures Parallel(s) ==> Parallel(d)
    ensures Streams(s) ==> Streams(d)
  {
  }

  lemma FirstIsGood(s: Session)
    requires s.wire != [] && Distinct(s.wire) && GoodReplies(s.results, s.wire)
    ensures GoodReply(s.results, s.wire[0]) && ReplyIds(s.wire[0]) <= WireIds(s.wire)
    ensures WireIds(s.wire[1..]) == WireIds(s.wire) - ReplyIds(s.wire[0])
    ensures Distinct(s.wire[1..]) && GoodReplies(s.results, s.wire[1..])
  {
    hide GoodReply, ReplyIds;
  }

  lemma ResultArrives(s: Session)
    requires ClientInv(s.client) && RightResults(s) && Partition(s) && s.wire != [] && s.wire[0].Result?
    requires GoodReply(s.results, s.wire[0]) && ReplyIds(s.wire[0]) <= WireIds(s.wire)
    ensures var r, d := s.wire[0], Received(s.client, ReplyBody(s.wire[0]));
      && Handle(s.client, ReplyBody(r)) == Kept(d) && ClientInv(d)
      && d.pending.Keys == s.client.pending.Keys - {r.id}
      && d.nextId == s.client.nextId && d.issued == s.client.issued && d.erased == s.client.erased
      && FiredIds(d.fired) == FiredIds(s.client.fired) + {r.id}
      && RightResults(s.(client := d))
  {
    hide ClientInv, WireIds, FiredIds, QueueIds, RoundTrip.Readable;
    var r := s.wire[0];
    FiredIdsNext(s.client.fired, Fired(r.id, s.client.pending[r.id], r.result, false));
    ResultReachesCallback(s.client, r.id, r.result);
    FireKeepsInv(s.client, r.id, r.result, false);
    assert r.id in s.client.pending;
    assert Fire(s.client, r.id, r.result, false).pending.Keys == s.client.pending.Keys - {r.id};
  }

  lemma WireToFired(s: Session, d: Session, id: int)
    requires Partition(s) && id in WireIds(s.wire) && WireIds(d.wire) == WireIds(s.wire) - {id}
    requires d == s.(client := d.client, wire := d.wire, received := d.received)
    requires d.client.pending.Keys == s.client.pending.Keys - {id} && d.client.nextId == s.client.nextId
    requires d.client.issued == s.client.issued && d.client.erased == s.client.erased
    requires FiredIds(d.client.fired) == FiredIds(s.client.fired) + {id}
    ensures Partition(d)
  {
    hide WireIds, FiredIds, QueueIds;
  }

  lemma WireToLost(s: Session, d: Session, ids: set<int>)
    requires Partition(s) && ids <= WireIds(s.wire) && WireIds(d.wire) == WireIds(s.wire) - ids
    requires d == s.(wire := d.wire, received := d.received, lost := s.lost + ids) && s.results.Keys !! ids
    ensures Partition(d)
  {
    hide WireIds, FiredIds, QueueIds;
  }

  lemma StepKeepsInv(s: Session, a: Action)
    requires Inv(s) && Enabled(s, a)
    ensures Inv(Effect(s, a))
  {
    hide Inv, Completed, Queued, Ran, Refused, Arrived;
    match a
    case MakeCall(cb) => CallKeepsInv(s, cb);
    case Complete(id, v, p, w) => CompletedKeepsInv(s, id, v, p, w);
    case Queue(id) => QueueKeepsInv(s, id);
    case RunQueued(w) => RanKeepsInv(s, w);
    case Refuse(id, e, w) => RefusedKeepsInv(s, id, e, w);
    case Flush(w) => FlushKeepsInv(s, w);
    case Arrive => ArriveKeepsInv(s);
  }

  lemma CompletedKeepsInv(s: Session, id: int, v: Value, p: Net.Thread, w: Net.Write)
    requires Inv(s) && Enabled(s, Complete(id, v, p, w))
    ensures Inv(Completed(s, id, v, p, w))
  {
    hide Inv, Completed;
    if s.link.state != Net.Connected {
      MutedKeepsInv(s, id, v, p, w);
    } else if p == Net.LOOP_THREAD {
      SentKeepsInv(s, id, v, w);
    } else {
      TestedKeepsInv(s, id, v, p, w);
    }
  }

  lemma StartInv()
    ensures Inv(Start())
  {
    NewClientInv();
  }

  lemma {:induction false} RunKeepsInv(s: Session, run: seq<Action>)
    requires Inv(s) && After(s, run).Reached?
    ensures Inv(After(s, run).session)
    decreases |run|
  {
    hide Inv, Effect, Enabled;
    if run != [] {
      StepKeepsInv(s, run[0]);
      RunKeepsInv(Effect(s, run[0]), run[1..]);
    }
  }

  /** In every session, for every order of completion: a callback is called at most once, only for its
      own call, with what the procedure of that call returned. The table holds exactly the calls still
      executed, those whose reply waits for the loop or travels, those the server refused, those whose
      send() gave up and those whose queued reply met a connection shut down for writing. The client
      has received a prefix of what the connection sent, and the frames under way are all of the rest. */
  lemma EverySession(run: seq<Action>)
    requires After(Start(), run).Reached?
    ensures var s := After(Start(), run).session;
      && ClientInv(s.client) && RightResults(s) && s.client.erased == {}
      && s.client.pending.Keys
           == s.open + s.between.Keys + QueueIds(s.queue) + WireIds(s.wire) + s.lost + s.muted + s.dropped
      && s.received + Frames(s.wire) == s.link.sent + s.link.out
  {
    hide ClientInv;
    StartInv();
    RunKeepsInv(Start(), run);
  }

  // ----- which completed calls reach their callback -----

  /** The call returned, and its callback was called or the connection has taken its reply. */
  predicate Safe(s: Session, id: int) {
    id in s.results && id in FiredIds(s.client.fired) + WireIds(s.wire)
  }

  /** The send of the reply of id runs, on a connection that is connected, or, for a queued reply, that
      has not issued SHUT_WR. */
  predicate GoesOut(s: Session, a: Action, id: int)
    requires Enabled(s, a)
  {
    match a
    case Complete(i, _, p, _) => i == id && p == Net.LOOP_THREAD && s.link.state == Net.Connected
    case RunQueued(_) => s.queue[0] == id && !s.link.fin
    case _ => false
  }

  lemma CompleteSafe(s: Session, id: int, v: Value, p: Net.Thread, w: Net.Write, x: int)
    requires Inv(s) && Enabled(s, Complete(id, v, p, w))
    ensures Safe(Completed(s, id, v, p, w), x)
       <==> Safe(s, x) || (id == x && p == Net.LOOP_THREAD && s.link.state == Net.Connected)
  {
    hide ClientInv, WireIds, FiredIds, QueueIds, Lines, RightResults, RoundTrip.Readable, OwnSent, Partition, Frame;
    Returns(s, id, v);
    assert id !in WireIds(s.wire) by { OpenIsApart(s, id); }
    if p == Net.LOOP_THREAD && s.link.state == Net.Connected { SentKeepsInv(s, id, v, w); }
  }

  lemma RunSafe(s: Session, w: Net.Write, x: int)
    requires Inv(s) && Enabled(s, RunQueued(w))
    ensures Safe(Ran(s, w), x) <==> Safe(s, x) || (s.queue[0] == x && !s.link.fin)
  {
    hide ClientInv, WireIds, FiredIds, QueueIds, RightResults, Partition, GoodReply, GoodReplies, Parallel, LinkOk,
      Streams, Distinct, NextRun, Writes;
    RanKeepsInv(s, w);
    InQueue(s.queue, 0);
  }

  lemma RefuseSafe(s: Session, id: Option<int>, e: Value, w: Net.Write, x: int)
    requires Inv(s) && Enabled(s, Refuse(id, e, w))
    ensures Safe(Refused(s, id, e, w), x) <==> Safe(s, x)
  {
    hide ClientInv, WireIds, FiredIds, QueueIds, RightResults, Lines, OwnSent, Net.AskShutdown, Partition, Frame;
    RefusedKeepsInv(s, id, e, w);
    assert s.results.Keys !! Named(id) by { OpenUnanswered(s, Named(id)); }
  }

  lemma OpenUnanswered(s: Session, ids: set<int>)
    requires Partition(s) && ids <= s.open
    ensures s.results.Keys !! ids
  {
    hide WireIds, FiredIds, QueueIds;
  }

  /** A step makes a reply safe exactly when it goes out in that step, and none unsafe. */
  lemma StepSafe(s: Session, a: Action, x: int)
    requires Inv(s) && Enabled(s, a)
    ensures Safe(Effect(s, a), x) <==> Safe(s, x) || GoesOut(s, a, x)
  {
    hide Inv, Completed, Ran, Refused, Arrived, FiredIds, WireIds, Net.Effect;
    match a
    case Complete(id, v, p, w) => CompleteSafe(s, id, v, p, w, x);
    case RunQueued(w) => RunSafe(s, w, x);
    case Refuse(id, e, w) => RefuseSafe(s, id, e, w, x);
    case Arrive =>
      ArriveKeepsInv(s);
      assert Arrived(s).results == s.results by { ArrivesUnanswered(s); }
    case _ =>
  }

  lemma ArrivesUnanswered(s: Session)
    requires Enabled(s, Arrive)
    ensures Arrived(s).results == s.results
  {
  }

  /** The run ends with nothing under way: no thread about to queue, nothing queued, nothing travelling. */
  predicate Drains(s: Session, run: seq<Action>) {
    && After(s, run).Reached?
    && var d := After(s, run).session; d.between.Keys == {} && d.queue == [] && d.wire == []
  }

  /** Somewhere in the run the reply of id goes out. */
  predicate SentInTime(s: Session, run: seq<Action>, id: int)
    decreases |run|
  {
    run != [] && Enabled(s, run[0]) && (GoesOut(s, run[0], id) || SentInTime(Effect(s, run[0]), run[1..], id))
  }

  lemma {:induction false} FiredIff(s: Session, run: seq<Action>, id: int)
    requires Inv(s) && Drains(s, run)
    ensures id in FiredIds(After(s, run).session.client.fired) <==> Safe(s, id) || SentInTime(s, run, id)
    decreases |run|
  {
    hide Inv, Effect, Enabled, GoesOut, Safe, FiredIds;
    if run == [] {
      NothingUnderWay(s, id);
    } else {
      StepSafe(s, run[0], id);
      StepKeepsInv(s, run[0]);
      FiredIff(Effect(s, run[0]), run[1..], id);
    }
  }

  lemma NothingUnderWay(s: Session, id: int)
    requires Inv(s) && s.wire == []
    ensures id in FiredIds(s.client.fired) <==> Safe(s, id)
  {
    hide ClientInv, Lines;
    FiredApart(s.client.fired, id);
  }

  /** In every session that has been drained, a callback was called exactly when the send of its reply
      ran while the connection was connected, or from the queue before SHUT_WR was issued. */
  lemma CompletedReachesCallbackIff(run: seq<Action>, id: int)
    requires Drains(Start(), run)
    ensures id in FiredIds(After(Start(), run).session.client.fired) <==> SentInTime(Start(), run, id)
  {
    hide Inv, SentInTime, Drains;
    StartInv();
    FiredIff(Start(), run, id);
  }

  /** The run contains a refusal. */
  predicate HasRefusal(run: seq<Action>) { run != [] && (run[0].Refuse? || HasRefusal(run[1..])) }

  lemma {:induction false} ConnectedIff(s: Session, run: seq<Action>)
    requires Inv(s) && After(s, run).Reached?
    ensures After(s, run).session.link.state == Net.Connected
       <==> s.link.state == Net.Connected && !HasRefusal(run)
    decreases |run|
  {
    hide Inv, Effect, Enabled;
    if run != [] {
      StepConnected(s, run[0]);
      StepKeepsInv(s, run[0]);
      ConnectedIff(Effect(s, run[0]), run[1..]);
    }
  }

  lemma QueueingStays(link: Net.Connection, m: Net.Message)
    requires m.thread != Net.LOOP_THREAD
    ensures Net.Effect(link, Net.QueueSend(m)).state == link.state
  {
  }

  lemma StepConnected(s: Session, a: Action)
    requires Inv(s) && Enabled(s, a)
    ensures Effect(s, a).link.state == Net.Connected <==> s.link.state == Net.Connected && !a.Refuse?
  {
    hide ClientInv, RightResults, Partition, Received, Frame, GoodReplies, GoodQueue, Distinct, Streams, Parallel,
      LinkOk, OwnSent, NextRun, Net.Effect;
    match a
    case Complete(id, v, p, w) =>
      if s.link.state == Net.Connected && p == Net.LOOP_THREAD { OwnSends(s.link, Frame(Result(id, v)), w); }
    case Queue(id) =>
      QueueingStays(s.link, Net.Message(s.between[id], Frame(Answered(s.results, id))));
    case RunQueued(w) => RunsNext(s.link, w);
    case Flush(w) => Flushes(s.link, w);
    case _ =>
  }

  lemma NullIsReadable()
    ensures RoundTrip.Readable(ErrorResponse(Null))
  {
    hide Insert, Less, PlainKey;
    ErrorResponseMembers(Null);
    KeysInOrder();
    KeysArePlain();
    ErrorKeyIsPlain();
    var ms := ErrorResponse(Null).members;
    assert ms[0] == Member(ERROR, Null) && ms[1] == Member(JSONRPC, Str(VERSION));
    assert Ascending(ms);
  }

  lemma ErrorKeyIsPlain()
    ensures PlainKey(ERROR)
  {
  }

  /** The first steps of one way to end a session: the server refuses something, and the output drains. */
  lemma Closes(s: Session) returns (a: Action)
    requires Inv(s) && !s.link.fin
    ensures Enabled(s, a) && forall x :: !GoesOut(s, a, x)
    ensures if s.link.state == Net.Connected then Effect(s, a).link.state != Net.Connected
            else Effect(s, a).link.state != Net.Connected && Effect(s, a).link.fin
  {
    hide ClientInv, RightResults, Partition, Frame, GoodReplies, GoodQueue, Distinct, Streams, RoundTrip.Readable,
      Net.TakenBytes, OwnSent, Parallel;
    if s.link.state == Net.Connected {
      NullIsReadable();
      a := Refuse(None, Null, if s.link.writing then Net.Again else Net.Wrote(|Frame(Refusal(None, Null))|));
      StepConnected(s, a);
    } else {
      a := Flush(Net.Wrote(|s.link.out|));
      Flushes(s.link, Net.Wrote(|s.link.out|));
    }
  }

  function Left(s: Session): nat { 2 * |s.between| + |s.queue| + |s.wire| }

  /** The rest of it: what is queued after SHUT_WR is dropped, and the client receives the others. */
  lemma Delivers(s: Session) returns (a: Action)
    requires Inv(s) && s.link.fin && !(s.between.Keys == {} && s.queue == [] && s.wire == [])
    ensures Enabled(s, a) && forall x :: !GoesOut(s, a, x)
    ensures Effect(s, a).link.fin && Left(Effect(s, a)) < Left(s)
  {
    hide Inv, Left, Queued, Ran, Arrived, Frame;
    if forall id :: id !in s.between.Keys {
      assert s.between.Keys == {};
      if s.queue != [] {
        a := RunQueued(Net.Broken);
        RunningLeaves(s);
      } else {
        a := Arrive;
        ArrivingLeaves(s);
      }
    } else {
      var id :| id in s.between.Keys;
      a := Queue(id);
      QueueingLeaves(s, id);
    }
  }

  lemma QueueingLeaves(s: Session, id: int)
    requires s.link.fin && id in s.between
    ensures Queued(s, id).link.fin && Left(Queued(s, id)) < Left(s)
  {
    OneLess(s.between, id);
  }

  lemma RunningLeaves(s: Session)
    requires Inv(s) && s.link.fin && s.queue != []
    ensures Enabled(s, RunQueued(Net.Broken)) && Ran(s, Net.Broken).link.fin && Left(Ran(s, Net.Broken)) < Left(s)
  {
    hide ClientInv, RightResults, Partition, GoodReplies, GoodQueue, Distinct, Streams, Frame, NextRun, LinkOk;
    RunsNext(s.link, Net.Broken);
  }

  lemma ArrivingLeaves(s: Session)
    requires Inv(s) && s.link.fin && s.wire != []
    ensures Enabled(s, Arrive) && Arrived(s).link.fin && Left(Arrived(s)) < Left(s)
  {
    hide ClientInv, RightResults, Partition, GoodReplies, GoodQueue, Distinct, Parallel, Received, Frame, Streams,
      LinkOk;
    AllSent(s);
  }

  lemma OneLess(between: map<int, OtherThread>, id: int)
    requires id in between
    ensures |between - {id}| == |between| - 1
  {
    assert (between - {id}).Keys == between.Keys - {id};
  }

  lemma AllSent(s: Session)
    requires LinkOk(s.link) && Streams(s) && s.link.fin && s.wire != []
    ensures |s.received| + |Frame(s.wire[0])| <= |s.link.sent|
  {
    hide Frame, Net.TakenBytes;
    assert |s.received + Frames(s.wire)| == |s.link.sent|;
  }

  /** Every session can end, and so that no further reply goes out. */
  lemma {:induction false} Ends(s: Session) returns (run: seq<Action>)
    requires Inv(s)
    ensures Drains(s, run) && forall x :: !SentInTime(s, run, x)
    decreases if s.link.state == Net.Connected then 1 else 0, if s.link.fin then 0 else 1, Left(s)
  {
    hide Inv, Enabled, Effect, GoesOut, Left;
    if s.link.fin && s.between.Keys == {} && s.queue == [] && s.wire == [] {
      run := [];
    } else {
      FinIsNotConnected(s);
      var a;
      if s.link.fin { a := Delivers(s); } else { a := Closes(s); }
      StepKeepsInv(s, a);
      FinIsNotConnected(Effect(s, a));
      var rest := Ends(Effect(s, a));
      run := [a] + rest;
      assert run[1..] == rest;
    }
  }

  lemma FinIsNotConnected(s: Session)
    requires Inv(s)
    ensures s.link.fin ==> s.link.state != Net.Connected
  {
    hide ClientInv, RightResults, Partition, GoodReplies, GoodQueue, Distinct, Streams, Parallel, Net.TakenBytes;
  }

  /** Whether the callback of a call that returns is sure to be called: in every continuation that is
      drained, exactly when the procedure returns on the loop thread and the server has refused nothing
      before. A reply that another thread has to queue can be overtaken by the half-close that follows
      a refusal. */
  lemma ReturnReachesCallbackIff(before: seq<Action>, a: Action)
    requires After(Start(), before).Reached? && a.Complete? && Enabled(After(Start(), before).session, a)
    ensures var d := Effect(After(Start(), before).session, a);
      (forall rest :: Drains(d, rest) ==> a.done in FiredIds(After(d, rest).session.client.fired))
        <==> a.thread == Net.LOOP_THREAD && !HasRefusal(before)
  {
    hide Inv, Effect, Enabled, FiredIds, HasRefusal, Safe, After, SentInTime;
    StartInv();
    RunKeepsInv(Start(), before);
    ConnectedIff(Start(), before);
    var s := After(Start(), before).session;
    var d := Effect(s, a);
    StepKeepsInv(s, a);
    StepSafe(s, a, a.done);
    NotSafeBefore(s, a);
    if GoesOut(s, a, a.done) {
      forall rest | Drains(d, rest)
        ensures a.done in FiredIds(After(d, rest).session.client.fired)
      {
        FiredIff(d, rest, a.done);
      }
    } else {
      var rest := Ends(d);
      FiredIff(d, rest, a.done);
    }
  }

  lemma NotSafeBefore(s: Session, a: Action)
    requires Inv(s) && a.Complete? && Enabled(s, a)
    ensures !Safe(s, a.done)
  {
    hide ClientInv, RightResults, Lines, WireIds, FiredIds, QueueIds;
  }
}
