/** Messages cut out of a byte stream: a header "<length>i32" CRLF, then that many bytes
    (RpcServer/Server/BaseServer.cpp). How TCP cuts the stream into deliveries is arbitrary. */
module Framing {
  import opened Octets
  import opened Buffers

  type Positive = n: nat | n > 0 witness 1

  /** What a receiver makes of a header line: a length, a malformed header, a length beyond its limit,
      or a failed assert of the reader. */
  datatype Verdict = Length(n: Positive) | Malformed | BeyondLimit | Crash

  /** A receiver: how it judges headers, and for which bodies its request handler returns normally;
      any other body makes the handler throw. */
  datatype Endpoint = Endpoint(judge: Bytes -> Verdict, accepts: Bytes -> bool)

  /** What the bytes buffered so far start with. */
  datatype Frame =
    | NeedMore                          // no complete header, or not yet the whole body
    | BadHeader(header: nat)            // the header is dropped and the request refused
    | TooLong                           // refused, but the bytes stay where they are
    | HeaderAborts                      // an assert fails on the header
    | Whole(header: nat, body: nat)

  function NextFrame(x: Bytes, e: Endpoint): (f: Frame)
    ensures f.Whole? ==> 0 < f.header && 0 < f.body && f.header + f.body <= |x|
    ensures f.BadHeader? ==> 0 < f.header <= |x|
  {
    var crlf := FirstCrlf(x, 0);
    if crlf == |x| then NeedMore
    else
      var header := crlf + 2;
      match e.judge(x[..header])
      case Crash => HeaderAborts
      case Malformed => BadHeader(header)
      case BeyondLimit => TooLong
      case Length(n) => if |x| < header + n then NeedMore else Whole(header, n)
  }

  /** Why the loop of handleMessage stopped. */
  datatype End = Waiting | Broken | Overlong | Aborted | Refused

  datatype Run = Run(bodies: seq<Bytes>, rest: Bytes, end: End)

  /** handleMessage on the buffered bytes x; an exception of the request handler ends the loop. */
  function Deframe(x: Bytes, e: Endpoint): (r: Run)
    ensures |r.rest| <= |x|
    decreases |x|
  {
    match NextFrame(x, e)
    case NeedMore => Run([], x, Waiting)
    case BadHeader(n) => Run([], x[n..], Broken)
    case TooLong => Run([], x, Overlong)
    case HeaderAborts => Run([], x, Aborted)
    case Whole(n, m) =>
      var body := x[n..n + m];
      if e.accepts(body) then
        var r := Deframe(x[n + m..], e);
        Run([body] + r.bodies, r.rest, r.end)
      else Run([body], x[n + m..], Refused)
  }

  function Concat(chunks: seq<Bytes>): Bytes {
    if chunks == [] then [] else chunks[0] + Concat(chunks[1..])
  }

  /** Everything the connection handed to the request handler, and the bytes left in the buffer,
      after the chunks were delivered one by one. After a refusal the server goes on reading. */
  datatype Session = Session(bodies: seq<Bytes>, rest: Bytes)

  function Deliver(held: Bytes, chunks: seq<Bytes>, e: Endpoint): Session
    decreases chunks
  {
    if chunks == [] then Session([], held)
    else
      var r := Deframe(held + chunks[0], e);
      var s := Deliver(r.rest, chunks[1..], e);
      Session(r.bodies + s.bodies, s.rest)
  }

  /** The bodies up to the first refusal or framing error, delivery by delivery. */
  function DeliverUntilError(held: Bytes, chunks: seq<Bytes>, e: Endpoint): Run
    decreases chunks
  {
    if chunks == [] then Run([], held, Waiting)
    else
      var r := Deframe(held + chunks[0], e);
      if r.end != Waiting then r
      else
        var s := DeliverUntilError(r.rest, chunks[1..], e);
        Run(r.bodies + s.bodies, s.rest, s.end)
  }

  /** All bodies of a stream when the loop is started again after every error. */
  function Resync(x: Bytes, e: Endpoint): seq<Bytes>
    decreases |x|
  {
    match NextFrame(x, e)
    case BadHeader(n) => Resync(x[n..], e)
    case Whole(n, m) => [x[n..n + m]] + Resync(x[n + m..], e)
    case _ => []
  }

  // ----- more bytes do not change a decision -----

  lemma NextFrameStays(x: Bytes, y: Bytes, e: Endpoint)
    requires !NextFrame(x, e).NeedMore?
    ensures NextFrame(x + y, e) == NextFrame(x, e)
  {
    FirstCrlfStays(x, y);
    var header := FirstCrlf(x, 0) + 2;
    assert (x + y)[..header] == x[..header];
  }

  lemma SlicesAppend(x: Bytes, y: Bytes, n: nat, m: nat)
    requires n + m <= |x|
    ensures (x + y)[n..n + m] == x[n..n + m] && (x + y)[n + m..] == x[n + m..] + y && (x + y)[n..] == x[n..] + y
  {
  }

  /** The loop at a complete frame with this body and this rest. */
  lemma TakesFrame(x: Bytes, body: Bytes, rest: Bytes, e: Endpoint)
    requires var f := NextFrame(x, e);
      f.Whole? && x[f.header..f.header + f.body] == body && x[f.header + f.body..] == rest
    ensures var r := Deframe(rest, e);
      Deframe(x, e) == if e.accepts(body) then Run([body] + r.bodies, r.rest, r.end) else Run([body], rest, Refused)
  {
    hide NextFrame;
  }

  /** The loop on x ++ y is the loop on x, continued on what x left over unless x stopped it. */
  lemma {:induction false} DeframeAppend(x: Bytes, y: Bytes, e: Endpoint)
    ensures var r, all := Deframe(x, e), Deframe(x + y, e);
      if r.end != Waiting then all == Run(r.bodies, r.rest + y, r.end)
      else
        var s := Deframe(r.rest + y, e);
        all == Run(r.bodies + s.bodies, s.rest, s.end)
    decreases |x|
  {
    hide NextFrame;
    var f := NextFrame(x, e);
    if !f.NeedMore? { NextFrameStays(x, y, e); }
    if f.Whole? {
      hide Deframe;
      var n, m := f.header, f.body;
      var body, rest := x[n..n + m], x[n + m..];
      SlicesAppend(x, y, n, m);
      TakesFrame(x, body, rest, e);
      TakesFrame(x + y, body, rest + y, e);
      DeframeAppend(rest, y, e);
      BodiesAppend(body, Deframe(rest, e), y, e);
    } else if f.BadHeader? {
      SlicesAppend(x, y, f.header, 0);
    }
  }

  lemma BodiesAppend(body: Bytes, r: Run, y: Bytes, e: Endpoint)
    ensures var s := Deframe(r.rest + y, e);
      [body] + (r.bodies + s.bodies) == [body] + r.bodies + s.bodies
  {
  }

  /** What the loop leaves over holds no frame that it would still take, unless it was stopped. */
  lemma {:induction false} LeftoverWaits(x: Bytes, e: Endpoint)
    requires Deframe(x, e).end == Waiting
    ensures NextFrame(Deframe(x, e).rest, e).NeedMore?
    decreases |x|
  {
    hide NextFrame;
    var f := NextFrame(x, e);
    if f.Whole? { LeftoverWaits(x[f.header + f.body..], e); }
  }

  /** However a stream is cut, the bodies handed out before the first error are those of the whole
      stream, the error is the same, and so are the bytes left over when there is none. */
  lemma {:induction false} ChunkingInvisibleUntilError(held: Bytes, chunks: seq<Bytes>, e: Endpoint)
    requires NextFrame(held, e).NeedMore?
    ensures var d, whole := DeliverUntilError(held, chunks, e), Deframe(held + Concat(chunks), e);
      && d.bodies == whole.bodies && d.end == whole.end
      && (d.end == Waiting ==> d.rest == whole.rest)
      && d.rest <= whole.rest
    decreases chunks
  {
    hide NextFrame, Deframe;
    if chunks == [] {
      assert held + [] == held;
      NothingTaken(held, e);
    } else {
      var x, y := held + chunks[0], Concat(chunks[1..]);
      assert held + Concat(chunks) == x + y;
      DeframeAppend(x, y, e);
      if Deframe(x, e).end == Waiting {
        LeftoverWaits(x, e);
        ChunkingInvisibleUntilError(Deframe(x, e).rest, chunks[1..], e);
      }
    }
  }

  lemma NothingTaken(x: Bytes, e: Endpoint)
    requires NextFrame(x, e).NeedMore?
    ensures Deframe(x, e) == Run([], x, Waiting)
  {
  }

  // ----- after an error -----

  lemma ResyncTakes(x: Bytes, body: Bytes, rest: Bytes, e: Endpoint)
    requires var f := NextFrame(x, e);
      f.Whole? && x[f.header..f.header + f.body] == body && x[f.header + f.body..] == rest
    ensures Resync(x, e) == [body] + Resync(rest, e)
  {
    hide NextFrame;
  }

  /** The loop takes the first of the bodies that the stream holds, and skips none. */
  lemma {:induction false} DeframeThenResync(x: Bytes, y: Bytes, e: Endpoint)
    ensures var r := Deframe(x, e); Resync(x + y, e) == r.bodies + Resync(r.rest + y, e)
    decreases |x|
  {
    hide NextFrame;
    var f := NextFrame(x, e);
    if !f.NeedMore? { NextFrameStays(x, y, e); }
    if f.Whole? {
      hide Deframe, Resync;
      var n, m := f.header, f.body;
      var body, rest := x[n..n + m], x[n + m..];
      SlicesAppend(x, y, n, m);
      TakesFrame(x, body, rest, e);
      ResyncTakes(x + y, body, rest + y, e);
      DeframeThenResync(rest, y, e);
    } else if f.BadHeader? {
      SlicesAppend(x, y, f.header, 0);
    }
  }

  /** Whatever the chunks and the errors: the bodies handed out so far, followed by those still to
      be found in the buffer, are the bodies of the whole stream. None is lost, repeated or moved. */
  lemma {:induction false} ChunkingLosesNothing(held: Bytes, chunks: seq<Bytes>, e: Endpoint)
    ensures var s := Deliver(held, chunks, e);
      s.bodies + Resync(s.rest, e) == Resync(held + Concat(chunks), e)
    decreases chunks
  {
    hide Deframe, Resync;
    if chunks == [] {
      assert held + [] == held;
    } else {
      var x, y := held + chunks[0], Concat(chunks[1..]);
      assert held + Concat(chunks) == x + y;
      DeframeThenResync(x, y, e);
      ChunkingLosesNothing(Deframe(x, e).rest, chunks[1..], e);
    }
  }

  /** One delivery hands out the fewest bodies. */
  lemma {:induction false} WholeHandsOutLeast(held: Bytes, chunks: seq<Bytes>, e: Endpoint)
    requires chunks != []
    ensures Deframe(held + Concat(chunks), e).bodies <= Deliver(held, chunks, e).bodies
    decreases chunks
  {
    hide Deframe;
    var x, y := held + chunks[0], Concat(chunks[1..]);
    assert held + Concat(chunks) == x + y;
    DeframeAppend(x, y, e);
    var r := Deframe(x, e);
    if chunks[1..] == [] {
      assert x + y == x;
    } else if r.end == Waiting {
      WholeHandsOutLeast(r.rest, chunks[1..], e);
    }
  }

  /** The stream one byte at a time. */
  function Singles(x: Bytes): (r: seq<Bytes>)
    ensures |r| == |x|
  {
    if x == [] then [] else [[x[0]]] + Singles(x[1..])
  }

  lemma {:induction false} ConcatSingles(x: Bytes)
    ensures Concat(Singles(x)) == x
  {
    if x != [] { ConcatSingles(x[1..]); }
  }

  /** Adding one byte to bytes that hold no frame completes at most one frame or bad header, which
      then is all there is. */
  lemma OneByteCompletes(x: Bytes, c: Byte, e: Endpoint)
    requires NextFrame(x, e).NeedMore?
    ensures var f := NextFrame(x + [c], e);
      (f.Whole? ==> f.header + f.body == |x| + 1) && (f.BadHeader? ==> f.header == |x| + 1)
  {
    var y := x + [c];
    if FirstCrlf(x, 0) < |x| {
      FirstCrlfStays(x, [c]);
      var header := FirstCrlf(x, 0) + 2;
      assert y[..header] == x[..header];
    } else {
      var at := FirstCrlf(y, 0);
      assert at < |x| - 1 ==> IsCrlf(x, at);
    }
  }

  lemma NoFrameInEmpty(e: Endpoint)
    ensures NextFrame([], e).NeedMore?
  {
  }

  lemma {:induction false} BytewiseLeavesNothing(held: Bytes, x: Bytes, e: Endpoint)
    requires Resync(held, e) == [] && !NextFrame(held, e).BadHeader?
    ensures Resync(Deliver(held, Singles(x), e).rest, e) == []
    decreases |x|
  {
    hide NextFrame;
    if x != [] {
      var y := held + [x[0]];
      assert Singles(x)[0] == [x[0]] && Singles(x)[1..] == Singles(x[1..]);
      if NextFrame(held, e).NeedMore? {
        OneByteCompletes(held, x[0], e);
        NoFrameInEmpty(e);
        var f := NextFrame(y, e);
        if f.Whole? {
          assert y[f.header + f.body..] == [];
        } else if f.BadHeader? {
          assert y[f.header..] == [];
        }
      } else {
        NextFrameStays(held, [x[0]], e);
      }
      BytewiseLeavesNothing(Deframe(y, e).rest, x[1..], e);
    }
  }

  /** No way of cutting the stream shows, exactly when the loop on the whole stream leaves no
      complete frame behind: after an error it must not be followed by one. */
  lemma ChunkingInvisibleIff(x: Bytes, e: Endpoint)
    ensures (forall chunks :: chunks != [] && Concat(chunks) == x
              ==> Deliver([], chunks, e).bodies == Deframe(x, e).bodies)
       <==> Resync(Deframe(x, e).rest, e) == []
  {
    hide Deframe, Resync, Deliver, Concat, NextFrame;
    var whole := Deframe(x, e);
    assert x + [] == x && whole.rest + [] == whole.rest;
    DeframeThenResync(x, [], e);
    if Resync(whole.rest, e) == [] {
      forall chunks | chunks != [] && Concat(chunks) == x
        ensures Deliver([], chunks, e).bodies == whole.bodies
      {
        AgreesWhenNothingIsLeft(chunks, x, e);
      }
    } else {
      BytewiseShows(x, e);
    }
  }

  lemma AgreesWhenNothingIsLeft(chunks: seq<Bytes>, x: Bytes, e: Endpoint)
    requires chunks != [] && Concat(chunks) == x && Resync(Deframe(x, e).rest, e) == []
    ensures Deliver([], chunks, e).bodies == Deframe(x, e).bodies
  {
    hide Deframe, Resync, Deliver, Concat;
    var whole := Deframe(x, e);
    assert x + [] == x && whole.rest + [] == whole.rest && [] + x == x;
    DeframeThenResync(x, [], e);
    ChunkingLosesNothing([], chunks, e);
    WholeHandsOutLeast([], chunks, e);
  }

  lemma BytewiseShows(x: Bytes, e: Endpoint)
    requires Resync(Deframe(x, e).rest, e) != []
    ensures Singles(x) != [] && Concat(Singles(x)) == x
    ensures Deliver([], Singles(x), e).bodies != Deframe(x, e).bodies
  {
    var whole := Deframe(x, e);
    NoFrameInEmpty(e);
    assert x != [];
    hide Deframe, Deliver, Concat, NextFrame;
    ConcatSingles(x);
    assert x + [] == x && whole.rest + [] == whole.rest && [] + x == x;
    BytewiseLeavesNothing([], x, e);
    ChunkingLosesNothing([], Singles(x), e);
    DeframeThenResync(x, [], e);
  }
}
