/** JSON messages over the framing, from the sender's value to the receiver's: sendJson of both ends,
    handleMessage of the server (RpcServer/Server/BaseServer.cpp) and of the client
    (RpcServer/Client/BaseClient.cpp). */
module Messages {
  import opened Octets
  import opened JsonValue
  import opened ReaderSpec
  import opened Printer
  import opened Buffers
  import opened Framing
  import Continued
  import ReadStream
  import Reader
  import RoundTrip
  import Writers

  const SERVER_LIMIT := 100 * 1024 * 1024
  const CLIENT_LIMIT := 65536

  /** How both ends judge a header line: it must parse as a positive int32 below the limit. */
  function JudgeHeader(header: Bytes, limit: int): Verdict {
    var h := Parse(header, Null);
    if h.err == ABORTED then Crash
    else if h.err != PARSE_OK || !h.value.Int32? || h.value.i32 <= 0 then Malformed
    else if h.value.i32 >= limit then BeyondLimit
    else Length(h.value.i32)
  }

  function Receiver(limit: int, accepts: Bytes -> bool): Endpoint {
    Endpoint(header => JudgeHeader(header, limit), accepts)
  }

  function Server(accepts: Bytes -> bool): Endpoint { Receiver(SERVER_LIMIT, accepts) }

  function Client(accepts: Bytes -> bool): Endpoint { Receiver(CLIENT_LIMIT, accepts) }

  // ----- sending -----

  /** The body of a message: compact JSON and the line end that the length counts too. */
  function Body(v: Value): (b: Bytes)
    ensures |b| >= 2
  {
    Core(v, Compact, 0) + CRLF
  }

  function Header(length: nat): Bytes { Decimal(length) + I32_SUFFIX + CRLF }

  function Framed(v: Value): Bytes { Header(|Body(v)|) + Body(v) }

  function Stream(vs: seq<Value>): Bytes {
    if vs == [] then [] else Framed(vs[0]) + Stream(vs[1..])
  }

  function Bodies(vs: seq<Value>): (bs: seq<Bytes>)
    ensures |bs| == |vs| && forall i :: 0 <= i < |vs| ==> bs[i] == Body(vs[i])
  {
    if vs == [] then [] else [Body(vs[0])] + Bodies(vs[1..])
  }

  /** The bytes of a message: the length of what follows the first line, as an i32 numeral, and the compact
      text, each with a line end that the length counts for the text only. */
  lemma FramedIs(v: Value)
    ensures var t := Core(v, Compact, 0);
      Framed(v) == Digits(|t| + 2) + [0x69, 0x33, 0x32, 0x0D, 0x0A] + t + [0x0D, 0x0A]
  {
    hide Core, Digits;
    assert I32_SUFFIX + CRLF == [0x69, 0x33, 0x32, 0x0D, 0x0A];
  }

  /** sendJson of the server and of the client. */
  method SendJson(v: Value) returns (message: Bytes)
    ensures message == Framed(v)
  {
    var os := new Writers.StringWriteStream();
    var fw := new Writers.FastWriter(os);
    Writers.WriteFast(v, fw);
    var text := fw.ws.text;
    assert text == [] + [] + Core(v, Compact, 0) == Core(v, Compact, 0);
    message := Decimal(|text| + 2) + I32_SUFFIX + CRLF + text + CRLF;
    assert message == Header(|text| + 2) + (text + CRLF);
  }

  // ----- the header -----

  lemma HeaderEnds(length: nat, more: Bytes)
    ensures FirstCrlf(Header(length) + more, 0) == |Header(length)| - 2
  {
    var h := Header(length);
    forall i | 0 <= i < |h| - 2
      ensures !IsCrlf(h, i)
    {
      if i < |Decimal(length)| { assert h[i] == Digits(length)[i]; }
    }
    FirstCrlfIs(h, 0, |h| - 2);
    FirstCrlfStays(h, more);
  }

  /** The reader takes the header for the number it prints, or finds it too big for an int32. */
  lemma HeaderReads(length: nat)
    ensures var h, r := Header(length), Parse(Header(length), Null);
      if length <= INT32_MAX then r == Parsed(PARSE_OK, Int32(length), |h|) else r.err == PARSE_NUMBER_TOO_BIG
  {
    hide ParseNumber, Decimal;
    if length <= INT32_MAX {
      RoundTrip.DocumentReadsBack(Int32(length), Compact, [], CRLF, Null);
      assert [] + Core(Int32(length), Compact, 0) + CRLF == Header(length);
    } else {
      HeaderTooBig(length);
      RoundTrip.SkipNone(Header(length), 0);
    }
  }

  lemma HeaderTooBig(length: nat)
    requires length > INT32_MAX
    ensures IsDigit(Front(Header(length), 0)) && ParseNumber(Header(length), 0).err == PARSE_NUMBER_TOO_BIG
  {
    hide Strtol;
    var h, q := Header(length), |Decimal(length)|;
    assert h[0..q] == Decimal(length);
    assert Digits(length)[0] == h[0];
    RoundTrip.IntegerReadsBack(length, h, 0);
    assert h[q] == LOWER_I && h[q + 1] == 0x33 && h[q + 2] == 0x32;
    assert ScanNumber(h, 0) == ScanSuffix(h, q, Untyped);
  }

  /** A message is taken as one frame exactly when its body is shorter than the receiver's limit; a
      longer one blocks the buffer, and beyond int32 the header alone is dropped. */
  lemma FramedIsTaken(v: Value, more: Bytes, limit: int, accepts: Bytes -> bool)
    requires 0 < limit <= INT32_MAX + 1
    ensures var n := |Body(v)|;
      NextFrame(Framed(v) + more, Receiver(limit, accepts))
        == if n < limit then Whole(|Header(n)|, n)
           else if n <= INT32_MAX then TooLong
           else BadHeader(|Header(n)|)
  {
    hide Parse, Body, Header;
    var n := |Body(v)|;
    var h, x := Header(n), Framed(v) + more;
    assert x == h + (Body(v) + more);
    HeaderHasCrlf(n);
    HeaderEnds(n, Body(v) + more);
    assert x[..|h|] == h;
    HeaderReads(n);
  }

  lemma HeaderHasCrlf(length: nat)
    ensures |Header(length)| > 2
  {
  }

  /** The receiver's reader returns the sender's value; the line end is skipped as whitespace. */
  lemma BodyReads(v: Value, held: Value)
    requires RoundTrip.Readable(v)
    ensures Parse(Body(v), held) == Parsed(PARSE_OK, v, |Body(v)|)
  {
    hide Parse, Core;
    RoundTrip.DocumentReadsBack(v, Compact, [], CRLF, held);
    assert [] + Core(v, Compact, 0) + CRLF == Body(v);
  }

  // ----- what a line decides -----

  /** No line end is complete within these bytes. */
  predicate OneLine(line: Bytes) {
    forall i :: 0 <= i < |line| - 1 ==> !(line[i] == 0x0D && line[i + 1] == 0x0A)
  }

  lemma LineCut(line: Bytes, more: Bytes)
    requires OneLine(line)
    ensures var x := line + CRLF + more;
      FirstCrlf(x, 0) == |line| < |x| && x[..|line| + 2] == line + CRLF && x[|line| + 2..] == more
  {
    var h := line + CRLF;
    forall i | 0 <= i < |line|
      ensures !IsCrlf(h, i)
    {
      assert i < |line| - 1 ==> h[i] == line[i] && h[i + 1] == line[i + 1];
    }
    FirstCrlfIs(h, 0, |line|);
    FirstCrlfStays(h, more);
  }

  /** What the first line, read as JSON, makes of the stream: a positive int32 below the limit is the
      length of a body, a larger one blocks the buffer, any other line is dropped and refused. */
  lemma LineDecides(line: Bytes, more: Bytes, limit: int, accepts: Bytes -> bool)
    requires OneLine(line)
    ensures var x, h, e := line + CRLF + more, Parse(line + CRLF, Null), Receiver(limit, accepts);
      if h.err == ABORTED then Deframe(x, e) == Run([], x, Aborted)
      else if h.err != PARSE_OK || !h.value.Int32? || h.value.i32 <= 0 then Deframe(x, e) == Run([], more, Broken)
      else
        var n := h.value.i32;
        if n >= limit then Deframe(x, e) == Run([], x, Overlong)
        else if |more| < n then Deframe(x, e) == Run([], x, Waiting)
        else
          var r := Deframe(more[n..], e);
          Deframe(x, e) == if accepts(more[..n]) then Run([more[..n]] + r.bodies, r.rest, r.end)
                           else Run([more[..n]], more[n..], Refused)
  {
    hide Parse, Deframe, OneLine;
    var x, h, e := line + CRLF + more, |line| + 2, Receiver(limit, accepts);
    LineCut(line, more);
    var f := NextFrame(x, e);
    LoopEnds([], x, e);
    if f.Whole? {
      CutBody(x, h, f.body);
      TakesFrame(x, more[..f.body], more[f.body..], e);
    }
    NoBodiesBefore(Deframe(x, e));
  }

  lemma NoBodiesBefore(r: Run)
    ensures Run([] + r.bodies, r.rest, r.end) == r
  {
  }

  /** Without a line end the stream is kept. */
  lemma NoLineWaits(x: Bytes, limit: int, accepts: Bytes -> bool)
    requires OneLine(x)
    ensures Deframe(x, Receiver(limit, accepts)) == Run([], x, Waiting)
  {
    assert forall i :: !IsCrlf(x, i);
    NothingTaken(x, Receiver(limit, accepts));
  }

  // ----- the server -----

  lemma FirstOfStream(vs: seq<Value>, limit: int, accepts: Bytes -> bool)
    requires vs != [] && 0 < limit <= INT32_MAX + 1 && |Body(vs[0])| < limit
    ensures var n := |Body(vs[0])|; var h := |Header(n)|; var x := Stream(vs);
      && NextFrame(x, Receiver(limit, accepts)) == Whole(h, n) && h + n <= |x|
      && x[h..h + n] == Body(vs[0]) && x[h + n..] == Stream(vs[1..])
  {
    hide NextFrame, Body, Header;
    FramedIsTaken(vs[0], Stream(vs[1..]), limit, accepts);
    var h, b, more := Header(|Body(vs[0])|), Body(vs[0]), Stream(vs[1..]);
    assert Stream(vs) == h + b + more;
    assert (h + b + more)[|h|..|h| + |b|] == b;
    assert (h + b + more)[|h| + |b|..] == more;
  }

  lemma {:induction false} StreamDeframes(vs: seq<Value>, limit: int, accepts: Bytes -> bool)
    requires 0 < limit <= INT32_MAX + 1
    requires forall i :: 0 <= i < |vs| ==> |Body(vs[i])| < limit && accepts(Body(vs[i]))
    ensures Deframe(Stream(vs), Receiver(limit, accepts)) == Run(Bodies(vs), [], Waiting)
    decreases vs
  {
    hide NextFrame, Body, Header;
    if vs == [] {
      NoFrameInEmpty(Receiver(limit, accepts));
    } else {
      FirstOfStream(vs, limit, accepts);
      StreamDeframes(vs[1..], limit, accepts);
    }
  }

  lemma {:induction false} WithoutError(held: Bytes, chunks: seq<Bytes>, e: Endpoint)
    requires DeliverUntilError(held, chunks, e).end == Waiting
    ensures var d := DeliverUntilError(held, chunks, e);
      Deliver(held, chunks, e) == Session(d.bodies, d.rest)
    decreases chunks
  {
    hide Deframe;
    if chunks != [] { WithoutError(Deframe(held + chunks[0], e).rest, chunks[1..], e); }
  }

  /** End to end: however the network cuts up a stream of messages, the server's request handler gets
      the bodies of exactly those messages, in order, each reads back as the value that was sent, and
      the buffer ends empty. */
  lemma EndToEnd(vs: seq<Value>, chunks: seq<Bytes>, accepts: Bytes -> bool, held: Value)
    requires forall i :: 0 <= i < |vs| ==>
      RoundTrip.Readable(vs[i]) && |Body(vs[i])| < SERVER_LIMIT && accepts(Body(vs[i]))
    requires Concat(chunks) == Stream(vs)
    ensures var s := Deliver([], chunks, Server(accepts));
      && s.rest == [] && |s.bodies| == |vs|
      && forall i :: 0 <= i < |vs| ==> Parse(s.bodies[i], held) == Parsed(PARSE_OK, vs[i], |s.bodies[i]|)
  {
    hide Deframe, Deliver, DeliverUntilError, NextFrame, Parse, Body, RoundTrip.Readable;
    StreamDeframes(vs, SERVER_LIMIT, accepts);
    NoFrameInEmpty(Server(accepts));
    assert [] + Concat(chunks) == Stream(vs);
    ChunkingInvisibleUntilError([], chunks, Server(accepts));
    WithoutError([], chunks, Server(accepts));
    forall i | 0 <= i < |vs|
      ensures Parse(Bodies(vs)[i], held) == Parsed(PARSE_OK, vs[i], |Bodies(vs)[i]|)
    {
      BodyReads(vs[i], held);
    }
  }

  /** The bytes after a refused message show how the stream was cut: they are served when they come
      in a delivery of their own, and wait for the next delivery when they come along. */
  lemma RefusalShowsChunking(v: Value, w: Value, accepts: Bytes -> bool)
    requires |Body(v)| < SERVER_LIMIT && |Body(w)| < SERVER_LIMIT && !accepts(Body(v)) && accepts(Body(w))
    ensures Deliver([], [Framed(v) + Framed(w)], Server(accepts)) == Session([Body(v)], Framed(w))
    ensures Deliver([], [Framed(v), Framed(w)], Server(accepts)) == Session([Body(v), Body(w)], [])
  {
    hide Body, Framed, Deframe, Deliver;
    RefusedFirst(v, [], accepts);
    RefusedFirst(v, Framed(w), accepts);
    AcceptedAlone(w, accepts);
    var x, y := Framed(v), Framed(w);
    DeliverOne([], x + y, Server(accepts));
    DeliverTwo([], x, y, Server(accepts));
    assert [] + (x + y) == x + y && [] + x == x + [] && [] + y == y;
  }

  lemma DeliverOne(held: Bytes, x: Bytes, e: Endpoint)
    ensures var r := Deframe(held + x, e); Deliver(held, [x], e) == Session(r.bodies, r.rest)
  {
    hide Deframe;
    assert [x][1..] == [];
  }

  lemma DeliverTwo(held: Bytes, x: Bytes, y: Bytes, e: Endpoint)
    ensures var r := Deframe(held + x, e); var s := Deframe(r.rest + y, e);
      Deliver(held, [x, y], e) == Session(r.bodies + s.bodies, s.rest)
  {
    hide Deframe;
    assert [x, y][1..] == [y];
    DeliverOne(Deframe(held + x, e).rest, y, e);
  }

  lemma RefusedFirst(v: Value, more: Bytes, accepts: Bytes -> bool)
    requires |Body(v)| < SERVER_LIMIT && !accepts(Body(v))
    ensures Deframe(Framed(v) + more, Server(accepts)) == Run([Body(v)], more, Refused)
  {
    hide NextFrame, Body, Header;
    FramedIsTaken(v, more, SERVER_LIMIT, accepts);
    var h, b := Header(|Body(v)|), Body(v);
    assert (h + b + more)[|h|..|h| + |b|] == b;
    assert (h + b + more)[|h| + |b|..] == more;
  }

  lemma AcceptedAlone(w: Value, accepts: Bytes -> bool)
    requires |Body(w)| < SERVER_LIMIT && accepts(Body(w))
    ensures Deframe(Framed(w), Server(accepts)) == Run([Body(w)], [], Waiting)
  {
    hide NextFrame, Body, Framed, Deframe;
    StreamDeframes([w], SERVER_LIMIT, accepts);
    assert [w][1..] == [] && Stream([w]) == Framed(w) + [] == Framed(w);
    assert Bodies([w]) == [Body(w)];
  }

  /** One turn of the loop after the bodies done. */
  lemma LoopTurn(done: seq<Bytes>, x: Bytes, n: nat, m: nat, e: Endpoint)
    requires NextFrame(x, e) == Whole(n, m)
    ensures var json, r, s := x[n..n + m], Deframe(x, e), Deframe(x[n + m..], e);
      if e.accepts(json) then Run(done + r.bodies, r.rest, r.end) == Run(done + [json] + s.bodies, s.rest, s.end)
      else Run(done + r.bodies, r.rest, r.end) == Run(done + [json], x[n + m..], Refused)
  {
    hide Deframe, NextFrame;
    WholeFrame(x, n, m, e);
    MoreBodies(done, x[n..n + m], Deframe(x[n + m..], e).bodies);
  }

  lemma CutBody(x: Bytes, n: nat, m: nat)
    requires n + m <= |x|
    ensures x[n..][..m] == x[n..n + m] && x[n..][m..] == x[n + m..]
  {
  }

  /** What the loop does with a whole frame. */
  lemma WholeFrame(x: Bytes, n: nat, m: nat, e: Endpoint)
    requires NextFrame(x, e) == Whole(n, m)
    ensures var json := x[n..n + m];
      if e.accepts(json) then
        var s := Deframe(x[n + m..], e);
        Deframe(x, e) == Run([json] + s.bodies, s.rest, s.end)
      else Deframe(x, e) == Run([json], x[n + m..], Refused)
  {
    hide NextFrame;
  }

  lemma MoreBodies(done: seq<Bytes>, json: Bytes, more: seq<Bytes>)
    ensures done + ([json] + more) == done + [json] + more
  {
  }

  lemma LoopEnds(done: seq<Bytes>, x: Bytes, e: Endpoint)
    ensures var f, r := NextFrame(x, e), Deframe(x, e); var all := Run(done + r.bodies, r.rest, r.end);
      match f
      case NeedMore => all == Run(done, x, Waiting)
      case BadHeader(n) => all == Run(done, x[n..], Broken)
      case TooLong => all == Run(done, x, Overlong)
      case HeaderAborts => all == Run(done, x, Aborted)
      case Whole(_, _) => true
  {
    hide NextFrame;
  }

  /** handleMessage of the server, over the connection's input buffer. */
  method HandleMessage(buffer: Buffer, accepts: Bytes -> bool) returns (bodies: seq<Bytes>, end: End)
    requires buffer.Valid()
    modifies buffer
    ensures buffer.Valid() && buffer.buffer == old(buffer.buffer)
    ensures Run(bodies, buffer.Contents(), end) == Deframe(old(buffer.Contents()), Server(accepts))
  {
    hide Parse, NextFrame, Deframe;
    ghost var x := buffer.Contents();
    bodies := [];
    assert [] + Deframe(x, Server(accepts)).bodies == Deframe(x, Server(accepts)).bodies;
    while true
      invariant buffer.Valid() && buffer.buffer == old(buffer.buffer)
      invariant var r := Deframe(buffer.Contents(), Server(accepts));
        Deframe(x, Server(accepts)) == Run(bodies + r.bodies, r.rest, r.end)
      decreases |buffer.Contents()|
    {
      var frame := ReadFrame(buffer, SERVER_LIMIT, accepts);
      LoopEnds(bodies, buffer.Contents(), Server(accepts));
      match frame {
        case NeedMore => return bodies, Waiting;
        case HeaderAborts => return bodies, Aborted;
        case TooLong => return bodies, Overlong;
        case BadHeader(headerLen) =>
          buffer.Retrieve(headerLen);
          return bodies, Broken;
        case Whole(headerLen, bodyLen) =>
          ghost var before := buffer.Contents();
          buffer.Retrieve(headerLen);
          var json := buffer.RetrieveAsString(bodyLen);
          CutBody(before, headerLen, bodyLen);
          LoopTurn(bodies, before, headerLen, bodyLen, Server(accepts));
          bodies := bodies + [json];
          if !accepts(json) { return bodies, Refused; }
      }
    }
  }

  /** The first half of an iteration, the same at both ends: look for a header and judge it. */
  method ReadFrame(buffer: Buffer, limit: int, ghost accepts: Bytes -> bool) returns (frame: Frame)
    requires buffer.Valid()
    ensures frame == NextFrame(buffer.Contents(), Receiver(limit, accepts))
  {
    hide Parse;
    var found, crlf := buffer.FindCrlf();
    if !found { return NeedMore; }
    var headerLen := crlf + 2;
    var text := buffer.Peek(headerLen);
    var src := new ReadStream.StringReadStream(text);
    var err, header := Reader.Read(src, Null);
    assert Parse(text, Null) == Parsed(err, header, src.it);
    if err == ABORTED { return HeaderAborts; }
    if err != PARSE_OK || !header.Int32? || header.i32 <= 0 { return BadHeader(headerLen); }
    var bodyLen := header.i32;
    if bodyLen >= limit { return TooLong; }
    if buffer.ReadableBytes() < headerLen + bodyLen { return NeedMore; }
    return Whole(headerLen, bodyLen);
  }

  /** A readable connection: the arrived bytes go to the buffer and the buffer to handleMessage. */
  method OnReadable(buffer: Buffer, data: Bytes, accepts: Bytes -> bool) returns (bodies: seq<Bytes>, end: End)
    requires buffer.Valid()
    requires |data| <= buffer.WritableBytes() + (if buffer.WritableBytes() < EXTRA_SIZE then EXTRA_SIZE else 0)
    modifies buffer, buffer.buffer
    ensures buffer.Valid() && (buffer.buffer == old(buffer.buffer) || fresh(buffer.buffer))
    ensures Run(bodies, buffer.Contents(), end) == Deframe(old(buffer.Contents()) + data, Server(accepts))
  {
    var n := buffer.ReadFd(data);
    bodies, end := HandleMessage(buffer, accepts);
  }

  // ----- the client -----

  /** handleMessage of the client takes everything that follows the header for one body. */
  function ClientDeframe(x: Bytes, accepts: Bytes -> bool): Run {
    match NextFrame(x, Client(accepts))
    case NeedMore => Run([], x, Waiting)
    case BadHeader(n) => Run([], x[n..], Broken)
    case TooLong => Run([], x, Overlong)
    case HeaderAborts => Run([], x, Aborted)
    case Whole(n, _) => Run([x[n..]], [], if accepts(x[n..]) then Waiting else Refused)
  }

  /** The same for the client, which takes everything behind the line for the body once that is there. */
  lemma ClientLineDecides(line: Bytes, more: Bytes, accepts: Bytes -> bool)
    requires OneLine(line)
    ensures var x, h := line + CRLF + more, Parse(line + CRLF, Null);
      ClientDeframe(x, accepts)
        == if h.err == ABORTED then Run([], x, Aborted)
           else if h.err != PARSE_OK || !h.value.Int32? || h.value.i32 <= 0 then Run([], more, Broken)
           else if h.value.i32 >= CLIENT_LIMIT then Run([], x, Overlong)
           else if |more| < h.value.i32 then Run([], x, Waiting)
           else Run([more], [], if accepts(more) then Waiting else Refused)
  {
    hide Parse, OneLine;
    LineCut(line, more);
  }

  method ClientHandleMessage(buffer: Buffer, accepts: Bytes -> bool) returns (bodies: seq<Bytes>, end: End)
    requires buffer.Valid()
    modifies buffer
    ensures buffer.Valid() && buffer.buffer == old(buffer.buffer)
    ensures Run(bodies, buffer.Contents(), end) == ClientDeframe(old(buffer.Contents()), accepts)
  {
    hide NextFrame;
    bodies := [];
    while true
      invariant buffer.Valid() && buffer.buffer == old(buffer.buffer)
      invariant
        || (bodies == [] && buffer.Contents() == old(buffer.Contents()))
        || (buffer.Contents() == [] && ClientDeframe(old(buffer.Contents()), accepts) == Run(bodies, [], Waiting))
      decreases |buffer.Contents()|
    {
      NoFrameInEmpty(Client(accepts));
      var frame := ReadFrame(buffer, CLIENT_LIMIT, accepts);
      match frame {
        case NeedMore => return bodies, Waiting;
        case HeaderAborts => return bodies, Aborted;
        case TooLong => return bodies, Overlong;
        case BadHeader(headerLen) =>
          buffer.Retrieve(headerLen);
          return bodies, Broken;
        case Whole(headerLen, bodyLen) =>
          buffer.Retrieve(headerLen);
          var json := buffer.RetrieveAllAsString();
          bodies := bodies + [json];
          if !accepts(json) { return bodies, Refused; }
      }
    }
  }

  /** The client cuts a stream as the server would exactly when a complete frame is all it holds. */
  lemma ClientCutsRightIff(x: Bytes, accepts: Bytes -> bool)
    ensures var f := NextFrame(x, Client(accepts));
      (ClientDeframe(x, accepts).bodies == Deframe(x, Client(accepts)).bodies)
        <==> (f.Whole? ==> f.header + f.body == |x|)
  {
    hide NextFrame, Deframe, Client;
    var f := NextFrame(x, Client(accepts));
    if f.Whole? {
      CutsOneIff(x, f.header, f.body, accepts);
    } else {
      NoBody(x, Client(accepts));
    }
  }

  lemma CutsOneIff(x: Bytes, n: nat, m: nat, accepts: Bytes -> bool)
    requires NextFrame(x, Client(accepts)) == Whole(n, m)
    ensures (ClientDeframe(x, accepts).bodies == Deframe(x, Client(accepts)).bodies) <==> n + m == |x|
  {
    hide NextFrame, Deframe, ClientDeframe, Client;
    ClientBody(x, n, m, accepts);
    if n + m == |x| {
      WholeBuffer(x, n, m, accepts);
    } else {
      PieceIsShorter(x, n, m);
      FirstBody(x, x[n..n + m], Client(accepts));
    }
  }

  lemma ClientBody(x: Bytes, n: nat, m: nat, accepts: Bytes -> bool)
    requires NextFrame(x, Client(accepts)) == Whole(n, m)
    ensures ClientDeframe(x, accepts).bodies == [x[n..]]
  {
    hide NextFrame;
  }

  lemma PieceIsShorter(x: Bytes, n: nat, m: nat)
    requires n + m < |x|
    ensures x[n..n + m] != x[n..]
  {
    assert |x[n..n + m]| < |x[n..]|;
  }

  lemma WholeBuffer(x: Bytes, n: nat, m: nat, accepts: Bytes -> bool)
    requires NextFrame(x, Client(accepts)) == Whole(n, m) && n + m == |x|
    ensures Deframe(x, Client(accepts)).bodies == [x[n..]]
  {
    hide NextFrame, Deframe;
    var body, rest := x[n..n + m], x[n + m..];
    WholeSlices(x, n, m);
    OneBody(x, body, rest, accepts);
  }

  lemma OneBody(x: Bytes, body: Bytes, rest: Bytes, accepts: Bytes -> bool)
    requires var f := NextFrame(x, Client(accepts));
      f.Whole? && x[f.header..f.header + f.body] == body && x[f.header + f.body..] == rest
    requires rest == []
    ensures Deframe(x, Client(accepts)).bodies == [body]
  {
    hide NextFrame;
    NoFrameInEmpty(Client(accepts));
  }

  lemma WholeSlices(x: Bytes, n: nat, m: nat)
    requires n + m == |x|
    ensures x[n..n + m] == x[n..] && x[n + m..] == []
  {
  }

  lemma FirstBody(x: Bytes, body: Bytes, e: Endpoint)
    requires var f := NextFrame(x, e); f.Whole? && x[f.header..f.header + f.body] == body
    ensures Deframe(x, e).bodies != [] && Deframe(x, e).bodies[0] == body
  {
    hide NextFrame;
  }

  lemma NoBody(x: Bytes, e: Endpoint)
    requires !NextFrame(x, e).Whole?
    ensures Deframe(x, e).bodies == []
  {
    hide NextFrame;
  }

  /** A response reaches the client's handler as the value that was sent exactly when nothing but
      whitespace arrived along with it; a second response in the same delivery spoils both. */
  lemma ClientReadsIffAlone(v: Value, more: Bytes, accepts: Bytes -> bool, held: Value)
    requires RoundTrip.Readable(v) && |Body(v)| < CLIENT_LIMIT
    ensures var bodies := ClientDeframe(Framed(v) + more, accepts).bodies;
      && bodies == [Body(v) + more]
      && (Parse(bodies[0], held).err == PARSE_OK <==> AllWs(more))
      && (AllWs(more) ==> Parse(bodies[0], held).value == v)
  {
    hide NextFrame, Body, Header, Parse;
    FramedIsTaken(v, more, CLIENT_LIMIT, accepts);
    var h, b := Header(|Body(v)|), Body(v);
    assert (h + b + more)[|h|..] == b + more;
    TrailingText(v, more, held);
  }

  lemma TrailingText(v: Value, more: Bytes, held: Value)
    requires RoundTrip.Readable(v)
    ensures Parse(Body(v) + more, held).err == PARSE_OK <==> AllWs(more)
    ensures AllWs(more) ==> Parse(Body(v) + more, held).value == v
  {
    hide ParseValue, Core, RoundTrip.Readable, Continued.CoreK;
    var s, k := Body(v) + more, Rest(CRLF + more);
    Continued.CoreContinued(v, Compact, 0, k);
    assert s[0..] == Core(v, Compact, 0) + (CRLF + more);
    RoundTrip.CoreStart(v, Compact, 0, s, 0, k);
    RoundTrip.ValueReadsBack(v, Compact, 0, s, 0, k);
    RoundTrip.SkipNone(s, 0);
    var q := RoundTrip.ValueEnd(ParseValue(s, 0), v, s, k);
    SkipsAllIff(s, q, more);
  }

  lemma SkipsAllIff(s: Bytes, q: nat, more: Bytes)
    requires Reads(s, q, Rest(CRLF + more))
    ensures SkipWs(s, q) == |s| <==> AllWs(more)
  {
    var r := SkipWs(s, q);
    assert |s| - q == 2 + |more|;
    assert forall i :: 0 <= i < |more| ==> more[i] == s[q..][2 + i] == s[q + 2 + i];
    assert s[q] == s[q..][0] && s[q + 1] == s[q..][1];
    if r < |s| && r >= q + 2 {
      assert more[r - q - 2] == s[r];
    }
  }
}
