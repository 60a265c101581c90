/** The client of the calls (RpcServer/Client/BaseClient.cpp) and the responses that it gets
    (UserDoneCallback in RpcServer/common.h): its table of pending calls under arbitrary bytes from the
    server. Callbacks are opaque. */
module RpcClient {
  import opened Octets
  import opened JsonValue
  import opened ReaderSpec
  import Messages
  import RoundTrip
  import ReadStream
  import Reader

  const ID: Bytes := [0x69, 0x64]
  const JSONRPC: Bytes := [0x6A, 0x73, 0x6F, 0x6E, 0x72, 0x70, 0x63]
  const RESULT: Bytes := [0x72, 0x65, 0x73, 0x75, 0x6C, 0x74]
  const ERROR: Bytes := [0x65, 0x72, 0x72, 0x6F, 0x72]
  const VERSION: Bytes := [0x32, DOT, ZERO]

  /** The member with a key, if there is one. */
  function Find(ms: seq<Member>, key: Bytes): (r: Option<Value>)
    ensures r.Some? ==> Member(key, r.value) in ms
  {
    if ms == [] then None
    else if ms[0].key == key then Some(ms[0].value)
    else Find(ms[1..], key)
  }

  // ----- one response -----

  /** What a response is for the client. Invalid carries the id when the exception does. */
  datatype Verdict =
    | Invalid(blamed: Option<int>)
    | Answer(id: int, payload: Value, isError: bool)

  /** validateResponse, and the choice between result and error that follows it. */
  function Judge(response: Value): Verdict {
    if !response.Obj? || |response.members| != 3 then Invalid(None)
    else
      var ms := response.members;
      match Find(ms, ID)
      case Some(Int32(id)) =>
        (match Find(ms, JSONRPC)
         case Some(Str(version)) =>
           if version != VERSION then Invalid(Some(id))
           else
             (match (Find(ms, RESULT), Find(ms, ERROR))
              case (Some(_), Some(_)) => Invalid(None)
              case (None, None) => Invalid(None)
              case (Some(result), None) => Answer(id, result, false)
              case (None, Some(error)) => if error.Obj? then Answer(id, error, true) else Invalid(Some(id)))
         case _ => Invalid(Some(id)))
      case _ => Invalid(None)
  }

  // ----- the client -----

  type Callback = nat

  /** A callback that was called, with what it was given. */
  datatype Fired = Fired(id: int, callback: Callback, payload: Value, isError: bool)

  datatype Client = Client(
    nextId: int,
    pending: map<int, Callback>,     // idToResponse_
    issued: map<int, Callback>,      // history: every call
    fired: seq<Fired>,               // history: every callback called
    erased: set<int>)                // history: calls dropped because of an invalid response

  function NewClient(): Client { Client(0, map[], map[], [], {}) }

  /** The table in sendCall. Adding 1 to the largest int32 is undefined, so the caller stays below. */
  function Registered(c: Client, callback: Callback): Client {
    c.(nextId := c.nextId + 1,
       pending := c.pending[c.nextId := callback],
       issued := c.issued[c.nextId := callback])
  }

  /** handleResonseSingle after a successful validation. */
  function Fire(c: Client, id: int, payload: Value, isError: bool): Client {
    if id !in c.pending then c
    else c.(fired := c.fired + [Fired(id, c.pending[id], payload, isError)], pending := c.pending - {id})
  }

  /** The catch block of onMessage. */
  function Blame(c: Client, blamed: Option<int>): Client {
    if blamed.None? || blamed.value !in c.pending then c
    else c.(pending := c.pending - {blamed.value}, erased := c.erased + {blamed.value})
  }

  /** The loop over a batch: an exception ends it. */
  function HandleEach(c: Client, responses: seq<Value>): Client
    decreases |responses|
  {
    if responses == [] then c
    else
      match Judge(responses[0])
      case Invalid(blamed) => Blame(c, blamed)
      case Answer(id, payload, isError) => HandleEach(Fire(c, id, payload, isError), responses[1..])
  }

  /** handleResponse within onMessage; a failed assert of the reader ends the program. */
  datatype Reaction = Kept(client: Client) | Crashed

  function Handle(c: Client, json: Bytes): Reaction {
    var p := Parse(json, Null);
    if p.err == ABORTED then Crashed
    else if p.err != PARSE_OK then Kept(c)
    else
      match p.value
      case Obj(_) => Kept(HandleEach(c, [p.value]))
      case Arr(items) => Kept(HandleEach(c, items))
      case _ => Kept(c)
  }

  function FiredIds(fired: seq<Fired>): set<int> { set i | 0 <= i < |fired| :: fired[i].id }

  /** The table is exactly the calls neither answered nor dropped; every callback that was called
      belongs to its own id, and no id was answered twice. */
  ghost predicate ClientInv(c: Client) {
    && (forall id :: id in c.issued ==> 0 <= id < c.nextId)
    && (forall id :: id in c.pending ==> id in c.issued && c.pending[id] == c.issued[id])
    && c.issued.Keys == c.pending.Keys + FiredIds(c.fired) + c.erased
    && c.pending.Keys !! FiredIds(c.fired) && c.pending.Keys !! c.erased && c.erased !! FiredIds(c.fired)
    && (forall i :: 0 <= i < |c.fired| ==>
          c.fired[i].id in c.issued && c.issued[c.fired[i].id] == c.fired[i].callback)
    && (forall i, j :: 0 <= i < j < |c.fired| ==> c.fired[i].id != c.fired[j].id)
  }

  lemma FiredIdsNext(fired: seq<Fired>, f: Fired)
    ensures FiredIds(fired + [f]) == FiredIds(fired) + {f.id}
  {
    var more := fired + [f];
    forall x | x in FiredIds(fired) + {f.id}
      ensures x in FiredIds(more)
    {
      if x != f.id {
        var i :| 0 <= i < |fired| && fired[i].id == x;
        assert more[i].id == x;
      } else {
        assert more[|fired|].id == x;
      }
    }
  }

  lemma FiredApart(fired: seq<Fired>, id: int)
    ensures id !in FiredIds(fired) <==> forall i :: 0 <= i < |fired| ==> fired[i].id != id
  {
  }

  lemma RegisterKeepsInv(c: Client, callback: Callback)
    requires ClientInv(c) && c.nextId >= 0
    ensures ClientInv(Registered(c, callback))
  {
    hide FiredIds;
    var d := Registered(c, callback);
    assert c.nextId !in c.issued;
    assert d.pending.Keys == c.pending.Keys + {c.nextId};
    assert d.issued.Keys == c.issued.Keys + {c.nextId};
    assert c.nextId !in FiredIds(c.fired) && c.nextId !in c.erased;
  }

  lemma FireKeepsInv(c: Client, id: int, payload: Value, isError: bool)
    requires ClientInv(c)
    ensures ClientInv(Fire(c, id, payload, isError))
  {
    hide FiredIds;
    if id in c.pending {
      var d := Fire(c, id, payload, isError);
      FiredIdsNext(c.fired, d.fired[|c.fired|]);
      FiredApart(c.fired, id);
      assert d.pending.Keys == c.pending.Keys - {id};
    }
  }

  lemma BlameKeepsInv(c: Client, blamed: Option<int>)
    requires ClientInv(c)
    ensures ClientInv(Blame(c, blamed))
  {
    hide FiredIds;
    if blamed.Some? && blamed.value in c.pending {
      assert Blame(c, blamed).pending.Keys == c.pending.Keys - {blamed.value};
    }
  }

  lemma {:induction false} HandleEachKeepsInv(c: Client, responses: seq<Value>)
    requires ClientInv(c)
    ensures ClientInv(HandleEach(c, responses)) && HandleEach(c, responses).nextId == c.nextId
    decreases |responses|
  {
    hide ClientInv;
    if responses != [] {
      match Judge(responses[0])
      case Invalid(blamed) => BlameKeepsInv(c, blamed);
      case Answer(id, payload, isError) =>
        FireKeepsInv(c, id, payload, isError);
        HandleEachKeepsInv(Fire(c, id, payload, isError), responses[1..]);
    }
  }

  // ----- the client against any server -----

  datatype Event = Call(callback: Callback) | Receive(json: Bytes)

  /** A client that made fewer than 2^31 calls, and was sent anything. */
  function AfterEvents(c: Client, events: seq<Event>): Reaction
    decreases |events|
  {
    if events == [] then Kept(c)
    else
      match events[0]
      case Call(callback) =>
        if c.nextId == INT32_MAX then Crashed else AfterEvents(Registered(c, callback), events[1..])
      case Receive(json) =>
        match Handle(c, json)
        case Crashed => Crashed
        case Kept(d) => AfterEvents(d, events[1..])
  }

  /** Whatever bytes arrive, and whenever: each callback is called at most once and only for its own
      id, and the table holds exactly the calls that were neither answered nor dropped. */
  lemma {:induction false} AnyServerKeepsInv(c: Client, events: seq<Event>)
    requires ClientInv(c) && c.nextId >= 0 && AfterEvents(c, events).Kept?
    ensures ClientInv(AfterEvents(c, events).client)
    decreases |events|
  {
    hide ClientInv, Parse;
    if events != [] {
      match events[0]
      case Call(callback) =>
        RegisterKeepsInv(c, callback);
        AnyServerKeepsInv(Registered(c, callback), events[1..]);
      case Receive(json) =>
        var d := Handle(c, json).client;
        HandleKeepsInv(c, json);
        AnyServerKeepsInv(d, events[1..]);
    }
  }

  lemma HandleKeepsInv(c: Client, json: Bytes)
    requires ClientInv(c) && Handle(c, json).Kept?
    ensures ClientInv(Handle(c, json).client) && Handle(c, json).client.nextId == c.nextId
  {
    hide ClientInv, Parse;
    var v := Parse(json, Null).value;
    HandleEachKeepsInv(c, [v]);
    if v.Arr? { HandleEachKeepsInv(c, v.items); }
  }

  lemma NewClientInv()
    ensures ClientInv(NewClient())
  {
  }

  // ----- responses of the server -----

  /** UserDoneCallback: a response is built member by member. */
  function Response(id: int, result: Value): Value {
    Obj(Insert(Insert(Insert([], Member(JSONRPC, Str(VERSION))), Member(ID, Int32(id))), Member(RESULT, result)))
  }

  /** wrapException: the object with code, message and data, and no id. */
  function ErrorResponse(error: Value): Value {
    Obj(Insert(Insert([], Member(JSONRPC, Str(VERSION))), Member(ERROR, error)))
  }

  lemma KeysInOrder()
    ensures Less(ID, JSONRPC) && Less(JSONRPC, RESULT) && Less(ID, RESULT) && Less(ERROR, JSONRPC)
    ensures !Less(RESULT, ID) && !Less(RESULT, JSONRPC)
  {
  }

  lemma ResponseMembers(id: int, result: Value)
    ensures Response(id, result) == Obj([Member(ID, Int32(id)), Member(JSONRPC, Str(VERSION)), Member(RESULT, result)])
  {
    hide Less;
    KeysInOrder();
    var i, j, r := Member(ID, Int32(id)), Member(JSONRPC, Str(VERSION)), Member(RESULT, result);
    assert Insert([], j) == [j];
    assert Insert([j], i) == [i, j];
    assert [i, j][1..] == [j] && [j][1..] == [];
    assert Insert([], r) == [r];
    assert Insert([j], r) == [j, r];
    assert Insert([i, j], r) == [i, j, r];
  }

  lemma ErrorResponseMembers(error: Value)
    ensures ErrorResponse(error) == Obj([Member(ERROR, error), Member(JSONRPC, Str(VERSION))])
  {
    hide Less;
    KeysInOrder();
    assert Insert([], Member(JSONRPC, Str(VERSION))) == [Member(JSONRPC, Str(VERSION))];
  }

  /** The client understands what the server builds. */
  lemma ResponseIsAnswer(id: int, result: Value)
    ensures Judge(Response(id, result)) == Answer(id, result, false)
  {
    hide Insert;
    ResponseMembers(id, result);
    var i, j, r := Member(ID, Int32(id)), Member(JSONRPC, Str(VERSION)), Member(RESULT, result);
    var ms := [i, j, r];
    assert ms[1..] == [j, r] && [j, r][1..] == [r] && [r][1..] == [];
    assert Find(ms, ID) == Some(Int32(id));
    assert Find(ms, JSONRPC) == Find([j, r], JSONRPC) == Some(Str(VERSION));
    assert Find(ms, RESULT) == Find([j, r], RESULT) == Find([r], RESULT) == Some(result);
    assert Find([r], ERROR) == Find([], ERROR) == None;
    assert Find(ms, ERROR) == Find([j, r], ERROR) == Find([r], ERROR);
  }

  lemma ResponseReadable(id: int, result: Value)
    requires RoundTrip.Readable(result) && INT32_MIN <= id <= INT32_MAX
    ensures RoundTrip.Readable(Response(id, result))
  {
    hide Insert, Less, PlainKey;
    ResponseMembers(id, result);
    KeysInOrder();
    KeysArePlain();
    var ms := Response(id, result).members;
    assert ms[0] == Member(ID, Int32(id)) && ms[1] == Member(JSONRPC, Str(VERSION)) && ms[2] == Member(RESULT, result);
    assert Ascending(ms);
    assert forall i :: 0 <= i < |ms| ==> WellFormed(ms[i].value) && DoubleFree(ms[i].value);
    assert forall i :: 0 <= i < |ms| ==> PlainKey(ms[i].key) && PlainKeys(ms[i].value);
  }

  lemma KeysArePlain()
    ensures PlainKey(ID) && PlainKey(JSONRPC) && PlainKey(RESULT)
  {
  }

  /** An error response of the server has no id: the client can neither answer nor drop the call. The
      callback is never called and its entry stays. */
  lemma ErrorsReachNoCallback(c: Client, error: Value)
    requires RoundTrip.Readable(ErrorResponse(error))
    ensures Handle(c, Messages.Body(ErrorResponse(error))) == Kept(c)
  {
    hide Insert, Parse, Messages.Body;
    Messages.BodyReads(ErrorResponse(error), Null);
    ErrorResponseMembers(error);
    assert [ErrorResponse(error)][0] == ErrorResponse(error);
  }

  /** A response body calls the callback of its id with the server's result, if the call is pending. */
  lemma ResultReachesCallback(c: Client, id: int, result: Value)
    requires RoundTrip.Readable(result) && INT32_MIN <= id <= INT32_MAX
    ensures Handle(c, Messages.Body(Response(id, result))) == Kept(Fire(c, id, result, false))
  {
    hide Judge, Parse, Messages.Body;
    ResponseReadable(id, result);
    Messages.BodyReads(Response(id, result), Null);
    ResponseIsAnswer(id, result);
    assert [Response(id, result)][1..] == [];
    assert HandleEach(Fire(c, id, result, false), []) == Fire(c, id, result, false);
  }

  // ----- the code -----

  class BaseClient {
    var id: int
    var idToResponse: map<int, Callback>
    ghost var issued: map<int, Callback>
    ghost var fired: seq<Fired>
    ghost var erased: set<int>

    ghost function View(): Client
      reads this
    {
      Client(id, idToResponse, issued, fired, erased)
    }

    constructor ()
      ensures View() == NewClient()
    {
      id, idToResponse, issued, fired, erased := 0, map[], map[], [], {};
    }

    /** sendCall; addMember asserts that the call has no id yet. */
    method SendCall(call: seq<Member>, callback: Callback) returns (message: Bytes)
      requires !HasKey(call, ID) && 0 <= id < INT32_MAX
      modifies this
      ensures View() == Registered(old(View()), callback)
      ensures message == Messages.Framed(Obj(Insert(call, Member(ID, Int32(old(id))))))
    {
      var numbered := Obj(Insert(call, Member(ID, Int32(id))));
      idToResponse := idToResponse[id := callback];
      issued := issued[id := callback];
      id := id + 1;
      message := Messages.SendJson(numbered);
    }

    /** handleResonseSingle; failed reports an exception and the id that it carries. */
    method HandleResponseSingle(response: Value) returns (failed: bool, blamed: Option<int>)
      modifies this
      ensures match Judge(response)
        case Invalid(b) => failed && blamed == b && View() == old(View())
        case Answer(i, payload, isError) => !failed && View() == Fire(old(View()), i, payload, isError)
    {
      match Judge(response) {
        case Invalid(b) => return true, b;
        case Answer(i, payload, isError) =>
          if i in idToResponse {
            fired := fired + [Fired(i, idToResponse[i], payload, isError)];
            idToResponse := idToResponse - {i};
          }
          return false, None;
      }
    }

    /** The catch block of onMessage. */
    method Catch(blamed: Option<int>)
      modifies this
      ensures View() == Blame(old(View()), blamed)
    {
      if blamed.Some? && blamed.value in idToResponse {
        erased := erased + {blamed.value};
        idToResponse := idToResponse - {blamed.value};
      }
    }

    /** onMessage for one body. */
    method HandleResponse(json: Bytes) returns (crashed: bool)
      modifies this
      ensures Handle(old(View()), json) == if crashed then Crashed else Kept(View())
    {
      hide Parse, Judge;
      var src := new ReadStream.StringReadStream(json);
      var err, responses := Reader.Read(src, Null);
      assert Parse(json, Null) == Parsed(err, responses, src.it);
      if err == ABORTED { return true; }
      if err != PARSE_OK { return false; }
      if responses.Obj? {
        HandleAll([responses]);
      } else if responses.Arr? {
        HandleAll(responses.items);
      }
      return false;
    }

    /** The loop over the responses of a batch, in which an exception ends the loop. */
    method HandleAll(responses: seq<Value>)
      modifies this
      ensures View() == HandleEach(old(View()), responses)
    {
      hide Judge;
      var i := 0;
      assert responses[0..] == responses;
      while i < |responses|
        invariant 0 <= i <= |responses|
        invariant HandleEach(View(), responses[i..]) == HandleEach(old(View()), responses)
      {
        assert responses[i..][0] == responses[i] && responses[i..][1..] == responses[i + 1..];
        var failed, blamed := HandleResponseSingle(responses[i]);
        if failed {
          Catch(blamed);
          return;
        }
        i := i + 1;
      }
    }
  }
}
