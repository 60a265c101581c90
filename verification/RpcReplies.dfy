/** What the client makes of the responses in a body (RpcServer/Client/BaseClient.cpp): which ones it
    accepts, whom it blames for the others, and that each accepted response of a batch calls the callback
    of its own call. */
module RpcReplies {
  import opened Octets
  import opened JsonValue
  import opened ReaderSpec
  import opened RpcClient
  import Messages
  import RoundTrip

  /** A response with its id: the result of the call, or the error object that it failed with. */
  datatype Reply = Reply(id: int, payload: Value, isError: bool)

  const IS_VERSION := Member(JSONRPC, Str(VERSION))

  /** The three members of the response, in the order of their keys. */
  function ReplyValue(r: Reply): Value {
    if r.isError then Obj([Member(ERROR, r.payload), Member(ID, Int32(r.id)), IS_VERSION])
    else Obj([Member(ID, Int32(r.id)), IS_VERSION, Member(RESULT, r.payload)])
  }

  function ReplyValues(rs: seq<Reply>): (vs: seq<Value>)
    ensures |vs| == |rs| && forall i :: 0 <= i < |rs| ==> vs[i] == ReplyValue(rs[i])
  {
    if rs == [] then [] else [ReplyValue(rs[0])] + ReplyValues(rs[1..])
  }

  // ----- which responses are accepted -----

  lemma {:induction false} FindIs(ms: seq<Member>, key: Bytes, v: Value)
    requires Ascending(ms)
    ensures Find(ms, key) == Some(v) <==> Member(key, v) in ms
    decreases |ms|
  {
    hide Less;
    if ms != [] {
      assert ms == [ms[0]] + ms[1..];
      assert Ascending(ms[1..]);
      if ms[0].key == key {
        LessIrreflexive(key);
        forall i | 0 < i < |ms|
          ensures ms[i].key != key
        {
          assert Less(ms[0].key, ms[i].key);
        }
      } else {
        FindIs(ms[1..], key, v);
      }
    }
  }

  lemma KeyOrder()
    ensures Less(ERROR, ID) && Less(ID, JSONRPC) && Less(JSONRPC, RESULT) && Less(ERROR, JSONRPC) && Less(ID, RESULT)
  {
  }

  /** In ascending order a lesser key stands before. */
  lemma Before(ms: seq<Member>, i: nat, j: nat)
    requires Ascending(ms) && i < |ms| && j < |ms| && Less(ms[i].key, ms[j].key)
    ensures i < j
  {
    hide Less;
    if j < i {
      assert Less(ms[j].key, ms[i].key);
      LessTransitive(ms[i].key, ms[j].key, ms[i].key);
    }
    LessIrreflexive(ms[i].key);
  }

  /** Three members with ascending keys are all there is. */
  lemma ThreeMembers(ms: seq<Member>, a: Member, b: Member, c: Member)
    requires Ascending(ms) && |ms| == 3 && a in ms && b in ms && c in ms && Less(a.key, b.key) && Less(b.key, c.key)
    ensures ms == [a, b, c]
  {
    hide Less, Ascending;
    var i, j, k :| 0 <= i < 3 && 0 <= j < 3 && 0 <= k < 3 && ms[i] == a && ms[j] == b && ms[k] == c;
    Before(ms, i, j);
    Before(ms, j, k);
    assert ms == [ms[0], ms[1], ms[2]];
  }

  /** The client accepts exactly these two shapes of a response. */
  lemma AcceptedIff(v: Value, r: Reply)
    requires WellFormed(v)
    ensures Judge(v) == Answer(r.id, r.payload, r.isError)
       <==> v == ReplyValue(r) && (r.isError ==> r.payload.Obj?)
  {
    hide Less, Find, Ascending;
    KeyOrder();
    if v.Obj? {
      var ms := v.members;
      FindIs(ms, ID, Int32(r.id));
      FindIs(ms, JSONRPC, Str(VERSION));
      FindIs(ms, RESULT, r.payload);
      FindIs(ms, ERROR, r.payload);
      if Judge(v) == Answer(r.id, r.payload, r.isError) {
        if r.isError {
          ThreeMembers(ms, Member(ERROR, r.payload), Member(ID, Int32(r.id)), IS_VERSION);
        } else {
          ThreeMembers(ms, Member(ID, Int32(r.id)), IS_VERSION, Member(RESULT, r.payload));
        }
      }
      if v == ReplyValue(r) && (r.isError ==> r.payload.Obj?) { ReplyAccepted(r); }
    }
  }

  lemma ReplyAccepted(r: Reply)
    requires r.isError ==> r.payload.Obj?
    ensures Judge(ReplyValue(r)) == Answer(r.id, r.payload, r.isError)
  {
    hide Less, Find;
    var ms := ReplyValue(r).members;
    ReplyAscending(r);
    FindIs(ms, ID, Int32(r.id));
    FindIs(ms, JSONRPC, Str(VERSION));
    FindIs(ms, if r.isError then ERROR else RESULT, r.payload);
    assert Find(ms, if r.isError then RESULT else ERROR).None?;
  }

  lemma ReplyAscending(r: Reply)
    ensures Ascending(ReplyValue(r).members)
  {
    hide Less;
    KeyOrder();
  }

  /** The client blames a call, and drops it, exactly for a response of three members that has the
      call's id but not the version, or with them an error that is no object. */
  lemma BlamedIff(v: Value, id: int)
    requires WellFormed(v)
    ensures Judge(v) == Invalid(Some(id))
       <==> && v.Obj? && |v.members| == 3 && Member(ID, Int32(id)) in v.members
            && (IS_VERSION !in v.members || exists m :: m in v.members && m.key == ERROR && !m.value.Obj?)
  {
    hide Less, Find, Ascending;
    KeyOrder();
    if v.Obj? && |v.members| == 3 {
      var ms := v.members;
      FindIs(ms, ID, Int32(id));
      FindIs(ms, JSONRPC, Str(VERSION));
      if Member(ID, Int32(id)) in ms && IS_VERSION in ms { ErrorFound(ms, Int32(id)); }
    }
  }

  /** Beside the id and the version there is room for one member. */
  lemma ErrorFound(ms: seq<Member>, id: Value)
    requires Ascending(ms) && |ms| == 3 && Member(ID, id) in ms && IS_VERSION in ms
    ensures (exists m :: m in ms && m.key == ERROR && !m.value.Obj?)
       <==> Find(ms, ERROR).Some? && !Find(ms, ERROR).value.Obj?
    ensures Find(ms, ERROR).Some? ==> Find(ms, RESULT).None?
  {
    hide Less, Find, Ascending;
    KeyOrder();
    if m :| m in ms && m.key == ERROR {
      FindIs(ms, ERROR, m.value);
      ThreeMembers(ms, m, Member(ID, id), IS_VERSION);
    }
    assert Find(ms, ERROR).Some? ==> Member(ERROR, Find(ms, ERROR).value) in ms;
    assert Find(ms, RESULT).Some? ==> Member(RESULT, Find(ms, RESULT).value) in ms;
  }

  // ----- what a list of responses does -----

  /** The replies that are heard: for each call that waits, the first one with its id. */
  function Heard(waiting: set<int>, rs: seq<Reply>): seq<Reply> {
    if rs == [] then []
    else if rs[0].id in waiting then [rs[0]] + Heard(waiting - {rs[0].id}, rs[1..])
    else Heard(waiting, rs[1..])
  }

  predicate Proper(rs: seq<Reply>) { forall i :: 0 <= i < |rs| ==> rs[i].isError ==> rs[i].payload.Obj? }

  /** Every reply is to a call that waits, and no two are to the same. */
  predicate EachWaits(waiting: set<int>, rs: seq<Reply>) {
    && (forall i :: 0 <= i < |rs| ==> rs[i].id in waiting)
    && (forall i, j :: 0 <= i < j < |rs| ==> rs[i].id != rs[j].id)
  }

  lemma {:induction false} HeardAll(waiting: set<int>, rs: seq<Reply>)
    requires EachWaits(waiting, rs)
    ensures Heard(waiting, rs) == rs
    decreases |rs|
  {
    if rs != [] { HeardAll(waiting - {rs[0].id}, rs[1..]); }
  }

  /** Each reply calls, in order, the callback of its call with its own payload; exactly these calls
      leave the table. */
  ghost predicate CallsEach(c: Client, d: Client, rs: seq<Reply>) {
    && d.nextId == c.nextId && d.issued == c.issued && d.erased == c.erased
    && |d.fired| == |c.fired| + |rs| && d.fired[..|c.fired|] == c.fired
    && EachWaits(c.pending.Keys, rs)
    && (forall i :: 0 <= i < |rs| ==>
          d.fired[|c.fired| + i] == Fired(rs[i].id, c.pending[rs[i].id], rs[i].payload, rs[i].isError))
    && (forall id :: id in d.pending <==> id in c.pending && forall i :: 0 <= i < |rs| ==> rs[i].id != id)
    && (forall id :: id in d.pending ==> d.pending[id] == c.pending[id])
  }

  lemma CallsFirst(c: Client, r: Reply, e: Client, d: Client, rs: seq<Reply>)
    requires r.id in c.pending && e == Fire(c, r.id, r.payload, r.isError) && CallsEach(e, d, rs)
    ensures CallsEach(c, d, [r] + rs)
  {
    var all, n := [r] + rs, |c.fired|;
    assert d.fired[n] == d.fired[..n + 1][n] && d.fired[..n] == d.fired[..n + 1][..n] == c.fired;
    forall i | 0 <= i < |all|
      ensures all[i].id in c.pending
      ensures d.fired[n + i] == Fired(all[i].id, c.pending[all[i].id], all[i].payload, all[i].isError)
    {
      if i > 0 { assert all[i] == rs[i - 1] && d.fired[n + 1 + (i - 1)] == d.fired[n + i]; }
    }
    forall i, j | 0 <= i < j < |all|
      ensures all[i].id != all[j].id
    {
      assert all[j] == rs[j - 1];
    }
    forall id
      ensures id in d.pending <==> id in c.pending && forall i :: 0 <= i < |all| ==> all[i].id != id
    {
      assert all[0] == r && forall i :: 0 <= i < |rs| ==> all[i + 1] == rs[i];
      assert forall i :: 0 < i < |all| ==> all[i] == rs[i - 1];
    }
  }

  /** Whatever calls the replies of a batch name, each call that waits gets the first reply to it. */
  lemma {:induction false} RepliesCall(c: Client, rs: seq<Reply>)
    requires Proper(rs)
    ensures CallsEach(c, HandleEach(c, ReplyValues(rs)), Heard(c.pending.Keys, rs))
    decreases |rs|
  {
    hide Judge, CallsEach;
    var vs := ReplyValues(rs);
    if rs == [] {
      CallsNone(c);
    } else {
      var r := rs[0];
      ReplyAccepted(r);
      assert vs[1..] == ReplyValues(rs[1..]);
      var e := Fire(c, r.id, r.payload, r.isError);
      RepliesCall(e, rs[1..]);
      if r.id in c.pending {
        assert e.pending.Keys == c.pending.Keys - {r.id};
        CallsFirst(c, r, e, HandleEach(c, vs), Heard(e.pending.Keys, rs[1..]));
      }
    }
  }

  lemma CallsNone(c: Client)
    ensures CallsEach(c, c, [])
  {
  }

  /** An invalid response ends its batch: what came before it was heard, nothing after it is. */
  lemma {:induction false} InvalidEndsBatch(c: Client, rs: seq<Reply>, bad: Value, rest: seq<Value>)
    requires Proper(rs) && Judge(bad).Invalid?
    ensures HandleEach(c, ReplyValues(rs) + [bad] + rest) == Blame(HandleEach(c, ReplyValues(rs)), Judge(bad).blamed)
    decreases |rs|
  {
    hide Judge;
    var vs := ReplyValues(rs) + [bad] + rest;
    if rs == [] {
      assert vs[0] == bad;
    } else {
      var r := rs[0];
      ReplyAccepted(r);
      assert ReplyValues(rs) == [ReplyValue(r)] + ReplyValues(rs[1..]);
      assert vs[0] == ReplyValue(r) && vs[1..] == ReplyValues(rs[1..]) + [bad] + rest;
      InvalidEndsBatch(Fire(c, r.id, r.payload, r.isError), rs[1..], bad, rest);
    }
  }

  // ----- from the bytes -----

  predicate Sendable(rs: seq<Reply>) {
    forall i :: 0 <= i < |rs| ==> INT32_MIN <= rs[i].id <= INT32_MAX && RoundTrip.Readable(rs[i].payload)
  }

  lemma ReplyReadable(r: Reply)
    requires INT32_MIN <= r.id <= INT32_MAX && RoundTrip.Readable(r.payload)
    ensures RoundTrip.Readable(ReplyValue(r))
  {
    hide Less, PlainKey;
    var ms := ReplyValue(r).members;
    ReplyAscending(r);
    assert PlainKey(ID) && PlainKey(JSONRPC) && PlainKey(RESULT) && PlainKey(ERROR) by { PlainNames(); }
    assert forall i :: 0 <= i < |ms| ==> WellFormed(ms[i].value) && DoubleFree(ms[i].value);
    assert forall i :: 0 <= i < |ms| ==> PlainKey(ms[i].key) && PlainKeys(ms[i].value);
  }

  lemma PlainNames()
    ensures PlainKey(ID) && PlainKey(JSONRPC) && PlainKey(RESULT) && PlainKey(ERROR)
  {
  }

  lemma ArrayReadable(vs: seq<Value>)
    requires forall i :: 0 <= i < |vs| ==> RoundTrip.Readable(vs[i])
    ensures RoundTrip.Readable(Arr(vs))
  {
    assert forall i :: 0 <= i < |vs| ==> WellFormed(vs[i]) && DoubleFree(vs[i]) && PlainKeys(vs[i]);
  }

  /** The body of a batch of responses to pairwise different calls that wait: every callback is called, in
      the order of the responses, with its own result or error object, and exactly these calls are over. */
  lemma BatchReachesCallbacks(c: Client, rs: seq<Reply>)
    requires Proper(rs) && Sendable(rs) && EachWaits(c.pending.Keys, rs)
    ensures var r := Handle(c, Messages.Body(Arr(ReplyValues(rs)))); r.Kept? && CallsEach(c, r.client, rs)
  {
    hide Parse, Messages.Body, HandleEach, CallsEach, RoundTrip.Readable, ReplyValue;
    var vs := ReplyValues(rs);
    forall i | 0 <= i < |vs|
      ensures RoundTrip.Readable(vs[i])
    {
      ReplyReadable(rs[i]);
    }
    ArrayReadable(vs);
    Messages.BodyReads(Arr(vs), Null);
    RepliesCall(c, rs);
    HeardAll(c.pending.Keys, rs);
  }

  /** The same for the body of a single response. */
  lemma SingleReachesCallback(c: Client, r: Reply)
    requires Proper([r]) && Sendable([r]) && r.id in c.pending
    ensures var a := Handle(c, Messages.Body(ReplyValue(r))); a.Kept? && CallsEach(c, a.client, [r])
  {
    hide Parse, Messages.Body, HandleEach, CallsEach, RoundTrip.Readable;
    ReplyReadable([r][0]);
    Messages.BodyReads(ReplyValue(r), Null);
    RepliesCall(c, [r]);
    HeardAll(c.pending.Keys, [r]);
    assert ReplyValues([r]) == [ReplyValue(r)];
  }

  /** A response that the client blames takes its call out of the table, and calls no callback. */
  lemma BlamedCallIsDropped(c: Client, v: Value, id: int)
    requires RoundTrip.Readable(v) && Judge(v) == Invalid(Some(id))
    ensures var a := Handle(c, Messages.Body(v));
      && a.Kept? && a.client.fired == c.fired && a.client.pending == c.pending - {id}
      && a.client.issued == c.issued && a.client.nextId == c.nextId
  {
    hide Parse, Messages.Body, HandleEach, RoundTrip.Readable;
    assert v.Obj?;
    Messages.BodyReads(v, Null);
    BlamedAlone(c, v, id);
  }

  lemma BlamedAlone(c: Client, v: Value, id: int)
    requires Judge(v) == Invalid(Some(id))
    ensures var d := HandleEach(c, [v]);
      d.fired == c.fired && d.pending == c.pending - {id} && d.issued == c.issued && d.nextId == c.nextId
  {
    hide Judge;
    assert [v][0] == v;
    assert id !in c.pending ==> c.pending - {id} == c.pending;
  }
}
