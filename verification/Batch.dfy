/** A batch request on the server (RpcServer/Server/RpcServer.cpp): the responses are collected behind
    a shared reference that every callback copies, and the reply leaves when the last reference goes.
    Procedures run on any thread, answer in any order, and copy and release their callback freely. */
module Batch {

  /** An element of the request array: does it have an id? */
  datatype Kind = NotAnObject | Notification | Request

  /** An element of the reply: the response to a request, or the error that stopped the loop. */
  datatype Response = To(index: nat) | Error

  /** Where the loop of handleRequestBatch is. It holds a reference until it has finished. */
  datatype Pc = At(index: nat) | In(call: nat) | Finished

  datatype State = State(
    kinds: seq<Kind>,
    pc: Pc,
    copies: seq<nat>,             // per element: live copies of its callback, each a reference
    responses: seq<Response>,
    replies: seq<seq<Response>>,  // the arguments with which the batch's done was called
    completed: set<nat>,          // history: requests whose callback was called
    dispatched: set<nat>,         // history: requests given to a procedure
    failed: bool,                 // history: a RequestException ended the loop
    silenced: bool)               // history: a NotifyException ended the loop

  /** What handleNotifySingle does. */
  datatype Notified = Fine | Throws | ThrowsSilently

  datatype Action =
    | Dispatch(notified: Notified)  // the loop takes the next element
    | CallReturns                   // handleRequestSingle returns; its temporary callback dies
    | CallThrows                    // ... with a RequestException
    | LoopEnds
    | Copy(copied: nat)             // somebody copies the callback of a request
    | Drop(dropped: nat)            // ... destroys a copy
    | Complete(answered: nat)       // ... calls it, for the first time

  predicate Enabled(s: State, a: Action) {
    match a
    case Dispatch(_) => s.pc.At? && s.pc.index < |s.kinds|
    case CallReturns => s.pc.In?
    case CallThrows => s.pc.In?
    case LoopEnds => s.pc.At? && s.pc.index == |s.kinds|
    case Copy(i) => i < |s.copies| && s.copies[i] > 0
    case Drop(i) => i < |s.copies| && s.copies[i] > (if s.pc == In(i) then 1 else 0)
    case Complete(i) => i < |s.copies| && s.copies[i] > 0 && i !in s.completed
  }

  function Sum(copies: seq<nat>): nat {
    if copies == [] then 0 else Sum(copies[..|copies| - 1]) + copies[|copies| - 1]
  }

  /** The use count of the shared data. */
  function References(s: State): nat { (if s.pc.Finished? then 0 else 1) + Sum(s.copies) }

  /** The destructor of the shared data, when the last reference is gone. */
  function Released(s: State): State {
    if References(s) == 0 then s.(replies := s.replies + [s.responses]) else s
  }

  /** The catch block: the error is added like a response. */
  function Failed(s: State): State {
    Released(s.(pc := Finished, failed := true, responses := s.responses + [Error]))
  }

  function Effect(s: State, a: Action): State
    requires Enabled(s, a) && (s.pc.In? ==> s.pc.call < |s.copies| && s.copies[s.pc.call] > 0)
    requires |s.copies| == |s.kinds|
  {
    match a
    case Dispatch(notified) => Dispatched(s, notified)
    case CallReturns => s.(pc := At(s.pc.call + 1), copies := s.copies[s.pc.call := s.copies[s.pc.call] - 1])
    case CallThrows => Failed(s.(copies := s.copies[s.pc.call := s.copies[s.pc.call] - 1]))
    case LoopEnds => Released(s.(pc := Finished))
    case Copy(i) => s.(copies := s.copies[i := s.copies[i] + 1])
    case Drop(i) => Released(s.(copies := s.copies[i := s.copies[i] - 1]))
    case Complete(i) => s.(responses := s.responses + [To(i)], completed := s.completed + {i})
  }

  function Dispatched(s: State, notified: Notified): State
    requires s.pc.At? && s.pc.index < |s.kinds| == |s.copies|
  {
    var i := s.pc.index;
    match s.kinds[i]
    case NotAnObject => Failed(s)
    case Request => s.(pc := In(i), copies := s.copies[i := s.copies[i] + 1], dispatched := s.dispatched + {i})
    case Notification =>
      match notified
      case Fine => s.(pc := At(i + 1))
      case Throws => Failed(s)
      case ThrowsSilently => Released(s.(pc := Finished, silenced := true))
  }

  /** An empty batch is refused before any of this. */
  function Start(kinds: seq<Kind>): State {
    State(kinds, At(0), Zeros(|kinds|), [], [], {}, {}, false, false)
  }

  function Zeros(n: nat): (r: seq<nat>)
    ensures |r| == n && forall i :: 0 <= i < n ==> r[i] == 0
  {
    if n == 0 then [] else Zeros(n - 1) + [0]
  }

  datatype Outcome = Stuck | Reached(state: State)

  function After(s: State, run: seq<Action>): Outcome
    decreases |run|
  {
    if run == [] then Reached(s)
    else if Enabled(s, run[0]) && Shaped(s) then After(Effect(s, run[0]), run[1..])
    else Stuck
  }

  // ----- references -----

  lemma {:induction false} SumUpdate(copies: seq<nat>, i: nat, n: nat)
    requires i < |copies|
    ensures Sum(copies[i := n]) + copies[i] == Sum(copies) + n
    decreases |copies|
  {
    var m := |copies| - 1;
    if i == m {
      assert copies[i := n][..m] == copies[..m];
    } else {
      assert copies[i := n][..m] == copies[..m][i := n];
      SumUpdate(copies[..m], i, n);
    }
  }

  lemma {:induction false} SumIsZero(copies: seq<nat>)
    ensures Sum(copies) == 0 <==> forall i :: 0 <= i < |copies| ==> copies[i] == 0
  {
    if copies != [] {
      var m := |copies| - 1;
      SumIsZero(copies[..m]);
      assert forall i :: 0 <= i < m ==> copies[i] == copies[..m][i];
    }
  }

  // ----- what every step keeps -----

  predicate Shaped(s: State) {
    && |s.copies| == |s.kinds|
    && (s.pc.At? ==> s.pc.index <= |s.kinds|)
    && (s.pc.In? ==> s.pc.call < |s.kinds| && s.copies[s.pc.call] > 0)
  }

  /** done was called exactly when no reference is left, once, with everything collected. */
  predicate RepliedOnce(s: State) { s.replies == if References(s) == 0 then [s.responses] else [] }

  /** The elements the loop has dealt with, if no exception ended it early. */
  function Passed(s: State): nat {
    match s.pc
    case At(i) => i
    case In(i) => i + 1
    case Finished => |s.kinds|
  }

  /** One response for each request that was answered, one error if one ended the loop. */
  ghost predicate Collected(s: State) {
    && (forall i :: i in s.completed <==> To(i) in s.responses)
    && (forall i, j :: 0 <= i < j < |s.responses| ==> s.responses[i] != s.responses[j])
    && (Error in s.responses <==> s.failed)
    && (s.failed ==> s.pc.Finished?)
  }

  /** Only requests that were dispatched have callbacks, and without an exception all are. */
  ghost predicate Traced(s: State) {
    && s.completed <= s.dispatched
    && (forall i :: 0 <= i < |s.copies| && s.copies[i] > 0 ==> i in s.dispatched)
    && (forall i :: i in s.dispatched ==> i < |s.kinds| && s.kinds[i].Request?)
    && (!s.failed && !s.silenced ==>
          forall i :: 0 <= i < Passed(s) && i < |s.kinds| && s.kinds[i].Request? ==> i in s.dispatched)
    && (s.silenced ==> s.pc.Finished?)
  }

  ghost predicate Inv(s: State) { Shaped(s) && RepliedOnce(s) && Collected(s) && Traced(s) }

  lemma ReferencesUpdate(s: State, i: nat, n: nat)
    requires i < |s.copies|
    ensures References(s.(copies := s.copies[i := n])) + s.copies[i] == References(s) + n
  {
    hide Sum;
    SumUpdate(s.copies, i, n);
  }

  function Ended(s: State, copies: seq<nat>): State {
    s.(pc := Finished, copies := copies, failed := true, responses := s.responses + [Error])
  }

  lemma SameReferences(s: State, t: State)
    requires s.pc.Finished? == t.pc.Finished? && s.copies == t.copies
    ensures References(s) == References(t) && (!s.pc.Finished? ==> References(s) > 0)
  {
  }

  lemma Referenced(s: State)
    requires RepliedOnce(s) && (!s.pc.Finished? || exists i :: 0 <= i < |s.copies| && s.copies[i] > 0)
    ensures s.replies == [] && References(s) > 0
  {
    hide Sum;
    SumIsZero(s.copies);
  }

  lemma ReleasedOnce(s: State)
    requires s.replies == []
    ensures RepliedOnce(Released(s)) && (References(s) > 0 ==> RepliedOnce(s))
    ensures Shaped(Released(s)) == Shaped(s)
  {
    hide Sum;
  }

  /** The loop's own reference. */
  lemma LoopHolds(s: State)
    requires !s.pc.Finished?
    ensures References(s) > 0
  {
  }

  lemma StepKeepsReply(s: State, a: Action)
    requires Shaped(s) && RepliedOnce(s) && Enabled(s, a)
    ensures RepliedOnce(Effect(s, a)) && Shaped(Effect(s, a))
  {
    hide Sum, Released, References, RepliedOnce;
    Referenced(s);
    match a
    case Dispatch(notified) => DispatchKeepsReply(s, notified);
    case CallReturns =>
      var t := s.(pc := At(s.pc.call + 1), copies := s.copies[s.pc.call := s.copies[s.pc.call] - 1]);
      LoopHolds(t);
      ReleasedOnce(t);
    case CallThrows => ReleasedOnce(Ended(s, s.copies[s.pc.call := s.copies[s.pc.call] - 1]));
    case LoopEnds => ReleasedOnce(s.(pc := Finished));
    case Copy(i) =>
      ReferencesUpdate(s, i, s.copies[i] + 1);
      ReleasedOnce(s.(copies := s.copies[i := s.copies[i] + 1]));
    case Drop(i) => ReleasedOnce(s.(copies := s.copies[i := s.copies[i] - 1]));
    case Complete(i) =>
      var t := s.(responses := s.responses + [To(i)], completed := s.completed + {i});
      SameReferences(s, t);
      ReleasedOnce(t);
  }

  lemma DispatchKeepsReply(s: State, notified: Notified)
    requires Shaped(s) && s.replies == [] && References(s) > 0 && Enabled(s, Dispatch(notified))
    ensures RepliedOnce(Dispatched(s, notified)) && Shaped(Dispatched(s, notified))
  {
    hide Sum, Released, RepliedOnce;
    var i := s.pc.index;
    ReleasedOnce(Ended(s, s.copies));
    ReleasedOnce(s.(pc := Finished, silenced := true));
    ReleasedOnce(s.(pc := At(i + 1)));
    ReleasedOnce(s.(pc := In(i), copies := s.copies[i := s.copies[i] + 1], dispatched := s.dispatched + {i}));
  }

  lemma ErrorCollected(s: State)
    requires Collected(s) && !s.failed
    ensures Collected(Failed(s))
  {
    hide References;
  }

  lemma StepKeepsCollected(s: State, a: Action)
    requires Shaped(s) && Collected(s) && Enabled(s, a)
    ensures Collected(Effect(s, a))
  {
    hide References;
    match a
    case CallThrows =>
      assert Collected(s.(copies := s.copies[s.pc.call := s.copies[s.pc.call] - 1]));
    case Dispatch(notified) =>
      if s.kinds[s.pc.index].NotAnObject? || (s.kinds[s.pc.index].Notification? && notified.Throws?) {
        ErrorCollected(s);
      }
    case _ =>
  }

  lemma StepKeepsTraced(s: State, a: Action)
    requires Shaped(s) && Traced(s) && Enabled(s, a)
    ensures Traced(Effect(s, a))
  {
    hide Released, Sum, Traced;
    match a
    case Dispatch(notified) => DispatchKeepsTraced(s, notified);
    case CallReturns => ReturnKeepsTraced(s);
    case CallThrows =>
      ReturnKeepsTraced(s);
      ReleaseKeepsTraced(Ended(s, s.copies[s.pc.call := s.copies[s.pc.call] - 1]));
    case LoopEnds =>
      EndKeepsTraced(s);
      ReleaseKeepsTraced(s.(pc := Finished));
    case Copy(i) => CopyKeepsTraced(s, i, s.copies[i] + 1);
    case Drop(i) =>
      CopyKeepsTraced(s, i, s.copies[i] - 1);
      ReleaseKeepsTraced(s.(copies := s.copies[i := s.copies[i] - 1]));
    case Complete(i) => CompleteKeepsTraced(s, i);
  }

  lemma CopyKeepsTraced(s: State, i: nat, n: nat)
    requires Traced(s) && i < |s.copies| && s.copies[i] > 0
    ensures Traced(s.(copies := s.copies[i := n]))
  {
  }

  lemma CompleteKeepsTraced(s: State, i: nat)
    requires Traced(s) && i < |s.copies| && s.copies[i] > 0
    ensures Traced(s.(responses := s.responses + [To(i)], completed := s.completed + {i}))
  {
  }

  lemma EndKeepsTraced(s: State)
    requires Traced(s) && s.pc == At(|s.kinds|)
    ensures Traced(s.(pc := Finished))
  {
  }

  lemma ReturnKeepsTraced(s: State)
    requires Shaped(s) && Traced(s) && s.pc.In?
    ensures var copies := s.copies[s.pc.call := s.copies[s.pc.call] - 1];
      Traced(s.(pc := At(s.pc.call + 1), copies := copies)) && Traced(Ended(s, copies))
  {
  }

  lemma ReleaseKeepsTraced(s: State)
    ensures Traced(Released(s)) <==> Traced(s)
  {
    hide References;
  }

  lemma DispatchKeepsTraced(s: State, notified: Notified)
    requires Shaped(s) && Traced(s) && Enabled(s, Dispatch(notified))
    ensures Traced(Dispatched(s, notified))
  {
    hide Released;
    ReleaseKeepsTraced(Ended(s, s.copies));
    ReleaseKeepsTraced(s.(pc := Finished, silenced := true));
  }

  lemma {:induction false} RunKeepsInv(s: State, run: seq<Action>)
    requires Inv(s) && After(s, run).Reached?
    ensures Inv(After(s, run).state) && After(s, run).state.kinds == s.kinds
    decreases |run|
  {
    hide RepliedOnce, Collected, Traced;
    if run != [] {
      StepKeepsReply(s, run[0]);
      StepKeepsCollected(s, run[0]);
      StepKeepsTraced(s, run[0]);
      RunKeepsInv(Effect(s, run[0]), run[1..]);
    }
  }

  // ----- whole runs -----

  lemma StartInv(kinds: seq<Kind>)
    ensures Inv(Start(kinds))
  {
    SumIsZero(Zeros(|kinds|));
  }

  /** In every interleaving the reply is sent at most once, and exactly when the last reference is
      gone; it has one response per request that was answered, and an error when one ended the loop. */
  lemma EveryBatchRepliesOnce(kinds: seq<Kind>, run: seq<Action>)
    requires After(Start(kinds), run).Reached?
    ensures var s := After(Start(kinds), run).state;
      && s.replies == (if References(s) == 0 then [s.responses] else [])
      && Collected(s) && s.completed <= s.dispatched
  {
    StartInv(kinds);
    RunKeepsInv(Start(kinds), run);
  }

  /** Without an exception, and with every dispatched request answered, the reply matches the requests
      that are not notifications one to one. */
  lemma ReplyMatchesRequests(kinds: seq<Kind>, run: seq<Action>)
    requires After(Start(kinds), run).Reached?
    requires var s := After(Start(kinds), run).state;
      s.replies != [] && !s.failed && !s.silenced && s.completed == s.dispatched
    ensures var reply := After(Start(kinds), run).state.replies[0];
      && (forall i: nat :: To(i) in reply <==> i < |kinds| && kinds[i].Request?)
      && (forall i, j :: 0 <= i < j < |reply| ==> reply[i] != reply[j])
      && Error !in reply
  {
    hide References;
    StartInv(kinds);
    RunKeepsInv(Start(kinds), run);
    var s := After(Start(kinds), run).state;
    assert s.pc.Finished? by { RepliedIsFinished(s); }
  }

  lemma RepliedIsFinished(s: State)
    requires RepliedOnce(s) && s.replies != []
    ensures s.pc.Finished?
  {
  }

  /** After the reply nothing can happen any more: no callback is left to be called or copied. */
  lemma NothingAfterReply(s: State, a: Action)
    requires Inv(s) && s.replies != []
    ensures !Enabled(s, a)
  {
    SumIsZero(s.copies);
  }

  /** Without an exception, and with every dispatched request answered, the reply is the empty array
      exactly when the batch has no request. */
  lemma ReplyIsEmptyIff(kinds: seq<Kind>, run: seq<Action>)
    requires After(Start(kinds), run).Reached?
    requires var s := After(Start(kinds), run).state;
      s.replies != [] && !s.failed && !s.silenced && s.completed == s.dispatched
    ensures After(Start(kinds), run).state.replies[0] == [] <==> Request !in kinds
  {
    hide After, Start;
    ReplyMatchesRequests(kinds, run);
    var reply := After(Start(kinds), run).state.replies[0];
    assert forall i: nat :: i < |kinds| && kinds[i] == Request ==> To(i) in reply;
    if reply != [] {
      assert reply[0] in reply && reply[0].To?;
      assert kinds[reply[0].index] in kinds;
    }
  }

  /** In every run, a batch without a request is replied to exactly when its loop has finished: with
      the empty array, or with an error when a RequestException ended the loop. Section 6 of the
      JSON-RPC 2.0 Specification asks for no answer to a batch of notifications. */
  lemma NotificationsAnsweredEmpty(kinds: seq<Kind>, run: seq<Action>)
    requires Request !in kinds && After(Start(kinds), run).Reached?
    ensures var s := After(Start(kinds), run).state;
      s.replies == if !s.pc.Finished? then [] else if s.failed then [[Error]] else [[]]
  {
    hide After, Start;
    StartInv(kinds);
    RunKeepsInv(Start(kinds), run);
    var s := After(Start(kinds), run).state;
    assert Start(kinds).kinds == kinds by { StartHas(kinds); }
    NothingDispatched(s);
    SumIsZero(s.copies);
    OnlyErrors(s);
  }

  lemma StartHas(kinds: seq<Kind>)
    ensures Start(kinds).kinds == kinds
  {
  }

  lemma NothingDispatched(s: State)
    requires Traced(s) && Request !in s.kinds
    ensures s.dispatched == {} && s.completed == {}
    ensures forall i :: 0 <= i < |s.copies| ==> s.copies[i] == 0
  {
    assert forall i :: i in s.dispatched ==> i < |s.kinds| && s.kinds[i] in s.kinds;
  }

  lemma OnlyErrors(s: State)
    requires Collected(s) && s.completed == {}
    ensures s.responses == if s.failed then [Error] else []
  {
    assert forall i :: To(i) !in s.responses;
    assert forall r :: r in s.responses ==> r == Error;
    if |s.responses| > 1 {
      FirstDiffer(s);
      assert false;
    } else if |s.responses| == 1 {
      assert s.responses[0] in s.responses;
      assert s.responses == [Error];
    } else {
      assert Error !in s.responses;
    }
  }

  lemma FirstDiffer(s: State)
    requires Collected(s) && |s.responses| > 1
    ensures s.responses[0] != s.responses[1] && s.responses[0] in s.responses && s.responses[1] in s.responses
  {
  }

  // ----- what the steps of a run tell -----

  /** How many elements the loop has taken. */
  function Taken(run: seq<Action>): nat {
    if run == [] then 0
    else Taken(run[..|run| - 1]) + if run[|run| - 1].Dispatch? then 1 else 0
  }

  /** A step that takes element i of this kind after the steps done. */
  predicate TakesKind(kinds: seq<Kind>, done: seq<Action>, a: Action, kind: Kind) {
    a.Dispatch? && Taken(done) < |kinds| && kinds[Taken(done)] == kind
  }

  /** A step that ends in a RequestException: of a call, of an element that is no object, or of a
      notification. */
  predicate Throwing(kinds: seq<Kind>, done: seq<Action>, a: Action) {
    || a.CallThrows? || TakesKind(kinds, done, a, NotAnObject)
    || (a == Dispatch(Throws) && TakesKind(kinds, done, a, Notification))
  }

  /** ... in a NotifyException. */
  predicate FallingSilent(kinds: seq<Kind>, done: seq<Action>, a: Action) {
    a == Dispatch(ThrowsSilently) && TakesKind(kinds, done, a, Notification)
  }

  /** What a step adds to the responses. */
  function Answer(kinds: seq<Kind>, done: seq<Action>, a: Action): seq<Response> {
    if a.Complete? then [To(a.answered)] else if Throwing(kinds, done, a) then [Error] else []
  }

  /** The responses of a run, in the order of its steps. */
  function Answers(kinds: seq<Kind>, run: seq<Action>): seq<Response> {
    if run == [] then []
    else Answers(kinds, run[..|run| - 1]) + Answer(kinds, run[..|run| - 1], run[|run| - 1])
  }

  /** The requests that a run takes. */
  function Requested(kinds: seq<Kind>, run: seq<Action>): set<nat> {
    if run == [] then {}
    else
      var done := run[..|run| - 1];
      Requested(kinds, done) + if TakesKind(kinds, done, run[|run| - 1], Request) then {Taken(done)} else {}
  }

  predicate Silenced(kinds: seq<Kind>, run: seq<Action>) {
    run != [] && (Silenced(kinds, run[..|run| - 1]) || FallingSilent(kinds, run[..|run| - 1], run[|run| - 1]))
  }

  /** The state holds what the steps of the run tell. */
  predicate Recorded(s: State, run: seq<Action>) {
    && (s.pc.At? ==> Taken(run) == s.pc.index) && (s.pc.In? ==> Taken(run) == s.pc.call + 1)
    && s.responses == Answers(s.kinds, run)
    && s.dispatched == Requested(s.kinds, run)
    && s.silenced == Silenced(s.kinds, run)
  }

  /** What one more step adds. */
  lemma OneMoreStep(kinds: seq<Kind>, run: seq<Action>, a: Action)
    ensures Taken(run + [a]) == Taken(run) + if a.Dispatch? then 1 else 0
    ensures Answers(kinds, run + [a]) == Answers(kinds, run) + Answer(kinds, run, a)
    ensures Requested(kinds, run + [a])
         == Requested(kinds, run) + if TakesKind(kinds, run, a, Request) then {Taken(run)} else {}
    ensures Silenced(kinds, run + [a]) <==> Silenced(kinds, run) || FallingSilent(kinds, run, a)
  {
    hide TakesKind, Throwing, FallingSilent, Answer;
    assert (run + [a])[..|run|] == run;
  }

  lemma StepRecords(s: State, run: seq<Action>, a: Action)
    requires Shaped(s) && Recorded(s, run) && Enabled(s, a)
    ensures Recorded(Effect(s, a), run + [a])
  {
    hide Sum, References, Taken, Answers, Requested, Silenced;
    OneMoreStep(s.kinds, run, a);
  }

  lemma {:induction false} RunRecords(s: State, done: seq<Action>, run: seq<Action>)
    requires Recorded(s, done) && After(s, run).Reached?
    ensures Recorded(After(s, run).state, done + run)
    decreases |run|
  {
    hide Recorded, Effect;
    if run == [] {
      assert done + [] == done;
    } else {
      StepRecords(s, done, run[0]);
      assert done + run == done + [run[0]] + run[1..];
      StepShape(s, run[0]);
      RunRecords(Effect(s, run[0]), done + [run[0]], run[1..]);
    }
  }

  lemma StepShape(s: State, a: Action)
    requires Enabled(s, a) && Shaped(s)
    ensures Effect(s, a).kinds == s.kinds
  {
  }

  /** In every run: the loop takes the elements in order and gives each request among them to its
      procedure; the responses are those of the callbacks that were called and the error of the step
      that threw, in the order of the steps. */
  lemma EveryRunIsRecorded(kinds: seq<Kind>, run: seq<Action>)
    requires After(Start(kinds), run).Reached?
    ensures Recorded(After(Start(kinds), run).state, run)
  {
    hide Recorded, After;
    StartRecorded(kinds);
    RunRecords(Start(kinds), [], run);
    assert [] + run == run;
  }

  lemma StartRecorded(kinds: seq<Kind>)
    ensures Recorded(Start(kinds), [])
  {
  }

  // ----- the code -----

  /** What handling one element does: how handleNotifySingle ends, or what the procedure does with its
      callback before handleRequestSingle returns or throws. */
  datatype Handling = Handling(notified: Notified, copies: nat, answers: bool, refuses: bool)

  /** The procedure keeps n copies of its callback. */
  function Copies(i: nat, n: nat): seq<Action> {
    if n == 0 then [] else Copies(i, n - 1) + [Copy(i)]
  }

  /** The steps up to the point where handleRequestSingle returns or throws. */
  function Called(i: nat, h: Handling): seq<Action> {
    [Dispatch(h.notified)] + Copies(i, h.copies) + if h.answers then [Complete(i)] else []
  }

  function Handled(kind: Kind, i: nat, h: Handling): seq<Action> {
    if kind.Request? then Called(i, h) + [if h.refuses then CallThrows else CallReturns]
    else [Dispatch(h.notified)]
  }

  /** Does handling the element end the loop? */
  predicate Ends(kind: Kind, h: Handling) {
    match kind
    case NotAnObject => true
    case Notification => !h.notified.Fine?
    case Request => h.refuses
  }

  /** ... with a RequestException, which is answered? */
  predicate Fails(kind: Kind, h: Handling) { Ends(kind, h) && !(kind.Notification? && h.notified.ThrowsSilently?) }

  /** Nothing ends the loop before element i. */
  ghost predicate Reaches(kinds: seq<Kind>, handling: seq<Handling>, i: nat)
    requires i <= |kinds| == |handling|
  {
    forall j :: 0 <= j < i ==> !Ends(kinds[j], handling[j])
  }

  /** What the first n elements leave behind. */
  ghost predicate Tells(s: State, kinds: seq<Kind>, handling: seq<Handling>, n: nat)
    requires n <= |kinds| == |handling|
  {
    && |s.copies| == |kinds|
    && (forall i: nat :: To(i) in s.responses <==> i < n && kinds[i].Request? && handling[i].answers)
    && (forall i :: 0 <= i < |kinds| ==>
          s.copies[i] == if i < n && kinds[i].Request? then handling[i].copies else 0)
    && (Error in s.responses <==> exists i :: 0 <= i < n && Fails(kinds[i], handling[i]))
  }

  lemma TellsNext(s: State, t: State, kinds: seq<Kind>, handling: seq<Handling>, n: nat)
    requires n < |kinds| == |handling| && Tells(s, kinds, handling, n)
    requires Leaves(s, t, kinds[n], n, handling[n])
    ensures Tells(t, kinds, handling, n + 1)
  {
    hide Ends;
  }

  /** What handling element i adds. */
  predicate Leaves(s: State, t: State, kind: Kind, i: nat, h: Handling) {
    && i < |s.copies| && t.copies == s.copies[i := if kind.Request? then h.copies else 0]
    && t.responses == s.responses
        + (if kind.Request? && h.answers then [To(i)] else [])
        + (if Fails(kind, h) then [Error] else [])
  }

  /** The steps of the loop for its first n elements. */
  function Until(kinds: seq<Kind>, handling: seq<Handling>, n: nat): seq<Action>
    requires n <= |kinds| == |handling|
  {
    if n == 0 then [] else Until(kinds, handling, n - 1) + Handled(kinds[n - 1], n - 1, handling[n - 1])
  }

  /** The steps of the loop from element n on, none before it having ended the loop. */
  function LoopRun(kinds: seq<Kind>, handling: seq<Handling>, n: nat): seq<Action>
    requires n <= |kinds| == |handling|
    decreases |kinds| - n
  {
    if n == |kinds| then Until(kinds, handling, n) + [LoopEnds]
    else if Ends(kinds[n], handling[n]) then Until(kinds, handling, n + 1)
    else LoopRun(kinds, handling, n + 1)
  }

  lemma {:induction false} AfterSnoc(s: State, run: seq<Action>, t: State, a: Action)
    requires After(s, run) == Reached(t) && Enabled(t, a) && Shaped(t)
    ensures After(s, run + [a]) == Reached(Effect(t, a))
    decreases |run|
  {
    if run == [] {
      assert ([] + [a])[1..] == [];
    } else {
      assert (run + [a])[1..] == run[1..] + [a];
      AfterSnoc(Effect(s, run[0]), run[1..], t, a);
    }
  }

  lemma Regroup(a: seq<Action>, b: seq<Action>, c: seq<Action>)
    ensures a + (b + c) == a + b + c
  {
  }

  lemma NothingMore(a: seq<Action>)
    ensures a + [] == a
  {
  }

  /** The loop is at element i, and no callback of a later element exists. */
  predicate Arrived(s: State, i: nat) {
    && Shaped(s) && s.pc == At(i) && s.replies == []
    && (forall j :: i <= j < |s.copies| ==> s.copies[j] == 0)
    && (forall j :: j in s.completed ==> j < i)
  }

  /** ThreadSafeBatchResponse together with its reference count. */
  class BatchResponse {
    var uses: nat
    var responses: seq<Response>
    var replies: seq<seq<Response>>

    /** The object as the step relation sees it. */
    predicate Shows(s: State)
      reads this
    {
      uses == References(s) && responses == s.responses && replies == s.replies
    }

    /** The same, with the reference of a loop that is about to leave. */
    predicate Holds(s: State)
      reads this
    {
      uses == References(s) + 1 && responses == s.responses && replies == s.replies == []
    }

    constructor ()
      ensures uses == 1 && responses == [] && replies == []
    {
      uses, responses, replies := 1, [], [];
    }

    method AddResponse(r: Response)
      requires uses > 0
      modifies `responses
      ensures responses == old(responses) + [r]
    {
      responses := responses + [r];
    }

    method AddReference()
      requires uses > 0
      modifies `uses
      ensures uses == old(uses) + 1
    {
      uses := uses + 1;
    }

    method Release()
      requires uses > 0
      modifies `uses, `replies
      ensures uses == old(uses) - 1
      ensures replies == if uses == 0 then old(replies) + [responses] else old(replies)
    {
      uses := uses - 1;
      if uses == 0 { replies := replies + [responses]; }
    }
  }

  /** The temporary callback is made. */
  lemma DispatchStep(start: State, before: seq<Action>, s: State, i: nat, notified: Notified, t: State)
    requires After(start, before) == Reached(s) && Arrived(s, i) && i < |s.kinds| && s.kinds[i].Request?
    requires t == s.(pc := In(i), copies := s.copies[i := 1], dispatched := s.dispatched + {i})
    ensures After(start, before + [Dispatch(notified)]) == Reached(t)
    ensures Shaped(t) && References(t) == References(s) + 1 && References(s) > 0
  {
    hide After, Sum;
    AfterSnoc(start, before, s, Dispatch(notified));
    ReferencesUpdate(s, i, 1);
  }

  lemma CopyStep(start: State, before: seq<Action>, s: State, i: nat)
    requires After(start, before) == Reached(s) && Shaped(s) && s.pc == In(i)
    ensures var t := s.(copies := s.copies[i := s.copies[i] + 1]);
      && After(start, before + [Copy(i)]) == Reached(t)
      && Shaped(t) && References(t) == References(s) + 1 && References(s) > 0
  {
    hide After, Sum;
    AfterSnoc(start, before, s, Copy(i));
    ReferencesUpdate(s, i, s.copies[i] + 1);
  }

  lemma CompleteStep(start: State, before: seq<Action>, s: State, i: nat)
    requires After(start, before) == Reached(s) && Shaped(s) && s.pc == In(i) && i !in s.completed
    ensures After(start, before + [Complete(i)])
         == Reached(s.(responses := s.responses + [To(i)], completed := s.completed + {i}))
  {
    hide After, Sum;
    AfterSnoc(start, before, s, Complete(i));
  }

  /** handleRequestSingle for element i, up to its return: it makes the temporary callback, and the
      procedure keeps copies of it and may call it. */
  method HandleRequestSingle(batch: BatchResponse, i: nat, h: Handling, ghost start: State,
      ghost before: seq<Action>, ghost s: State)
    returns (ghost t: State)
    requires After(start, before) == Reached(s) && Arrived(s, i) && i < |s.kinds| && s.kinds[i].Request?
    requires batch.Shows(s)
    modifies batch
    ensures After(start, before + Called(i, h)) == Reached(t) && batch.Shows(t)
    ensures t == s.(pc := In(i), copies := s.copies[i := h.copies + 1], dispatched := s.dispatched + {i},
        responses := s.responses + (if h.answers then [To(i)] else []),
        completed := s.completed + (if h.answers then {i} else {}))
  {
    hide After, Sum, References;
    ghost var run := [Dispatch(h.notified)];
    t := s.(pc := In(i), copies := s.copies[i := 1], dispatched := s.dispatched + {i});
    DispatchStep(start, before, s, i, h.notified, t);
    batch.AddReference();
    NothingMore(run);
    for k := 0 to h.copies
      invariant t == s.(pc := In(i), copies := s.copies[i := k + 1], dispatched := s.dispatched + {i})
      invariant Shaped(t) && batch.Shows(t)
      invariant After(start, before + (run + Copies(i, k))) == Reached(t)
    {
      CopyStep(start, before + (run + Copies(i, k)), t, i);
      Regroup(before, run + Copies(i, k), [Copy(i)]);
      Regroup(run, Copies(i, k), [Copy(i)]);
      batch.AddReference();
      t := t.(copies := t.copies[i := k + 2]);
    }
    run := run + Copies(i, h.copies);
    if h.answers {
      CompleteStep(start, before + run, t, i);
      Regroup(before, run, [Complete(i)]);
      SameReferences(t, t.(responses := t.responses + [To(i)], completed := t.completed + {i}));
      batch.AddResponse(To(i));
      t := t.(responses := t.responses + [To(i)], completed := t.completed + {i});
    } else {
      NothingMore(run);
    }
  }

  lemma LoopRunFrom(kinds: seq<Kind>, handling: seq<Handling>, i: nat)
    requires i < |kinds| == |handling|
    ensures Until(kinds, handling, i + 1) == Until(kinds, handling, i) + Handled(kinds[i], i, handling[i])
    ensures LoopRun(kinds, handling, i)
         == if Ends(kinds[i], handling[i]) then Until(kinds, handling, i + 1) else LoopRun(kinds, handling, i + 1)
  {
  }

  lemma LoopRunEnds(kinds: seq<Kind>, handling: seq<Handling>)
    requires |kinds| == |handling|
    ensures LoopRun(kinds, handling, |kinds|) == Until(kinds, handling, |kinds|) + [LoopEnds]
  {
  }

  lemma Arrives(kinds: seq<Kind>, handling: seq<Handling>)
    requires |kinds| == |handling|
    ensures var s := Start(kinds);
      && s.kinds == kinds && Arrived(s, 0) && References(s) == 1 && s.responses == []
      && After(s, Until(kinds, handling, 0)) == Reached(s)
  {
    SumIsZero(Zeros(|kinds|));
  }

  /** An element that is not a request. */
  lemma NotifyStep(start: State, before: seq<Action>, s: State, i: nat, notified: Notified)
    requires After(start, before) == Reached(s) && Arrived(s, i) && i < |s.kinds| && !s.kinds[i].Request?
    ensures After(start, before + [Dispatch(notified)]) == Reached(
      if s.kinds[i].NotAnObject? || notified.Throws? then Released(Ended(s, s.copies))
      else if notified.Fine? then s.(pc := At(i + 1))
      else Released(s.(pc := Finished, silenced := true)))
    ensures Arrived(s.(pc := At(i + 1)), i + 1)
  {
    hide After, Sum;
    AfterSnoc(start, before, s, Dispatch(notified));
  }

  lemma LoopEndsStep(start: State, before: seq<Action>, s: State)
    requires After(start, before) == Reached(s) && Arrived(s, |s.kinds|)
    ensures After(start, before + [LoopEnds]) == Reached(Released(s.(pc := Finished)))
  {
    hide After, References;
    AfterSnoc(start, before, s, LoopEnds);
  }

  /** The state without the temporary callback of the running call. */
  function Unheld(s: State, i: nat): State
    requires Shaped(s) && s.pc == In(i)
  {
    s.(copies := s.copies[i := s.copies[i] - 1])
  }

  lemma ReturnStep(start: State, before: seq<Action>, s: State, i: nat)
    requires After(start, before) == Reached(s) && Shaped(s) && s.pc == In(i)
    ensures After(start, before + [CallReturns]) == Reached(Unheld(s, i).(pc := At(i + 1)))
    ensures After(start, before + [CallThrows]) == Reached(Released(Ended(Unheld(s, i), Unheld(s, i).copies)))
    ensures References(Unheld(s, i)) == References(s) - 1 > 0
  {
    hide After, Sum, Released;
    AfterSnoc(start, before, s, CallReturns);
    AfterSnoc(start, before, s, CallThrows);
    ReferencesUpdate(s, i, s.copies[i] - 1);
  }

  /** The loop gives up its reference. */
  lemma LastRelease(s: State)
    requires s.pc.Finished?
    ensures References(Released(s)) == References(s)
    ensures Released(s).replies == if References(s) == 0 then s.replies + [s.responses] else s.replies
    ensures Released(s).responses == s.responses && Released(s).pc.Finished?
  {
  }

  /** The body of the loop. When it ends the loop, t is the state but for the last reference. */
  method HandleElement(batch: BatchResponse, kind: Kind, i: nat, h: Handling, ghost start: State,
      ghost before: seq<Action>, ghost s: State)
    returns (stopped: bool, ghost t: State)
    requires After(start, before) == Reached(s) && Arrived(s, i) && i < |s.kinds| && batch.Shows(s)
    requires kind == s.kinds[i]
    modifies batch
    ensures stopped == Ends(kind, h) && t.kinds == s.kinds
    ensures !stopped ==> batch.Shows(t) && Arrived(t, i + 1)
    ensures stopped ==> t.pc.Finished? && batch.Holds(t)
    ensures Leaves(s, t, kind, i, h)
    ensures After(start, before + Handled(kind, i, h)) == Reached(if stopped then Released(t) else t)
  {
    hide After, Sum, References, Released, Copies;
    if kind.Request? {
      t := HandleRequestSingle(batch, i, h, start, before, s);
      ReturnStep(start, before + Called(i, h), t, i);
      Regroup(before, Called(i, h), [if h.refuses then CallThrows else CallReturns]);
      batch.Release();
      t := Unheld(t, i);
      stopped := h.refuses;
      HoldsOne(t, Ended(t, t.copies));
      SameReferences(t, t.(pc := At(i + 1)));
      if stopped {
        batch.AddResponse(Error);
        t := Ended(t, t.copies);
      } else {
        t := t.(pc := At(i + 1));
      }
    } else {
      NotifyStep(start, before, s, i, h.notified);
      HoldsOne(s, Ended(s, s.copies));
      HoldsOne(s, s.(pc := Finished, silenced := true));
      SameReferences(s, s.(pc := At(i + 1)));
      stopped := kind.NotAnObject? || !h.notified.Fine?;
      if kind.NotAnObject? || h.notified.Throws? {
        batch.AddResponse(Error);
        t := Ended(s, s.copies);
      } else if stopped {
        t := s.(pc := Finished, silenced := true);
      } else {
        t := s.(pc := At(i + 1));
      }
    }
  }

  lemma HoldsOne(s: State, t: State)
    requires !s.pc.Finished? && t.pc.Finished? && t.copies == s.copies
    ensures References(s) == References(t) + 1
  {
  }

  /** The loop is left after its first n elements, the last of which has ended it. */
  ghost predicate StopsAt(kinds: seq<Kind>, handling: seq<Handling>, n: nat)
    requires n <= |kinds| == |handling|
  {
    n > 0 && Reaches(kinds, handling, n - 1) && Ends(kinds[n - 1], handling[n - 1])
  }

  lemma Told(s: State, kinds: seq<Kind>, handling: seq<Handling>, n: nat, stopped: bool)
    requires n <= |kinds| == |handling| && Tells(s, kinds, handling, n) && s.pc.Finished?
    requires if stopped then StopsAt(kinds, handling, n) else n == |kinds| && Reaches(kinds, handling, n)
    ensures forall i: nat :: To(i) in s.responses <==>
      i < |kinds| && kinds[i].Request? && handling[i].answers && Reaches(kinds, handling, i)
    ensures Error in s.responses <==>
      exists i :: 0 <= i < |kinds| && Reaches(kinds, handling, i) && Fails(kinds[i], handling[i])
    ensures References(s) == 0 <==>
      forall i :: 0 <= i < |kinds| && kinds[i].Request? && Reaches(kinds, handling, i) ==> handling[i].copies == 0
  {
    hide Ends, Sum;
    forall i: nat | i < |kinds|
      ensures Reaches(kinds, handling, i) <==> i < n
    {
    }
    SumIsZero(s.copies);
  }

  /** handleRequestBatch for a batch whose elements behave as handling says. The reply goes out before
      it returns exactly when no procedure has kept a callback. */
  method HandleRequestBatch(kinds: seq<Kind>, handling: seq<Handling>) returns (batch: BatchResponse)
    requires kinds != [] && |handling| == |kinds|
    ensures var end := After(Start(kinds), LoopRun(kinds, handling, 0));
      end.Reached? && end.state.pc.Finished? && batch.Shows(end.state)
    ensures forall i: nat :: To(i) in batch.responses <==>
      i < |kinds| && kinds[i].Request? && handling[i].answers && Reaches(kinds, handling, i)
    ensures Error in batch.responses <==>
      exists i :: 0 <= i < |kinds| && Reaches(kinds, handling, i) && Fails(kinds[i], handling[i])
    ensures batch.uses == 0 <==>
      forall i :: 0 <= i < |kinds| && kinds[i].Request? && Reaches(kinds, handling, i) ==> handling[i].copies == 0
    ensures batch.replies == if batch.uses == 0 then [batch.responses] else []
  {
    hide After, Sum, References, Start, Until, LoopRun, Released, Handled, Ends;
    batch := new BatchResponse();
    ghost var s := Start(kinds);
    Arrives(kinds, handling);
    var i, stopped := 0, false;
    while i < |kinds| && !stopped
      invariant 0 <= i <= |kinds| && s.kinds == kinds && Tells(s, kinds, handling, i)
      invariant if stopped then StopsAt(kinds, handling, i) else Reaches(kinds, handling, i)
      invariant !stopped ==> Arrived(s, i) && batch.Shows(s)
      invariant !stopped ==> After(Start(kinds), Until(kinds, handling, i)) == Reached(s)
      invariant !stopped ==> LoopRun(kinds, handling, 0) == LoopRun(kinds, handling, i)
      invariant stopped ==> s.pc.Finished? && batch.Holds(s)
      invariant stopped ==> After(Start(kinds), LoopRun(kinds, handling, 0)) == Reached(Released(s))
    {
      LoopRunFrom(kinds, handling, i);
      ghost var was := s;
      stopped, s := HandleElement(batch, kinds[i], i, handling[i], Start(kinds), Until(kinds, handling, i), s);
      TellsNext(was, s, kinds, handling, i);
      i := i + 1;
    }
    if !stopped {
      LoopRunEnds(kinds, handling);
      LoopEndsStep(Start(kinds), Until(kinds, handling, i), s);
      HoldsOne(s, s.(pc := Finished));
      s := s.(pc := Finished);
    }
    Told(s, kinds, handling, i, stopped);
    LastRelease(s);
    batch.Release();
  }
}
