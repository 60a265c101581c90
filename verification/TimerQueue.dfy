/** Timers ordered by expiry behind one timerfd (NetServer/TimerQueue.cpp, NetServer/Timer.h). Times
    are nanoseconds; the clock readings are parameters. A callback may add and cancel timers. */
module TimerQueues {
  import opened Octets

  /** timerfd_settime gets at least 100 microseconds. */
  const MIN_DELAY := 100_000

  /** What a callback does to the queue: it adds a timer by its delay from now, or cancels one by its
      address. */
  datatype Command = Add(delay: int, interval: int) | Cancel(target: nat)

  /** The addresses that a list of commands cancels. */
  function Targets(commands: seq<Command>): set<nat> {
    if commands == [] then {}
    else
      var last := commands[|commands| - 1];
      Targets(commands[..|commands| - 1]) + if last.Cancel? then {last.target} else {}
  }

  function AllTargets(lists: seq<seq<Command>>): set<nat> {
    if lists == [] then {} else AllTargets(lists[..|lists| - 1]) + Targets(lists[|lists| - 1])
  }

  /** The timers that a list of commands adds, in order. */
  function Additions(commands: seq<Command>): seq<Command> {
    if commands == [] then []
    else
      var last := commands[|commands| - 1];
      Additions(commands[..|commands| - 1]) + if last.Add? then [last] else []
  }

  function AllAdditions(lists: seq<seq<Command>>): seq<Command> {
    if lists == [] then [] else AllAdditions(lists[..|lists| - 1]) + Additions(lists[|lists| - 1])
  }

  lemma AdditionsNext(commands: seq<Command>, i: nat)
    requires i < |commands|
    ensures Additions(commands[..i + 1])
         == Additions(commands[..i]) + if commands[i].Add? then [commands[i]] else []
  {
    assert commands[..i + 1][..i] == commands[..i];
  }

  lemma AllAdditionsNext(lists: seq<seq<Command>>, i: nat)
    requires i < |lists|
    ensures AllAdditions(lists[..i + 1]) == AllAdditions(lists[..i]) + Additions(lists[i])
  {
    assert lists[..i + 1][..i] == lists[..i];
  }

  lemma TargetsNext(commands: seq<Command>, i: nat)
    requires i < |commands|
    ensures Targets(commands[..i + 1])
         == Targets(commands[..i]) + if commands[i].Cancel? then {commands[i].target} else {}
  {
    assert commands[..i + 1][..i] == commands[..i];
  }

  lemma AllTargetsNext(lists: seq<seq<Command>>, i: nat)
    requires i < |lists|
    ensures AllTargets(lists[..i + 1]) == AllTargets(lists[..i]) + Targets(lists[i])
  {
    assert lists[..i + 1][..i] == lists[..i];
  }

  class Timer {
    const id: nat               // its address
    const interval: int
    const repeat: bool
    var when: int
    var canceled: bool

    constructor (id: nat, when: int, interval: int)
      ensures this.id == id && this.interval == interval && this.when == when
      ensures repeat == (interval > 0) && !canceled
    {
      this.id, this.interval, this.when := id, interval, when;
      repeat, canceled := interval > 0, false;
    }

    predicate Expired(now: int)
      reads this
    {
      now >= when
    }

    method Restart(now: int)
      requires repeat
      modifies `when
      ensures when == now + interval
    {
      when := now + interval;
    }

    method Cancel()
      requires !canceled
      modifies `canceled
      ensures canceled
    {
      canceled := true;
    }
  }

  // ----- the ordered set -----

  datatype Entry = Entry(when: int, timer: Timer)

  /** Pairs compare by time, then by address. */
  predicate Before(a: Entry, b: Entry) {
    a.when < b.when || (a.when == b.when && a.timer.id < b.timer.id)
  }

  predicate Sorted(ts: seq<Entry>) { forall i, j :: 0 <= i < j < |ts| ==> Before(ts[i], ts[j]) }

  function Insert(ts: seq<Entry>, e: Entry): seq<Entry> {
    if ts == [] || Before(e, ts[0]) then [e] + ts else [ts[0]] + Insert(ts[1..], e)
  }

  ghost function Elements(ts: seq<Entry>): set<Entry> { set e | e in ts }

  /** Two timers never have the same address, so e has its place. */
  predicate HasPlace(ts: seq<Entry>, e: Entry) { forall i :: 0 <= i < |ts| ==> ts[i].timer.id != e.timer.id }

  lemma SortedCons(e: Entry, ts: seq<Entry>)
    requires Sorted(ts) && forall x :: x in ts ==> Before(e, x)
    ensures Sorted([e] + ts)
  {
  }

  lemma {:induction false} InsertAdds(ts: seq<Entry>, e: Entry)
    requires Sorted(ts) && HasPlace(ts, e)
    ensures Sorted(Insert(ts, e)) && Elements(Insert(ts, e)) == Elements(ts) + {e}
  {
    if ts != [] {
      var t := ts[1..];
      assert ts == [ts[0]] + t;
      assert forall x :: x in t ==> Before(ts[0], x);
      if Before(e, ts[0]) {
        SortedCons(e, ts);
      } else {
        InsertAdds(t, e);
        forall x | x in Insert(t, e)
          ensures Before(ts[0], x)
        {
          assert x in Elements(Insert(t, e));
        }
        SortedCons(ts[0], Insert(t, e));
      }
    }
  }

  function Erase(ts: seq<Entry>, e: Entry): seq<Entry> {
    if ts == [] then [] else if ts[0] == e then ts[1..] else [ts[0]] + Erase(ts[1..], e)
  }

  lemma {:induction false} EraseRemoves(ts: seq<Entry>, e: Entry)
    requires Sorted(ts)
    ensures Sorted(Erase(ts, e)) && Elements(Erase(ts, e)) == Elements(ts) - {e}
  {
    if ts != [] {
      var t := ts[1..];
      assert ts == [ts[0]] + t;
      assert forall x :: x in t ==> Before(ts[0], x);
      if ts[0] == e {
        assert e !in t;
        assert Elements(t) == Elements(ts) - {e};
      } else {
        EraseRemoves(t, e);
        forall x | x in Erase(t, e)
          ensures Before(ts[0], x)
        {
          assert x in Elements(Erase(t, e));
        }
        SortedCons(ts[0], Erase(t, e));
        assert Elements(Erase(ts, e)) == {ts[0]} + Elements(Erase(t, e));
      }
    }
  }

  /** How many entries lie before (now + 1ns, nullptr): the address of a timer is not null. */
  function LowerBound(ts: seq<Entry>, now: int): (n: nat)
    ensures n <= |ts|
  {
    if ts == [] || !(ts[0].when < now + 1) then 0 else 1 + LowerBound(ts[1..], now)
  }

  /** getExpired cuts the set exactly at when <= now, and both parts stay in order. */
  lemma {:induction false} CutsAtNow(ts: seq<Entry>, now: int)
    requires Sorted(ts)
    ensures var n := LowerBound(ts, now);
      && Elements(ts[..n]) == (set e | e in Elements(ts) && e.when <= now)
      && Elements(ts[n..]) == (set e | e in Elements(ts) && e.when > now)
      && Sorted(ts[..n]) && Sorted(ts[n..])
  {
    var n := LowerBound(ts, now);
    BoundAt(ts, now);
    forall e | e in ts
      ensures e in ts[..n] <==> e.when <= now
      ensures e in ts[n..] <==> e.when > now
    {
      var i :| 0 <= i < |ts| && ts[i] == e;
      assert if i < n then ts[..n][i] == e else ts[n..][i - n] == e;
    }
  }

  lemma {:induction false} BoundAt(ts: seq<Entry>, now: int)
    requires Sorted(ts)
    ensures forall i :: 0 <= i < |ts| ==> (i < LowerBound(ts, now) <==> ts[i].when <= now)
  {
    if ts != [] {
      if ts[0].when <= now {
        BoundAt(ts[1..], now);
        assert forall i :: 0 < i < |ts| ==> ts[i] == ts[1..][i - 1];
      } else {
        assert forall i :: 0 < i < |ts| ==> Before(ts[0], ts[i]);
      }
    }
  }

  function ExpiredAt(ts: seq<Entry>, now: int): seq<Entry> { ts[..LowerBound(ts, now)] }

  /** The timers of a list of entries, in order. */
  function Timers(es: seq<Entry>): (r: seq<Timer>)
    ensures |r| == |es| && forall i :: 0 <= i < |es| ==> r[i] == es[i].timer
  {
    if es == [] then [] else Timers(es[..|es| - 1]) + [es[|es| - 1].timer]
  }

  lemma TimersNext(es: seq<Entry>, i: nat)
    requires i < |es|
    ensures Timers(es[..i + 1]) == Timers(es[..i]) + [es[i].timer]
  {
    assert es[..i + 1][..i] == es[..i];
  }

  lemma ElementsNext(es: seq<Entry>, i: nat)
    requires Sorted(es) && i < |es|
    ensures es[i] in Elements(es[i..]) && Elements(es[i..]) - {es[i]} == Elements(es[i + 1..])
    ensures Elements(es[..i + 1]) == Elements(es[..i]) + {es[i]} && es[i] in Elements(es)
  {
    var rest := es[i + 1..];
    assert es[i..] == [es[i]] + rest && es[..i + 1] == es[..i] + [es[i]];
    forall j | 0 <= j < |rest|
      ensures rest[j] != es[i]
    {
      assert Before(es[i], es[i + 1 + j]);
    }
  }

  lemma NoElements()
    ensures Elements([]) == {}
  {
  }

  /** A pass calls each timer whose time has come once, and no other, the earlier before the later and
      those of the same time by address. */
  lemma PassCallsOnce(ts: seq<Entry>, now: int)
    requires Sorted(ts) && forall i, j :: 0 <= i < j < |ts| ==> ts[i].timer != ts[j].timer
    ensures var called := Timers(ExpiredAt(ts, now));
      && (forall i, j :: 0 <= i < j < |called| ==> called[i] != called[j])
      && (forall e :: e in ts ==> (e.timer in called <==> e.when <= now))
      && (forall i, j :: 0 <= i < j < |called| ==>
            && called[i] == ts[i].timer && called[j] == ts[j].timer
            && (ts[i].when < ts[j].when || (ts[i].when == ts[j].when && called[i].id < called[j].id)))
  {
    BoundAt(ts, now);
    var n, called := LowerBound(ts, now), Timers(ExpiredAt(ts, now));
    forall e | e in ts
      ensures e.timer in called <==> e.when <= now
    {
      var i :| 0 <= i < |ts| && ts[i] == e;
      if i < n {
        assert called[i] == e.timer;
      } else {
        assert forall j :: 0 <= j < n ==> called[j] != e.timer;
      }
    }
  }

  // ----- the queue -----

  /** When the timerfd set at some clock reading for some time becomes readable. */
  function ArmedTime(when: int, clock: int): int {
    if when - clock < MIN_DELAY then clock + MIN_DELAY else when
  }

  /** The timerfd set for the first entry is due no later than any entry, exactly when that entry was
      at least the minimum delay away; otherwise it is due that delay after it was set. */
  lemma DueInTimeIff(ts: seq<Entry>, clock: int)
    requires Sorted(ts) && ts != []
    ensures (forall e :: e in ts ==> ArmedTime(ts[0].when, clock) <= e.when) <==> ts[0].when >= clock + MIN_DELAY
    ensures forall e :: e in ts ==>
      ArmedTime(ts[0].when, clock) <= if e.when < clock + MIN_DELAY then clock + MIN_DELAY else e.when
  {
    forall e | e in ts
      ensures ts[0].when <= e.when
    {
      var i :| 0 <= i < |ts| && ts[i] == e;
      if i > 0 { assert Before(ts[0], ts[i]); }
    }
    assert ts[0] in ts;
  }

  datatype Field = Field(when: int, canceled: bool)

  ghost predicate OwnedIn(fields: map<Timer, Field>, waiting: set<Entry>, batch: set<Entry>) {
    && waiting !! batch
    && (forall e :: e in waiting ==> e.timer in fields && fields[e.timer] == Field(e.when, false))
    && (forall e :: e in batch ==> e.timer in fields && fields[e.timer] == Field(e.when, false))
    && (forall t :: t in fields ==> Entry(fields[t].when, t) in waiting || Entry(fields[t].when, t) in batch)
  }

  lemma AddedOwned(fields: map<Timer, Field>, waiting: set<Entry>, batch: set<Entry>, e: Entry)
    requires OwnedIn(fields, waiting, batch) && e.timer !in fields
    ensures OwnedIn(fields[e.timer := Field(e.when, false)], waiting + {e}, batch)
  {
  }

  /** A timer of the batch that gets a new time goes back to the waiting ones. */
  lemma RestartedOwned(fields: map<Timer, Field>, waiting: set<Entry>, batch: set<Entry>, e: Entry, when: int)
    requires OwnedIn(fields, waiting, batch) && e in batch
    ensures OwnedIn(fields[e.timer := Field(when, false)], waiting + {Entry(when, e.timer)}, batch - {e})
  {
  }

  lemma Apart(fields: map<Timer, Field>, waiting: set<Entry>, batch: set<Entry>, e: Entry)
    requires OwnedIn(fields, waiting, batch) && e in batch
    ensures waiting - {e} == waiting
  {
  }

  lemma DeletedOwned(fields: map<Timer, Field>, waiting: set<Entry>, batch: set<Entry>, e: Entry)
    requires OwnedIn(fields, waiting, batch) && e in waiting + batch
    ensures OwnedIn(fields - {e.timer}, waiting - {e}, batch - {e})
  {
  }

  /** A cancel deletes the timer. It leaves alone every timer that the pass will still touch exactly when
      the timer is one of those waiting, not one of the batch. */
  lemma CancelSparesBatchIff(fields: map<Timer, Field>, waiting: set<Entry>, batch: set<Entry>, t: Timer)
    requires OwnedIn(fields, waiting, batch) && t in fields
    ensures (forall e :: e in batch ==> e.timer in fields - {t}) <==> Entry(fields[t].when, t) in waiting
  {
    var e := Entry(fields[t].when, t);
    if e in batch { assert e.timer !in fields - {t}; }
  }

  // ----- which cancels a pass survives -----

  /** The addresses alive, and the next one. */
  datatype Ledger = Ledger(live: set<nat>, next: nat)

  function Obey(b: Ledger, c: Command, batch: set<nat>): Option<Ledger> {
    match c
    case Add(_, _) => Some(Ledger(b.live + {b.next}, b.next + 1))
    case Cancel(t) => if t in b.live && t !in batch then Some(b.(live := b.live - {t})) else None
  }

  /** A callback cancels only timers that are alive and not in the rest of the batch. */
  function ObeyAll(b: Ledger, commands: seq<Command>, batch: set<nat>): Option<Ledger> {
    if commands == [] then Some(b)
    else
      var c := ObeyAll(b, commands[..|commands| - 1], batch);
      if c.None? then None else Obey(c.value, commands[|commands| - 1], batch)
  }

  lemma ObeyNext(b: Ledger, commands: seq<Command>, i: nat, batch: set<nat>)
    requires i < |commands| && ObeyAll(b, commands[..i], batch).Some?
    ensures ObeyAll(b, commands[..i + 1], batch) == Obey(ObeyAll(b, commands[..i], batch).value, commands[i], batch)
  {
    assert commands[..i + 1][..i] == commands[..i];
  }

  lemma {:induction false} ObeyStuck(b: Ledger, commands: seq<Command>, i: nat, batch: set<nat>)
    requires i <= |commands| && ObeyAll(b, commands[..i], batch).None?
    ensures ObeyAll(b, commands, batch).None?
    decreases |commands|
  {
    if i < |commands| {
      var rest := commands[..|commands| - 1];
      assert rest[..i] == commands[..i];
      ObeyStuck(b, rest, i, batch);
    } else {
      assert commands[..i] == commands;
    }
  }

  ghost function BatchIds(batch: set<Entry>): set<nat> { set e | e in batch :: e.timer.id }

  /** One timer of the pass: its callback, and its deletion unless it repeats. */
  ghost function AfterTimer(b: Ledger, e: Entry, commands: seq<Command>, batch: set<Entry>): Option<Ledger> {
    var c := ObeyAll(b, commands, BatchIds(batch));
    if c.None? || e.timer.repeat then c else Some(c.value.(live := c.value.live - {e.timer.id}))
  }

  /** The first n timers of the pass. */
  ghost function AfterPass(b: Ledger, es: seq<Entry>, lists: seq<seq<Command>>, n: nat): Option<Ledger>
    requires n <= |es| == |lists|
  {
    if n == 0 then Some(b)
    else
      var c := AfterPass(b, es, lists, n - 1);
      if c.None? then None else AfterTimer(c.value, es[n - 1], lists[n - 1], Elements(es[n - 1..]))
  }

  lemma {:induction false} PassStuck(b: Ledger, es: seq<Entry>, lists: seq<seq<Command>>, i: nat, n: nat)
    requires i <= n <= |es| == |lists| && AfterPass(b, es, lists, i).None?
    ensures AfterPass(b, es, lists, n).None?
    decreases n
  {
    if i < n { PassStuck(b, es, lists, i, n - 1); }
  }

  lemma {:induction false} NoTargetsObeyed(b: Ledger, commands: seq<Command>, batch: set<nat>)
    ensures Targets(commands) == {} ==> ObeyAll(b, commands, batch).Some?
    decreases |commands|
  {
    if commands != [] { NoTargetsObeyed(b, commands[..|commands| - 1], batch); }
  }

  /** Callbacks that cancel nothing are safe. */
  lemma {:induction false} NoTargetsPass(b: Ledger, es: seq<Entry>, lists: seq<seq<Command>>, n: nat)
    requires n <= |es| == |lists|
    ensures AllTargets(lists[..n]) == {} ==> AfterPass(b, es, lists, n).Some?
    ensures lists[..|lists|] == lists
    decreases n
  {
    if n > 0 && AllTargets(lists[..n]) == {} {
      hide Targets, ObeyAll, Elements, BatchIds;
      AllTargetsNext(lists, n - 1);
      NoTargetsPass(b, es, lists, n - 1);
      NoTargetsObeyed(AfterPass(b, es, lists, n - 1).value, lists[n - 1], BatchIds(Elements(es[n - 1..])));
    }
  }

  ghost predicate AddressesIn(live: set<Timer>, next: nat) {
    && (forall t :: t in live ==> t.id < next && t.repeat == (t.interval > 0))
    && (forall t, u :: t in live && u in live && t.id == u.id ==> t == u)
  }

  ghost function Ids(live: set<Timer>): set<nat> { set t | t in live :: t.id }

  lemma OneMoreAddress(live: set<Timer>, next: nat, timer: Timer)
    requires AddressesIn(live, next) && timer.id == next && timer.repeat == (timer.interval > 0)
    ensures AddressesIn(live + {timer}, next + 1) && Ids(live + {timer}) == Ids(live) + {next}
  {
  }

  datatype Deadline = Disarmed | At(time: int)

  class TimerQueue {
    var timers: seq<Entry>
    var deadline: Deadline       // when the timerfd becomes readable
    var nextId: nat
    ghost var live: set<Timer>   // allocated and not deleted
    ghost var runs: seq<Timer>   // history: callbacks called
    ghost var armedFor: int      // the entry time and the clock at the last timerfd_settime
    ghost var setAt: int

    /** The entries waiting, and the batch of entries being processed, are exactly the timers alive,
        each once and under its own time. */
    ghost predicate Holds(batch: set<Entry>)
      reads `timers, `nextId, `live, live
    {
      Sorted(timers) && Owned(Elements(timers), batch) && Addresses()
    }

    ghost predicate Owned(waiting: set<Entry>, batch: set<Entry>)
      reads `live, live
    {
      OwnedIn(Fields(), waiting, batch)
    }

    /** The fields of every timer alive. */
    ghost function Fields(): map<Timer, Field>
      reads `live, live
    {
      map t | t in live :: Field(t.when, t.canceled)
    }

    ghost function Book(): Ledger
      reads `nextId, `live
    {
      Ledger(Ids(live), nextId)
    }

    ghost predicate Addresses()
      reads `nextId, `live
    {
      AddressesIn(live, nextId)
    }

    /** The timers alive whose address is not below from are some of those added by these commands, in
        order of address, each with its time and interval. */
    ghost predicate AddedBy(from: nat, adds: seq<Command>, now: int)
      reads `nextId, `live, live
    {
      && nextId == from + |adds|
      && forall t :: t in live && from <= t.id < from + |adds| ==>
           adds[t.id - from] == Add(t.when - now, t.interval)
    }

    ghost predicate Armed()
      reads this
    {
      timers != [] ==>
        && deadline == At(ArmedTime(armedFor, setAt))
        && armedFor <= timers[0].when
    }

    ghost predicate Valid()
      reads this, live
    {
      Holds({}) && Armed()
    }

    constructor ()
      ensures Valid() && live == {} && runs == []
    {
      timers, deadline, nextId := [], Disarmed, 0;
      live, runs, armedFor, setAt := {}, [], 0, 0;
    }

    /** timerFdSet: a relative time, never below the minimum. */
    method SetTimerFd(when: int, clock: int)
      modifies `deadline, `armedFor, `setAt
      ensures armedFor == when && setAt == clock
      ensures deadline == At(ArmedTime(when, clock))
    {
      var ns := when - clock;
      if ns < MIN_DELAY { ns := MIN_DELAY; }
      deadline := At(clock + ns);
      armedFor, setAt := when, clock;
    }

    /** The task of addTimer, in the middle of a batch or outside. It arms only for a new first entry,
        so while a batch runs the queue may be unarmed. */
    method AddTimer(when: int, interval: int, clock: int, ghost batch: set<Entry>) returns (timer: Timer)
      requires Holds(batch)
      modifies `timers, `deadline, `nextId, `live, `armedFor, `setAt
      ensures Holds(batch) && (old(Armed()) ==> Armed())
      ensures fresh(timer) && live == old(live) + {timer}
      ensures timer.when == when && timer.interval == interval && timer.id == old(nextId) && nextId == old(nextId) + 1
      ensures Elements(timers) == old(Elements(timers)) + {Entry(when, timer)}
      ensures Book() == Ledger(old(Book()).live + {old(Book()).next}, old(Book()).next + 1)
    {
      hide Sorted, Elements, Insert, HasPlace, OwnedIn, AddressesIn, Ids;
      ghost var was, fields := timers, Fields();
      timer := new Timer(nextId, when, interval);
      OneMoreAddress(live, nextId, timer);
      var e := Entry(when, timer);
      NewHasPlace(was, e, batch);
      nextId := nextId + 1;
      InsertAdds(timers, e);
      FirstAfterInsert(timers, e);
      timers := Insert(timers, e);
      live := live + {timer};
      AddedOwned(fields, Elements(was), batch, e);
      assert Fields() == fields[timer := Field(when, false)];
      if timers[0] == e {
        SetTimerFd(when, clock);
      }
    }

    lemma AllWait()
      requires Owned(Elements(timers), {})
      ensures forall t :: t in live ==> Entry(t.when, t) in Elements(timers) && !t.canceled
    {
      hide Elements;
      forall t | t in live
        ensures Entry(t.when, t) in Elements(timers) && !t.canceled
      {
        assert Fields()[t] == Field(t.when, t.canceled);
        assert Entry(t.when, t) in Elements(timers);
      }
    }

    lemma AllInBatch(waiting: set<Entry>, batch: set<Entry>)
      requires Owned(waiting, batch)
      ensures forall e :: e in batch ==> e.timer in live && e.timer.when == e.when
    {
      hide Elements;
      forall e | e in batch
        ensures e.timer in live && e.timer.when == e.when
      {
        InBatch(waiting, batch, e);
      }
    }

    lemma InBatch(waiting: set<Entry>, batch: set<Entry>, e: Entry)
      requires Owned(waiting, batch) && e in batch
      ensures e.timer in live && e.timer.when == e.when && !e.timer.canceled
    {
    }

    lemma NewHasPlace(ts: seq<Entry>, e: Entry, batch: set<Entry>)
      requires Owned(Elements(ts), batch) && Addresses() && e.timer.id >= nextId
      ensures HasPlace(ts, e)
    {
      forall i | 0 <= i < |ts|
        ensures ts[i].timer.id != e.timer.id
      {
        assert ts[i] in Elements(ts);
      }
    }

    lemma OwnHasPlace(ts: seq<Entry>, e: Entry, when: int, batch: set<Entry>)
      requires Owned(Elements(ts), batch) && Addresses() && e in batch
      ensures HasPlace(ts, Entry(when, e.timer))
    {
      forall i | 0 <= i < |ts|
        ensures ts[i].timer.id != e.timer.id
      {
        assert ts[i] in Elements(ts);
      }
    }

    /** The task of cancelTimer, in the middle of a batch or outside. The timer must not have been
        deleted, nor be in the rest of the batch. */
    method CancelTimer(timer: Timer, ghost batch: set<Entry>)
      requires Holds(batch) && timer in live && Entry(timer.when, timer) !in batch
      modifies `timers, `live, timer`canceled
      ensures Holds(batch) && (old(Armed()) ==> Armed())
      ensures live == old(live) - {timer} && timer.canceled
      ensures Elements(timers) == old(Elements(timers)) - {Entry(timer.when, timer)}
    {
      hide Sorted, Elements, Erase, OwnedIn;
      ghost var was, fields := timers, Fields();
      var e := Entry(timer.when, timer);
      LiveWaits(Elements(timers), batch, timer);
      timer.Cancel();
      EraseRemoves(timers, e);
      timers := Erase(timers, e);
      live := live - {timer};
      DeletedOwned(fields, Elements(was), batch, e);
      assert Fields() == fields - {timer};
      assert batch - {e} == batch;
      FirstStays(was, timers);
    }

    lemma LiveWaits(waiting: set<Entry>, batch: set<Entry>, timer: Timer)
      requires Owned(waiting, batch) && timer in live && Entry(timer.when, timer) !in batch
      ensures Entry(timer.when, timer) in waiting && !timer.canceled
    {
      assert Fields()[timer] == Field(timer.when, timer.canceled);
    }

    /** The timer with an address, if it is waiting. */
    method Find(id: nat) returns (found: bool, timer: Timer?)
      ensures if found then timer != null && timer.id == id && Waits(timers, timer)
              else forall i :: 0 <= i < |timers| ==> timers[i].timer.id != id
    {
      for i := 0 to |timers|
        invariant forall j :: 0 <= j < i ==> timers[j].timer.id != id
      {
        if timers[i].timer.id == id {
          assert Waits(timers, timers[i].timer);
          return true, timers[i].timer;
        }
      }
      return false, null;
    }

    /** A callback cancels the timer with an address. This is safe exactly when the timer is alive and
        not in the rest of the batch, to which the timer belongs whose callback runs. */
    method CancelByAddress(id: nat, ghost batch: set<Entry>) returns (safe: bool)
      requires Holds(batch)
      modifies `timers, `live, live`canceled
      ensures safe <==> exists t :: t in old(live) && t.id == id && Entry(t.when, t) !in batch
      ensures safe <==> id in old(Book()).live && id !in BatchIds(batch)
      ensures safe ==> Holds(batch) && (old(Armed()) ==> Armed())
      ensures live == if safe then set t | t in old(live) && t.id != id else old(live)
      ensures Book().next == old(Book()).next && Book().live == old(Book()).live - if safe then {id} else {}
    {
      hide Sorted, Elements, OwnedIn;
      var found, timer := Find(id);
      CancellableIff(batch, id);
      SafeTargetIff(Elements(timers), batch, id);
      if !found { return false; }
      WaitingIsLive(batch, timer);
      assert forall t :: t in live && t.id == id ==> t == timer;
      CancelTimer(timer, batch);
      return true;
    }

    lemma WaitingIsLive(batch: set<Entry>, timer: Timer)
      requires Owned(Elements(timers), batch) && Waits(timers, timer)
      ensures timer in live && Entry(timer.when, timer) !in batch
    {
      var i :| 0 <= i < |timers| && timers[i].timer == timer;
      assert timers[i] in Elements(timers);
    }

    lemma SafeTargetIff(waiting: set<Entry>, batch: set<Entry>, id: nat)
      requires Owned(waiting, batch) && Addresses()
      ensures (exists t :: t in live && t.id == id && Entry(t.when, t) !in batch)
         <==> id in Book().live && id !in BatchIds(batch)
    {
      if t :| t in live && t.id == id {
        if id in BatchIds(batch) {
          var e :| e in batch && e.timer.id == id;
          InBatch(waiting, batch, e);
          assert e == Entry(t.when, t);
        }
      }
    }

    lemma CancellableIff(batch: set<Entry>, id: nat)
      requires Owned(Elements(timers), batch)
      ensures (exists i :: 0 <= i < |timers| && timers[i].timer.id == id)
         <==> exists t :: t in live && t.id == id && Entry(t.when, t) !in batch
    {
      if i :| 0 <= i < |timers| && timers[i].timer.id == id {
        assert Waits(timers, timers[i].timer);
        WaitingIsLive(batch, timers[i].timer);
      }
      if t :| t in live && t.id == id && Entry(t.when, t) !in batch {
        LiveWaits(Elements(timers), batch, t);
        assert Entry(t.when, t) in timers;
      }
    }

    method GetExpired(now: int) returns (entries: seq<Entry>)
      requires Holds({})
      modifies `timers
      ensures Holds(Elements(entries)) && Sorted(entries)
      ensures entries == ExpiredAt(old(timers), now)
      ensures Elements(entries) == (set e | e in old(Elements(timers)) && e.when <= now)
      ensures Elements(timers) == (set e | e in old(Elements(timers)) && e.when > now)
    {
      hide Sorted, Addresses;
      var end := LowerBound(timers, now);
      CutsAtNow(timers, now);
      entries := timers[..end];
      timers := timers[end..];
    }

    /** One command of a callback, after adds were added from the address from on. */
    method RunCommand(c: Command, now: int, ghost batch: set<Entry>, ghost from: nat, ghost adds: seq<Command>)
      returns (safe: bool)
      requires Holds(batch) && AddedBy(from, adds, now)
      modifies `timers, `deadline, `nextId, `live, `armedFor, `setAt, live`canceled
      ensures safe ==> Holds(batch) && AddedBy(from, adds + if c.Add? then [c] else [], now)
      ensures fresh(live - old(live))
      ensures safe ==> forall t :: t in old(live) ==> (t in live <==> c != Cancel(t.id))
      ensures Obey(old(Book()), c, BatchIds(batch)) == if safe then Some(Book()) else None
    {
      hide Sorted, Elements, OwnedIn, BatchIds;
      match c {
        case Add(delay, interval) =>
          var _ := AddTimer(now + delay, interval, now, batch);
          return true;
        case Cancel(id) =>
          safe := CancelByAddress(id, batch);
          assert adds + [] == adds;
      }
    }

    /** A callback. It ends early when it cancels a timer that it must not cancel. */
    method RunCallback(commands: seq<Command>, now: int, ghost batch: set<Entry>, ghost from: nat,
        ghost adds: seq<Command>)
      returns (safe: bool)
      requires Holds(batch) && AddedBy(from, adds, now)
      modifies `timers, `deadline, `nextId, `live, `armedFor, `setAt, live`canceled
      ensures safe ==> Holds(batch)
      ensures fresh(live - old(live))
      ensures safe ==> forall t :: t in old(live) ==> (t in live <==> t.id !in Targets(commands))
      ensures safe ==> AddedBy(from, adds + Additions(commands), now)
      ensures ObeyAll(old(Book()), commands, BatchIds(batch)) == if safe then Some(Book()) else None
    {
      hide Sorted, Elements, OwnedIn, Addresses, Targets, ObeyAll, Obey, Book, BatchIds, Additions, AddedBy, Holds;
      NoCommands(Book(), commands, BatchIds(batch));
      assert Targets(commands[..0]) == {} by { NoTargets(commands); }
      assert adds + Additions(commands[..0]) == adds by { NoAdditions(commands); }
      for i := 0 to |commands|
        invariant Holds(batch)
        invariant fresh(live - old(live))
        invariant forall t :: t in old(live) ==> (t in live <==> t.id !in Targets(commands[..i]))
        invariant AddedBy(from, adds + Additions(commands[..i]), now)
        invariant ObeyAll(old(Book()), commands[..i], BatchIds(batch)) == Some(Book())
      {
        TargetsNext(commands, i);
        AdditionsNext(commands, i);
        ObeyNext(old(Book()), commands, i, BatchIds(batch));
        ghost var more := if commands[i].Add? then [commands[i]] else [];
        assert adds + Additions(commands[..i]) + more == adds + (Additions(commands[..i]) + more);
        safe := RunCommand(commands[i], now, batch, from, adds + Additions(commands[..i]));
        if !safe {
          ObeyStuck(old(Book()), commands, i + 1, BatchIds(batch));
          return;
        }
      }
      assert commands[..|commands|] == commands;
      return true;
    }

    /** So far nothing was added, and the batch is older than what will be. */
    lemma NothingAdded(batch: set<Entry>, now: int)
      requires Holds(batch)
      ensures AddedBy(nextId, [], now)
      ensures forall e :: e in batch ==> e.timer.id < nextId
    {
      hide Sorted, Elements;
      AllInBatch(Elements(timers), batch);
    }

    lemma BookWithout(timer: Timer)
      requires Addresses() && timer in live
      ensures (set t | t in live - {timer} :: t.id) == Book().live - {timer.id}
    {
    }

    /** What follows the callback of an expired timer: a restart or the delete. */
    method Settle(e: Entry, now: int, ghost batch: set<Entry>)
      requires Holds(batch) && e in batch
      modifies `timers, `live, e.timer`when
      ensures Holds(batch - {e})
      ensures live == if e.timer.repeat then old(live) else old(live) - {e.timer}
      ensures e.timer.when == if e.timer.repeat then now + e.timer.interval else old(e.timer.when)
      ensures Book().next == old(Book()).next
      ensures Book().live == if e.timer.repeat then old(Book()).live else old(Book()).live - {e.timer.id}
    {
      hide Sorted, Elements, Insert, HasPlace, OwnedIn;
      var timer := e.timer;
      InBatch(Elements(timers), batch, e);
      ghost var waiting, fields := Elements(timers), Fields();
      if timer.repeat {
        OwnHasPlace(timers, e, now + timer.interval, batch);
        timer.Restart(now);
        InsertAdds(timers, Entry(timer.when, timer));
        timers := Insert(timers, Entry(timer.when, timer));
        RestartedOwned(fields, waiting, batch, e, timer.when);
        assert Fields() == fields[timer := Field(timer.when, false)];
      } else {
        BookWithout(timer);
        live := live - {timer};
        DeletedOwned(fields, waiting, batch, e);
        assert Fields() == fields - {timer} && waiting - {e} == waiting by { Apart(fields, waiting, batch, e); }
      }
    }

    /** One expired timer. */
    method Fire(e: Entry, now: int, commands: seq<Command>, ghost batch: set<Entry>, ghost from: nat,
        ghost adds: seq<Command>)
      returns (safe: bool)
      requires Holds(batch) && e in batch && e.when <= now
      requires AddedBy(from, adds, now) && e.timer.id < from
      modifies this, live`canceled, e.timer`when
      ensures safe ==> Holds(batch - {e}) && runs == old(runs) + [e.timer]
      ensures safe ==> forall t :: t in old(live) ==>
        (t in live <==> t.id !in Targets(commands) && (t != e.timer || t.repeat))
      ensures fresh(live - old(live))
      ensures safe ==> e.timer.when == if e.timer.repeat then now + e.timer.interval else old(e.timer.when)
      ensures safe ==> AddedBy(from, adds + Additions(commands), now)
      ensures AfterTimer(old(Book()), e, commands, batch) == if safe then Some(Book()) else None
    {
      hide Sorted, Elements, OwnedIn, Targets, ObeyAll, BatchIds, Book, Addresses, Additions;
      InBatch(Elements(timers), batch, e);
      assert e.timer.Expired(now) && !e.timer.canceled;
      runs := runs + [e.timer];
      safe := RunCallback(commands, now, batch, from, adds);
      if !safe { return; }
      InBatch(Elements(timers), batch, e);
      Settle(e, now, batch);
    }

    /** The loop over the expired entries; commands says what each callback does. */
    method FireAll(entries: seq<Entry>, now: int, commands: seq<seq<Command>>) returns (safe: bool)
      requires Holds(Elements(entries)) && Sorted(entries) && AllDue(entries, now) && |commands| == |entries|
      modifies this, live
      ensures safe ==> Holds({}) && runs == old(runs) + Timers(entries)
      ensures fresh(live - old(live))
      ensures safe ==> forall t :: t in old(live) ==>
        (t in live <==> t.id !in AllTargets(commands) && (t.repeat || Entry(old(t.when), t) !in Elements(entries)))
      ensures safe ==> forall t :: t in old(live) && t in live ==>
        t.when == if Entry(old(t.when), t) in Elements(entries) then now + t.interval else old(t.when)
      ensures safe ==> AddedBy(old(nextId), AllAdditions(commands), now)
      ensures AfterPass(old(Book()), entries, commands, |entries|) == if safe then Some(Book()) else None
    {
      hide Sorted, Elements, LowerBound, Addresses, AllDue, OwnedIn, Targets, AllTargets, Book, AfterTimer, AddedBy,
        Additions, AllAdditions;
      assert entries[0..] == entries && entries[..0] == [] && commands[..0] == [];
      NoElements();
      NothingTargeted();
      AllInBatch(Elements(timers), Elements(entries));
      NothingAdded(Elements(entries), now);
      for i := 0 to |entries|
        invariant Holds(Elements(entries[i..]))
        invariant runs == old(runs) + Timers(entries[..i])
        invariant fresh(live - old(live))
        invariant forall t :: t in old(live) ==>
          (t in live <==>
             t.id !in AllTargets(commands[..i]) && (t.repeat || Entry(old(t.when), t) !in Elements(entries[..i])))
        invariant forall t :: t in old(live) && t in live ==>
          t.when == if Entry(old(t.when), t) in Elements(entries[..i]) then now + t.interval else old(t.when)
        invariant AddedBy(old(nextId), AllAdditions(commands[..i]), now)
        invariant AfterPass(old(Book()), entries, commands, i) == Some(Book())
      {
        AllAdditionsNext(commands, i);
        ElementsNext(entries, i);
        TimersNext(entries, i);
        AllTargetsNext(commands, i);
        Due(entries, i, now);
        InBatch(Elements(timers), Elements(entries[i..]), entries[i]);
        safe := Fire(entries[i], now, commands[i], Elements(entries[i..]), old(nextId), AllAdditions(commands[..i]));
        if !safe {
          PassStuck(old(Book()), entries, commands, i + 1, |entries|);
          return;
        }
      }
      assert entries[..|entries|] == entries && entries[|entries|..] == [] && commands[..|commands|] == commands;
      return true;
    }

    /** handleRead: one pass. Each timer whose time has come runs once, in order; a repeating one goes
        back one interval after now, a one-shot is deleted; those that callbacks cancel are deleted; no
        other timer changes. The pass is safe unless a callback cancels a timer that is not alive or in
        the rest of the batch. */
    method HandleRead(now: int, clock: int, commands: seq<seq<Command>>) returns (safe: bool)
      requires Valid() && |commands| == |ExpiredAt(timers, now)|
      modifies this, live
      ensures safe ==> Valid() && runs == old(runs) + Timers(ExpiredAt(old(timers), now))
      ensures safe ==> forall t :: t in old(live) ==>
        (t in live <==> t.id !in AllTargets(commands) && (t.repeat || old(t.when) > now))
      ensures safe ==> forall t :: t in old(live) && t in live ==>
        t.when == if old(t.when) <= now then now + t.interval else old(t.when)
      ensures safe ==> AddedBy(old(nextId), AllAdditions(commands), now)
      ensures fresh(live - old(live))
      ensures safe && timers != [] ==> armedFor == timers[0].when && setAt == clock
      ensures var es := ExpiredAt(old(timers), now);
        AfterPass(old(Book()), es, commands, |es|) == if safe then Some(Book()) else None
      ensures AllTargets(commands) == {} ==> safe
    {
      hide Sorted, Elements, LowerBound, Addresses, ExpiredAt, OwnedIn, Targets, AllTargets, Book, AfterPass, AddedBy,
        AllAdditions;
      AllWait();
      deadline := Disarmed;
      var entries := GetExpired(now);
      ElementsDue(entries, now);
      NoTargetsPass(Book(), entries, commands, |entries|);
      safe := FireAll(entries, now, commands);
      if safe && timers != [] {
        SetTimerFd(timers[0].when, clock);
      }
    }
  }

  /** The timer is in the queue. */
  predicate Waits(ts: seq<Entry>, timer: Timer) { exists i :: 0 <= i < |ts| && ts[i].timer == timer }

  lemma NoCommands(b: Ledger, commands: seq<Command>, batch: set<nat>)
    ensures ObeyAll(b, commands[..0], batch) == Some(b)
  {
  }

  lemma NoTargets(commands: seq<Command>)
    ensures Targets(commands[..0]) == {}
  {
  }

  lemma NoAdditions(commands: seq<Command>)
    ensures Additions(commands[..0]) == []
  {
  }

  lemma NothingTargeted()
    ensures Targets([]) == {} && AllTargets([]) == {} && AllAdditions([]) == []
  {
  }

  predicate AllDue(es: seq<Entry>, now: int) { forall i :: 0 <= i < |es| ==> es[i].when <= now }

  lemma Due(es: seq<Entry>, i: nat, now: int)
    requires AllDue(es, now) && i < |es|
    ensures es[i].when <= now
  {
  }

  lemma ElementsDue(es: seq<Entry>, now: int)
    requires forall e :: e in Elements(es) ==> e.when <= now
    ensures AllDue(es, now)
  {
    forall i | 0 <= i < |es|
      ensures es[i].when <= now
    {
      assert es[i] in Elements(es);
    }
  }

  lemma FirstAfterInsert(ts: seq<Entry>, e: Entry)
    ensures var r := Insert(ts, e); r != [] && (r[0] == e || (ts != [] && r[0] == ts[0]))
    ensures ts == [] ==> Insert(ts, e)[0] == e
    ensures ts != [] && Insert(ts, e)[0] == e ==> e.when <= ts[0].when || ts[0] == e
  {
  }

  lemma FirstStays(was: seq<Entry>, now: seq<Entry>)
    requires Sorted(was) && Elements(now) <= Elements(was)
    ensures now != [] ==> was != [] && was[0].when <= now[0].when
  {
    if now != [] {
      assert now[0] in Elements(now);
      var i :| 0 <= i < |was| && was[i] == now[0];
      if i > 0 { assert Before(was[0], was[i]); }
    }
  }
}
