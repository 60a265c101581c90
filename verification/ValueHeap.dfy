/** Reference counts of JSON values (JsonServer/Value.h): every copy, move, assignment, set, insertion
    and destruction of a Value, on any graph of shared strings, arrays and objects. */
module ValueHeap {

  /** A Value, as far as ownership goes: a scalar, or a pointer to a counted cell. */
  datatype Slot = Scalar | Points(ref: nat)

  /** A string, array or object; an object lists its keys and its values. A deleted cell stays in the
      list, so that an address is never used again. */
  datatype Cell = Cell(refCount: nat, alive: bool, items: seq<Slot>)

  /** The cells, and the Values that are variables of the program; a destroyed one is a Scalar. */
  datatype Heap = Heap(cells: seq<Cell>, roots: seq<Slot>)

  /** Where a Value lives. */
  datatype Location = Root(index: nat) | Item(cell: nat, at: nat)

  predicate Exists(h: Heap, l: Location) {
    match l
    case Root(i) => i < |h.roots|
    case Item(r, k) => r < |h.cells| && h.cells[r].alive && k < |h.cells[r].items|
  }

  function Read(h: Heap, l: Location): Slot
    requires Exists(h, l)
  {
    match l
    case Root(i) => h.roots[i]
    case Item(r, k) => h.cells[r].items[k]
  }

  function Write(h: Heap, l: Location, s: Slot): Heap
    requires Exists(h, l)
  {
    match l
    case Root(i) => h.(roots := h.roots[i := s])
    case Item(r, k) => h.(cells := h.cells[r := h.cells[r].(items := h.cells[r].items[k := s])])
  }

  // ----- who points where -----

  function One(s: Slot, r: nat): nat { if s == Points(r) then 1 else 0 }

  /** How many Values of a list point at r. */
  function Occurs(s: seq<Slot>, r: nat): nat {
    if s == [] then 0 else Occurs(s[..|s| - 1], r) + One(s[|s| - 1], r)
  }

  /** How many Values stored in cells point at r. */
  function Stored(cells: seq<Cell>, r: nat): nat {
    if cells == [] then 0 else Stored(cells[..|cells| - 1], r) + Occurs(cells[|cells| - 1].items, r)
  }

  /** How many live Values point at r; held are those on their way from one place to another or to
      their destruction. */
  function Pointers(h: Heap, held: seq<Slot>, r: nat): nat {
    Occurs(h.roots, r) + Stored(h.cells, r) + Occurs(held, r)
  }

  /** Each count is the number of live Values that point at the cell; a cell is deleted exactly when
      that is zero, with everything in it; nothing points outside. */
  ghost predicate Counted(h: Heap, held: seq<Slot>) {
    forall r: nat :: CountedAt(h, r, Pointers(h, held, r))
  }

  predicate CountedAt(h: Heap, r: nat, n: nat) {
    if r >= |h.cells| then n == 0
    else
      var c := h.cells[r];
      c.refCount == n && (c.alive <==> n > 0) && (!c.alive ==> c.items == [])
  }

  // ----- counting -----

  lemma {:induction false} OccursAppend(a: seq<Slot>, b: seq<Slot>, r: nat)
    ensures Occurs(a + b, r) == Occurs(a, r) + Occurs(b, r)
    decreases |b|
  {
    if b == [] {
      assert a + b == a;
    } else {
      var n := |b| - 1;
      assert (a + b)[..|a| + n] == a + b[..n];
      OccursAppend(a, b[..n], r);
    }
  }

  lemma OccursOne(s: Slot, r: nat)
    ensures Occurs([s], r) == One(s, r)
  {
    assert [s][..0] == [];
  }

  lemma OccursCons(s: Slot, held: seq<Slot>, r: nat)
    ensures Occurs([s] + held, r) == One(s, r) + Occurs(held, r)
  {
    OccursAppend([s], held, r);
    OccursOne(s, r);
  }

  lemma OccursUpdate(s: seq<Slot>, k: nat, x: Slot, r: nat)
    requires k < |s|
    ensures Occurs(s[k := x], r) + One(s[k], r) == Occurs(s, r) + One(x, r)
  {
    hide Occurs, One;
    assert s == s[..k] + ([s[k]] + s[k + 1..]) && s[k := x] == s[..k] + ([x] + s[k + 1..]);
    OccursAppend(s[..k], [s[k]] + s[k + 1..], r);
    OccursAppend(s[..k], [x] + s[k + 1..], r);
    OccursCons(s[k], s[k + 1..], r);
    OccursCons(x, s[k + 1..], r);
  }

  lemma {:induction false} StoredUpdate(cells: seq<Cell>, i: nat, c: Cell, r: nat)
    requires i < |cells|
    ensures Stored(cells[i := c], r) + Occurs(cells[i].items, r) == Stored(cells, r) + Occurs(c.items, r)
    decreases |cells|
  {
    hide Occurs;
    var n := |cells| - 1;
    if i == n {
      assert cells[i := c][..n] == cells[..n];
    } else {
      assert cells[i := c][..n] == cells[..n][i := c];
      StoredUpdate(cells[..n], i, c, r);
    }
  }

  lemma WriteMoves(h: Heap, l: Location, s: Slot, r: nat)
    requires Exists(h, l)
    ensures Pointers(Write(h, l, s), [], r) + One(Read(h, l), r) == Pointers(h, [], r) + One(s, r)
  {
    hide Occurs, Stored, One;
    match l
    case Root(i) => OccursUpdate(h.roots, i, s, r);
    case Item(q, k) =>
      OccursUpdate(h.cells[q].items, k, s, r);
      StoredUpdate(h.cells, q, h.cells[q].(items := h.cells[q].items[k := s]), r);
  }

  lemma HeldApart(h: Heap, held: seq<Slot>, r: nat)
    ensures Pointers(h, held, r) == Pointers(h, [], r) + Occurs(held, r)
  {
  }

  // ----- moving Values about -----

  lemma TakeOut(h: Heap, l: Location, held: seq<Slot>)
    requires Counted(h, held) && Exists(h, l)
    ensures Counted(Write(h, l, Scalar), [Read(h, l)] + held)
  {
    hide Pointers, Occurs, One;
    var g, s := Write(h, l, Scalar), Read(h, l);
    forall r: nat
      ensures CountedAt(g, r, Pointers(g, [s] + held, r))
    {
      WriteMoves(h, l, Scalar, r);
      NoOne(r);
      HeldApart(h, held, r);
      HeldApart(g, [s] + held, r);
      OccursCons(s, held, r);
      assert CountedAt(h, r, Pointers(h, held, r));
    }
  }

  lemma NoOne(r: nat)
    ensures One(Scalar, r) == 0
  {
  }

  lemma PutIn(h: Heap, l: Location, s: Slot, held: seq<Slot>)
    requires Counted(h, [s] + held) && Exists(h, l) && Read(h, l).Scalar?
    ensures Counted(Write(h, l, s), held)
  {
    hide Pointers, Occurs, One;
    var g := Write(h, l, s);
    forall r: nat
      ensures CountedAt(g, r, Pointers(g, held, r))
    {
      WriteMoves(h, l, s, r);
      NoOne(r);
      HeldApart(h, [s] + held, r);
      HeldApart(g, held, r);
      OccursCons(s, held, r);
      assert CountedAt(h, r, Pointers(h, [s] + held, r));
    }
  }

  function AddRoot(h: Heap, s: Slot): Heap { h.(roots := h.roots + [s]) }

  lemma PutRoot(h: Heap, s: Slot, held: seq<Slot>)
    requires Counted(h, [s] + held)
    ensures Counted(AddRoot(h, s), held)
  {
    hide Occurs, One, Stored;
    var g := AddRoot(h, s);
    forall r: nat
      ensures CountedAt(g, r, Pointers(g, held, r))
    {
      OccursAppend(h.roots, [s], r);
      OccursOne(s, r);
      OccursCons(s, held, r);
      assert CountedAt(h, r, Pointers(h, [s] + held, r));
    }
  }

  function AddItem(h: Heap, q: nat, s: Slot): Heap
    requires q < |h.cells|
  {
    h.(cells := h.cells[q := h.cells[q].(items := h.cells[q].items + [s])])
  }

  lemma PutItem(h: Heap, q: nat, s: Slot, held: seq<Slot>)
    requires Counted(h, [s] + held) && q < |h.cells| && h.cells[q].alive
    ensures Counted(AddItem(h, q, s), held)
  {
    hide Occurs, One, Stored;
    var g, c := AddItem(h, q, s), h.cells[q];
    forall r: nat
      ensures CountedAt(g, r, Pointers(g, held, r))
    {
      StoredUpdate(h.cells, q, g.cells[q], r);
      OccursAppend(c.items, [s], r);
      OccursOne(s, r);
      OccursCons(s, held, r);
      assert CountedAt(h, r, Pointers(h, [s] + held, r));
    }
  }

  /** The constructor of a string, an array or an object. */
  function NewCell(h: Heap): Heap { h.(cells := h.cells + [Cell(1, true, [])]) }

  lemma Allocates(h: Heap, held: seq<Slot>)
    requires Counted(h, held)
    ensures Counted(NewCell(h), [Points(|h.cells|)] + held)
  {
    var g, s := NewCell(h), Points(|h.cells|);
    assert g.cells[..|h.cells|] == h.cells;
    hide Occurs;
    forall r: nat
      ensures CountedAt(g, r, Pointers(g, [s] + held, r))
    {
      assert Occurs([], r) == 0 by { NoneOccur(r); }
      OccursCons(s, held, r);
      assert CountedAt(h, r, Pointers(h, held, r));
    }
  }

  lemma NoneOccur(r: nat)
    ensures Occurs([], r) == 0
  {
  }

  /** incrAndGet of the cell that a Value points at. */
  function Increment(h: Heap, s: Slot): Heap {
    if s.Scalar? || s.ref >= |h.cells| then h
    else h.(cells := h.cells[s.ref := h.cells[s.ref].(refCount := h.cells[s.ref].refCount + 1)])
  }

  /** The copy constructor. The count that it increments is positive, as incrAndGet asserts. */
  lemma Copies(h: Heap, l: Location, held: seq<Slot>)
    requires Counted(h, held) && Exists(h, l)
    ensures var s := Read(h, l);
      && (s.Points? ==> s.ref < |h.cells| && h.cells[s.ref].refCount > 0)
      && Counted(Increment(h, s), [s] + held)
  {
    var s := Read(h, l);
    var g := Increment(h, s);
    if s.Points? { PointsAtLive(h, l, held); }
    hide Occurs, Stored;
    forall r: nat
      ensures CountedAt(g, r, Pointers(g, [s] + held, r))
    {
      if s.Points? { StoredUpdate(h.cells, s.ref, g.cells[s.ref], r); }
      OccursCons(s, held, r);
      assert CountedAt(h, r, Pointers(h, held, r));
    }
  }

  lemma PointsAtLive(h: Heap, l: Location, held: seq<Slot>)
    requires Counted(h, held) && Exists(h, l) && Read(h, l).Points?
    ensures Read(h, l).ref < |h.cells| && h.cells[Read(h, l).ref].alive && h.cells[Read(h, l).ref].refCount > 0
  {
    hide Occurs, Stored;
    var r := Read(h, l).ref;
    WriteMoves(h, l, Scalar, r);
    HeldApart(h, held, r);
    assert CountedAt(h, r, Pointers(h, held, r));
  }

  // ----- destruction -----

  function Size(cells: seq<Cell>): nat {
    if cells == [] then 0 else Size(cells[..|cells| - 1]) + |cells[|cells| - 1].items|
  }

  lemma {:induction false} SizeUpdate(cells: seq<Cell>, r: nat, c: Cell)
    requires r < |cells|
    ensures Size(cells[r := c]) + |cells[r].items| == Size(cells) + |c.items|
    decreases |cells|
  {
    var n := |cells| - 1;
    if r == n {
      assert cells[r := c][..n] == cells[..n];
    } else {
      assert cells[r := c][..n] == cells[..n][r := c];
      SizeUpdate(cells[..n], r, c);
    }
  }

  /** decrAndGet on one Value, and the delete when it returns 0; the Values of a deleted cell are to be
      destroyed next. */
  datatype Dropped = Dropped(heap: Heap, freed: seq<Slot>)

  function Drop(h: Heap, s: Slot): (d: Dropped)
    ensures |d.heap.cells| == |h.cells| && d.heap.roots == h.roots
    ensures Size(d.heap.cells) + |d.freed| == Size(h.cells)
  {
    if s.Scalar? || s.ref >= |h.cells| || h.cells[s.ref].refCount == 0 then Dropped(h, [])
    else
      var c := h.cells[s.ref];
      var d := if c.refCount == 1 then Cell(0, false, []) else c.(refCount := c.refCount - 1);
      SizeUpdate(h.cells, s.ref, d);
      Dropped(h.(cells := h.cells[s.ref := d]), if c.refCount == 1 then c.items else [])
  }

  /** ~Value of every Value in held, in the order of the nested destructor calls. */
  function Release(h: Heap, held: seq<Slot>): (g: Heap)
    ensures |g.cells| == |h.cells| && g.roots == h.roots
    decreases Size(h.cells) + |held|
  {
    if held == [] then h
    else
      var d := Drop(h, held[0]);
      Release(d.heap, d.freed + held[1..])
  }

  lemma DropCounts(h: Heap, s: Slot, held: seq<Slot>)
    requires Counted(h, [s] + held)
    ensures s.Points? ==> s.ref < |h.cells| && h.cells[s.ref].refCount > 0
    ensures Counted(Drop(h, s).heap, Drop(h, s).freed + held)
  {
    hide Occurs, Stored, Size;
    var d := Drop(h, s);
    if s.Points? {
      OccursCons(s, held, s.ref);
      assert CountedAt(h, s.ref, Pointers(h, [s] + held, s.ref));
    }
    forall r: nat
      ensures CountedAt(d.heap, r, Pointers(d.heap, d.freed + held, r))
    {
      OccursCons(s, held, r);
      OccursAppend(d.freed, held, r);
      NoneOccur(r);
      if s.Points? { StoredUpdate(h.cells, s.ref, d.heap.cells[s.ref], r); }
      assert CountedAt(h, r, Pointers(h, [s] + held, r));
    }
  }

  /** Destruction leaves every count right, and finds every count positive before it decrements it. */
  lemma {:induction false} ReleaseCounts(h: Heap, held: seq<Slot>)
    requires Counted(h, held)
    ensures Counted(Release(h, held), [])
    decreases Size(h.cells) + |held|
  {
    hide Counted;
    if held != [] {
      assert [held[0]] + held[1..] == held;
      DropCounts(h, held[0], held[1..]);
      var d := Drop(h, held[0]);
      ReleaseCounts(d.heap, d.freed + held[1..]);
    }
  }

  /** Destruction moves nothing: what lives on keeps its Values. */
  lemma {:induction false} ReleaseLeaves(h: Heap, held: seq<Slot>)
    ensures var g := Release(h, held);
      forall r :: 0 <= r < |g.cells| ==>
        (g.cells[r].items == h.cells[r].items && g.cells[r].alive == h.cells[r].alive)
        || (g.cells[r].items == [] && !g.cells[r].alive)
    decreases Size(h.cells) + |held|
  {
    hide Size;
    if held != [] {
      var d := Drop(h, held[0]);
      ReleaseLeaves(d.heap, d.freed + held[1..]);
    }
  }

  // ----- the operations -----

  datatype Operation =
    | Construct(counted: bool)                     // a new variable; counted: a string, array or object
    | CopyConstruct(source: Location)
    | MoveConstruct(source: Location)
    | Assign(target: Location, source: Location)
    | MoveAssign(target: Location, source: Location)
    | Set(target: Location, counted: bool)         // setNull ... setObject
    | AddNew(owner: Location, counted: bool)       // addValue and addMember, with constructor arguments
    | AddCopy(owner: Location, source: Location)   // ... with an lvalue
    | AddMove(owner: Location, source: Location)   // ... with an rvalue
    | Destroy(variable: nat)

  /** Dangling: the operation touches a Value that it has itself destroyed. */
  datatype Outcome = Done(heap: Heap) | Dangling

  /** The arguments are live, an assignment is not to itself, and Values are added to containers. */
  predicate Enabled(h: Heap, op: Operation) {
    match op
    case Construct(_) => true
    case CopyConstruct(s) => Exists(h, s)
    case MoveConstruct(s) => Exists(h, s)
    case Assign(t, s) => Exists(h, t) && Exists(h, s) && t != s
    case MoveAssign(t, s) => Exists(h, t) && Exists(h, s) && t != s
    case Set(t, _) => Exists(h, t)
    case AddNew(o, _) => IsContainer(h, o)
    case AddCopy(o, s) => IsContainer(h, o) && Exists(h, s)
    case AddMove(o, s) => IsContainer(h, o) && Exists(h, s)
    case Destroy(i) => i < |h.roots|
  }

  predicate IsContainer(h: Heap, l: Location) {
    Exists(h, l) && Read(h, l).Points? && Read(h, l).ref < |h.cells| && h.cells[Read(h, l).ref].alive
  }

  /** A new Value that is not yet anywhere. */
  function Made(h: Heap, counted: bool): Heap { if counted then NewCell(h) else h }

  function MadeSlot(h: Heap, counted: bool): Slot { if counted then Points(|h.cells|) else Scalar }

  /** The destructor call at the start of an assignment or a set. */
  function Emptied(h: Heap, l: Location): Heap
    requires Exists(h, l)
  {
    Release(Write(h, l, Scalar), [Read(h, l)])
  }

  function Apply(h: Heap, op: Operation): Outcome
    requires Enabled(h, op)
  {
    match op
    case Construct(k) => Done(AddRoot(Made(h, k), MadeSlot(h, k)))
    case CopyConstruct(s) => Done(AddRoot(Increment(h, Read(h, s)), Read(h, s)))
    case MoveConstruct(s) => Done(AddRoot(Write(h, s, Scalar), Read(h, s)))
    case Assign(t, s) =>
      var g := Emptied(h, t);
      if Exists(g, t) && Exists(g, s) then PutCopy(g, t, s) else Dangling
    case MoveAssign(t, s) =>
      var g := Emptied(h, t);
      if Exists(g, t) && Exists(g, s) then Done(Write(Write(g, s, Scalar), t, Read(g, s))) else Dangling
    case Set(t, k) =>
      var g := Emptied(h, t);
      if Exists(g, t) then PutNew(g, t, k) else Dangling
    case AddNew(o, k) => Done(AddItem(Made(h, k), Read(h, o).ref, MadeSlot(h, k)))
    case AddCopy(o, s) => Done(AddItem(Increment(h, Read(h, s)), Read(h, o).ref, Read(h, s)))
    case AddMove(o, s) => Done(AddItem(Write(h, s, Scalar), Read(h, o).ref, Read(h, s)))
    case Destroy(i) => Done(Emptied(h, Root(i)))
  }

  function PutCopy(g: Heap, t: Location, s: Location): (r: Outcome)
    requires Exists(g, t) && Exists(g, s)
  {
    var h := Increment(g, Read(g, s));
    Done(Write(h, t, Read(g, s)))
  }

  function PutNew(g: Heap, t: Location, counted: bool): Outcome
    requires Exists(g, t)
  {
    var h := Made(g, counted);
    Done(Write(h, t, MadeSlot(g, counted)))
  }

  lemma MadeCounts(h: Heap, counted: bool)
    requires Counted(h, [])
    ensures Counted(Made(h, counted), [MadeSlot(h, counted)])
  {
    if counted {
      Allocates(h, []);
      assert [Points(|h.cells|)] + [] == [Points(|h.cells|)];
    } else {
      hide Pointers;
      forall r: nat
        ensures CountedAt(h, r, Pointers(h, [Scalar], r))
      {
        HeldApart(h, [], r);
        HeldApart(h, [Scalar], r);
        OccursOne(Scalar, r);
        NoneOccur(r);
        assert CountedAt(h, r, Pointers(h, [], r));
      }
    }
  }

  lemma EmptiedCounts(h: Heap, l: Location)
    requires Counted(h, []) && Exists(h, l)
    ensures Counted(Emptied(h, l), [])
    ensures Exists(Emptied(h, l), l) ==> Read(Emptied(h, l), l) == Scalar
  {
    hide Counted, Release;
    TakeOut(h, l, []);
    assert [Read(h, l)] + [] == [Read(h, l)];
    ReleaseCounts(Write(h, l, Scalar), [Read(h, l)]);
    ReleaseLeaves(Write(h, l, Scalar), [Read(h, l)]);
  }

  lemma AssignCounts(g: Heap, t: Location, s: Location)
    requires Counted(g, []) && Exists(g, t) && Exists(g, s) && Read(g, t) == Scalar
    ensures Counted(PutCopy(g, t, s).heap, [])
  {
    hide Counted;
    Copies(g, s, []);
    PutIn(Increment(g, Read(g, s)), t, Read(g, s), []);
  }

  lemma MoveCounts(g: Heap, t: Location, s: Location)
    requires Counted(g, []) && Exists(g, t) && Exists(g, s) && t != s && Read(g, t) == Scalar
    ensures Counted(Write(Write(g, s, Scalar), t, Read(g, s)), [])
  {
    hide Counted;
    TakeOut(g, s, []);
    PutIn(Write(g, s, Scalar), t, Read(g, s), []);
  }

  lemma AddCounts(h: Heap, op: Operation)
    requires Counted(h, []) && Enabled(h, op) && (op.AddNew? || op.AddCopy? || op.AddMove?)
    ensures Counted(Apply(h, op).heap, [])
  {
    hide Counted;
    var q := Read(h, op.owner).ref;
    match op
    case AddNew(_, k) =>
      MadeCounts(h, k);
      assert [MadeSlot(h, k)] + [] == [MadeSlot(h, k)];
      PutItem(Made(h, k), q, MadeSlot(h, k), []);
    case AddCopy(_, s) =>
      Copies(h, s, []);
      PutItem(Increment(h, Read(h, s)), q, Read(h, s), []);
    case AddMove(_, s) =>
      TakeOut(h, s, []);
      PutItem(Write(h, s, Scalar), q, Read(h, s), []);
  }

  lemma NewRootCounts(h: Heap, op: Operation)
    requires Counted(h, []) && Enabled(h, op) && (op.Construct? || op.CopyConstruct? || op.MoveConstruct?)
    ensures Counted(Apply(h, op).heap, [])
  {
    hide Counted;
    match op
    case Construct(k) =>
      MadeCounts(h, k);
      assert [MadeSlot(h, k)] + [] == [MadeSlot(h, k)];
      PutRoot(Made(h, k), MadeSlot(h, k), []);
    case CopyConstruct(s) =>
      Copies(h, s, []);
      PutRoot(Increment(h, Read(h, s)), Read(h, s), []);
    case MoveConstruct(s) =>
      TakeOut(h, s, []);
      PutRoot(Write(h, s, Scalar), Read(h, s), []);
  }

  /** Every operation that touches no Value of its own making keeps every count exact. */
  lemma OperationCounts(h: Heap, op: Operation)
    requires Counted(h, []) && Enabled(h, op) && Apply(h, op).Done?
    ensures Counted(Apply(h, op).heap, [])
  {
    hide Counted, Release;
    match op
    case Assign(t, s) =>
      EmptiedCounts(h, t);
      AssignCounts(Emptied(h, t), t, s);
    case MoveAssign(t, s) =>
      EmptiedCounts(h, t);
      MoveCounts(Emptied(h, t), t, s);
    case Set(t, k) =>
      var g := Emptied(h, t);
      EmptiedCounts(h, t);
      MadeCounts(g, k);
      assert [MadeSlot(g, k)] + [] == [MadeSlot(g, k)];
      PutIn(Made(g, k), t, MadeSlot(g, k), []);
    case Destroy(i) => EmptiedCounts(h, Root(i));
    case AddNew(_, _) => AddCounts(h, op);
    case AddCopy(_, _) => AddCounts(h, op);
    case AddMove(_, _) => AddCounts(h, op);
    case _ => NewRootCounts(h, op);
  }

  // ----- what the Values hold afterwards -----

  /** g holds what writes says at the locations that it names, and everywhere else, as far as it still
      exists, what h held there. */
  ghost predicate Replaces(h: Heap, g: Heap, writes: map<Location, Slot>) {
    && (forall l :: l in writes ==> Exists(g, l) && Read(g, l) == writes[l])
    && (forall l :: Exists(g, l) && l !in writes ==> Exists(h, l) && Read(g, l) == Read(h, l))
  }

  /** Nothing that existed in h is gone. */
  ghost predicate KeepsAll(h: Heap, g: Heap) { forall l :: Exists(h, l) ==> Exists(g, l) }

  lemma EmptiedHolds(h: Heap, t: Location)
    requires Exists(h, t)
    ensures var g := Emptied(h, t);
      && (Exists(g, t) ==> Read(g, t) == Scalar) && |g.cells| == |h.cells| && |g.roots| == |h.roots|
      && forall l :: Exists(g, l) && l != t ==> Exists(h, l) && Read(g, l) == Read(h, l)
  {
    hide Release;
    ReleaseLeaves(Write(h, t, Scalar), [Read(h, t)]);
  }

  lemma WriteHolds(h: Heap, t: Location, s: Slot)
    requires Exists(h, t)
    ensures var g := Write(h, t, s);
      && Exists(g, t) && Read(g, t) == s && KeepsAll(h, g) && |g.roots| == |h.roots|
      && forall l :: Exists(g, l) && l != t ==> Exists(h, l) && Read(g, l) == Read(h, l)
  {
  }

  lemma IncrementHolds(h: Heap, s: Slot)
    ensures var g := Increment(h, s);
      g.roots == h.roots && KeepsAll(h, g) && forall l :: Exists(g, l) ==> Exists(h, l) && Read(g, l) == Read(h, l)
  {
  }

  lemma MadeHolds(h: Heap, counted: bool)
    ensures var g := Made(h, counted);
      && g.roots == h.roots && KeepsAll(h, g)
      && (forall l :: Exists(g, l) ==> Exists(h, l) && Read(g, l) == Read(h, l))
      && (counted ==> g.cells == h.cells + [Cell(1, true, [])]) && (!counted ==> g == h)
  {
  }

  lemma AddRootHolds(h: Heap, s: Slot)
    ensures Replaces(h, AddRoot(h, s), map[Root(|h.roots|) := s]) && KeepsAll(h, AddRoot(h, s))
  {
  }

  lemma AddItemHolds(h: Heap, q: nat, s: Slot)
    requires q < |h.cells| && h.cells[q].alive
    ensures Replaces(h, AddItem(h, q, s), map[Item(q, |h.cells[q].items|) := s]) && KeepsAll(h, AddItem(h, q, s))
  {
  }

  /** A copy assignment leaves target and source with what the source held; nothing else that lives on
      changes. */
  lemma AssignHolds(h: Heap, t: Location, s: Location)
    requires Enabled(h, Assign(t, s)) && Apply(h, Assign(t, s)).Done?
    ensures Replaces(h, Apply(h, Assign(t, s)).heap, map[t := Read(h, s), s := Read(h, s)])
  {
    hide Emptied, Increment;
    var g := Emptied(h, t);
    EmptiedHolds(h, t);
    IncrementHolds(g, Read(g, s));
    WriteHolds(Increment(g, Read(g, s)), t, Read(g, s));
  }

  /** A move assignment leaves the source null. */
  lemma MoveAssignHolds(h: Heap, t: Location, s: Location)
    requires Enabled(h, MoveAssign(t, s)) && Apply(h, MoveAssign(t, s)).Done?
    ensures Replaces(h, Apply(h, MoveAssign(t, s)).heap, map[t := Read(h, s), s := Scalar])
  {
    hide Emptied;
    var g := Emptied(h, t);
    EmptiedHolds(h, t);
    WriteHolds(g, s, Scalar);
    WriteHolds(Write(g, s, Scalar), t, Read(g, s));
  }

  /** A set leaves the target with a scalar or with a new, empty cell. */
  lemma SetHolds(h: Heap, t: Location, counted: bool)
    requires Enabled(h, Set(t, counted)) && Apply(h, Set(t, counted)).Done?
    ensures var g := Apply(h, Set(t, counted)).heap;
      && Replaces(h, g, map[t := if counted then Points(|h.cells|) else Scalar])
      && (counted ==> |g.cells| == |h.cells| + 1 && g.cells[|h.cells|].items == [] && g.cells[|h.cells|].alive)
  {
    hide Emptied, Made;
    var g := Emptied(h, t);
    EmptiedHolds(h, t);
    MadeHolds(g, counted);
    WriteHolds(Made(g, counted), t, MadeSlot(g, counted));
  }

  /** The constructors: the new variable holds a scalar or a new cell, or what the source held, which a
      move leaves null. */
  lemma ConstructHolds(h: Heap, op: Operation)
    requires Enabled(h, op) && (op.Construct? || op.CopyConstruct? || op.MoveConstruct?)
    ensures var g, root := Apply(h, op).heap, Root(|h.roots|);
      && KeepsAll(h, g)
      && match op
         case Construct(k) => Replaces(h, g, map[root := if k then Points(|h.cells|) else Scalar])
         case CopyConstruct(s) => Replaces(h, g, map[root := Read(h, s), s := Read(h, s)])
         case MoveConstruct(s) => Replaces(h, g, map[root := Read(h, s), s := Scalar])
  {
    hide Made, Increment, Write;
    match op
    case Construct(k) =>
      MadeHolds(h, k);
      AddRootHolds(Made(h, k), MadeSlot(h, k));
    case CopyConstruct(s) =>
      IncrementHolds(h, Read(h, s));
      AddRootHolds(Increment(h, Read(h, s)), Read(h, s));
    case MoveConstruct(s) =>
      WriteHolds(h, s, Scalar);
      AddRootHolds(Write(h, s, Scalar), Read(h, s));
  }

  /** The insertions: the last item of the container holds a scalar or a new cell, or what the source
      held, which a move leaves null. */
  lemma AddHolds(h: Heap, op: Operation)
    requires Enabled(h, op) && (op.AddNew? || op.AddCopy? || op.AddMove?)
    ensures var g, q := Apply(h, op).heap, Read(h, op.owner).ref;
      var last := Item(q, |h.cells[q].items|);
      && KeepsAll(h, g) && q < |g.cells| && |g.cells[q].items| == |h.cells[q].items| + 1
      && match op
         case AddNew(_, k) => Replaces(h, g, map[last := if k then Points(|h.cells|) else Scalar])
         case AddCopy(_, s) => Replaces(h, g, map[last := Read(h, s), s := Read(h, s)])
         case AddMove(_, s) => Replaces(h, g, map[last := Read(h, s), s := Scalar])
  {
    var q := Read(h, op.owner).ref;
    match op
    case AddNew(_, k) =>
      MadeHolds(h, k);
      AddItemHolds(Made(h, k), q, MadeSlot(h, k));
    case AddCopy(_, s) =>
      IncrementHolds(h, Read(h, s));
      AddItemHolds(Increment(h, Read(h, s)), q, Read(h, s));
    case AddMove(_, s) =>
      WriteHolds(h, s, Scalar);
      AddItemHolds(Write(h, s, Scalar), q, Read(h, s));
  }

  /** The end of a variable. */
  lemma DestroyHolds(h: Heap, i: nat)
    requires i < |h.roots|
    ensures Replaces(h, Apply(h, Destroy(i)).heap, map[Root(i) := Scalar])
  {
    hide Emptied;
    EmptiedHolds(h, Root(i));
  }

  /** When v = v[k] is safe: the array must outlive the destruction of v. */
  lemma AssignOwnElementIff(h: Heap, i: nat, k: nat)
    requires Counted(h, []) && i < |h.roots| && h.roots[i].Points?
    requires Exists(h, Item(h.roots[i].ref, k))
    ensures Apply(h, Assign(Root(i), Item(h.roots[i].ref, k))).Done? <==> h.cells[h.roots[i].ref].refCount > 1
  {
    hide Counted, Size;
    var s, g := h.roots[i], Write(h, Root(i), Scalar);
    TakeOut(h, Root(i), []);
    assert [s] + [] == [s] && [s][1..] == [];
    DropCounts(g, s, []);
    var d := Drop(g, s);
    assert Release(g, [s]) == Release(d.heap, d.freed + []);
    if h.cells[s.ref].refCount == 1 {
      ReleaseLeaves(d.heap, d.freed + []);
    }
  }

  // ----- which operations touch nothing that they destroyed -----

  /** x holds a Value that points at y. */
  predicate Edge(h: Heap, x: nat, y: nat) { x < |h.cells| && Points(y) in h.cells[x].items }

  /** A set of cells with everything that they hold. */
  ghost predicate Closed(h: Heap, c: set<nat>) { forall x, y :: x in c && Edge(h, x, y) ==> y in c }

  predicate AllIn(held: seq<Slot>, c: set<nat>) {
    forall i :: 0 <= i < |held| && held[i].Points? ==> held[i].ref in c
  }

  /** A cascade of destructors stays within any closed set that it starts in. */
  lemma {:induction false} ReleaseWithin(h: Heap, held: seq<Slot>, c: set<nat>)
    requires Closed(h, c) && AllIn(held, c)
    ensures forall r :: 0 <= r < |h.cells| && r !in c ==> Release(h, held).cells[r] == h.cells[r]
    decreases Size(h.cells) + |held|
  {
    hide Size, Edge, Closed;
    if held != [] {
      var d := Drop(h, held[0]);
      DropWithin(h, held[0], c);
      var work := d.freed + held[1..];
      assert AllIn(work, c) by {
        forall i | 0 <= i < |work| && work[i].Points?
          ensures work[i].ref in c
        {
          if i >= |d.freed| { assert work[i] == held[1 + i - |d.freed|]; }
        }
      }
      ReleaseWithin(d.heap, work, c);
    }
  }

  lemma DropWithin(h: Heap, s: Slot, c: set<nat>)
    requires Closed(h, c) && (s.Points? ==> s.ref in c)
    ensures var d := Drop(h, s);
      && Closed(d.heap, c) && AllIn(d.freed, c)
      && forall r :: 0 <= r < |h.cells| && r !in c ==> d.heap.cells[r] == h.cells[r]
  {
    hide Size;
    var d := Drop(h, s);
    forall x, y | x in c && Edge(d.heap, x, y)
      ensures y in c
    {
      assert Edge(h, x, y);
    }
    forall i | 0 <= i < |d.freed| && d.freed[i].Points?
      ensures d.freed[i].ref in c
    {
      assert Edge(h, s.ref, d.freed[i].ref);
    }
  }

  /** Neither t nor l is part of the tree of the Value at t. */
  ghost predicate Apart(h: Heap, t: Location, l: Location)
    requires Exists(h, t)
  {
    Read(h, t).Points? ==>
      exists c: set<nat> :: Read(h, t).ref in c && Closed(h, c) && Misses(c, t) && Misses(c, l)
  }

  predicate Misses(c: set<nat>, l: Location) { l.Item? ==> l.cell !in c }

  /** What a caller has to see to: an assignment or a set whose target and source lie outside the tree
      that it destroys. */
  ghost predicate Harmless(h: Heap, op: Operation)
    requires Enabled(h, op)
  {
    match op
    case Assign(t, s) => Apart(h, t, s)
    case MoveAssign(t, s) => Apart(h, t, s)
    case Set(t, _) => Apart(h, t, t)
    case _ => true
  }

  lemma ApartSurvives(h: Heap, t: Location, l: Location)
    requires Exists(h, t) && Exists(h, l) && Apart(h, t, l)
    ensures Exists(Emptied(h, t), t) && Exists(Emptied(h, t), l)
  {
    hide Release, Size, Edge, Closed;
    var g, v := Write(h, t, Scalar), Read(h, t);
    if v.Points? {
      var c: set<nat> :| v.ref in c && Closed(h, c) && Misses(c, t) && Misses(c, l);
      StaysClosed(h, t, c);
      ReleaseWithin(g, [v], c);
    } else {
      ReleaseScalar(g);
    }
  }

  lemma ReleaseScalar(h: Heap)
    ensures Release(h, [Scalar]) == h
  {
    assert [Scalar][1..] == [];
    assert Drop(h, Scalar).freed + [Scalar][1..] == [];
  }

  lemma StaysClosed(h: Heap, t: Location, c: set<nat>)
    requires Exists(h, t) && Closed(h, c)
    ensures Closed(Write(h, t, Scalar), c)
  {
    forall x, y | x in c && Edge(Write(h, t, Scalar), x, y)
      ensures y in c
    {
      assert Edge(h, x, y);
    }
  }

  /** A harmless operation succeeds. */
  lemma HarmlessIsDone(h: Heap, op: Operation)
    requires Enabled(h, op) && Harmless(h, op)
    ensures Apply(h, op).Done?
  {
    hide Apart, Emptied;
    match op
    case Assign(t, s) => ApartSurvives(h, t, s);
    case MoveAssign(t, s) => ApartSurvives(h, t, s);
    case Set(t, _) => ApartSurvives(h, t, t);
    case _ =>
  }

  // ----- runs -----

  ghost function Result(h: Heap, op: Operation): Heap
    requires Enabled(h, op) && Harmless(h, op)
  {
    HarmlessIsDone(h, op);
    Apply(h, op).heap
  }

  /** A run of harmless operations. */
  ghost predicate Runs(h: Heap, ops: seq<Operation>)
    decreases |ops|
  {
    ops != [] ==>
      && Enabled(h, ops[0]) && Harmless(h, ops[0])
      && Runs(Result(h, ops[0]), ops[1..])
  }

  ghost function After(h: Heap, ops: seq<Operation>): Heap
    requires Runs(h, ops)
    decreases |ops|
  {
    if ops == [] then h else After(Result(h, ops[0]), ops[1..])
  }

  lemma {:induction false} RunCounts(h: Heap, ops: seq<Operation>)
    requires Counted(h, []) && Runs(h, ops)
    ensures Counted(After(h, ops), [])
    decreases |ops|
  {
    hide Counted, Apply, Enabled, Harmless;
    if ops != [] {
      HarmlessIsDone(h, ops[0]);
      OperationCounts(h, ops[0]);
      RunCounts(Result(h, ops[0]), ops[1..]);
    }
  }

  function NoHeap(): Heap { Heap([], []) }

  /** From the start of a program, as long as no assignment or set destroys the tree that its target or
      source lies in: no operation touches what it destroyed, every count is the number of Values that
      point at the cell, and a cell is deleted exactly when none does. */
  lemma EveryRunCounts(ops: seq<Operation>)
    requires Runs(NoHeap(), ops)
    ensures Counted(After(NoHeap(), ops), [])
  {
    hide Runs, After;
    assert Counted(NoHeap(), []);
    RunCounts(NoHeap(), ops);
  }

  // ----- the code -----

  /** The memory of a program that uses Values. */
  class Memory {
    var cells: seq<Cell>
    var roots: seq<Slot>

    function View(): Heap
      reads this
    {
      Heap(cells, roots)
    }

    constructor ()
      ensures View() == NoHeap()
    {
      cells, roots := [], [];
    }

    /** ~Value for each of the held Values; deleting a cell puts its Values first. */
    method DestroyAll(held: seq<Slot>)
      requires Counted(View(), held)
      modifies this
      ensures View() == Release(old(View()), held) && Counted(View(), [])
    {
      hide Counted, CountedAt, Size;
      ReleaseCounts(View(), held);
      var work := held;
      while work != []
        invariant Counted(View(), work) && Release(View(), work) == Release(old(View()), held)
        decreases Size(cells) + |work|
      {
        var s, rest := work[0], work[1..];
        assert [s] + rest == work;
        DropCounts(View(), s, rest);
        work := rest;
        ghost var d := Drop(View(), s);
        if s.Points? {
          var c := cells[s.ref];
          assert c.refCount > 0;
          if c.refCount == 1 {
            cells := cells[s.ref := Cell(0, false, [])];
            work := c.items + work;
          } else {
            cells := cells[s.ref := c.(refCount := c.refCount - 1)];
          }
        }
        assert [] + rest == rest;
        assert View() == d.heap && work == d.freed + rest;
      }
    }

    /** The copy constructor of a new variable. */
    method Copy(source: Location)
      requires Counted(View(), []) && Exists(View(), source)
      modifies this
      ensures Done(View()) == Apply(old(View()), CopyConstruct(source)) && Counted(View(), [])
      ensures Replaces(old(View()), View(), map[Root(|old(roots)|) := old(Read(View(), source)),
        source := old(Read(View(), source))])
    {
      hide Counted, CountedAt, Replaces;
      ConstructHolds(View(), CopyConstruct(source));
      OperationCounts(View(), CopyConstruct(source));
      Copies(View(), source, []);
      var s := Get(source);
      Increase(s);
      roots := roots + [s];
    }

    method Increase(s: Slot)
      requires s.Points? ==> s.ref < |cells| && cells[s.ref].refCount > 0
      modifies `cells
      ensures View() == Increment(old(View()), s)
    {
      if s.Points? {
        cells := cells[s.ref := cells[s.ref].(refCount := cells[s.ref].refCount + 1)];
      }
    }

    method Get(l: Location) returns (s: Slot)
      requires Exists(View(), l)
      ensures s == Read(View(), l)
    {
      match l {
        case Root(i) => s := roots[i];
        case Item(r, k) => s := cells[r].items[k];
      }
    }

    method Put(l: Location, s: Slot)
      requires Exists(View(), l)
      modifies this
      ensures View() == Write(old(View()), l, s)
    {
      match l {
        case Root(i) => roots := roots[i := s];
        case Item(r, k) => cells := cells[r := cells[r].(items := cells[r].items[k := s])];
      }
    }

    /** operator= from an lvalue. It reads its argument after the destructor call, and tells when that
        left no target or no source; a harmless assignment never does. */
    method AssignFrom(target: Location, source: Location) returns (dangling: bool)
      requires Counted(View(), []) && Enabled(View(), Assign(target, source))
      modifies this
      ensures Apply(old(View()), Assign(target, source)) == if dangling then Dangling else Done(View())
      ensures old(Harmless(View(), Assign(target, source))) ==> !dangling
      ensures Counted(View(), [])
      ensures !dangling ==> Replaces(old(View()), View(), map[target := old(Read(View(), source)),
        source := old(Read(View(), source))])
    {
      hide Counted, CountedAt, Release, Harmless, Replaces;
      ghost var h, op := View(), Assign(target, source);
      if Harmless(h, op) { HarmlessIsDone(h, op); }
      if Apply(h, op).Done? {
        OperationCounts(h, op);
        AssignHolds(h, target, source);
      }
      Empty(target);
      if !Exists(View(), target) || !Exists(View(), source) { return true; }
      Copies(View(), source, []);
      var s := Get(source);
      Increase(s);
      Put(target, s);
      return false;
    }

    method Empty(l: Location)
      requires Counted(View(), []) && Exists(View(), l)
      modifies this
      ensures View() == Emptied(old(View()), l) && Counted(View(), [])
    {
      hide Counted, CountedAt, Release;
      var s := Get(l);
      TakeOut(View(), l, []);
      assert [s] + [] == [s];
      Put(l, Scalar);
      DestroyAll([s]);
    }

    /** operator= from an rvalue. */
    method MoveFrom(target: Location, source: Location) returns (dangling: bool)
      requires Counted(View(), []) && Enabled(View(), MoveAssign(target, source))
      modifies this
      ensures Apply(old(View()), MoveAssign(target, source)) == if dangling then Dangling else Done(View())
      ensures old(Harmless(View(), MoveAssign(target, source))) ==> !dangling
      ensures Counted(View(), [])
      ensures !dangling ==>
        Replaces(old(View()), View(), map[target := old(Read(View(), source)), source := Scalar])
    {
      hide Counted, CountedAt, Release, Harmless, Replaces;
      ghost var h, op := View(), MoveAssign(target, source);
      if Harmless(h, op) { HarmlessIsDone(h, op); }
      if Apply(h, op).Done? {
        OperationCounts(h, op);
        MoveAssignHolds(h, target, source);
      }
      Empty(target);
      if !Exists(View(), target) || !Exists(View(), source) { return true; }
      var s := Get(source);
      Put(source, Scalar);
      Put(target, s);
      return false;
    }

    /** addValue of an lvalue, and of addMember with its key already added. */
    method Add(owner: Location, source: Location)
      requires Counted(View(), []) && Enabled(View(), AddCopy(owner, source))
      modifies this
      ensures Done(View()) == Apply(old(View()), AddCopy(owner, source)) && Counted(View(), [])
      ensures var q := old(Read(View(), owner)).ref;
        Replaces(old(View()), View(), map[Item(q, |old(cells)[q].items|) := old(Read(View(), source)),
          source := old(Read(View(), source))])
    {
      hide Counted, CountedAt, Replaces;
      AddHolds(View(), AddCopy(owner, source));
      OperationCounts(View(), AddCopy(owner, source));
      Copies(View(), source, []);
      var container := Get(owner);
      var s := Get(source);
      Increase(s);
      cells := cells[container.ref := cells[container.ref].(items := cells[container.ref].items + [s])];
    }
  }
}
