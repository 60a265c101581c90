/** What reference counting never frees (JsonServer/Value.h): cells that keep each other alive. They
    arise only when a Value is stored inside its own tree. */
module ValueCycles {
  import opened ValueHeap

  // ----- what is never freed -----

  /** Cells that keep each other: each is pointed to from within the set. */
  ghost predicate Knot(h: Heap, k: set<nat>) {
    k != {} && forall y :: y in k ==> Kept(h, k, y)
  }

  predicate Kept(h: Heap, k: set<nat>, y: nat) { exists x :: x in k && Edge(h, x, y) }

  ghost predicate Acyclic(h: Heap) { forall k: set<nat> :: !Knot(h, k) }

  predicate NoVariables(h: Heap) { forall i :: 0 <= i < |h.roots| ==> h.roots[i].Scalar? }

  ghost predicate AllFreed(h: Heap) { forall r :: 0 <= r < |h.cells| ==> !h.cells[r].alive }

  lemma {:induction false} StoredSomewhere(cells: seq<Cell>, r: nat) returns (x: nat)
    requires Stored(cells, r) > 0
    ensures x < |cells| && Points(r) in cells[x].items
  {
    var n := |cells| - 1;
    if Occurs(cells[n].items, r) > 0 {
      x := n;
      OccursSomewhere(cells[n].items, r);
    } else {
      x := StoredSomewhere(cells[..n], r);
    }
  }

  lemma {:induction false} OccursSomewhere(s: seq<Slot>, r: nat)
    requires Occurs(s, r) > 0
    ensures Points(r) in s
  {
    if s[|s| - 1] != Points(r) { OccursSomewhere(s[..|s| - 1], r); }
  }

  lemma {:induction false} ScalarsPointNowhere(s: seq<Slot>, r: nat)
    requires forall i :: 0 <= i < |s| ==> s[i].Scalar?
    ensures Occurs(s, r) == 0
  {
    if s != [] { ScalarsPointNowhere(s[..|s| - 1], r); }
  }

  /** Once no variable is left, everything is freed exactly when no cells keep each other alive. */
  lemma AllFreedIff(h: Heap)
    requires Counted(h, []) && NoVariables(h)
    ensures AllFreed(h) <==> Acyclic(h)
  {
    if AllFreed(h) {
      forall x: nat, y: nat
        ensures !Edge(h, x, y)
      {
        assert CountedAt(h, x, Pointers(h, [], x));
      }
      NoEdgeNoKnot(h);
    } else {
      var k := set r: nat | r < |h.cells| && h.cells[r].alive;
      forall y | y in k
        ensures Kept(h, k, y)
      {
        KeptByAnother(h, y);
      }
      var r :| 0 <= r < |h.cells| && h.cells[r].alive;
      assert r in k;
      assert Knot(h, k);
    }
  }

  lemma NoEdgeNoKnot(h: Heap)
    requires forall x, y :: !Edge(h, x, y)
    ensures Acyclic(h)
  {
    forall k: set<nat>
      ensures !Knot(h, k)
    {
      if k != {} {
        var y :| y in k;
        assert !Kept(h, k, y);
      }
    }
  }

  lemma KeptByAnother(h: Heap, y: nat)
    requires Counted(h, []) && NoVariables(h) && y < |h.cells| && h.cells[y].alive
    ensures exists x :: 0 <= x < |h.cells| && h.cells[x].alive && Edge(h, x, y)
  {
    hide Stored;
    assert CountedAt(h, y, Pointers(h, [], y));
    ScalarsPointNowhere(h.roots, y);
    NoneOccur(y);
    var x := StoredSomewhere(h.cells, y);
    assert CountedAt(h, x, Pointers(h, [], x));
    assert Edge(h, x, y);
  }

  // ----- which operations tie no knot -----

  /** The container q is not part of what s points to. */
  ghost predicate Outside(h: Heap, q: nat, s: Slot) {
    s.Points? ==> exists c: set<nat> :: s.ref in c && q !in c && Closed(h, c)
  }

  /** No Value is stored inside its own tree. */
  ghost predicate Safe(h: Heap, op: Operation)
    requires Enabled(h, op)
  {
    match op
    case AddCopy(o, s) => Outside(h, Read(h, o).ref, Read(h, s))
    case AddMove(o, s) => Outside(h, Read(h, o).ref, Read(h, s))
    case Assign(t, s) => t.Item? ==> Outside(h, t.cell, Read(h, s))
    case MoveAssign(t, s) => t.Item? ==> Outside(h, t.cell, Read(h, s))
    case _ => true
  }

  ghost predicate FewerEdges(h: Heap, g: Heap) { forall x, y :: Edge(g, x, y) ==> Edge(h, x, y) }

  ghost predicate OneEdge(h: Heap, g: Heap, q: nat, s: Slot) {
    forall x, y :: Edge(g, x, y) ==> Edge(h, x, y) || (x == q && Points(y) == s)
  }

  lemma FewerStayAcyclic(h: Heap, g: Heap)
    requires FewerEdges(h, g) && Acyclic(h)
    ensures Acyclic(g)
  {
    forall k: set<nat>
      ensures !Knot(g, k)
    {
      assert !Knot(h, k);
    }
  }

  lemma OneEdgeStaysAcyclic(h: Heap, g: Heap, q: nat, s: Slot)
    requires OneEdge(h, g, q, s) && Outside(h, q, s) && Acyclic(h)
    ensures Acyclic(g)
  {
    if s.Points? {
      var c: set<nat> :| s.ref in c && q !in c && Closed(h, c);
      forall k: set<nat>
        ensures !Knot(g, k)
      {
        assert !Knot(h, k) && !Knot(h, k - c);
        RestIsKnot(h, g, q, s, c, k);
      }
    } else {
      FewerStayAcyclic(h, g);
    }
  }

  /** A knot that needs the new edge q -> s has a part outside the tree of s, and that is a knot. */
  lemma RestIsKnot(h: Heap, g: Heap, q: nat, s: Slot, c: set<nat>, k: set<nat>)
    requires OneEdge(h, g, q, s) && s.Points? && s.ref in c && q !in c && Closed(h, c)
    ensures Knot(g, k) ==> Knot(h, k) || Knot(h, k - c)
  {
    hide OneEdge, Closed, Kept;
    if Knot(g, k) && !Knot(h, k) {
      NewEdgeUsed(h, g, q, s, k);
      forall z | z in k - c
        ensures Kept(h, k - c, z)
      {
        StaysKept(h, g, q, s, c, k, z);
      }
      assert q in k - c;
    }
  }

  lemma NewEdgeUsed(h: Heap, g: Heap, q: nat, s: Slot, k: set<nat>)
    requires OneEdge(h, g, q, s) && Knot(g, k) && !Knot(h, k)
    ensures q in k
  {
    hide Edge;
    var y :| y in k && !Kept(h, k, y);
    assert Kept(g, k, y);
    var x :| x in k && Edge(g, x, y);
    assert Edge(h, x, y) || x == q;
  }

  lemma StaysKept(h: Heap, g: Heap, q: nat, s: Slot, c: set<nat>, k: set<nat>, z: nat)
    requires OneEdge(h, g, q, s) && s.Points? && s.ref in c && Closed(h, c) && Kept(g, k, z) && z !in c
    ensures Kept(h, k - c, z)
  {
    hide Edge;
    var w :| w in k && Edge(g, w, z);
    assert Edge(h, w, z);
    assert w !in c;
  }

  // ----- operations and runs -----

  lemma ReleaseFewer(h: Heap, held: seq<Slot>)
    ensures FewerEdges(h, Release(h, held))
  {
    hide Release, Size;
    ReleaseLeaves(h, held);
  }

  lemma EmptiedFewer(h: Heap, l: Location)
    requires Exists(h, l)
    ensures FewerEdges(h, Emptied(h, l))
  {
    hide Release;
    var g := Write(h, l, Scalar);
    ReleaseFewer(g, [Read(h, l)]);
    WriteOneEdge(h, l, Scalar);
    forall x, y | Edge(Emptied(h, l), x, y)
      ensures Edge(h, x, y)
    {
      assert Edge(g, x, y);
    }
  }

  lemma WriteOneEdge(h: Heap, l: Location, s: Slot)
    requires Exists(h, l)
    ensures if l.Root? then FewerEdges(h, Write(h, l, s)) else OneEdge(h, Write(h, l, s), l.cell, s)
    ensures s.Scalar? ==> FewerEdges(h, Write(h, l, s))
  {
  }

  lemma AddOneEdge(h: Heap, q: nat, s: Slot)
    requires q < |h.cells|
    ensures OneEdge(h, AddItem(h, q, s), q, s)
  {
  }

  lemma OutsideFewer(h: Heap, g: Heap, q: nat, s: Slot)
    requires FewerEdges(h, g) && Outside(h, q, s)
    ensures Outside(g, q, s)
  {
    hide Edge;
    if s.Points? {
      var c: set<nat> :| s.ref in c && q !in c && Closed(h, c);
      assert Closed(g, c);
    }
  }

  lemma NewOutside(h: Heap, q: nat, counted: bool)
    requires q < |h.cells|
    ensures FewerEdges(h, Made(h, counted)) && Outside(Made(h, counted), q, MadeSlot(h, counted))
  {
    if counted { assert Closed(Made(h, counted), {|h.cells|}); }
  }

  lemma IncrementFewer(h: Heap, s: Slot)
    ensures FewerEdges(h, Increment(h, s))
  {
  }

  /** Storing s at l in a heap with no more edges than h. */
  lemma StoreStaysAcyclic(h: Heap, g: Heap, l: Location, s: Slot)
    requires Acyclic(h) && FewerEdges(h, g) && Exists(g, l) && (l.Item? ==> Outside(h, l.cell, s))
    ensures Acyclic(Write(g, l, s))
  {
    hide Acyclic, Outside, Edge;
    FewerStayAcyclic(h, g);
    WriteOneEdge(g, l, s);
    if l.Item? {
      OutsideFewer(h, g, l.cell, s);
      OneEdgeStaysAcyclic(g, Write(g, l, s), l.cell, s);
    } else {
      FewerStayAcyclic(g, Write(g, l, s));
    }
  }

  lemma AppendStaysAcyclic(h: Heap, g: Heap, q: nat, s: Slot)
    requires Acyclic(h) && FewerEdges(h, g) && q < |g.cells| && Outside(h, q, s)
    ensures Acyclic(AddItem(g, q, s))
  {
    hide Acyclic, Outside, Edge;
    FewerStayAcyclic(h, g);
    OutsideFewer(h, g, q, s);
    AddOneEdge(g, q, s);
    OneEdgeStaysAcyclic(g, AddItem(g, q, s), q, s);
  }

  lemma RootStaysAcyclic(h: Heap, g: Heap, s: Slot)
    requires Acyclic(h) && FewerEdges(h, g)
    ensures Acyclic(AddRoot(g, s))
  {
    hide Acyclic;
    FewerStayAcyclic(h, AddRoot(g, s));
  }

  lemma FewerTransitive(h: Heap, g: Heap, f: Heap)
    requires FewerEdges(h, g) && FewerEdges(g, f)
    ensures FewerEdges(h, f)
  {
    hide Edge;
  }

  lemma SetStaysAcyclic(h: Heap, t: Location, k: bool)
    requires Acyclic(h) && Exists(h, t) && Exists(Emptied(h, t), t)
    ensures Acyclic(PutNew(Emptied(h, t), t, k).heap)
  {
    hide Acyclic, Outside, Edge, Emptied;
    var g := Emptied(h, t);
    EmptiedFewer(h, t);
    FewerStayAcyclic(h, g);
    if t.Item? {
      NewOutside(g, t.cell, k);
    } else {
      NewFewer(g, k);
    }
    FewerStayAcyclic(g, Made(g, k));
    FewerReflexive(Made(g, k));
    StoreStaysAcyclic(Made(g, k), Made(g, k), t, MadeSlot(g, k));
  }

  lemma NewFewer(h: Heap, counted: bool)
    ensures FewerEdges(h, Made(h, counted))
  {
  }

  lemma FewerReflexive(h: Heap)
    ensures FewerEdges(h, h)
  {
  }

  lemma AddStaysAcyclic(h: Heap, op: Operation)
    requires Acyclic(h) && Enabled(h, op) && Safe(h, op) && (op.AddNew? || op.AddCopy? || op.AddMove?)
    ensures Acyclic(Apply(h, op).heap)
  {
    hide Acyclic, Outside, Edge;
    var q := Read(h, op.owner).ref;
    match op
    case AddNew(_, k) =>
      NewOutside(h, q, k);
      FewerStayAcyclic(h, Made(h, k));
      FewerReflexive(Made(h, k));
      AppendStaysAcyclic(Made(h, k), Made(h, k), q, MadeSlot(h, k));
    case AddCopy(_, s) =>
      IncrementFewer(h, Read(h, s));
      AppendStaysAcyclic(h, Increment(h, Read(h, s)), q, Read(h, s));
    case AddMove(_, s) =>
      WriteOneEdge(h, s, Scalar);
      AppendStaysAcyclic(h, Write(h, s, Scalar), q, Read(h, s));
  }

  /** What the source of an assignment holds once the target was destroyed, if it is still there. */
  lemma SourceStays(h: Heap, t: Location, s: Location)
    requires Exists(h, t) && Exists(h, s) && t != s && Exists(Emptied(h, t), s)
    ensures Read(Emptied(h, t), s) == Read(h, s)
  {
    hide Release, Size;
    ReleaseLeaves(Write(h, t, Scalar), [Read(h, t)]);
  }

  lemma AssignStaysAcyclic(h: Heap, op: Operation)
    requires Acyclic(h) && Enabled(h, op) && Safe(h, op) && (op.Assign? || op.MoveAssign?) && Apply(h, op).Done?
    ensures Acyclic(Apply(h, op).heap)
  {
    hide Acyclic, Outside, Edge, Emptied;
    var t, s := op.target, op.source;
    var g := Emptied(h, t);
    EmptiedFewer(h, t);
    SourceStays(h, t, s);
    if op.Assign? {
      IncrementFewer(g, Read(g, s));
      FewerTransitive(h, g, Increment(g, Read(g, s)));
      StoreStaysAcyclic(h, Increment(g, Read(g, s)), t, Read(g, s));
    } else {
      WriteOneEdge(g, s, Scalar);
      FewerTransitive(h, g, Write(g, s, Scalar));
      StoreStaysAcyclic(h, Write(g, s, Scalar), t, Read(g, s));
    }
  }

  /** An operation that stores no Value inside its own tree ties no knot. */
  lemma OperationStaysAcyclic(h: Heap, op: Operation)
    requires Acyclic(h) && Enabled(h, op) && Safe(h, op) && Apply(h, op).Done?
    ensures Acyclic(Apply(h, op).heap)
  {
    hide Acyclic, Outside, Edge, Emptied, FewerEdges;
    match op
    case Construct(k) =>
      NewFewer(h, k);
      RootStaysAcyclic(h, Made(h, k), MadeSlot(h, k));
    case CopyConstruct(s) =>
      IncrementFewer(h, Read(h, s));
      RootStaysAcyclic(h, Increment(h, Read(h, s)), Read(h, s));
    case MoveConstruct(s) =>
      WriteOneEdge(h, s, Scalar);
      RootStaysAcyclic(h, Write(h, s, Scalar), Read(h, s));
    case Assign(_, _) => AssignStaysAcyclic(h, op);
    case MoveAssign(_, _) => AssignStaysAcyclic(h, op);
    case Set(t, k) => SetStaysAcyclic(h, t, k);
    case Destroy(i) =>
      EmptiedFewer(h, Root(i));
      FewerStayAcyclic(h, Emptied(h, Root(i)));
    case _ => AddStaysAcyclic(h, op);
  }

  // ----- what a caller can check in an acyclic heap -----

  /** The source of an assignment is not inside the tree of its target, and no Value is stored inside
      its own tree. */
  ghost predicate Proper(h: Heap, op: Operation)
    requires Enabled(h, op)
  {
    && Safe(h, op)
    && (op.Assign? || op.MoveAssign? ==> op.source.Item? ==> Outside(h, op.source.cell, Read(h, op.target)))
  }

  /** y is in every closed set that r is in. */
  ghost predicate InTree(h: Heap, r: nat, y: nat) { forall c: set<nat> :: r in c && Closed(h, c) ==> y in c }

  /** The cells of c that belong to the tree of r. */
  ghost function Tree(h: Heap, r: nat, c: set<nat>): set<nat> { set y | y in c && InTree(h, r, y) }

  lemma TreeIsClosed(h: Heap, r: nat, c: set<nat>)
    requires r in c && Closed(h, c)
    ensures r in Tree(h, r, c) && Closed(h, Tree(h, r, c))
  {
    hide Edge;
    forall x, y | x in Tree(h, r, c) && Edge(h, x, y)
      ensures y in Tree(h, r, c)
    {
      forall d: set<nat> | r in d && Closed(h, d)
        ensures y in d
      {
        assert x in d;
      }
    }
  }

  /** Below r, every cell of its tree is pointed to from within the tree. */
  lemma TreeIsKept(h: Heap, r: nat, c: set<nat>, y: nat)
    requires r in c && Closed(h, c) && y in Tree(h, r, c) && y != r
    ensures Kept(h, Tree(h, r, c), y)
  {
    hide Edge;
    var t := Tree(h, r, c);
    TreeIsClosed(h, r, c);
    var rest := t - {y};
    assert r in rest;
    assert !Closed(h, rest);
    var x, z :| x in rest && Edge(h, x, z) && z !in rest;
    assert z in t;
  }

  /** In an acyclic heap no cell is in the tree of a Value that it holds. */
  lemma HolderIsOutside(h: Heap, q: nat, r: nat, c: set<nat>)
    requires Acyclic(h) && Edge(h, q, r) && r in c && Closed(h, c)
    ensures q !in Tree(h, r, c)
  {
    hide Edge, Closed;
    var t := Tree(h, r, c);
    TreeIsClosed(h, r, c);
    if q in t {
      var k := set y | y in t && InTree(h, y, q);
      forall y | y in k
        ensures Kept(h, k, y)
      {
        if y == r {
          assert q in k;
        } else {
          TreeIsKept(h, r, c, y);
          var x :| x in t && Edge(h, x, y);
          HolderReaches(h, x, y, q);
          assert x in k;
        }
      }
      assert Knot(h, k) by { assert r in k; }
      assert false;
    }
  }

  lemma HolderReaches(h: Heap, x: nat, y: nat, q: nat)
    requires Edge(h, x, y) && InTree(h, y, q)
    ensures InTree(h, x, q)
  {
    hide Edge;
  }

  predicate IsCell(h: Heap, x: nat) { x < |h.cells| }

  lemma AllCellsClosed(h: Heap) returns (c: set<nat>)
    requires Counted(h, [])
    ensures Closed(h, c) && forall x, y :: Edge(h, x, y) ==> y in c
    ensures forall i :: 0 <= i < |h.roots| && h.roots[i].Points? ==> h.roots[i].ref in c
  {
    c := set x: nat | x < |h.cells| && IsCell(h, x);
    forall x, y: nat | Edge(h, x, y)
      ensures y in c
    {
      PointedAtExists(h, x, y);
    }
    forall i | 0 <= i < |h.roots| && h.roots[i].Points?
      ensures h.roots[i].ref in c
    {
      PointsAtLive(h, Root(i), []);
    }
  }

  lemma PointedAtExists(h: Heap, x: nat, y: nat)
    requires Counted(h, []) && Edge(h, x, y)
    ensures y < |h.cells| && h.cells[y].alive && h.cells[x].alive
  {
    hide Pointers;
    assert CountedAt(h, x, Pointers(h, [], x));
    var k :| 0 <= k < |h.cells[x].items| && h.cells[x].items[k] == Points(y);
    PointsAtLive(h, Item(x, k), []);
  }

  /** In an acyclic heap an assignment is harmless if its source is not inside the tree of its target,
      and a set always is. */
  lemma ProperIsHarmless(h: Heap, op: Operation)
    requires Counted(h, []) && Acyclic(h) && Enabled(h, op) && Proper(h, op)
    ensures Harmless(h, op)
  {
    hide Counted, Acyclic, Edge, Closed, Apart;
    match op
    case Assign(t, s) => ProperIsApart(h, t, s);
    case MoveAssign(t, s) => ProperIsApart(h, t, s);
    case Set(t, _) => OwnIsApart(h, t);
    case _ =>
  }

  lemma ProperIsApart(h: Heap, t: Location, s: Location)
    requires Counted(h, []) && Acyclic(h) && Exists(h, t)
    requires s.Item? ==> Outside(h, s.cell, Read(h, t))
    ensures Apart(h, t, s)
  {
    hide Counted, Acyclic, Edge, Closed;
    var v := Read(h, t);
    if v.Points? {
      var all := AllCellsClosed(h);
      ValueIsIn(h, t, all);
      var c: set<nat> :| v.ref in c && Closed(h, c) && Misses(c, s);
      TreeMisses(h, t, c);
      var tree := Tree(h, v.ref, c);
      assert Misses(tree, s);
    }
  }

  lemma ValueIsIn(h: Heap, t: Location, all: set<nat>)
    requires Exists(h, t) && Read(h, t).Points? && forall x, y :: Edge(h, x, y) ==> y in all
    requires forall i :: 0 <= i < |h.roots| && h.roots[i].Points? ==> h.roots[i].ref in all
    ensures Read(h, t).ref in all
  {
    if t.Item? { assert Edge(h, t.cell, Read(h, t).ref); }
  }

  lemma TreeMisses(h: Heap, t: Location, c: set<nat>)
    requires Acyclic(h) && Exists(h, t) && Read(h, t).Points? && Read(h, t).ref in c && Closed(h, c)
    ensures var tree := Tree(h, Read(h, t).ref, c); Read(h, t).ref in tree && Closed(h, tree) && Misses(tree, t)
  {
    hide Closed;
    TreeIsClosed(h, Read(h, t).ref, c);
    if t.Item? {
      assert Edge(h, t.cell, Read(h, t).ref);
      HolderIsOutside(h, t.cell, Read(h, t).ref, c);
    }
  }

  lemma OwnIsApart(h: Heap, t: Location)
    requires Counted(h, []) && Acyclic(h) && Exists(h, t)
    ensures Apart(h, t, t)
  {
    hide Counted, Acyclic, Edge, Closed;
    if Read(h, t).Points? {
      var all := AllCellsClosed(h);
      ValueIsIn(h, t, all);
      TreeMisses(h, t, all);
    }
  }

  // ----- exactly when an assignment or a set succeeds -----

  /** The cell y can be reached from a variable: it is in every closed set that holds whatever the
      variables point at. */
  ghost predicate FromVariable(h: Heap, y: nat) {
    forall c: set<nat> :: Closed(h, c) && AllIn(h.roots, c) ==> y in c
  }

  /** Blanking the Value at t leaves l within reach of a variable. */
  ghost predicate Remains(h: Heap, t: Location, l: Location)
    requires Exists(h, t)
  {
    l.Item? ==> FromVariable(Write(h, t, Scalar), l.cell)
  }

  /** In an acyclic heap the cells alive are those within reach of a variable. */
  lemma AliveIsReached(g: Heap, y: nat)
    requires Counted(g, []) && Acyclic(g) && y < |g.cells| && g.cells[y].alive
    ensures FromVariable(g, y)
  {
    hide Counted, Edge, Acyclic, Closed;
    forall c: set<nat> | Closed(g, c) && AllIn(g.roots, c)
      ensures y in c
    {
      if y !in c {
        var k := set x: nat | x < |g.cells| && g.cells[x].alive && x !in c;
        forall z | z in k
          ensures Kept(g, k, z)
        {
          var x := HeldByCell(g, z, c);
          ClosedStep(g, c, x, z);
          assert x in k;
        }
        assert y in k;
        NoKnot(g, k);
      }
    }
  }

  lemma NoKnot(g: Heap, k: set<nat>)
    requires Acyclic(g)
    ensures !Knot(g, k)
  {
  }

  lemma ClosedStep(g: Heap, c: set<nat>, x: nat, y: nat)
    requires Closed(g, c) && Edge(g, x, y) && y !in c
    ensures x !in c
  {
  }

  /** A live cell that no variable points at is held by a live cell. */
  lemma HeldByCell(g: Heap, z: nat, c: set<nat>) returns (x: nat)
    requires Counted(g, []) && z < |g.cells| && g.cells[z].alive && z !in c && AllIn(g.roots, c)
    ensures x < |g.cells| && g.cells[x].alive && Edge(g, x, z)
  {
    hide Stored;
    assert CountedAt(g, z, Pointers(g, [], z));
    NoneOccur(z);
    if Occurs(g.roots, z) > 0 {
      OccursSomewhere(g.roots, z);
      assert false;
    }
    x := StoredSomewhere(g.cells, z);
    assert CountedAt(g, x, Pointers(g, [], x));
  }

  /** What a variable reaches before a destruction that it is not part of, it reaches afterwards. */
  lemma ReachedIsAlive(h: Heap, held: seq<Slot>, y: nat)
    requires Counted(h, held) && FromVariable(h, y)
    ensures y < |h.cells| && Release(h, held).cells[y].alive && Release(h, held).cells[y].items == h.cells[y].items
  {
    hide Counted, Release, Size;
    var g := Release(h, held);
    ReleaseCounts(h, held);
    ReleaseLeaves(h, held);
    var c := set x: nat | x < |g.cells| && g.cells[x].alive;
    forall x, z: nat | x in c && Edge(h, x, z)
      ensures z in c
    {
      assert Edge(g, x, z);
      PointedAtExists(g, x, z);
    }
    forall i | 0 <= i < |h.roots| && h.roots[i].Points?
      ensures h.roots[i].ref in c
    {
      PointsAtLive(g, Root(i), []);
    }
    assert y in c;
  }

  lemma RemainsIff(h: Heap, t: Location, l: Location)
    requires Counted(h, []) && Acyclic(h) && Exists(h, t) && Exists(h, l)
    ensures Exists(Emptied(h, t), l) <==> Remains(h, t, l)
  {
    hide Counted, Acyclic, Release, FromVariable;
    var b, held := Write(h, t, Scalar), [Read(h, t)];
    var g := Release(b, held);
    TakeOut(h, t, []);
    assert held + [] == held;
    if l.Item? {
      ReleaseLeaves(b, held);
      if FromVariable(b, l.cell) {
        ReachedIsAlive(b, held, l.cell);
      } else if g.cells[l.cell].alive {
        EmptiedCounts(h, t);
        EmptiedFewer(h, t);
        FewerStayAcyclic(h, g);
        AliveIsReached(g, l.cell);
        ReachedBefore(b, g, l.cell);
        assert false;
      }
    }
  }

  lemma ReachedBefore(b: Heap, g: Heap, y: nat)
    requires FromVariable(g, y) && FewerEdges(b, g) && g.roots == b.roots
    ensures FromVariable(b, y)
  {
    hide Edge;
    forall c: set<nat> | Closed(b, c) && AllIn(b.roots, c)
      ensures y in c
    {
      assert Closed(g, c);
    }
  }

  /** In an acyclic heap an assignment or a set succeeds exactly when the cells of its target and its
      source can still be reached from a variable once the target is blanked. */
  lemma DoneIff(h: Heap, op: Operation)
    requires Counted(h, []) && Acyclic(h) && Enabled(h, op)
    ensures Apply(h, op).Done? <==>
      match op
      case Assign(t, s) => Remains(h, t, t) && Remains(h, t, s)
      case MoveAssign(t, s) => Remains(h, t, t) && Remains(h, t, s)
      case Set(t, _) => Remains(h, t, t)
      case _ => true
  {
    hide Counted, Acyclic, Emptied, Remains;
    match op
    case Assign(t, s) =>
      RemainsIff(h, t, t);
      RemainsIff(h, t, s);
    case MoveAssign(t, s) =>
      RemainsIff(h, t, t);
      RemainsIff(h, t, s);
    case Set(t, _) => RemainsIff(h, t, t);
    case _ =>
  }

  // ----- safe programs -----

  /** A run in which no assignment takes its source from inside its target's tree, and no Value is
      stored inside its own tree. */
  ghost predicate SafeRuns(h: Heap, ops: seq<Operation>)
    decreases |ops|
  {
    ops != [] ==>
      && Enabled(h, ops[0]) && Proper(h, ops[0])
      && (Apply(h, ops[0]).Done? ==> SafeRuns(Apply(h, ops[0]).heap, ops[1..]))
  }

  lemma {:induction false} SafeRunsRun(h: Heap, ops: seq<Operation>)
    requires Counted(h, []) && Acyclic(h) && SafeRuns(h, ops)
    ensures Runs(h, ops) && Acyclic(After(h, ops))
    decreases |ops|
  {
    hide Counted, Acyclic, Apply, Enabled, Harmless;
    if ops != [] {
      ProperIsHarmless(h, ops[0]);
      HarmlessIsDone(h, ops[0]);
      OperationCounts(h, ops[0]);
      OperationStaysAcyclic(h, ops[0]);
      SafeRunsRun(Apply(h, ops[0]).heap, ops[1..]);
    }
  }

  /** A program that never assigns a Value from inside the target's own tree, nor stores one inside its
      own tree, touches nothing that it destroyed, and leaks nothing. */
  lemma SafeRunFreesAll(ops: seq<Operation>)
    requires SafeRuns(NoHeap(), ops)
    ensures Runs(NoHeap(), ops)
    ensures NoVariables(After(NoHeap(), ops)) ==> AllFreed(After(NoHeap(), ops))
  {
    hide Runs, After, Acyclic, SafeRuns, Counted, NoVariables, AllFreed;
    assert Counted(NoHeap(), []) by { NothingIsCounted(); }
    assert Acyclic(NoHeap()) by { NoKnotInNothing(); }
    SafeRunsRun(NoHeap(), ops);
    EveryRunCounts(ops);
    if NoVariables(After(NoHeap(), ops)) { AllFreedIff(After(NoHeap(), ops)); }
  }

  lemma NothingIsCounted()
    ensures Counted(NoHeap(), [])
  {
  }

  lemma NoKnotInNothing()
    ensures Acyclic(NoHeap())
  {
    NoEdgeNoKnot(NoHeap());
  }
}
