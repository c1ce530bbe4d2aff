// The trees of LzTree kept in the match finder's son array: each position of the window has
// a pair of references in a cyclic slot, and a reference at or below the window is empty.
module LzSon {
  import opened Words
  import opened LzTree

  // The cyclic buffer: size slots, position q in slot (q + off) mod size.
  datatype Ring = Ring(off: nat, size: nat)

  function Slot(g: Ring, q: nat): nat
    requires g.size > 0
  {
    (q + g.off) % g.size
  }

  // Where q's pair starts in son.
  function PairIx(g: Ring, q: nat): (i: nat)
    requires g.size > 0
    ensures i + 1 < 2 * g.size
  {
    2 * Slot(g, q)
  }

  // The slot computed from the distance is the position's slot.
  lemma SlotBack(g: Ring, pos: nat, delta: nat)
    requires 0 < delta < g.size && delta <= pos
    ensures var cyc := Slot(g, pos); Slot(g, pos - delta) == cyc - delta + (if delta > cyc then g.size else 0)
  {
    var x, cyc := pos + g.off, Slot(g, pos);
    var k := x / g.size;
    assert x == g.size * k + cyc;
    if delta > cyc {
      assert x - delta == g.size * (k - 1) + (cyc - delta + g.size);
      assert k > 0;
      ModUnique(x - delta, g.size, k - 1, cyc - delta + g.size);
    } else {
      ModUnique(x - delta, g.size, k, cyc - delta);
    }
  }

  // Positions closer than the ring's size have different slots.
  lemma SlotsApart(g: Ring, a: nat, b: nat)
    requires g.size > 0 && a < b < a + g.size
    ensures Slot(g, a) != Slot(g, b)
  {
    if b - a > 0 {
      SlotBack(g, b, b - a);
    }
  }

  lemma PairsApart(g: Ring, a: nat, b: nat)
    requires g.size > 0 && a != b && a < b + g.size && b < a + g.size
    ensures PairIx(g, a) != PairIx(g, b) && PairIx(g, a) != PairIx(g, b) + 1 && PairIx(g, a) + 1 != PairIx(g, b)
  {
    if a < b { SlotsApart(g, a, b); } else { SlotsApart(g, b, a); }
  }

  // ref is the root of tree, as son has it.
  ghost predicate Holds(son: seq<nat>, g: Ring, lo: nat, ref: nat, tree: Tree)
    requires g.size > 0 && |son| == 2 * g.size
    decreases tree
  {
    match tree
    case Nil => ref <= lo
    case Node(q, l, r) =>
      ref == q && lo < q && Holds(son, g, lo, son[PairIx(g, q)], l) && Holds(son, g, lo, son[PairIx(g, q) + 1], r)
  }

  lemma {:induction false} HoldsFrame(son: seq<nat>, son': seq<nat>, g: Ring, lo: nat, ref: nat, tree: Tree)
    requires g.size > 0 && |son| == |son'| == 2 * g.size && Holds(son, g, lo, ref, tree)
    requires forall q <- Nodes(tree) :: son'[PairIx(g, q)] == son[PairIx(g, q)]
               && son'[PairIx(g, q) + 1] == son[PairIx(g, q) + 1]
    ensures Holds(son', g, lo, ref, tree)
    decreases tree
  {
    hide PairIx;
    if tree.Node? {
      var i := PairIx(g, tree.pos);
      assert tree.pos in Nodes(tree) && Nodes(tree.left) <= Nodes(tree) && Nodes(tree.right) <= Nodes(tree);
      HoldsFrame(son, son', g, lo, son[i], tree.left);
      HoldsFrame(son, son', g, lo, son[i + 1], tree.right);
    }
  }

  // Two trees with the same root in the same array are the same.
  lemma {:induction false} HoldsUnique(son: seq<nat>, g: Ring, lo: nat, ref: nat, a: Tree, b: Tree)
    requires g.size > 0 && |son| == 2 * g.size && Holds(son, g, lo, ref, a) && Holds(son, g, lo, ref, b)
    ensures a == b
    decreases a
  {
    hide PairIx;
    if a.Node? && b.Node? {
      HoldsUnique(son, g, lo, son[PairIx(g, ref)], a.left, b.left);
      HoldsUnique(son, g, lo, son[PairIx(g, ref) + 1], a.right, b.right);
    }
  }

  // ---------- the walk on the array ----------

  // A cell of the array: one side of a position's pair.
  datatype Cell = Cell(pos: nat, side: bit)

  function CellIx(g: Ring, c: Cell): (i: nat)
    requires g.size > 0
    ensures i < 2 * g.size
  {
    PairIx(g, c.pos) + c.side
  }

  lemma CellsApart(g: Ring, a: Cell, b: Cell)
    requires g.size > 0 && a != b && a.pos < b.pos + g.size && b.pos < a.pos + g.size
    ensures CellIx(g, a) != CellIx(g, b)
  {
    if a.pos != b.pos {
      PairsApart(g, a.pos, b.pos);
    }
  }

  // What the loop of GetMatchesSpec1 makes of the array, with ptr0 and ptr1 at the cells p0, p1.
  ghost function Walk(son: seq<nat>, g: Ring, tree: Tree, t: seq<byte>, pos: nat, n: nat, cut: nat, p0: Cell,
      p1: Cell): (r: seq<nat>)
    requires g.size > 0 && |son| == 2 * g.size
    requires pos + n <= |t| && forall x <- Nodes(tree) :: x + n <= |t|
    ensures |r| == |son|
    decreases tree
  {
    NodesSons(tree);
    if tree.Nil? || cut == 0 then son[CellIx(g, p0) := 0][CellIx(g, p1) := 0] else
      var q := tree.pos;
      var k := Lcp(t, q, pos, n);
      if k == n then son[CellIx(g, p1) := son[PairIx(g, q)]][CellIx(g, p0) := son[PairIx(g, q) + 1]]
      else if t[q + k] < t[pos + k]
           then Walk(son[CellIx(g, p1) := q], g, tree.right, t, pos, n, cut - 1, p0, Cell(q, 1))
      else Walk(son[CellIx(g, p0) := q], g, tree.left, t, pos, n, cut - 1, Cell(q, 0), p1)
  }

  // Only the two cells and the pairs of the tree's own nodes change.
  ghost predicate OnlyCells(son: seq<nat>, son': seq<nat>, g: Ring, lo: nat, hi: nat,
      nodes: set<nat>, p0: Cell, p1: Cell)
    requires g.size > 0 && |son| == |son'| == 2 * g.size
  {
    forall c: Cell :: lo < c.pos <= hi && c.pos !in nodes && c != p0 && c != p1
      ==> son'[CellIx(g, c)] == son[CellIx(g, c)]
  }

  // A cell of the window that is not the tree's.
  ghost predicate Free(c: Cell, tree: Tree, lo: nat, hi: nat) {
    lo < c.pos <= hi && c.pos !in Nodes(tree)
  }

  lemma UpdateFree(son: seq<nat>, g: Ring, lo: nat, hi: nat, ref: nat, tree: Tree, c: Cell, v: nat)
    requires g.size > 0 && |son| == 2 * g.size && hi - lo <= g.size && Holds(son, g, lo, ref, tree)
      && Free(c, tree, lo, hi)
    requires forall x <- Nodes(tree) :: lo < x <= hi
    ensures Holds(son[CellIx(g, c) := v], g, lo, ref, tree)
    ensures forall d: Cell :: lo < d.pos <= hi && d != c ==> son[CellIx(g, c) := v][CellIx(g, d)] == son[CellIx(g, d)]
  {
    hide PairIx;
    var son' := son[CellIx(g, c) := v];
    forall d: Cell | lo < d.pos <= hi && d != c
      ensures son'[CellIx(g, d)] == son[CellIx(g, d)]
    {
      CellsApart(g, c, d);
    }
    forall q | q in Nodes(tree)
      ensures son'[PairIx(g, q)] == son[PairIx(g, q)] && son'[PairIx(g, q) + 1] == son[PairIx(g, q) + 1]
    {
      CellsApart(g, c, Cell(q, 0));
      CellsApart(g, c, Cell(q, 1));
    }
    HoldsFrame(son, son', g, lo, ref, tree);
  }

  // A subtree off the walk survives it.
  lemma Aside(son: seq<nat>, son': seq<nat>, g: Ring, lo: nat, hi: nat, ref: nat, tree: Tree,
      nodes: set<nat>, p0: Cell, p1: Cell)
    requires g.size > 0 && |son| == |son'| == 2 * g.size && Holds(son, g, lo, ref, tree)
    requires OnlyCells(son, son', g, lo, hi, nodes, p0, p1)
    requires Nodes(tree) !! nodes && p0.pos !in Nodes(tree) && p1.pos !in Nodes(tree)
    requires forall x <- Nodes(tree) :: lo < x <= hi
    ensures Holds(son', g, lo, ref, tree)
  {
    hide PairIx;
    forall q | q in Nodes(tree)
      ensures son'[PairIx(g, q)] == son[PairIx(g, q)] && son'[PairIx(g, q) + 1] == son[PairIx(g, q) + 1]
    {
      assert son'[CellIx(g, Cell(q, 0))] == son[CellIx(g, Cell(q, 0))];
      assert son'[CellIx(g, Cell(q, 1))] == son[CellIx(g, Cell(q, 1))];
    }
    HoldsFrame(son, son', g, lo, ref, tree);
  }

  lemma HeapStep(tree: Tree, lo: nat, hi: nat)
    requires Heap(tree, lo, hi) && tree.Node?
    ensures lo < tree.pos < hi && Heap(tree.left, lo, hi) && Heap(tree.right, lo, hi)
    ensures tree.pos in Nodes(tree) && Nodes(tree.left) <= Nodes(tree) && Nodes(tree.right) <= Nodes(tree)
    ensures tree.pos !in Nodes(tree.left) && tree.pos !in Nodes(tree.right) && Nodes(tree.left) !! Nodes(tree.right)
    ensures forall x <- Nodes(tree) :: lo < x <= hi
  {
    HeapParts(tree, lo, hi);
    HeapBounds(tree, lo, hi);
    HeapBounds(tree.left, lo, tree.pos);
    HeapBounds(tree.right, lo, tree.pos);
  }

  // The walk leaves the two halves of the split under its two cells, and touches nothing else.
  lemma {:induction false} WalkSplits(son: seq<nat>, g: Ring, lo: nat, hi: nat, ref: nat, tree: Tree, t: seq<byte>,
      pos: nat, n: nat, cut: nat, p0: Cell, p1: Cell)
    requires g.size > 0 && |son| == 2 * g.size && hi - lo <= g.size
      && Holds(son, g, lo, ref, tree) && Heap(tree, lo, hi)
    requires Free(p0, tree, lo, hi) && Free(p1, tree, lo, hi) && p0 != p1
    requires pos + n <= |t| && forall x <- Nodes(tree) :: x + n <= |t|
    ensures var s := SplitAt(tree, t, pos, n, cut); var son' := Walk(son, g, tree, t, pos, n, cut, p0, p1);
      && Holds(son', g, lo, son'[CellIx(g, p1)], s.less) && Holds(son', g, lo, son'[CellIx(g, p0)], s.greater)
      && OnlyCells(son, son', g, lo, hi, Nodes(tree), p0, p1)
    decreases tree, 1
  {
    hide Lcp, PairIx, Heap, Nodes, CellIx, Walk, SplitAt, OnlyCells, Holds;
    CellsApart(g, p0, p1);
    OneTurn(son, g, tree, t, pos, n, cut, p0, p1);
    if tree.Nil? || cut == 0 {
      EmptyEnds(son, g, lo, hi, Nodes(tree), p0, p1);
    } else {
      HeapStep(tree, lo, hi);
      HoldsRoot(son, g, lo, ref, tree);
      var q := tree.pos;
      var k := Lcp(t, q, pos, n);
      if k == n {
        EqualEnds(son, g, lo, hi, tree, p0, p1);
      } else if t[q + k] < t[pos + k] {
        LessStep(son, g, lo, hi, tree, t, pos, n, cut, p0, p1);
      } else {
        GreaterStep(son, g, lo, hi, tree, t, pos, n, cut, p0, p1);
      }
    }
  }

  // One turn of the walk, and of the split it makes.
  lemma OneTurn(son: seq<nat>, g: Ring, tree: Tree, t: seq<byte>, pos: nat, n: nat, cut: nat, p0: Cell, p1: Cell)
    requires g.size > 0 && |son| == 2 * g.size && pos + n <= |t| && forall x <- Nodes(tree) :: x + n <= |t|
    ensures tree.Nil? || cut == 0 ==>
      SplitAt(tree, t, pos, n, cut) == Split(Nil, Nil)
      && Walk(son, g, tree, t, pos, n, cut, p0, p1) == son[CellIx(g, p0) := 0][CellIx(g, p1) := 0]
    ensures tree.Node? && cut > 0 ==>
      && tree.pos + n <= |t| && (forall x <- Nodes(tree.left) :: x + n <= |t|)
                                   && (forall x <- Nodes(tree.right) :: x + n <= |t|)
      && var q := tree.pos; var k := Lcp(t, q, pos, n);
      if k == n then
        && SplitAt(tree, t, pos, n, cut) == Split(tree.left, tree.right)
        && Walk(son, g, tree, t, pos, n, cut, p0, p1)
          == son[CellIx(g, p1) := son[PairIx(g, q)]][CellIx(g, p0) := son[PairIx(g, q) + 1]]
      else if t[q + k] < t[pos + k] then
        && (var s := SplitAt(tree.right, t, pos, n, cut - 1);
            SplitAt(tree, t, pos, n, cut) == Split(Node(q, tree.left, s.less), s.greater))
        && Walk(son, g, tree, t, pos, n, cut, p0, p1)
          == Walk(son[CellIx(g, p1) := q], g, tree.right, t, pos, n, cut - 1, p0, Cell(q, 1))
      else
        && (var s := SplitAt(tree.left, t, pos, n, cut - 1);
            SplitAt(tree, t, pos, n, cut) == Split(s.less, Node(q, s.greater, tree.right)))
        && Walk(son, g, tree, t, pos, n, cut, p0, p1)
          == Walk(son[CellIx(g, p0) := q], g, tree.left, t, pos, n, cut - 1, Cell(q, 0), p1)
  {
    hide Lcp, Nodes, PairIx, CellIx;
    NodesSons(tree);
  }

  lemma HoldsRoot(son: seq<nat>, g: Ring, lo: nat, ref: nat, tree: Tree)
    requires g.size > 0 && |son| == 2 * g.size && Holds(son, g, lo, ref, tree)
    ensures (tree.Node? <==> ref > lo) && (tree.Node? ==> tree.pos == ref)
  {
  }

  lemma EmptyEnds(son: seq<nat>, g: Ring, lo: nat, hi: nat, nodes: set<nat>, p0: Cell, p1: Cell)
    requires g.size > 0 && |son| == 2 * g.size && hi - lo <= g.size && p0 != p1
      && lo < p0.pos <= hi && lo < p1.pos <= hi
    ensures var son' := son[CellIx(g, p0) := 0][CellIx(g, p1) := 0];
      && Holds(son', g, lo, son'[CellIx(g, p1)], Nil) && Holds(son', g, lo, son'[CellIx(g, p0)], Nil)
      && OnlyCells(son, son', g, lo, hi, nodes, p0, p1)
  {
    TwoUpdates(son, g, lo, hi, p0, 0, p1, 0, nodes);
  }

  // Writing the two cells themselves.
  lemma TwoUpdates(son: seq<nat>, g: Ring, lo: nat, hi: nat, p0: Cell, v0: nat, p1: Cell, v1: nat, nodes: set<nat>)
    requires g.size > 0 && |son| == 2 * g.size && hi - lo <= g.size && p0 != p1
      && lo < p0.pos <= hi && lo < p1.pos <= hi
    ensures var son' := son[CellIx(g, p0) := v0][CellIx(g, p1) := v1];
      && son'[CellIx(g, p0)] == v0 && son'[CellIx(g, p1)] == v1 && OnlyCells(son, son', g, lo, hi, nodes, p0, p1)
      && son[CellIx(g, p1) := v1][CellIx(g, p0) := v0] == son'
  {
    hide PairIx;
    CellsApart(g, p0, p1);
    var son' := son[CellIx(g, p0) := v0][CellIx(g, p1) := v1];
    forall c: Cell | lo < c.pos <= hi && c.pos !in nodes && c != p0 && c != p1
      ensures son'[CellIx(g, c)] == son[CellIx(g, c)]
    {
      CellsApart(g, p0, c);
      CellsApart(g, p1, c);
    }
  }

  lemma EqualEnds(son: seq<nat>, g: Ring, lo: nat, hi: nat, tree: Tree, p0: Cell, p1: Cell)
    requires g.size > 0 && |son| == 2 * g.size && hi - lo <= g.size && tree.Node?
      && Holds(son, g, lo, tree.pos, tree) && Heap(tree, lo, hi)
    requires Free(p0, tree, lo, hi) && Free(p1, tree, lo, hi) && p0 != p1
    ensures var i := PairIx(g, tree.pos); var son' := son[CellIx(g, p1) := son[i]][CellIx(g, p0) := son[i + 1]];
      && Holds(son', g, lo, son'[CellIx(g, p1)], tree.left) && Holds(son', g, lo, son'[CellIx(g, p0)], tree.right)
      && OnlyCells(son, son', g, lo, hi, Nodes(tree), p0, p1)
  {
    hide PairIx, Heap, Nodes, CellIx, OnlyCells;
    HeapStep(tree, lo, hi);
    var i := PairIx(g, tree.pos);
    TwoUpdates(son, g, lo, hi, p0, son[i + 1], p1, son[i], Nodes(tree));
    TwoUpdates(son, g, lo, hi, p0, son[i + 1], p1, son[i], {});
    var son' := son[CellIx(g, p1) := son[i]][CellIx(g, p0) := son[i + 1]];
    Aside(son, son', g, lo, hi, son[i], tree.left, {}, p0, p1);
    Aside(son, son', g, lo, hi, son[i + 1], tree.right, {}, p0, p1);
  }

  lemma {:induction false} LessStep(son: seq<nat>, g: Ring, lo: nat, hi: nat, tree: Tree, t: seq<byte>, pos: nat,
      n: nat, cut: nat, p0: Cell, p1: Cell)
    requires g.size > 0 && |son| == 2 * g.size && hi - lo <= g.size && tree.Node?
      && Holds(son, g, lo, tree.pos, tree) && Heap(tree, lo, hi)
    requires Free(p0, tree, lo, hi) && Free(p1, tree, lo, hi) && p0 != p1 && cut > 0
    requires pos + n <= |t| && tree.pos + n <= |t| && forall x <- Nodes(tree.right) :: x + n <= |t|
    ensures var s := SplitAt(tree.right, t, pos, n, cut - 1); var q := tree.pos;
      var son' := Walk(son[CellIx(g, p1) := q], g, tree.right, t, pos, n, cut - 1, p0, Cell(q, 1));
      && Holds(son', g, lo, son'[CellIx(g, p1)], Node(q, tree.left, s.less))
        && Holds(son', g, lo, son'[CellIx(g, p0)], s.greater)
      && OnlyCells(son, son', g, lo, hi, Nodes(tree), p0, p1)
    decreases tree, 0
  {
    hide PairIx, Heap, Nodes, Walk, SplitAt;
    HeapStep(tree, lo, hi);
    var q := tree.pos;
    var son1 := son[CellIx(g, p1) := q];
    UpdateFree(son, g, lo, hi, q, tree, p1, q);
    WalkSplits(son1, g, lo, hi, son1[PairIx(g, q) + 1], tree.right, t, pos, n, cut - 1, p0, Cell(q, 1));
    var son' := Walk(son1, g, tree.right, t, pos, n, cut - 1, p0, Cell(q, 1));
    Aside(son1, son', g, lo, hi, son1[PairIx(g, q)], tree.left, Nodes(tree.right), p0, Cell(q, 1));
    assert son'[CellIx(g, Cell(q, 0))] == son1[CellIx(g, Cell(q, 0))];
    assert son'[CellIx(g, p1)] == q;
  }

  lemma {:induction false} GreaterStep(son: seq<nat>, g: Ring, lo: nat, hi: nat, tree: Tree, t: seq<byte>, pos: nat,
      n: nat, cut: nat, p0: Cell, p1: Cell)
    requires g.size > 0 && |son| == 2 * g.size && hi - lo <= g.size && tree.Node?
      && Holds(son, g, lo, tree.pos, tree) && Heap(tree, lo, hi)
    requires Free(p0, tree, lo, hi) && Free(p1, tree, lo, hi) && p0 != p1 && cut > 0
    requires pos + n <= |t| && tree.pos + n <= |t| && forall x <- Nodes(tree.left) :: x + n <= |t|
    ensures var s := SplitAt(tree.left, t, pos, n, cut - 1); var q := tree.pos;
      var son' := Walk(son[CellIx(g, p0) := q], g, tree.left, t, pos, n, cut - 1, Cell(q, 0), p1);
      && Holds(son', g, lo, son'[CellIx(g, p1)], s.less)
        && Holds(son', g, lo, son'[CellIx(g, p0)], Node(q, s.greater, tree.right))
      && OnlyCells(son, son', g, lo, hi, Nodes(tree), p0, p1)
    decreases tree, 0
  {
    hide PairIx, Heap, Nodes, Walk, SplitAt;
    HeapStep(tree, lo, hi);
    var q := tree.pos;
    var son1 := son[CellIx(g, p0) := q];
    UpdateFree(son, g, lo, hi, q, tree, p0, q);
    WalkSplits(son1, g, lo, hi, son1[PairIx(g, q)], tree.left, t, pos, n, cut - 1, Cell(q, 0), p1);
    var son' := Walk(son1, g, tree.left, t, pos, n, cut - 1, Cell(q, 0), p1);
    Aside(son1, son', g, lo, hi, son1[PairIx(g, q) + 1], tree.right, Nodes(tree.left), Cell(q, 0), p1);
    assert son'[CellIx(g, Cell(q, 1))] == son1[CellIx(g, Cell(q, 1))];
    assert son'[CellIx(g, p0)] == q;
  }
}
