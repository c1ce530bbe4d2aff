// GetMatchesSpec1 and SkipMatchesSpec of LzFind.c, in place on the son array.
module LzFind {
  import opened Words
  import opened LzTree
  import opened LzSon

  // cmCheck: references at or below it are outside the window.
  function Floor(pos: nat, size: nat): nat {
    if pos <= size then 0 else pos - size
  }

  // The nearest position known to be before (or after) everything in the rest of the tree.
  datatype Bound = Nowhere | Known(pos: nat)

  // Everything left is not before the lower bound, which shares len bytes with pos.
  ghost predicate Lower(b: Bound, len: nat, rem: Tree, t: seq<byte>, pos: nat, n: nat) {
    && pos + n <= |t| && (forall x <- Nodes(rem) :: x + n <= |t|)
    && match b
       case Nowhere => len == 0
       case Known(q) => q + n <= |t| && len == Lcp(t, q, pos, n) && len < n && forall x <- Nodes(rem) :: Leq(t, q, x, n)
  }

  ghost predicate Upper(b: Bound, len: nat, rem: Tree, t: seq<byte>, pos: nat, n: nat) {
    && pos + n <= |t| && (forall x <- Nodes(rem) :: x + n <= |t|)
    && match b
       case Nowhere => len == 0
       case Known(q) => q + n <= |t| && len == Lcp(t, q, pos, n) && len < n && forall x <- Nodes(rem) :: Leq(t, x, q, n)
  }

  // Starting the comparison at min(len0, len1) skips only bytes that are equal.
  lemma StartIsSound(lower: Bound, upper: Bound, len0: nat, len1: nat, rem: Tree, t: seq<byte>, pos: nat, n: nat)
    requires rem.Node? && n > 0 && Lower(lower, len1, rem, t, pos, n) && Upper(upper, len0, rem, t, pos, n)
    ensures rem.pos + n <= |t| && Min(len0, len1) < n && Min(len0, len1) <= Lcp(t, rem.pos, pos, n)
  {
    hide Lcp, Leq;
    assert rem.pos in Nodes(rem);
    if lower.Known? && upper.Known? {
      Squeeze(t, lower.pos, rem.pos, upper.pos, pos, Min(len0, len1), n);
    }
  }

  // The length loop: from a sound start to the first difference or the limit.
  method CommonLength(t: seq<byte>, q: nat, pos: nat, n: nat, start: nat) returns (len: nat)
    requires q + n <= |t| && pos + n <= |t| && start < n && start <= Lcp(t, q, pos, n)
    ensures len == Lcp(t, q, pos, n)
  {
    hide Lcp;
    LcpIs(t, q, pos, n);
    len := start;
    if t[q + len] == t[pos + len] {
      LcpBeyond(t, q, pos, n, len);
      len := len + 1;
      while len != n && t[q + len] == t[pos + len]
        invariant len <= n && len <= Lcp(t, q, pos, n)
      {
        LcpBeyond(t, q, pos, n, len);
        len := len + 1;
      }
    }
    if len < n {
      LcpStops(t, q, pos, n, len);
    }
  }

  lemma LcpBeyond(t: seq<byte>, q: nat, pos: nat, n: nat, len: nat)
    requires q + n <= |t| && pos + n <= |t| && len < n && len <= Lcp(t, q, pos, n) && t[q + len] == t[pos + len]
    ensures len < Lcp(t, q, pos, n)
  {
    hide Lcp;
    LcpIs(t, q, pos, n);
    assert At(t, q, len) == At(t, pos, len);
  }

  lemma LcpStops(t: seq<byte>, q: nat, pos: nat, n: nat, len: nat)
    requires q + n <= |t| && pos + n <= |t| && len < n && len <= Lcp(t, q, pos, n) && t[q + len] != t[pos + len]
    ensures len == Lcp(t, q, pos, n)
  {
    hide Lcp;
    LcpIs(t, q, pos, n);
    if len < Lcp(t, q, pos, n) {
      SameBefore(t, q, pos, n, Lcp(t, q, pos, n), len);
    }
  }

  // ---------- the loop's invariant ----------

  // Where the walk stands: the rest of the tree below curMatch, the two cells to be filled,
  // and what the compared bytes are known to lie between.
  ghost predicate Walking(son: seq<nat>, g: Ring, lo: nat, t: seq<byte>, pos: nat, n: nat, curMatch: nat, rem: Tree,
                          p0: Cell, p1: Cell, len0: nat, len1: nat, lower: Bound, upper: Bound)
  {
    && g.size > 0 && |son| == 2 * g.size && pos - lo <= g.size && n > 0 && pos + n <= |t|
    && Holds(son, g, lo, curMatch, rem) && Heap(rem, lo, pos)
    && Lower(lower, len1, rem, t, pos, n) && Upper(upper, len0, rem, t, pos, n) && Sorted(rem, t, n)
    && Free(p0, rem, lo, pos) && Free(p1, rem, lo, pos) && p0 != p1
  }

  lemma WalkStart(son: seq<nat>, g: Ring, lo: nat, t: seq<byte>, pos: nat, n: nat, curMatch: nat, tree: Tree)
    requires g.size > 0 && |son| == 2 * g.size && lo < pos && pos - lo <= g.size && n > 0 && pos + n <= |t|
    requires Holds(son, g, lo, curMatch, tree) && Heap(tree, lo, pos)
    requires (forall x <- Nodes(tree) :: x + n <= |t|) && Sorted(tree, t, n)
    ensures Walking(son, g, lo, t, pos, n, curMatch, tree, Cell(pos, 1), Cell(pos, 0), 0, 0, Nowhere, Nowhere)
  {
    HeapBounds(tree, lo, pos);
  }

  // A comparison that came out less: curMatch goes under ptr1 and the walk goes right.
  lemma WentRight(son: seq<nat>, g: Ring, lo: nat, t: seq<byte>, pos: nat, n: nat, q: nat, rem: Tree,
                  p0: Cell, p1: Cell, len0: nat, len1: nat, lower: Bound, upper: Bound)
    requires Walking(son, g, lo, t, pos, n, q, rem, p0, p1, len0, len1, lower, upper) && rem.Node?
    requires q + n <= |t| && var k := Lcp(t, q, pos, n); k < n && t[q + k] < t[pos + k]
    ensures var son' := son[CellIx(g, p1) := q];
      Walking(son', g, lo, t, pos, n, son'[PairIx(g, q) + 1], rem.right, p0, Cell(q, 1), len0,
              Lcp(t, q, pos, n), Known(q), upper)
  {
    hide Lcp, Leq, PairIx, Nodes;
    HeapStep(rem, lo, pos);
    UpdateFree(son, g, lo, pos, q, rem, p1, q);
  }

  lemma WentLeft(son: seq<nat>, g: Ring, lo: nat, t: seq<byte>, pos: nat, n: nat, q: nat, rem: Tree,
                 p0: Cell, p1: Cell, len0: nat, len1: nat, lower: Bound, upper: Bound)
    requires Walking(son, g, lo, t, pos, n, q, rem, p0, p1, len0, len1, lower, upper) && rem.Node?
    requires q + n <= |t| && var k := Lcp(t, q, pos, n); k < n
    ensures var son' := son[CellIx(g, p0) := q];
      Walking(son', g, lo, t, pos, n, son'[PairIx(g, q)], rem.left, Cell(q, 0), p1,
              Lcp(t, q, pos, n), len1, lower, Known(q))
  {
    hide Lcp, Leq, PairIx, Nodes;
    HeapStep(rem, lo, pos);
    UpdateFree(son, g, lo, pos, q, rem, p0, q);
  }

  lemma WalkingParts(son: seq<nat>, g: Ring, lo: nat, t: seq<byte>, pos: nat, n: nat, curMatch: nat, rem: Tree,
                     p0: Cell, p1: Cell, len0: nat, len1: nat, lower: Bound, upper: Bound)
    requires Walking(son, g, lo, t, pos, n, curMatch, rem, p0, p1, len0, len1, lower, upper)
    ensures forall x <- Nodes(rem) :: x + n <= |t| && x < pos
    ensures rem.Node? <==> curMatch > lo
    ensures rem.Node? ==> rem.pos == curMatch && lo < curMatch < pos && curMatch + n <= |t|
    ensures rem.Node? ==> p1 != Cell(curMatch, 1) && lo < p1.pos <= pos && pos - lo <= g.size
    ensures rem.Node? ==> Min(len0, len1) < n && Min(len0, len1) <= Lcp(t, curMatch, pos, n)
  {
    hide Lcp, Leq;
    HeapBounds(rem, lo, pos);
    if rem.Node? {
      StartIsSound(lower, upper, len0, len1, rem, t, pos, n);
    }
  }

  // The pair of a position in the window, as the code finds it from the distance.
  lemma PairAt(g: Ring, lo: nat, pos: nat, q: nat)
    requires g.size > 0 && lo < q < pos && pos - lo <= g.size
    ensures var cyc := Slot(g, pos); var delta := pos - q;
      PairIx(g, q) == 2 * (cyc - delta + (if delta > cyc then g.size else 0))
  {
    SlotBack(g, pos, pos - q);
  }

  // The walk's result, unfolded one node.
  lemma WalkNext(son: seq<nat>, g: Ring, rem: Tree, t: seq<byte>, pos: nat, n: nat, cut: nat, p0: Cell, p1: Cell)
    requires g.size > 0 && |son| == 2 * g.size && pos + n <= |t| && forall x <- Nodes(rem) :: x + n <= |t| && x < pos
    ensures rem.Nil? || cut == 0
      ==> Walk(son, g, rem, t, pos, n, cut, p0, p1) == son[CellIx(g, p0) := 0][CellIx(g, p1) := 0]
    ensures rem.Node? ==> rem.pos + n <= |t| && rem.pos < pos
    ensures rem.Node?
      ==> (forall x <- Nodes(rem.left) :: x + n <= |t| && x < pos)
             && (forall x <- Nodes(rem.right) :: x + n <= |t| && x < pos)
    ensures rem.Node? && cut > 0 ==>
      var q := rem.pos; var k := Lcp(t, q, pos, n);
      Walk(son, g, rem, t, pos, n, cut, p0, p1) == (
        if k == n then son[CellIx(g, p1) := son[PairIx(g, q)]][CellIx(g, p0) := son[PairIx(g, q) + 1]]
        else if t[q + k] < t[pos + k]
             then Walk(son[CellIx(g, p1) := q], g, rem.right, t, pos, n, cut - 1, p0, Cell(q, 1))
        else Walk(son[CellIx(g, p0) := q], g, rem.left, t, pos, n, cut - 1, Cell(q, 0), p1))
  {
    hide Lcp, PairIx, CellIx;
    if rem.Node? {
      assert rem.pos in Nodes(rem) && Nodes(rem.left) <= Nodes(rem) && Nodes(rem.right) <= Nodes(rem);
    }
  }

  // What is reported, unfolded one node behind what has been reported already.
  lemma MatchNext(all: seq<Found>, found: seq<Found>, rem: Tree, t: seq<byte>, pos: nat, n: nat, cut: nat, best: nat)
    requires pos + n <= |t| && forall x <- Nodes(rem) :: x + n <= |t| && x < pos
    requires all == found + Matches(rem, t, pos, n, cut, best)
    ensures rem.Nil? || cut == 0 ==> all == found
    ensures rem.Node? ==> rem.pos + n <= |t| && rem.pos < pos
    ensures rem.Node?
      ==> (forall x <- Nodes(rem.left) :: x + n <= |t| && x < pos)
             && (forall x <- Nodes(rem.right) :: x + n <= |t| && x < pos)
    ensures rem.Node? && cut > 0 ==>
      var q := rem.pos; var k := Lcp(t, q, pos, n); var best' := if best < k then k else best;
      all == found + Here(k, pos - q - 1, best) + (if k == n then []
        else Matches(if t[q + k] < t[pos + k] then rem.right else rem.left, t, pos, n, cut - 1, best'))
  {
    hide Lcp, Here;
    if rem.Node? && cut > 0 {
      MatchesNext(rem, t, pos, n, cut, best);
    } else if rem.Node? {
      assert rem.pos in Nodes(rem) && Nodes(rem.left) <= Nodes(rem) && Nodes(rem.right) <= Nodes(rem);
    }
  }

  // ---------- the two loops ----------

  // The locals ptr0, ptr1, len0 and len1, and what the proof knows about them.
  datatype Ends = Ends(ptr0: nat, ptr1: nat, len0: nat, len1: nat)

  datatype Walker = Walker(p0: Cell, p1: Cell, lower: Bound, upper: Bound)

  // An equal node's pair goes to the two cells: the new position takes its place.
  method TakeOver(son: array<nat>, ptr0: nat, ptr1: nat, pair: nat, pair0: nat, ghost g: Ring, ghost p0: Cell,
      ghost p1: Cell, ghost q: nat)
    requires g.size > 0 && son.Length == 2 * g.size && ptr0 == CellIx(g, p0) && ptr1 == CellIx(g, p1)
      && pair == PairIx(g, q) && pair0 == son[pair]
    requires p1 != Cell(q, 1) && p1.pos < q + g.size && q < p1.pos + g.size
    modifies son
    ensures son[..]
      == old(son[..])[CellIx(g, p1) := old(son[..])[PairIx(g, q)]][CellIx(g, p0) := old(son[..])[PairIx(g, q) + 1]]
  {
    hide PairIx;
    CellsApart(g, p1, Cell(q, 1));
    son[ptr1] := pair0;
    son[ptr0] := son[pair + 1];
  }

  // What both loops need: the tree of the hash bucket, in order, below the new position.
  ghost predicate Searchable(son: seq<nat>, g: Ring, t: seq<byte>, pos: nat, n: nat, curMatch: nat, tree: Tree) {
    && g.size > 0 && |son| == 2 * g.size && n > 0 && pos > 0 && pos + n <= |t|
    && Holds(son, g, Floor(pos, g.size), curMatch, tree) && Heap(tree, Floor(pos, g.size), pos)
    && (forall x <- Nodes(tree) :: x + n <= |t|) && Sorted(tree, t, n)
  }

  lemma SearchableParts(son: seq<nat>, g: Ring, t: seq<byte>, pos: nat, n: nat, curMatch: nat, tree: Tree)
    requires Searchable(son, g, t, pos, n, curMatch, tree)
    ensures g.size > 0 && |son| == 2 * g.size && n > 0 && pos > 0 && pos + n <= |t|
      && forall x <- Nodes(tree) :: x + n <= |t| && x < pos
    ensures Holds(son, g, Floor(pos, g.size), curMatch, tree)
      && Heap(tree, Floor(pos, g.size), pos) && Sorted(tree, t, n)
  {
    HeapBounds(tree, Floor(pos, g.size), pos);
  }

  // What both loops leave: the new position at the root of the split tree, nothing else moved.
  ghost predicate Inserted(son: seq<nat>, son': seq<nat>, g: Ring, t: seq<byte>, pos: nat,
      n: nat, cut: nat, tree: Tree) {
    && g.size > 0 && |son| == |son'| == 2 * g.size && pos > 0 && pos + n <= |t|
      && (forall x <- Nodes(tree) :: x + n <= |t|)
    && var s := SplitAt(tree, t, pos, n, cut); var lo := Floor(pos, g.size);
      && Holds(son', g, lo, pos, Node(pos, s.less, s.greater))
      && OnlyCells(son, son', g, lo, pos, Nodes(tree), Cell(pos, 1), Cell(pos, 0))
  }

  lemma WalkInserts(son: seq<nat>, g: Ring, t: seq<byte>, pos: nat, n: nat, curMatch: nat, tree: Tree, cut: nat)
    requires Searchable(son, g, t, pos, n, curMatch, tree)
    ensures Inserted(son, Walk(son, g, tree, t, pos, n, cut, Cell(pos, 1), Cell(pos, 0)), g, t, pos, n, cut, tree)
  {
    hide Lcp, Leq, PairIx, Walk, SplitAt;
    var lo := Floor(pos, g.size);
    HeapBounds(tree, lo, pos);
    WalkSplits(son, g, lo, pos, curMatch, tree, t, pos, n, cut, Cell(pos, 1), Cell(pos, 0));
  }

  lemma ChildHeaps(son: seq<nat>, g: Ring, lo: nat, t: seq<byte>, pos: nat, n: nat, q: nat, rem: Tree,
                   p0: Cell, p1: Cell, len0: nat, len1: nat, lower: Bound, upper: Bound)
    requires Walking(son, g, lo, t, pos, n, q, rem, p0, p1, len0, len1, lower, upper) && rem.Node? && rem.pos == q
    ensures Heap(rem.left, lo, q) && Heap(rem.right, lo, q) && lo < q
  {
    hide Lcp, Leq, PairIx, Holds;
  }

  // References below a node point below it.
  lemma NextBelow(son: seq<nat>, g: Ring, lo: nat, t: seq<byte>, pos: nat, n: nat, ref: nat, rem: Tree,
                  p0: Cell, p1: Cell, len0: nat, len1: nat, lower: Bound, upper: Bound, q: nat)
    requires Walking(son, g, lo, t, pos, n, ref, rem, p0, p1, len0, len1, lower, upper) && Heap(rem, lo, q) && lo < q
    ensures ref < q
  {
    hide Lcp, Leq, PairIx;
  }

  // The two branches that go on: curMatch goes under ptr1 and the walk goes right, or under
  // ptr0 and it goes left.
  method Descend(t: seq<byte>, n: nat, pos: nat, son: array<nat>, curMatch: nat, len: nat, pair: nat, a: Ends,
                 ghost g: Ring, ghost lo: nat, ghost cut: nat, ghost rem: Tree, ghost w: Walker)
      returns (next: nat, b: Ends, ghost rem': Tree, ghost w': Walker)
    requires Walking(son[..], g, lo, t, pos, n, curMatch, rem, w.p0, w.p1, a.len0, a.len1, w.lower, w.upper)
    requires rem.Node? && rem.pos == curMatch && lo < curMatch < pos && curMatch + n <= |t|
      && len == Lcp(t, curMatch, pos, n) < n && cut > 0
    requires g.size > 0 && son.Length == 2 * g.size && pair == PairIx(g, curMatch) && a.ptr0 == CellIx(g, w.p0)
      && a.ptr1 == CellIx(g, w.p1)
    requires pos + n <= |t| && forall x <- Nodes(rem) :: x + n <= |t| && x < pos
    modifies son
    ensures Walking(son[..], g, lo, t, pos, n, next, rem', w'.p0, w'.p1, b.len0, b.len1, w'.lower, w'.upper)
    ensures b.ptr0 == CellIx(g, w'.p0) && b.ptr1 == CellIx(g, w'.p1)
    ensures rem' == if t[curMatch + len] < t[pos + len] then rem.right else rem.left
    ensures next < curMatch && forall x <- Nodes(rem') :: x + n <= |t| && x < pos
    ensures Walk(son[..], g, rem', t, pos, n, cut - 1, w'.p0, w'.p1)
      == Walk(old(son[..]), g, rem, t, pos, n, cut, w.p0, w.p1)
  {
    hide Lcp, Leq, Holds, Heap, Sorted, Nodes, Walking, Walk, Slot;
    ghost var before := son[..];
    WalkNext(before, g, rem, t, pos, n, cut, w.p0, w.p1);
    ChildHeaps(before, g, lo, t, pos, n, curMatch, rem, w.p0, w.p1, a.len0, a.len1, w.lower, w.upper);
    b, w' := a, w;
    if t[curMatch + len] < t[pos + len] {
      WentRight(before, g, lo, t, pos, n, curMatch, rem, w.p0, w.p1, a.len0, a.len1, w.lower, w.upper);
      son[a.ptr1] := curMatch;
      next, b := son[pair + 1], a.(ptr1 := pair + 1, len1 := len);
      rem', w' := rem.right, w.(p1 := Cell(curMatch, 1), lower := Known(curMatch));
    } else {
      WentLeft(before, g, lo, t, pos, n, curMatch, rem, w.p0, w.p1, a.len0, a.len1, w.lower, w.upper);
      son[a.ptr0] := curMatch;
      next, b := son[pair], a.(ptr0 := pair, len0 := len);
      rem', w' := rem.left, w.(p0 := Cell(curMatch, 0), upper := Known(curMatch));
    }
    NextBelow(son[..], g, lo, t, pos, n, next, rem', w'.p0, w'.p1, b.len0, b.len1, w'.lower, w'.upper, curMatch);
  }

  method GetMatchesSpec1(t: seq<byte>, lenLimit: nat, curMatch0: nat, pos: nat, son: array<nat>,
      cyclicBufferPos: nat, cyclicBufferSize: nat,
                         cutValue: nat, maxLen0: nat, ghost g: Ring, ghost tree: Tree)
      returns (d: seq<Found>)
    requires Searchable(son[..], g, t, pos, lenLimit, curMatch0, tree)
    requires cyclicBufferSize == g.size && cyclicBufferPos == Slot(g, pos) && cutValue > 0 && maxLen0 < lenLimit
    modifies son
    ensures pos + lenLimit <= |t| && forall x <- Nodes(tree) :: x + lenLimit <= |t| && x < pos
    ensures d == Matches(tree, t, pos, lenLimit, cutValue, maxLen0)
    ensures son[..] == Walk(old(son[..]), g, tree, t, pos, lenLimit, cutValue, Cell(pos, 1), Cell(pos, 0))
    ensures Inserted(old(son[..]), son[..], g, t, pos, lenLimit, cutValue, tree)
  {
    hide Lcp, Leq, Holds, Heap, Sorted, Nodes, Walking, Walk, Matches, SplitAt, OnlyCells, Slot,
      Inserted, Searchable, Here;
    SearchableParts(son[..], g, t, pos, lenLimit, curMatch0, tree);
    ghost var was, lo := son[..], Floor(pos, cyclicBufferSize);
    WalkInserts(was, g, t, pos, lenLimit, curMatch0, tree, cutValue);
    WalkStart(was, g, lo, t, pos, lenLimit, curMatch0, tree);
    var curMatch: nat, cut: nat, maxLen: nat := curMatch0, cutValue, maxLen0;
    var e := Ends(2 * cyclicBufferPos + 1, 2 * cyclicBufferPos, 0, 0);
    ghost var rem, w := tree, Walker(Cell(pos, 1), Cell(pos, 0), Nowhere, Nowhere);
    var cmCheck := if pos <= cyclicBufferSize then 0 else pos - cyclicBufferSize;
    d := [];
    WalkingParts(son[..], g, lo, t, pos, lenLimit, curMatch, rem, w.p0, w.p1, 0, 0, w.lower, w.upper);
    ghost var all := Matches(tree, t, pos, lenLimit, cutValue, maxLen0);
    ghost var end := Walk(was, g, tree, t, pos, lenLimit, cutValue, w.p0, w.p1);
    var more := cmCheck < curMatch;
    while more
      invariant Walking(son[..], g, lo, t, pos, lenLimit, curMatch, rem, w.p0, w.p1, e.len0, e.len1, w.lower, w.upper)
      invariant e.ptr0 == CellIx(g, w.p0) && e.ptr1 == CellIx(g, w.p1)
      invariant forall x <- Nodes(rem) :: x + lenLimit <= |t| && x < pos
      invariant (more <==> rem.Node? && cut > 0) && maxLen < lenLimit
      invariant all == d + Matches(rem, t, pos, lenLimit, cut, maxLen)
      invariant end == Walk(son[..], g, rem, t, pos, lenLimit, cut, w.p0, w.p1)
      decreases cut
    {
      WalkingParts(son[..], g, lo, t, pos, lenLimit, curMatch, rem, w.p0, w.p1, e.len0, e.len1, w.lower, w.upper);
      PairAt(g, lo, pos, curMatch);
      MatchNext(all, d, rem, t, pos, lenLimit, cut, maxLen);
      var delta := pos - curMatch;
      var pair := 2 * (cyclicBufferPos - delta + (if delta > cyclicBufferPos then cyclicBufferSize else 0));
      var len := if e.len0 < e.len1 then e.len0 else e.len1;
      var pair0 := son[pair];
      len := CommonLength(t, curMatch, pos, lenLimit, len);
      d := d + Here(len, delta - 1, maxLen);
      if maxLen < len {
        maxLen := len;
        if len == lenLimit {
          WalkNext(son[..], g, rem, t, pos, lenLimit, cut, w.p0, w.p1);
          TakeOver(son, e.ptr0, e.ptr1, pair, pair0, g, w.p0, w.p1, curMatch);
          return;
        }
      }
      curMatch, e, rem, w := Descend(t, lenLimit, pos, son, curMatch, len, pair, e, g, lo, cut, rem, w);
      cut := cut - 1;
      WalkingParts(son[..], g, lo, t, pos, lenLimit, curMatch, rem, w.p0, w.p1, e.len0, e.len1, w.lower, w.upper);
      more := cut != 0 && cmCheck < curMatch;
    }
    WalkNext(son[..], g, rem, t, pos, lenLimit, cut, w.p0, w.p1);
    MatchNext(all, d, rem, t, pos, lenLimit, cut, maxLen);
    son[e.ptr0] := 0;
    son[e.ptr1] := 0;
  }

  // SkipMatchesSpec: the same insertion, reporting nothing.
  method SkipMatchesSpec(t: seq<byte>, lenLimit: nat, curMatch0: nat, pos: nat, son: array<nat>,
      cyclicBufferPos: nat, cyclicBufferSize: nat,
                         cutValue: nat, ghost g: Ring, ghost tree: Tree)
    requires Searchable(son[..], g, t, pos, lenLimit, curMatch0, tree)
    requires cyclicBufferSize == g.size && cyclicBufferPos == Slot(g, pos) && cutValue > 0
    modifies son
    ensures Inserted(old(son[..]), son[..], g, t, pos, lenLimit, cutValue, tree)
    ensures son[..] == Walk(old(son[..]), g, tree, t, pos, lenLimit, cutValue, Cell(pos, 1), Cell(pos, 0))
  {
    hide Lcp, Leq, Holds, Heap, Sorted, Nodes, Walking, Walk, Matches, SplitAt, OnlyCells, Slot,
      Inserted, Searchable, Here;
    SearchableParts(son[..], g, t, pos, lenLimit, curMatch0, tree);
    ghost var was, lo := son[..], Floor(pos, cyclicBufferSize);
    WalkInserts(was, g, t, pos, lenLimit, curMatch0, tree, cutValue);
    WalkStart(was, g, lo, t, pos, lenLimit, curMatch0, tree);
    var curMatch: nat, cut: nat := curMatch0, cutValue;
    var e := Ends(2 * cyclicBufferPos + 1, 2 * cyclicBufferPos, 0, 0);
    ghost var rem, w := tree, Walker(Cell(pos, 1), Cell(pos, 0), Nowhere, Nowhere);
    var cmCheck := if pos <= cyclicBufferSize then 0 else pos - cyclicBufferSize;
    WalkingParts(son[..], g, lo, t, pos, lenLimit, curMatch, rem, w.p0, w.p1, 0, 0, w.lower, w.upper);
    ghost var end := Walk(was, g, tree, t, pos, lenLimit, cutValue, w.p0, w.p1);
    var more := cmCheck < curMatch;
    while more
      invariant Walking(son[..], g, lo, t, pos, lenLimit, curMatch, rem, w.p0, w.p1, e.len0, e.len1, w.lower, w.upper)
      invariant e.ptr0 == CellIx(g, w.p0) && e.ptr1 == CellIx(g, w.p1)
      invariant forall x <- Nodes(rem) :: x + lenLimit <= |t| && x < pos
      invariant more <==> rem.Node? && cut > 0
      invariant end == Walk(son[..], g, rem, t, pos, lenLimit, cut, w.p0, w.p1)
      decreases cut
    {
      WalkingParts(son[..], g, lo, t, pos, lenLimit, curMatch, rem, w.p0, w.p1, e.len0, e.len1, w.lower, w.upper);
      PairAt(g, lo, pos, curMatch);
      var delta := pos - curMatch;
      var pair := 2 * (cyclicBufferPos - delta + (if delta > cyclicBufferPos then cyclicBufferSize else 0));
      var len := if e.len0 < e.len1 then e.len0 else e.len1;
      len := CommonLength(t, curMatch, pos, lenLimit, len);
      if len == lenLimit {
        WalkNext(son[..], g, rem, t, pos, lenLimit, cut, w.p0, w.p1);
        TakeOver(son, e.ptr0, e.ptr1, pair, son[pair], g, w.p0, w.p1, curMatch);
        return;
      }
      curMatch, e, rem, w := Descend(t, lenLimit, pos, son, curMatch, len, pair, e, g, lo, cut, rem, w);
      cut := cut - 1;
      WalkingParts(son[..], g, lo, t, pos, lenLimit, curMatch, rem, w.p0, w.p1, e.len0, e.len1, w.lower, w.upper);
      more := cut != 0 && cmCheck < curMatch;
    }
    WalkNext(son[..], g, rem, t, pos, lenLimit, cut, w.p0, w.p1);
    son[e.ptr0] := 0;
    son[e.ptr1] := 0;
  }
}
