// All the trees of the match finder together: one for each hash bucket, sharing the son array.
// What inserting, moving on by a byte, and MatchFinder_Normalize3 do to them.
module LzForest {
  import opened Words
  import opened LzTree
  import opened LzSon
  import opened LzFind

  // A bucket's tree: held by the array, in the window (lo, hi), sorted on n bytes.
  ghost predicate Bucket(son: seq<nat>, g: Ring, lo: nat, hi: nat, t: seq<byte>, n: nat, head: nat, tree: Tree) {
    && g.size > 0 && |son| == 2 * g.size
    && Holds(son, g, lo, head, tree) && Heap(tree, lo, hi)
    && (forall x <- Nodes(tree) :: x + n <= |t|) && Sorted(tree, t, n)
  }

  ghost predicate Forest(son: seq<nat>, g: Ring, lo: nat, hi: nat, t: seq<byte>, n: nat,
      heads: seq<nat>, trees: seq<Tree>) {
    && |heads| == |trees|
    && (forall b :: 0 <= b < |heads| ==> Bucket(son, g, lo, hi, t, n, heads[b], trees[b]))
    && (forall a, b :: 0 <= a < b < |trees| ==> Nodes(trees[a]) !! Nodes(trees[b]))
  }

  // The array and the heads say which trees there are.
  lemma TreesOfArray(son: seq<nat>, g: Ring, lo: nat, hi: nat, t: seq<byte>, n: nat, heads: seq<nat>,
      trees: seq<Tree>, trees': seq<Tree>)
    requires Forest(son, g, lo, hi, t, n, heads, trees) && Forest(son, g, lo, hi, t, n, heads, trees')
    ensures trees == trees'
  {
    forall b | 0 <= b < |heads|
      ensures trees[b] == trees'[b]
    {
      assert Bucket(son, g, lo, hi, t, n, heads[b], trees[b]) && Bucket(son, g, lo, hi, t, n, heads[b], trees'[b]);
      HoldsUnique(son, g, lo, heads[b], trees[b], trees'[b]);
    }
  }

  // ---------- a shorter limit, an older window edge, a later end ----------

  lemma {:induction false} SortedShorter(tree: Tree, t: seq<byte>, n: nat, m: nat)
    requires m <= n && (forall x <- Nodes(tree) :: x + n <= |t|) && Sorted(tree, t, n)
    ensures Sorted(tree, t, m)
    decreases tree
  {
    hide Leq, Lcp;
    if tree.Node? {
      assert tree.pos in Nodes(tree) && Nodes(tree.left) <= Nodes(tree) && Nodes(tree.right) <= Nodes(tree);
      forall x | x in Nodes(tree.left)
        ensures Leq(t, x, tree.pos, m)
      {
        LeqShorter(t, x, tree.pos, n, m);
      }
      forall x | x in Nodes(tree.right)
        ensures Leq(t, tree.pos, x, m)
      {
        LeqShorter(t, tree.pos, x, n, m);
      }
      SortedShorter(tree.left, t, n, m);
      SortedShorter(tree.right, t, n, m);
    }
  }

  lemma ForestShorter(son: seq<nat>, g: Ring, lo: nat, hi: nat, t: seq<byte>, n: nat, heads: seq<nat>,
      trees: seq<Tree>, m: nat)
    requires Forest(son, g, lo, hi, t, n, heads, trees) && m <= n
    ensures Forest(son, g, lo, hi, t, m, heads, trees)
  {
    forall b | 0 <= b < |heads|
      ensures Bucket(son, g, lo, hi, t, m, heads[b], trees[b])
    {
      SortedShorter(trees[b], t, n, m);
    }
  }

  // The tree without what has left the window.
  function Prune(tree: Tree, lo: nat): Tree {
    if tree.Nil? || tree.pos <= lo then Nil else Node(tree.pos, Prune(tree.left, lo), Prune(tree.right, lo))
  }

  lemma {:induction false} PruneKeeps(son: seq<nat>, g: Ring, lo: nat, hi: nat, ref: nat, tree: Tree, lo': nat)
    requires g.size > 0 && |son| == 2 * g.size && Holds(son, g, lo, ref, tree) && Heap(tree, lo, hi) && lo <= lo'
    ensures var p := Prune(tree, lo'); Holds(son, g, lo', ref, p) && Heap(p, lo', hi) && Nodes(p) <= Nodes(tree)
    decreases tree
  {
    hide PairIx;
    if tree.Node? && tree.pos > lo' {
      var i := PairIx(g, tree.pos);
      PruneKeeps(son, g, lo, tree.pos, son[i], tree.left, lo');
      PruneKeeps(son, g, lo, tree.pos, son[i + 1], tree.right, lo');
    }
  }

  lemma {:induction false} PruneSorted(tree: Tree, t: seq<byte>, n: nat, lo: nat)
    requires (forall x <- Nodes(tree) :: x + n <= |t|) && Sorted(tree, t, n)
    ensures Nodes(Prune(tree, lo)) <= Nodes(tree) && Sorted(Prune(tree, lo), t, n)
    decreases tree
  {
    hide Leq;
    if tree.Node? && tree.pos > lo {
      assert tree.pos in Nodes(tree) && Nodes(tree.left) <= Nodes(tree) && Nodes(tree.right) <= Nodes(tree);
      PruneSorted(tree.left, t, n, lo);
      PruneSorted(tree.right, t, n, lo);
    }
  }

  function PruneAll(trees: seq<Tree>, lo: nat): (r: seq<Tree>)
    ensures |r| == |trees| && forall b :: 0 <= b < |r| ==> r[b] == Prune(trees[b], lo)
  {
    seq(|trees|, b requires 0 <= b < |trees| => Prune(trees[b], lo))
  }

  lemma BucketMoves(son: seq<nat>, g: Ring, lo: nat, hi: nat, t: seq<byte>, n: nat, head: nat, tree: Tree,
      lo': nat, hi': nat, m: nat)
    requires Bucket(son, g, lo, hi, t, n, head, tree) && lo <= lo' && hi <= hi' && m <= n
    ensures Bucket(son, g, lo', hi', t, m, head, Prune(tree, lo')) && Nodes(Prune(tree, lo')) <= Nodes(tree)
  {
    PruneKeeps(son, g, lo, hi, head, tree, lo');
    HeapWiden(Prune(tree, lo'), lo', hi, hi');
    PruneSorted(tree, t, n, lo');
    SortedShorter(Prune(tree, lo'), t, n, m);
  }

  // Moving on: the window's edge, its end and the length limit may change, the trees lose
  // what has left the window, and nothing is written.
  lemma ForestMoves(son: seq<nat>, g: Ring, lo: nat, hi: nat, t: seq<byte>, n: nat, heads: seq<nat>, trees: seq<Tree>,
      lo': nat, hi': nat, m: nat)
    requires Forest(son, g, lo, hi, t, n, heads, trees) && lo <= lo' && hi <= hi' && m <= n
    ensures Forest(son, g, lo', hi', t, m, heads, PruneAll(trees, lo'))
  {
    hide Bucket;
    var pruned := PruneAll(trees, lo');
    forall b | 0 <= b < |heads|
      ensures Bucket(son, g, lo', hi', t, m, heads[b], pruned[b]) && Nodes(pruned[b]) <= Nodes(trees[b])
    {
      BucketMoves(son, g, lo, hi, t, n, heads[b], trees[b], lo', hi', m);
    }
  }

  lemma ForestLater(son: seq<nat>, g: Ring, lo: nat, hi: nat, t: seq<byte>, n: nat, heads: seq<nat>,
      trees: seq<Tree>, hi': nat)
    requires Forest(son, g, lo, hi, t, n, heads, trees) && hi <= hi'
    ensures Forest(son, g, lo, hi', t, n, heads, trees)
  {
    forall b | 0 <= b < |heads|
      ensures Bucket(son, g, lo, hi', t, n, heads[b], trees[b])
    {
      HeapWiden(trees[b], lo, hi, hi');
    }
  }

  // ---------- inserting ----------

  lemma InsertBucket(son: seq<nat>, son': seq<nat>, g: Ring, t: seq<byte>, pos: nat, n: nat,
      cut: nat, head: nat, tree: Tree)
    requires Bucket(son, g, Floor(pos, g.size), pos, t, n, head, tree) && Inserted(son, son', g, t, pos, n, cut, tree)
    ensures var s := SplitAt(tree, t, pos, n, cut); var root := Node(pos, s.less, s.greater);
      Bucket(son', g, Floor(pos, g.size), pos + 1, t, n, pos, root) && Nodes(root) <= Nodes(tree) + {pos}
  {
    hide Lcp, Leq, PairIx, SplitAt;
    InsertKeeps(tree, t, pos, n, cut, Floor(pos, g.size));
  }

  lemma OtherBucket(son: seq<nat>, son': seq<nat>, g: Ring, t: seq<byte>, pos: nat, n: nat, cut: nat,
      tree: Tree, head: nat, other: Tree)
    requires Inserted(son, son', g, t, pos, n, cut, tree) && Nodes(tree) !! Nodes(other)
    requires Bucket(son, g, Floor(pos, g.size), pos, t, n, head, other)
    ensures Bucket(son', g, Floor(pos, g.size), pos + 1, t, n, head, other) && pos !in Nodes(other)
  {
    hide Lcp, Leq, PairIx, SplitAt;
    var lo := Floor(pos, g.size);
    HeapBounds(other, lo, pos);
    Aside(son, son', g, lo, pos, head, other, Nodes(tree), Cell(pos, 1), Cell(pos, 0));
    HeapWiden(other, lo, pos, pos + 1);
  }

  // One bucket's tree takes in the new position; the others are as they were.
  lemma ForestInsert(son: seq<nat>, son': seq<nat>, g: Ring, t: seq<byte>, pos: nat, n: nat, cut: nat, heads: seq<nat>,
      trees: seq<Tree>, h: nat)
    requires Forest(son, g, Floor(pos, g.size), pos, t, n, heads, trees) && h < |heads|
    requires Inserted(son, son', g, t, pos, n, cut, trees[h])
    ensures pos + n <= |t| && forall x <- Nodes(trees[h]) :: x + n <= |t|
    ensures var s := SplitAt(trees[h], t, pos, n, cut);
      Forest(son', g, Floor(pos, g.size), pos + 1, t, n, heads[h := pos], trees[h := Node(pos, s.less, s.greater)])
  {
    hide Bucket, SplitAt, Inserted;
    InsertedParts(son, son', g, t, pos, n, cut, trees[h]);
    var s := SplitAt(trees[h], t, pos, n, cut);
    InsertBucket(son, son', g, t, pos, n, cut, heads[h], trees[h]);
    var heads', trees' := heads[h := pos], trees[h := Node(pos, s.less, s.greater)];
    forall b | 0 <= b < |heads| && b != h
      ensures Bucket(son', g, Floor(pos, g.size), pos + 1, t, n, heads[b], trees[b]) && pos !in Nodes(trees[b])
    {
      assert Nodes(trees[h]) !! Nodes(trees[b]);
      OtherBucket(son, son', g, t, pos, n, cut, trees[h], heads[b], trees[b]);
    }
  }

  lemma InsertedParts(son: seq<nat>, son': seq<nat>, g: Ring, t: seq<byte>, pos: nat, n: nat, cut: nat, tree: Tree)
    requires Inserted(son, son', g, t, pos, n, cut, tree)
    ensures g.size > 0 && pos + n <= |t| && forall x <- Nodes(tree) :: x + n <= |t|
  {
  }

  // ---------- normalisation ----------

  // SASUB_32: subtraction that stops at the empty value.
  function SaturSub(v: nat, sub: nat): nat {
    if v < sub then 0 else v - sub
  }

  function SaturAll(a: seq<nat>, sub: nat): (r: seq<nat>)
    ensures |r| == |a| && forall i :: 0 <= i < |a| ==> r[i] == SaturSub(a[i], sub)
  {
    seq(|a|, i requires 0 <= i < |a| => SaturSub(a[i], sub))
  }

  function Shift(tree: Tree, sub: nat): Tree {
    if tree.Nil? then Nil else Node(SaturSub(tree.pos, sub), Shift(tree.left, sub), Shift(tree.right, sub))
  }

  function Turned(g: Ring, sub: nat): Ring {
    Ring(g.off + sub, g.size)
  }

  lemma {:induction false} ShiftNodes(tree: Tree, lo: nat, hi: nat, sub: nat, x: nat)
    requires Heap(tree, lo, hi) && sub <= lo
    ensures x in Nodes(Shift(tree, sub)) <==> x + sub in Nodes(tree)
    decreases tree
  {
    if tree.Node? {
      ShiftNodes(tree.left, lo, tree.pos, sub, x);
      ShiftNodes(tree.right, lo, tree.pos, sub, x);
    }
  }

  lemma {:induction false} ShiftHeap(tree: Tree, lo: nat, hi: nat, sub: nat)
    requires Heap(tree, lo, hi) && sub <= lo && sub <= hi
    ensures Heap(Shift(tree, sub), lo - sub, hi - sub)
    decreases tree
  {
    hide Nodes;
    if tree.Node? {
      ShiftHeap(tree.left, lo, tree.pos, sub);
      ShiftHeap(tree.right, lo, tree.pos, sub);
      forall x | x in Nodes(Shift(tree.left, sub)) && x in Nodes(Shift(tree.right, sub))
        ensures false
      {
        ShiftNodes(tree.left, lo, tree.pos, sub, x);
        ShiftNodes(tree.right, lo, tree.pos, sub, x);
      }
    }
  }

  lemma PairStays(g: Ring, q: nat, lo: nat)
    requires g.size > 0 && lo <= q
    ensures PairIx(Turned(g, lo), q - lo) == PairIx(g, q)
  {
  }

  // The positions are renumbered; slots, and what is in them, stay where they are.
  lemma {:induction false} ShiftHolds(son: seq<nat>, g: Ring, lo: nat, ref: nat, tree: Tree)
    requires g.size > 0 && |son| == 2 * g.size && Holds(son, g, lo, ref, tree)
    ensures Holds(SaturAll(son, lo), Turned(g, lo), 0, SaturSub(ref, lo), Shift(tree, lo))
    decreases tree
  {
    hide PairIx;
    if tree.Node? {
      var q, i := tree.pos, PairIx(g, tree.pos);
      PairStays(g, q, lo);
      ShiftHolds(son, g, lo, son[i], tree.left);
      ShiftHolds(son, g, lo, son[i + 1], tree.right);
      assert SaturAll(son, lo)[i] == SaturSub(son[i], lo) && SaturAll(son, lo)[i + 1] == SaturSub(son[i + 1], lo);
    }
  }

  // The bytes by position, renumbered.
  lemma {:induction false} LcpShift(t: seq<byte>, x: nat, y: nat, n: nat, sub: nat)
    requires sub <= x && sub <= y && x + n <= |t| && y + n <= |t|
    ensures Lcp(t[sub..], x - sub, y - sub, n) == Lcp(t, x, y, n)
    decreases n
  {
    if n > 0 && t[x] == t[y] {
      LcpShift(t, x + 1, y + 1, n - 1, sub);
    }
  }

  lemma LeqShift(t: seq<byte>, x: nat, y: nat, n: nat, sub: nat)
    requires sub <= x && sub <= y && x + n <= |t| && y + n <= |t|
    ensures Leq(t[sub..], x - sub, y - sub, n) == Leq(t, x, y, n)
  {
    LcpShift(t, x, y, n, sub);
  }

  lemma ShiftFits(tree: Tree, t: seq<byte>, n: nat, lo: nat, hi: nat)
    requires Heap(tree, lo, hi) && lo <= |t| && forall x <- Nodes(tree) :: x + n <= |t|
    ensures forall x <- Nodes(Shift(tree, lo)) :: x + n <= |t[lo..]| && x + lo in Nodes(tree)
  {
    hide Nodes, Heap;
    forall x | x in Nodes(Shift(tree, lo))
      ensures x + n <= |t[lo..]| && x + lo in Nodes(tree)
    {
      ShiftNodes(tree, lo, hi, lo, x);
    }
  }

  lemma {:induction false} ShiftSorted(tree: Tree, t: seq<byte>, n: nat, lo: nat, hi: nat)
    requires Heap(tree, lo, hi) && lo <= |t| && (forall x <- Nodes(tree) :: x + n <= |t|) && Sorted(tree, t, n)
    ensures (forall x <- Nodes(Shift(tree, lo)) :: x + n <= |t[lo..]|) && Sorted(Shift(tree, lo), t[lo..], n)
    decreases tree
  {
    hide Leq, Lcp, Nodes, Heap, Sorted;
    if tree.Nil? {
      SortedNil(t[lo..], n);
    } else {
      NodesSons(tree);
      HeapStep(tree, lo, hi);
      SortedSons(tree, t, n);
      ShiftSorted(tree.left, t, n, lo, hi);
      ShiftSorted(tree.right, t, n, lo, hi);
      ShiftedSides(tree, t, n, lo, hi);
      SortedNode(tree.pos - lo, Shift(tree.left, lo), Shift(tree.right, lo), t[lo..], n);
    }
  }

  lemma ShiftedSides(tree: Tree, t: seq<byte>, n: nat, lo: nat, hi: nat)
    requires Heap(tree, lo, hi) && tree.Node? && lo <= |t|
      && (forall x <- Nodes(tree) :: x + n <= |t|) && Sorted(tree, t, n)
    ensures lo < tree.pos && tree.pos - lo + n <= |t[lo..]|
    ensures forall x <- Nodes(Shift(tree.left, lo)) :: x + n <= |t[lo..]| && Leq(t[lo..], x, tree.pos - lo, n)
    ensures forall x <- Nodes(Shift(tree.right, lo)) :: x + n <= |t[lo..]| && Leq(t[lo..], tree.pos - lo, x, n)
  {
    hide Leq, Lcp, Nodes, Heap, Sorted, Shift;
    NodesSons(tree);
    HeapStep(tree, lo, hi);
    SortedSons(tree, t, n);
    ShiftFits(tree.left, t, n, lo, hi);
    ShiftFits(tree.right, t, n, lo, hi);
    ShiftSides(Nodes(tree.left), Nodes(Shift(tree.left, lo)), Nodes(tree.right),
               Nodes(Shift(tree.right, lo)), t, tree.pos, n, lo);
  }

  lemma ShiftSides(left: set<nat>, left2: set<nat>, right: set<nat>, right2: set<nat>, t: seq<byte>,
      p: nat, n: nat, lo: nat)
    requires lo <= p && p + n <= |t|
    requires (forall x <- left :: x + n <= |t| && Leq(t, x, p, n))
                && (forall x <- right :: x + n <= |t| && Leq(t, p, x, n))
    requires (forall x <- left2 :: x + lo in left) && (forall x <- right2 :: x + lo in right)
    ensures p - lo + n <= |t[lo..]|
    ensures forall x <- left2 :: x + n <= |t[lo..]| && Leq(t[lo..], x, p - lo, n)
    ensures forall x <- right2 :: x + n <= |t[lo..]| && Leq(t[lo..], p - lo, x, n)
  {
    hide Leq;
    forall x | x in left2
      ensures x + n <= |t[lo..]| && Leq(t[lo..], x, p - lo, n)
    {
      LeqShift(t, x + lo, p, n, lo);
    }
    forall x | x in right2
      ensures x + n <= |t[lo..]| && Leq(t[lo..], p - lo, x, n)
    {
      LeqShift(t, p, x + lo, n, lo);
    }
  }

  lemma SortedNil(t: seq<byte>, n: nat)
    ensures (forall x <- Nodes(Nil) :: x + n <= |t|) && Sorted(Nil, t, n)
  {
  }

  lemma ShiftUnfold(tree: Tree, lo: nat)
    ensures Shift(tree, lo) == if tree.Nil? then Nil
                               else Node(SaturSub(tree.pos, lo), Shift(tree.left, lo), Shift(tree.right, lo))
  {
  }

  // A renumbered tree gives the same answers, distances and lengths alike.
  lemma {:induction false} ShiftMatches(tree: Tree, t: seq<byte>, pos: nat, n: nat, cut: nat, best: nat,
      lo: nat, sub: nat)
    requires pos + n <= |t| && sub <= lo && sub <= pos && Heap(tree, lo, pos)
    requires forall x <- Nodes(tree) :: x + n <= |t| && x < pos
    ensures pos - sub + n <= |t[sub..]| && forall x <- Nodes(Shift(tree, sub)) :: x + n <= |t[sub..]| && x < pos - sub
    ensures Matches(Shift(tree, sub), t[sub..], pos - sub, n, cut, best) == Matches(tree, t, pos, n, cut, best)
    decreases tree
  {
    hide Lcp, Nodes, Heap, Here, Shift, Matches;
    ShiftUnfold(tree, sub);
    forall x | x in Nodes(Shift(tree, sub))
      ensures x + n <= |t[sub..]| && x < pos - sub
    {
      ShiftNodes(tree, lo, pos, sub, x);
    }
    if tree.Nil? || cut == 0 {
      MatchesNone(tree, t, pos, n, cut, best);
      MatchesNone(Shift(tree, sub), t[sub..], pos - sub, n, cut, best);
    } else {
      var q := tree.pos;
      HeapParts(tree, lo, pos);
      MatchesNext(tree, t, pos, n, cut, best);
      MatchesNext(Shift(tree, sub), t[sub..], pos - sub, n, cut, best);
      LcpShift(t, q, pos, n, sub);
      var k := Lcp(t, q, pos, n);
      if k < n {
        var next := if t[q + k] < t[pos + k] then tree.right else tree.left;
        ShiftMatches(next, t, pos, n, cut - 1, if best < k then k else best, lo, sub);
      }
    }
  }

  lemma MatchesNone(tree: Tree, t: seq<byte>, pos: nat, n: nat, cut: nat, best: nat)
    requires (tree.Nil? || cut == 0) && pos + n <= |t| && forall x <- Nodes(tree) :: x + n <= |t| && x < pos
    ensures Matches(tree, t, pos, n, cut, best) == []
  {
  }

  lemma BucketShift(son: seq<nat>, g: Ring, lo: nat, hi: nat, t: seq<byte>, n: nat, head: nat, tree: Tree)
    requires Bucket(son, g, lo, hi, t, n, head, tree) && lo <= hi && lo <= |t|
    ensures Bucket(SaturAll(son, lo), Turned(g, lo), 0, hi - lo, t[lo..], n, SaturSub(head, lo), Shift(tree, lo))
  {
    hide PairIx, Leq, Lcp;
    ShiftHolds(son, g, lo, head, tree);
    ShiftHeap(tree, lo, hi, lo);
    ShiftSorted(tree, t, n, lo, hi);
  }

  function ShiftAll(trees: seq<Tree>, sub: nat): (r: seq<Tree>)
    ensures |r| == |trees| && forall b :: 0 <= b < |r| ==> r[b] == Shift(trees[b], sub)
  {
    seq(|trees|, b requires 0 <= b < |trees| => Shift(trees[b], sub))
  }

  // Normalising by the window's edge: every tree is the same tree with its positions renumbered.
  lemma ForestNormalised(son: seq<nat>, g: Ring, lo: nat, hi: nat, t: seq<byte>, n: nat,
      heads: seq<nat>, trees: seq<Tree>)
    requires Forest(son, g, lo, hi, t, n, heads, trees) && lo <= hi && lo <= |t|
    ensures Forest(SaturAll(son, lo), Turned(g, lo), 0, hi - lo, t[lo..], n, SaturAll(heads, lo), ShiftAll(trees, lo))
  {
    hide Bucket, Shift;
    var son', heads', trees' := SaturAll(son, lo), SaturAll(heads, lo), ShiftAll(trees, lo);
    forall b | 0 <= b < |heads|
      ensures Bucket(son', Turned(g, lo), 0, hi - lo, t[lo..], n, heads'[b], trees'[b])
    {
      BucketShift(son, g, lo, hi, t, n, heads[b], trees[b]);
    }
    forall a, b | 0 <= a < b < |trees|
      ensures Nodes(trees'[a]) !! Nodes(trees'[b])
    {
      BucketHeap(son, g, lo, hi, t, n, heads[a], trees[a]);
      BucketHeap(son, g, lo, hi, t, n, heads[b], trees[b]);
      forall x | x in Nodes(trees'[a]) && x in Nodes(trees'[b])
        ensures false
      {
        ShiftNodes(trees[a], lo, hi, lo, x);
        ShiftNodes(trees[b], lo, hi, lo, x);
      }
    }
  }

  lemma BucketHeap(son: seq<nat>, g: Ring, lo: nat, hi: nat, t: seq<byte>, n: nat, head: nat, tree: Tree)
    requires Bucket(son, g, lo, hi, t, n, head, tree)
    ensures Heap(tree, lo, hi)
  {
  }

  // MatchFinder_Normalize3 over one array, whatever blocks it is taken in.
  method Normalize3(subValue: nat, items: array<nat>)
    modifies items
    ensures items[..] == SaturAll(old(items[..]), subValue)
  {
    for i := 0 to items.Length
      invariant forall j :: 0 <= j < i ==> items[j] == SaturSub(old(items[j]), subValue)
      invariant forall j :: i <= j < items.Length ==> items[j] == old(items[j])
    {
      var v := items[i];
      if v < subValue {
        v := subValue;
      }
      items[i] := v - subValue;
    }
  }
}
