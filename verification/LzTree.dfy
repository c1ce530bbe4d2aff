// The binary search trees of LzFind.c on values: positions ordered by the bytes that start
// there, newest position at the root. Inserting a position splits the tree around it.
module LzTree {
  import opened Words

  // ---------- strings cut off at n bytes ----------

  // How many of the n bytes at x and at y agree before the first that does not.
  function Lcp(t: seq<byte>, x: nat, y: nat, n: nat): (r: nat)
    requires x + n <= |t| && y + n <= |t|
    ensures r <= n
    decreases n
  {
    if n == 0 || t[x] != t[y] then 0 else 1 + Lcp(t, x + 1, y + 1, n - 1)
  }

  // The byte i after x.
  function At(t: seq<byte>, x: nat, i: nat): byte {
    if x + i < |t| then t[x + i] else 0
  }

  // The first k bytes agree, and the next does not unless the strings end there.
  ghost predicate IsLcp(t: seq<byte>, x: nat, y: nat, n: nat, k: nat) {
    && k <= n && (forall i :: 0 <= i < k ==> At(t, x, i) == At(t, y, i))
    && (k < n ==> At(t, x, k) != At(t, y, k))
  }

  lemma {:induction false} LcpIs(t: seq<byte>, x: nat, y: nat, n: nat)
    requires x + n <= |t| && y + n <= |t|
    ensures IsLcp(t, x, y, n, Lcp(t, x, y, n))
    decreases n
  {
    if n > 0 && t[x] == t[y] {
      LcpIs(t, x + 1, y + 1, n - 1);
      var k := Lcp(t, x + 1, y + 1, n - 1);
      forall i | 0 <= i < k + 1
        ensures At(t, x, i) == At(t, y, i)
      {
        if i > 0 {
          assert At(t, x + 1, i - 1) == At(t, y + 1, i - 1);
        }
      }
      assert k < n - 1 ==> At(t, x + 1, k) != At(t, y + 1, k);
    }
  }

  lemma SameBefore(t: seq<byte>, x: nat, y: nat, n: nat, k: nat, i: nat)
    requires IsLcp(t, x, y, n, k) && i < k
    ensures At(t, x, i) == At(t, y, i)
  {
  }

  lemma LcpEnds(t: seq<byte>, x: nat, y: nat, n: nat, k: nat)
    requires IsLcp(t, x, y, n, k)
    ensures k <= n && (k < n ==> At(t, x, k) != At(t, y, k))
  {
  }

  lemma LcpUnique(t: seq<byte>, x: nat, y: nat, n: nat, k: nat)
    requires x + n <= |t| && y + n <= |t| && IsLcp(t, x, y, n, k)
    ensures Lcp(t, x, y, n) == k
  {
    hide Lcp, IsLcp;
    LcpIs(t, x, y, n);
    var j := Lcp(t, x, y, n);
    LcpEnds(t, x, y, n, j);
    LcpEnds(t, x, y, n, k);
    if j < k {
      SameBefore(t, x, y, n, k, j);
    } else if k < j {
      SameBefore(t, x, y, n, j, k);
    }
  }

  // The string at x is not after the string at y.
  predicate Leq(t: seq<byte>, x: nat, y: nat, n: nat)
    requires x + n <= |t| && y + n <= |t|
  {
    var k := Lcp(t, x, y, n);
    k == n || t[x + k] < t[y + k]
  }

  lemma LcpSym(t: seq<byte>, x: nat, y: nat, n: nat)
    requires x + n <= |t| && y + n <= |t|
    ensures Lcp(t, x, y, n) == Lcp(t, y, x, n)
  {
    LcpIs(t, y, x, n);
    LcpUnique(t, x, y, n, Lcp(t, y, x, n));
  }

  lemma LeqTrans(t: seq<byte>, x: nat, y: nat, z: nat, n: nat)
    requires x + n <= |t| && y + n <= |t| && z + n <= |t| && Leq(t, x, y, n) && Leq(t, y, z, n)
    ensures Leq(t, x, z, n)
  {
    hide Lcp;
    LcpIs(t, x, y, n);
    LcpIs(t, y, z, n);
    var a, b := Lcp(t, x, y, n), Lcp(t, y, z, n);
    var k := if a < b then a else b;
    assert IsLcp(t, x, z, n, k);
    LcpUnique(t, x, z, n, k);
  }

  // Between two strings that share m bytes with z, every string shares them.
  lemma Squeeze(t: seq<byte>, a: nat, x: nat, b: nat, z: nat, m: nat, n: nat)
    requires a + n <= |t| && x + n <= |t| && b + n <= |t| && z + n <= |t|
    requires Leq(t, a, x, n) && Leq(t, x, b, n) && m <= Lcp(t, a, z, n) && m <= Lcp(t, b, z, n)
    ensures m <= Lcp(t, x, z, n)
  {
    hide Lcp;
    LcpIs(t, a, z, n);
    LcpIs(t, b, z, n);
    LcpIs(t, x, z, n);
    var k := Lcp(t, x, z, n);
    if k < m {
      assert IsLcp(t, a, x, n, k);
      LcpUnique(t, a, x, n, k);
      assert IsLcp(t, x, b, n, k);
      LcpUnique(t, x, b, n, k);
    }
  }

  // A string on the far side of y from z shares no more with z than y does.
  lemma Beyond(t: seq<byte>, x: nat, y: nat, z: nat, n: nat)
    requires x + n <= |t| && y + n <= |t| && z + n <= |t|
    requires (Leq(t, x, y, n) && Leq(t, y, z, n)) || (Leq(t, z, y, n) && Leq(t, y, x, n))
    ensures Lcp(t, x, z, n) <= Lcp(t, y, z, n)
  {
    hide Lcp, IsLcp;
    LcpSym(t, z, y, n);
    LcpSym(t, y, x, n);
    LcpIs(t, x, y, n);
    LcpIs(t, y, z, n);
    LcpIs(t, x, z, n);
    var k := Lcp(t, y, z, n);
    var l := Lcp(t, x, z, n);
    if k < l {
      var a := Lcp(t, x, y, n);
      LcpEnds(t, x, y, n, a);
      LcpEnds(t, y, z, n, k);
      LcpEnds(t, x, z, n, l);
      SameBefore(t, x, z, n, l, k);
      if a > k {
        SameBefore(t, x, y, n, a, k);
      } else if a < k {
        SameBefore(t, x, z, n, l, a);
        SameBefore(t, y, z, n, k, a);
      }
    }
  }

  // Cut off earlier, strings stay in order.
  lemma LeqShorter(t: seq<byte>, x: nat, y: nat, n: nat, m: nat)
    requires x + n <= |t| && y + n <= |t| && m <= n && Leq(t, x, y, n)
    ensures Leq(t, x, y, m)
  {
    LcpIs(t, x, y, n);
    var k := Lcp(t, x, y, n);
    hide Lcp;
    LcpUnique(t, x, y, m, if k < m then k else m);
  }

  // ---------- trees ----------

  datatype Tree = Nil | Node(pos: nat, left: Tree, right: Tree)

  function Nodes(tree: Tree): set<nat> {
    if tree.Nil? then {} else {tree.pos} + Nodes(tree.left) + Nodes(tree.right)
  }

  lemma NodesSons(tree: Tree)
    ensures tree.Node?
      ==> tree.pos in Nodes(tree) && Nodes(tree.left) <= Nodes(tree) && Nodes(tree.right) <= Nodes(tree)
  {
  }

  // Newest at the root, nothing older than the window, no position twice.
  ghost predicate Heap(tree: Tree, lo: nat, hi: nat)
    decreases tree
  {
    tree.Node? ==>
      && lo < tree.pos < hi
      && Heap(tree.left, lo, tree.pos) && Heap(tree.right, lo, tree.pos)
      && Nodes(tree.left) !! Nodes(tree.right)
  }

  // Every node's left side is not after it and its right side not before it.
  ghost predicate Sorted(tree: Tree, t: seq<byte>, n: nat)
    requires forall x <- Nodes(tree) :: x + n <= |t|
    decreases tree
  {
    NodesSons(tree);
    tree.Node? ==>
      && (forall x <- Nodes(tree.left) :: Leq(t, x, tree.pos, n))
      && (forall x <- Nodes(tree.right) :: Leq(t, tree.pos, x, n))
      && Sorted(tree.left, t, n) && Sorted(tree.right, t, n)
  }

  lemma {:induction false} HeapBounds(tree: Tree, lo: nat, hi: nat)
    requires Heap(tree, lo, hi)
    ensures forall x <- Nodes(tree) :: lo < x < hi
    decreases tree
  {
    if tree.Node? {
      HeapBounds(tree.left, lo, tree.pos);
      HeapBounds(tree.right, lo, tree.pos);
    }
  }

  lemma {:induction false} HeapWiden(tree: Tree, lo: nat, hi: nat, hi': nat)
    requires Heap(tree, lo, hi) && hi <= hi'
    ensures Heap(tree, lo, hi')
    decreases tree
  {
  }

  // ---------- splitting a tree around a new position ----------

  datatype Split = Split(less: Tree, greater: Tree)

  // The walk of GetMatchesSpec1 and SkipMatchesSpec: at most cut nodes are looked at and what
  // is below the last of them is dropped; a node equal to the new string is replaced by it.
  function SplitAt(tree: Tree, t: seq<byte>, pos: nat, n: nat, cut: nat): Split
    requires pos + n <= |t| && forall x <- Nodes(tree) :: x + n <= |t|
    decreases tree
  {
    NodesSons(tree);
    if tree.Nil? || cut == 0 then Split(Nil, Nil) else
      var q := tree.pos;
      var k := Lcp(t, q, pos, n);
      if k == n then Split(tree.left, tree.right)
      else if t[q + k] < t[pos + k] then
        var s := SplitAt(tree.right, t, pos, n, cut - 1);
        Split(Node(q, tree.left, s.less), s.greater)
      else
        var s := SplitAt(tree.left, t, pos, n, cut - 1);
        Split(s.less, Node(q, s.greater, tree.right))
  }

  // What is left is part of the tree, and in the right order.
  lemma {:induction false} SplitNodes(tree: Tree, t: seq<byte>, pos: nat, n: nat, cut: nat)
    requires pos + n <= |t| && forall x <- Nodes(tree) :: x + n <= |t|
    ensures var s := SplitAt(tree, t, pos, n, cut); Nodes(s.less) <= Nodes(tree) && Nodes(s.greater) <= Nodes(tree)
    decreases tree
  {
    if tree.Node? && cut > 0 {
      assert Nodes(tree.left) <= Nodes(tree) && Nodes(tree.right) <= Nodes(tree);
      SplitNodes(tree.left, t, pos, n, cut - 1);
      SplitNodes(tree.right, t, pos, n, cut - 1);
    }
  }

  lemma {:induction false} SplitHeap(tree: Tree, t: seq<byte>, pos: nat, n: nat, cut: nat, lo: nat, hi: nat)
    requires pos + n <= |t| && (forall x <- Nodes(tree) :: x + n <= |t|) && Heap(tree, lo, hi)
    ensures var s := SplitAt(tree, t, pos, n, cut);
      Heap(s.less, lo, hi) && Heap(s.greater, lo, hi) && Nodes(s.less) !! Nodes(s.greater)
    decreases tree
  {
    hide Lcp;
    if tree.Node? && cut > 0 {
      var q := tree.pos;
      assert Nodes(tree.left) <= Nodes(tree) && Nodes(tree.right) <= Nodes(tree);
      HeapBounds(tree.left, lo, q);
      HeapBounds(tree.right, lo, q);
      SplitHeap(tree.left, t, pos, n, cut - 1, lo, q);
      SplitHeap(tree.right, t, pos, n, cut - 1, lo, q);
      SplitNodes(tree.left, t, pos, n, cut - 1);
      SplitNodes(tree.right, t, pos, n, cut - 1);
      HeapWiden(tree.left, lo, q, hi);
      HeapWiden(tree.right, lo, q, hi);
      var sl, sr := SplitAt(tree.left, t, pos, n, cut - 1), SplitAt(tree.right, t, pos, n, cut - 1);
      HeapWiden(sl.less, lo, q, hi);
      HeapWiden(sr.greater, lo, q, hi);
    }
  }

  lemma {:induction false} SplitSorted(tree: Tree, t: seq<byte>, pos: nat, n: nat, cut: nat)
    requires pos + n <= |t| && (forall x <- Nodes(tree) :: x + n <= |t|) && Sorted(tree, t, n)
    ensures var s := SplitAt(tree, t, pos, n, cut);
      && Nodes(s.less) <= Nodes(tree) && Nodes(s.greater) <= Nodes(tree)
      && Sorted(s.less, t, n) && Sorted(s.greater, t, n)
      && (forall x <- Nodes(s.less) :: Leq(t, x, pos, n)) && (forall x <- Nodes(s.greater) :: Leq(t, pos, x, n))
    decreases tree
  {
    hide Lcp, Leq;
    if tree.Node? && cut > 0 {
      var q := tree.pos;
      NodesSons(tree);
      var k := Lcp(t, q, pos, n);
      Compared(t, q, pos, n);
      if k == n {
        AllLeq(tree.left, t, q, pos, n);
        AllGeq(tree.right, t, q, pos, n);
      } else if t[q + k] < t[pos + k] {
        AllLeq(tree.left, t, q, pos, n);
        SplitSorted(tree.right, t, pos, n, cut - 1);
      } else {
        AllGeq(tree.right, t, q, pos, n);
        SplitSorted(tree.left, t, pos, n, cut - 1);
      }
    }
  }

  lemma AllLeq(tree: Tree, t: seq<byte>, q: nat, pos: nat, n: nat)
    requires pos + n <= |t| && q + n <= |t| && Leq(t, q, pos, n)
    requires forall x <- Nodes(tree) :: x + n <= |t| && Leq(t, x, q, n)
    ensures forall x <- Nodes(tree) :: Leq(t, x, pos, n)
  {
    forall x | x in Nodes(tree)
      ensures Leq(t, x, pos, n)
    {
      LeqTrans(t, x, q, pos, n);
    }
  }

  lemma AllGeq(tree: Tree, t: seq<byte>, q: nat, pos: nat, n: nat)
    requires pos + n <= |t| && q + n <= |t| && Leq(t, pos, q, n)
    requires forall x <- Nodes(tree) :: x + n <= |t| && Leq(t, q, x, n)
    ensures forall x <- Nodes(tree) :: Leq(t, pos, x, n)
  {
    forall x | x in Nodes(tree)
      ensures Leq(t, pos, x, n)
    {
      LeqTrans(t, pos, q, x, n);
    }
  }

  // What the walk's comparison decides.
  lemma Compared(t: seq<byte>, q: nat, pos: nat, n: nat)
    requires q + n <= |t| && pos + n <= |t|
    ensures var k := Lcp(t, q, pos, n);
      if k == n then Leq(t, q, pos, n) && Leq(t, pos, q, n)
      else t[q + k] != t[pos + k] && (Leq(t, q, pos, n) <==> t[q + k] < t[pos + k])
           && (Leq(t, pos, q, n) <==> t[q + k] > t[pos + k])
  {
    LcpSym(t, q, pos, n);
    LcpIs(t, q, pos, n);
  }

  // Inserting a position, all told: a sorted heap again, with the new position at its root.
  lemma InsertKeeps(tree: Tree, t: seq<byte>, pos: nat, n: nat, cut: nat, lo: nat)
    requires pos + n <= |t| && lo < pos && Heap(tree, lo, pos)
    ensures forall x <- Nodes(tree) :: x + n <= |t|
    ensures var s := SplitAt(tree, t, pos, n, cut); var new_ := Node(pos, s.less, s.greater);
      && Heap(new_, lo, pos + 1) && Nodes(new_) <= Nodes(tree) + {pos}
      && (Sorted(tree, t, n) ==> Sorted(new_, t, n))
  {
    HeapBounds(tree, lo, pos);
    SplitHeap(tree, t, pos, n, cut, lo, pos);
    SplitNodes(tree, t, pos, n, cut);
    if Sorted(tree, t, n) {
      SplitSorted(tree, t, pos, n, cut);
    }
  }

  function Height(tree: Tree): nat {
    if tree.Nil? then 0 else
      1 + (if Height(tree.left) < Height(tree.right) then Height(tree.right) else Height(tree.left))
  }

  // The positions of tree that are not in the split any more.
  function Lost(tree: Tree, s: Split): set<nat> {
    Nodes(tree) - (Nodes(s.less) + Nodes(s.greater))
  }

  // Unless the walk is cut short an insertion loses one position at most, and only one that is equal to the
  // new one on n bytes.
  lemma {:induction false} SplitLoses(tree: Tree, t: seq<byte>, pos: nat, n: nat, cut: nat, x: nat, y: nat)
    requires pos + n <= |t| && (forall x <- Nodes(tree) :: x + n <= |t|) && Height(tree) <= cut
    requires var lost := Lost(tree, SplitAt(tree, t, pos, n, cut)); x in lost && y in lost
    ensures x == y && Lcp(t, x, pos, n) == n
    decreases tree
  {
    hide Lcp, Height;
    NodeOf(tree, x);
    NodeOf(tree, y);
    NodesSons(tree);
    HeightSons(tree);
    HeightNil(tree);
    var k := Lcp(t, tree.pos, pos, n);
    if k < n {
      var next := if t[tree.pos + k] < t[pos + k] then tree.right else tree.left;
      SplitLoses(next, t, pos, n, cut - 1, x, y);
    }
  }

  lemma HeightNil(tree: Tree)
    ensures Height(tree) == 0 <==> tree.Nil?
  {
  }

  // It does lose one if there is an equal one.
  lemma {:induction false} SplitFinds(tree: Tree, t: seq<byte>, pos: nat, n: nat, cut: nat, lo: nat, hi: nat, x: nat)
    requires pos + n <= |t| && (forall x <- Nodes(tree) :: x + n <= |t|) && Height(tree) <= cut
    requires Heap(tree, lo, hi) && Sorted(tree, t, n) && x in Nodes(tree) && Lcp(t, x, pos, n) == n
    ensures Lost(tree, SplitAt(tree, t, pos, n, cut)) != {}
    decreases tree
  {
    hide Lcp, Leq, Height, Sorted, SplitAt, Nodes, Heap, Lost;
    NodeOf(tree, x);
    NodesSons(tree);
    HeightSons(tree);
    HeightNil(tree);
    SortedSons(tree, t, n);
    HeapSons(tree, lo, hi);
    var q := tree.pos;
    var k := Lcp(t, q, pos, n);
    Compared(t, q, pos, n);
    if k < n {
      var right := t[q + k] < t[pos + k];
      var next := if right then tree.right else tree.left;
      if x != q && x !in Nodes(next) {
        Beyond(t, x, q, pos, n);
      }
      SplitFinds(next, t, pos, n, cut - 1, lo, q, x);
      var z :| z in Lost(next, SplitAt(next, t, pos, n, cut - 1));
      LostStep(tree, t, pos, n, cut, lo, hi, z);
    } else {
      LostHere(tree, t, pos, n, cut, lo, hi);
    }
  }

  lemma LostStep(tree: Tree, t: seq<byte>, pos: nat, n: nat, cut: nat, lo: nat, hi: nat, z: nat)
    requires tree.Node? && pos + n <= |t| && (forall x <- Nodes(tree) :: x + n <= |t|) && Heap(tree, lo, hi) && cut > 0
    requires tree.pos in Nodes(tree) && Nodes(tree.left) <= Nodes(tree) && Nodes(tree.right) <= Nodes(tree)
    requires var k := Lcp(t, tree.pos, pos, n);
      && k < n
      && var next := if t[tree.pos + k] < t[pos + k] then tree.right else tree.left;
        z in Lost(next, SplitAt(next, t, pos, n, cut - 1))
    ensures z in Lost(tree, SplitAt(tree, t, pos, n, cut))
  {
    hide Lcp;
    HeapBounds(tree.left, lo, tree.pos);
    HeapBounds(tree.right, lo, tree.pos);
  }

  lemma LostHere(tree: Tree, t: seq<byte>, pos: nat, n: nat, cut: nat, lo: nat, hi: nat)
    requires tree.Node? && pos + n <= |t| && (forall x <- Nodes(tree) :: x + n <= |t|) && Heap(tree, lo, hi) && cut > 0
    requires tree.pos in Nodes(tree) && Lcp(t, tree.pos, pos, n) == n
    ensures tree.pos in Lost(tree, SplitAt(tree, t, pos, n, cut))
  {
    hide Lcp;
    HeapBounds(tree.left, lo, tree.pos);
    HeapBounds(tree.right, lo, tree.pos);
  }

  // ---------- the matches reported on the way ----------

  datatype Found = Found(len: nat, dist: nat)

  // What GetMatchesSpec1 writes: each node on the walk that beats the best length so far.
  function Matches(tree: Tree, t: seq<byte>, pos: nat, n: nat, cut: nat, best: nat): seq<Found>
    requires pos + n <= |t| && forall x <- Nodes(tree) :: x + n <= |t| && x < pos
    decreases tree
  {
    if tree.Nil? || cut == 0 then [] else
      var q := tree.pos;
      var k := Lcp(t, q, pos, n);
      var here := Here(k, pos - q - 1, best);
      var best' := if best < k then k else best;
      if k == n then here
      else if t[q + k] < t[pos + k] then here + Matches(tree.right, t, pos, n, cut - 1, best')
      else here + Matches(tree.left, t, pos, n, cut - 1, best')
  }

  lemma MatchesNext(tree: Tree, t: seq<byte>, pos: nat, n: nat, cut: nat, best: nat)
    requires tree.Node? && cut > 0 && pos + n <= |t| && forall x <- Nodes(tree) :: x + n <= |t| && x < pos
    ensures tree.pos + n <= |t| && tree.pos < pos
    ensures (forall x <- Nodes(tree.left) :: x + n <= |t| && x < pos)
               && forall x <- Nodes(tree.right) :: x + n <= |t| && x < pos
    ensures var q := tree.pos; var k := Lcp(t, q, pos, n); var best' := if best < k then k else best;
      var here, next := Here(k, pos - q - 1, best), if k < n && t[q + k] < t[pos + k] then tree.right else tree.left;
      Matches(tree, t, pos, n, cut, best) == if k == n then here else here + Matches(next, t, pos, n, cut - 1, best')
  {
    hide Lcp;
    assert tree.pos in Nodes(tree) && Nodes(tree.left) <= Nodes(tree) && Nodes(tree.right) <= Nodes(tree);
  }

  // The longest length reported, or the one to beat.
  function Best(found: seq<Found>, best: nat): nat {
    if found == [] then best else found[|found| - 1].len
  }

  // A match with distance dist (counted from 0) and length len: in the window, true, and not cut short.
  ghost predicate TrueMatch(t: seq<byte>, pos: nat, n: nat, lo: nat, f: Found) {
    && f.dist < pos && lo < pos - f.dist - 1 && f.len <= n
    && (forall i :: 0 <= i < f.len ==> At(t, pos - f.dist - 1, i) == At(t, pos, i))
    && (f.len < n ==> At(t, pos - f.dist - 1, f.len) != At(t, pos, f.len))
  }

  ghost predicate Increasing(found: seq<Found>, best: nat) {
    && (forall i :: 0 <= i < |found| ==> found[i].len > best)
    && (forall i, j :: 0 <= i < j < |found| ==> found[i].len < found[j].len)
  }

  ghost predicate GoodMatches(found: seq<Found>, best: nat, t: seq<byte>, pos: nat, n: nat, lo: nat) {
    Increasing(found, best) && forall i :: 0 <= i < |found| ==> TrueMatch(t, pos, n, lo, found[i])
  }

  // Every reported pair is a true match in the window, and each is longer than the last.
  lemma {:induction false} MatchesTrue(tree: Tree, t: seq<byte>, pos: nat, n: nat, cut: nat, best: nat, lo: nat)
    requires pos + n <= |t| && Heap(tree, lo, pos)
    requires forall x <- Nodes(tree) :: x + n <= |t| && x < pos
    ensures GoodMatches(Matches(tree, t, pos, n, cut, best), best, t, pos, n, lo)
    decreases tree
  {
    hide Lcp, GoodMatches, Heap, Nodes, Here;
    if tree.Nil? || cut == 0 {
      NoMatches(best, t, pos, n, lo);
    } else {
      var q := tree.pos;
      HeapParts(tree, lo, pos);
      var k := Lcp(t, q, pos, n);
      var best' := if best < k then k else best;
      if k == n {
        NoMatches(best', t, pos, n, lo);
        MatchesCons(best, [], t, q, pos, n, lo);
      } else {
        var next := if t[q + k] < t[pos + k] then tree.right else tree.left;
        MatchesTrue(next, t, pos, n, cut - 1, best', lo);
        MatchesCons(best, Matches(next, t, pos, n, cut - 1, best'), t, q, pos, n, lo);
      }
    }
  }

  lemma HeapParts(tree: Tree, lo: nat, hi: nat)
    requires Heap(tree, lo, hi) && tree.Node?
    ensures lo < tree.pos < hi && Heap(tree.left, lo, hi) && Heap(tree.right, lo, hi)
    ensures tree.pos in Nodes(tree) && Nodes(tree.left) <= Nodes(tree) && Nodes(tree.right) <= Nodes(tree)
  {
    HeapWiden(tree.left, lo, tree.pos, hi);
    HeapWiden(tree.right, lo, tree.pos, hi);
  }

  lemma NoMatches(best: nat, t: seq<byte>, pos: nat, n: nat, lo: nat)
    ensures GoodMatches([], best, t, pos, n, lo)
  {
  }

  function Here(k: nat, dist: nat, best: nat): seq<Found> {
    if best < k then [Found(k, dist)] else []
  }

  lemma MatchesCons(best: nat, rest: seq<Found>, t: seq<byte>, q: nat, pos: nat, n: nat, lo: nat)
    requires q + n <= |t| && pos + n <= |t| && lo < q < pos
    requires var k := Lcp(t, q, pos, n); GoodMatches(rest, if best < k then k else best, t, pos, n, lo)
    ensures GoodMatches(Here(Lcp(t, q, pos, n), pos - q - 1, best) + rest, best, t, pos, n, lo)
    ensures Here(Lcp(t, q, pos, n), pos - q - 1, best) + [] == Here(Lcp(t, q, pos, n), pos - q - 1, best)
  {
    hide Lcp;
    LcpIs(t, q, pos, n);
  }

  // A reported pair is at least as long as the match at x and at least as near.
  ghost predicate Covered(found: seq<Found>, t: seq<byte>, pos: nat, n: nat, x: nat)
    requires x < pos && pos + n <= |t|
  {
    exists i :: 0 <= i < |found| && found[i].len >= Lcp(t, x, pos, n) && found[i].dist <= pos - x - 1
  }

  lemma CoveredMore(a: seq<Found>, b: seq<Found>, t: seq<byte>, pos: nat, n: nat, x: nat)
    requires x < pos && pos + n <= |t| && (Covered(a, t, pos, n, x) || Covered(b, t, pos, n, x))
    ensures Covered(a + b, t, pos, n, x)
  {
    hide Lcp;
    var k := Lcp(t, x, pos, n);
    if Covered(a, t, pos, n, x) {
      var i :| 0 <= i < |a| && a[i].len >= k && a[i].dist <= pos - x - 1;
      assert (a + b)[i] == a[i];
    } else {
      var i :| 0 <= i < |b| && b[i].len >= k && b[i].dist <= pos - x - 1;
      assert (a + b)[|a| + i] == b[i];
    }
  }

  // Unless the walk is cut short, nothing in the tree is left uncovered that beats the best so far.
  lemma {:induction false} MatchesCover(tree: Tree, t: seq<byte>, pos: nat, n: nat, cut: nat, best: nat,
      lo: nat, hi: nat, x: nat)
    requires pos + n <= |t| && (forall x <- Nodes(tree) :: x + n <= |t| && x < pos) && Sorted(tree, t, n)
    requires Heap(tree, lo, hi) && Height(tree) <= cut && x in Nodes(tree) && best < Lcp(t, x, pos, n)
    ensures Covered(Matches(tree, t, pos, n, cut, best), t, pos, n, x)
    decreases tree
  {
    hide Lcp, Leq, Matches, Nodes, Height, Sorted, Heap, Covered;
    NodesSons(tree);
    NodeOf(tree, x);
    HeightSons(tree);
    SortedSons(tree, t, n);
    HeapSons(tree, lo, hi);
    MatchesNext(tree, t, pos, n, cut, best);
    var q := tree.pos;
    var k := Lcp(t, q, pos, n);
    var best' := if best < k then k else best;
    var here, next := Here(k, pos - q - 1, best), if k < n && t[q + k] < t[pos + k] then tree.right else tree.left;
    Compared(t, q, pos, n);
    LcpAtMost(t, x, pos, n);
    if k < n && x != q && x !in Nodes(next) {
      Beyond(t, x, q, pos, n);
    }
    if Lcp(t, x, pos, n) <= k {
      HereCovers(t, pos, n, q, best, x);
      CoveredMore(here, if k == n then [] else Matches(next, t, pos, n, cut - 1, best'), t, pos, n, x);
      assert here + [] == here;
    } else {
      MatchesCover(next, t, pos, n, cut - 1, best', lo, q, x);
      CoveredMore(here, Matches(next, t, pos, n, cut - 1, best'), t, pos, n, x);
    }
  }

  lemma HereCovers(t: seq<byte>, pos: nat, n: nat, q: nat, best: nat, x: nat)
    requires x <= q < pos && pos + n <= |t| && best < Lcp(t, x, pos, n) <= Lcp(t, q, pos, n)
    ensures Covered(Here(Lcp(t, q, pos, n), pos - q - 1, best), t, pos, n, x)
  {
    hide Lcp;
    var here := Here(Lcp(t, q, pos, n), pos - q - 1, best);
    assert here[0].dist <= pos - x - 1;
  }

  lemma HeapSons(tree: Tree, lo: nat, hi: nat)
    requires Heap(tree, lo, hi) && tree.Node?
    ensures Heap(tree.left, lo, tree.pos) && Heap(tree.right, lo, tree.pos)
    ensures forall x <- Nodes(tree) :: x <= tree.pos
  {
    HeapBounds(tree.left, lo, tree.pos);
    HeapBounds(tree.right, lo, tree.pos);
  }

  // The positions in a window bound the height of its tree.
  lemma {:induction false} HeightBound(tree: Tree, lo: nat, hi: nat)
    requires Heap(tree, lo, hi) && lo < hi
    ensures Height(tree) < hi - lo
    decreases tree
  {
    if tree.Node? {
      HeightBound(tree.left, lo, tree.pos);
      HeightBound(tree.right, lo, tree.pos);
    }
  }

  // A walk looks at no more than cut nodes.
  lemma {:induction false} MatchesFew(tree: Tree, t: seq<byte>, pos: nat, n: nat, cut: nat, best: nat)
    requires pos + n <= |t| && forall x <- Nodes(tree) :: x + n <= |t| && x < pos
    ensures |Matches(tree, t, pos, n, cut, best)| <= cut
    decreases tree
  {
    hide Lcp, Matches, Nodes;
    if tree.Node? && cut > 0 {
      MatchesNext(tree, t, pos, n, cut, best);
      var k := Lcp(t, tree.pos, pos, n);
      var next := if k < n && t[tree.pos + k] < t[pos + k] then tree.right else tree.left;
      MatchesFew(next, t, pos, n, cut - 1, if best < k then k else best);
    } else {
      MatchesNone(tree, t, pos, n, cut, best);
    }
  }

  lemma MatchesNone(tree: Tree, t: seq<byte>, pos: nat, n: nat, cut: nat, best: nat)
    requires pos + n <= |t| && (forall x <- Nodes(tree) :: x + n <= |t| && x < pos) && (tree.Nil? || cut == 0)
    ensures Matches(tree, t, pos, n, cut, best) == []
  {
  }

  // Unless the walk is cut short, no position of the tree matches longer than the best reported.
  lemma {:induction false} MatchesBest(tree: Tree, t: seq<byte>, pos: nat, n: nat, cut: nat, best: nat, x: nat)
    requires pos + n <= |t| && (forall x <- Nodes(tree) :: x + n <= |t| && x < pos) && Sorted(tree, t, n)
    requires Height(tree) <= cut && x in Nodes(tree)
    ensures Lcp(t, x, pos, n) <= Best(Matches(tree, t, pos, n, cut, best), best)
    ensures best <= Best(Matches(tree, t, pos, n, cut, best), best)
    decreases tree
  {
    hide Lcp, Leq, Best, Matches, Nodes, Height, Sorted, Here;
    NodesSons(tree);
    NodeOf(tree, x);
    HeightSons(tree);
    SortedSons(tree, t, n);
    MatchesNext(tree, t, pos, n, cut, best);
    var q := tree.pos;
    var k := Lcp(t, q, pos, n);
    var best' := if best < k then k else best;
    BestCons(best, k, pos - q - 1, []);
    BestNone(best');
    Compared(t, q, pos, n);
    if k < n {
      var next := if t[q + k] < t[pos + k] then tree.right else tree.left;
      BestGrows(next, t, pos, n, cut - 1, best');
      BestCons(best, k, pos - q - 1, Matches(next, t, pos, n, cut - 1, best'));
      if x in Nodes(next) {
        MatchesBest(next, t, pos, n, cut - 1, best', x);
      } else if x != q {
        Beyond(t, x, q, pos, n);
      }
    } else {
      LcpAtMost(t, x, pos, n);
    }
  }

  lemma LcpAtMost(t: seq<byte>, x: nat, y: nat, n: nat)
    requires x + n <= |t| && y + n <= |t|
    ensures Lcp(t, x, y, n) <= n
  {
  }

  lemma NodeOf(tree: Tree, x: nat)
    requires x in Nodes(tree)
    ensures tree.Node? && (x == tree.pos || x in Nodes(tree.left) || x in Nodes(tree.right))
  {
  }

  lemma HeightSons(tree: Tree)
    ensures tree.Node? ==> Height(tree.left) < Height(tree) && Height(tree.right) < Height(tree)
  {
  }

  lemma SortedSons(tree: Tree, t: seq<byte>, n: nat)
    requires tree.Node? && (forall x <- Nodes(tree) :: x + n <= |t|) && Sorted(tree, t, n)
    ensures tree.pos + n <= |t|
    ensures forall x <- Nodes(tree.left) :: x + n <= |t| && Leq(t, x, tree.pos, n)
    ensures forall x <- Nodes(tree.right) :: x + n <= |t| && Leq(t, tree.pos, x, n)
    ensures Sorted(tree.left, t, n) && Sorted(tree.right, t, n)
  {
    hide Leq, Nodes;
    NodesSons(tree);
  }

  lemma SortedNode(q: nat, left: Tree, right: Tree, t: seq<byte>, n: nat)
    requires q + n <= |t| && (forall x <- Nodes(left) :: x + n <= |t|) && (forall x <- Nodes(right) :: x + n <= |t|)
    requires (forall x <- Nodes(left) :: Leq(t, x, q, n)) && (forall x <- Nodes(right) :: Leq(t, q, x, n))
    requires Sorted(left, t, n) && Sorted(right, t, n)
    ensures (forall x <- Nodes(Node(q, left, right)) :: x + n <= |t|) && Sorted(Node(q, left, right), t, n)
  {
    hide Leq;
  }

  lemma BestCons(best: nat, k: nat, dist: nat, rest: seq<Found>)
    ensures Best(Here(k, dist, best) + rest, best) == Best(rest, if best < k then k else best)
    ensures Here(k, dist, best) + [] == Here(k, dist, best)
  {
  }

  lemma {:induction false} BestGrows(tree: Tree, t: seq<byte>, pos: nat, n: nat, cut: nat, best: nat)
    requires pos + n <= |t| && forall x <- Nodes(tree) :: x + n <= |t| && x < pos
    ensures best <= Best(Matches(tree, t, pos, n, cut, best), best)
    decreases tree
  {
    hide Lcp, Best;
    if tree.Nil? || cut == 0 {
      BestNone(best);
    } else {
      assert Nodes(tree.left) <= Nodes(tree) && Nodes(tree.right) <= Nodes(tree);
      var k := Lcp(t, tree.pos, pos, n);
      var best' := if best < k then k else best;
      BestGrows(tree.left, t, pos, n, cut - 1, best');
      BestGrows(tree.right, t, pos, n, cut - 1, best');
      BestCons(best, k, pos - tree.pos - 1, Matches(tree.left, t, pos, n, cut - 1, best'));
      BestCons(best, k, pos - tree.pos - 1, Matches(tree.right, t, pos, n, cut - 1, best'));
      BestCons(best, k, pos - tree.pos - 1, []);
      BestNone(best');
    }
  }

  lemma BestNone(best: nat)
    ensures Best([], best) == best
  {
  }
}
