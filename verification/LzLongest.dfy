// What the match finders miss: nothing, unless cutValue ends a search. For every position of the window that
// matches for four bytes or more, a pair is reported that is at least as long and at least as near.
module LzLongest {
  import opened Words
  import opened LzTree
  import opened LzFind
  import opened LzHash
  import opened LzForest
  import opened LzShort
  import opened LzChain
  import opened LzReports

  // ---------- strings ----------

  // How far strings are compared when y is entered.
  function LimitAt(p: Params, t: seq<byte>, y: nat): nat
    requires y <= |t|
  {
    Min(p.matchMaxLen, |t| - y)
  }

  lemma SameTrans(t: seq<byte>, x: nat, y: nat, z: nat, m: nat, n: nat)
    requires x + m <= |t| && y + m <= |t| && z + n <= |t| && n <= m
    requires Lcp(t, x, y, m) == m && Lcp(t, y, z, n) == n
    ensures x + n <= |t| && Lcp(t, x, z, n) == n
  {
    hide Lcp;
    LcpIs(t, x, y, m);
    LcpIs(t, y, z, n);
    assert IsLcp(t, x, z, n, n);
    LcpUnique(t, x, z, n, n);
  }

  // Equal strings share as much with a third.
  lemma SameShare(t: seq<byte>, x: nat, y: nat, z: nat, m: nat, n: nat)
    requires x + m <= |t| && y + m <= |t| && z + n <= |t| && n <= m && Lcp(t, x, y, m) == m
    ensures x + n <= |t| && y + n <= |t| && Lcp(t, x, z, n) == Lcp(t, y, z, n)
  {
    hide Lcp;
    LcpIs(t, x, y, m);
    LcpIs(t, y, z, n);
    var k := Lcp(t, y, z, n);
    assert IsLcp(t, x, z, n, k);
    LcpUnique(t, x, z, n, k);
  }

  // A match of four bytes is in the same bucket, and has the same short hashes.
  lemma FourSame(crc: seq<nat>, hashMask: nat, t: seq<byte>, x: nat, pos: nat, n: nat)
    requires |crc| == 256 && x <= pos && pos + n <= |t| && 4 <= Lcp(t, x, pos, n)
    ensures n >= 4 && HeadIx(crc, t, x, hashMask) == HeadIx(crc, t, pos, hashMask)
    ensures HashAt2(crc, t, x) == HashAt2(crc, t, pos) && HashAt3(crc, t, x) == HashAt3(crc, t, pos)
  {
    hide Lcp, H2, H3, H4;
    LcpIs(t, x, pos, n);
    assert At(t, x, 0) == At(t, pos, 0) && At(t, x, 1) == At(t, pos, 1);
    assert At(t, x, 2) == At(t, pos, 2) && At(t, x, 3) == At(t, pos, 3);
  }

  // ---------- the short matches ----------

  lemma {:induction false} NewestFrom(crc: seq<nat>, t: seq<byte>, hi: nat, x: nat)
    requires |crc| == 256 && 0 < x < hi && hi + 3 <= |t|
    ensures Newest2(crc, t, hi, HashAt2(crc, t, x)) >= x && Newest3(crc, t, hi, HashAt3(crc, t, x)) >= x
    decreases hi
  {
    hide HashAt2, HashAt3, Newest2, Newest3;
    NewestStep(crc, t, hi, HashAt2(crc, t, x));
    NewestStep(crc, t, hi, HashAt3(crc, t, x));
    if x < hi - 1 {
      NewestFrom(crc, t, hi - 1, x);
    }
  }

  // Short matches that go far enough cover it.
  lemma ShortsCover(crc: seq<nat>, t: seq<byte>, pos: nat, n: nat, size: nat, x: nat)
    requires |crc| == 256 && 0 < x < pos && pos + n <= |t| && 4 <= n
    requires var s := Shorts(t, pos, n, size, Dist2(crc, t, pos), Dist3(crc, t, pos));
      4 <= Lcp(t, x, pos, n) <= s.maxLen
    ensures Covered(Shorts(t, pos, n, size, Dist2(crc, t, pos), Dist3(crc, t, pos)).found, t, pos, n, x)
  {
    hide Lcp, Newest2, Newest3, H2, H3;
    FourSame(crc, 0, t, x, pos, n);
    NewestFrom(crc, t, pos, x);
    var s := Shorts(t, pos, n, size, Dist2(crc, t, pos), Dist3(crc, t, pos));
    assert s.found[|s.found| - 1].dist <= pos - x - 1;
  }

  // ---------- the trees ----------

  // y is x, or a newer position equal to it on all bytes compared.
  ghost predicate Replaces(p: Params, t: seq<byte>, y: nat, x: nat) {
    x <= y <= |t| && Lcp(t, x, y, LimitAt(p, t, y)) == LimitAt(p, t, y)
  }

  // A position of the tree stands for x.
  ghost predicate Stands(p: Params, t: seq<byte>, tree: Tree, x: nat) {
    exists y: nat :: y in Nodes(tree) && Replaces(p, t, y, x)
  }

  lemma LimitMono(p: Params, t: seq<byte>, y: nat, pos: nat)
    requires y <= pos <= |t|
    ensures LimitAt(p, t, pos) <= LimitAt(p, t, y) && pos + LimitAt(p, t, pos) <= |t|
  {
  }

  // An insertion that is not cut short replaces it by an equal one at most.
  lemma StandsInsert(p: Params, t: seq<byte>, tree: Tree, pos: nat, lo: nat, x: nat)
    requires lo < pos < |t| && Heap(tree, lo, pos) && pos - lo <= p.cut && x <= pos && Stands(p, t, tree, x)
    ensures var n := LimitAt(p, t, pos);
      && (forall x <- Nodes(tree) :: x + n <= |t|)
      && var s := SplitAt(tree, t, pos, n, p.cut); Stands(p, t, Node(pos, s.less, s.greater), x)
  {
    hide Lcp, SplitAt, Heap, Height;
    var n := LimitAt(p, t, pos);
    HeapBounds(tree, lo, pos);
    HeightBound(tree, lo, pos);
    LimitMono(p, t, pos, pos);
    var y: nat :| y in Nodes(tree) && Replaces(p, t, y, x);
    var s := SplitAt(tree, t, pos, n, p.cut);
    if y in Lost(tree, s) {
      SplitLoses(tree, t, pos, n, p.cut, y, y);
      LimitMono(p, t, y, pos);
      LimitMono(p, t, y, y);
      SameTrans(t, x, y, pos, LimitAt(p, t, y), n);
      assert pos in Nodes(Node(pos, s.less, s.greater));
    } else {
      assert y in Nodes(Node(pos, s.less, s.greater));
    }
  }

  lemma StandsNew(p: Params, t: seq<byte>, pos: nat, less: Tree, greater: Tree)
    requires pos <= |t|
    ensures Stands(p, t, Node(pos, less, greater), pos)
  {
    LimitMono(p, t, pos, pos);
    SameSelf(t, pos, LimitAt(p, t, pos));
    assert pos in Nodes(Node(pos, less, greater));
  }

  lemma {:induction false} SameSelf(t: seq<byte>, x: nat, n: nat)
    requires x + n <= |t|
    ensures Lcp(t, x, x, n) == n
    decreases n
  {
    if n > 0 {
      SameSelf(t, x + 1, n - 1);
    }
  }

  // Pruning takes the positions that have left the window, and no other.
  lemma {:induction false} PruneNodes(tree: Tree, lo: nat, hi: nat, lo': nat, y: nat)
    requires Heap(tree, lo, hi)
    ensures y in Nodes(Prune(tree, lo')) <==> y in Nodes(tree) && y > lo'
    decreases tree
  {
    if tree.Node? {
      HeapBounds(tree.left, lo, tree.pos);
      HeapBounds(tree.right, lo, tree.pos);
      PruneNodes(tree.left, lo, tree.pos, lo', y);
      PruneNodes(tree.right, lo, tree.pos, lo', y);
    }
  }

  lemma StandsPrune(p: Params, t: seq<byte>, tree: Tree, lo: nat, hi: nat, lo': nat, x: nat)
    requires Heap(tree, lo, hi) && x > lo' && Stands(p, t, tree, x)
    ensures Stands(p, t, Prune(tree, lo'), x)
  {
    hide Lcp, Prune, Heap, Nodes;
    var y: nat :| y in Nodes(tree) && Replaces(p, t, y, x);
    PruneNodes(tree, lo, hi, lo', y);
  }

  // ---------- over a run ----------

  // Every position of the window that has a hash is stood for in its bucket.
  ghost predicate Complete(p: Params, k: Scene) {
    && Fresh(p, k)
    && forall x: nat :: Floor(k.pos, p.size) < x < k.pos && x + NEED <= |k.text| ==>
        var h := HeadIx(p.crc, k.text, x, p.hashMask); h < |k.trees| && Stands(p, k.text, k.trees[h], x)
  }

  // All trees are in order as far as strings are compared now.
  ghost predicate Ordered(p: Params, k: Scene) {
    && Fresh(p, k)
    && forall b :: 0 <= b < |k.trees| ==>
        var n := LimitAt(p, k.text, k.pos);
        && (forall x <- Nodes(k.trees[b]) :: x + n <= |k.text|)
        && Sorted(k.trees[b], k.text, n)
  }

  lemma NextOrdered(p: Params, k: Scene)
    requires Ordered(p, k) && k.pos < |k.text|
    ensures Ordered(p, NextPlain(p, k))
  {
    hide Heap, Sorted, Nodes, Prune, SplitAt, HeadIx, Planted;
    var planted, n := Planted(p, k), LimitAt(p, k.text, k.pos);
    PlantedOrdered(p, k);
    var next := NextPlain(p, k);
    var m := LimitAt(p, k.text, next.pos);
    LimitMono(p, k.text, k.pos, next.pos);
    forall b | 0 <= b < |next.trees|
      ensures (forall x <- Nodes(next.trees[b]) :: x + m <= |k.text|) && Sorted(next.trees[b], k.text, m)
    {
      PruneSorted(planted[b], k.text, n, Floor(next.pos, p.size));
      SortedShorter(next.trees[b], k.text, n, m);
    }
  }

  lemma PlantedOrdered(p: Params, k: Scene)
    requires Ordered(p, k) && k.pos < |k.text|
    ensures var planted, n := Planted(p, k), LimitAt(p, k.text, k.pos);
      forall b :: 0 <= b < |planted| ==>
        (forall x <- Nodes(planted[b]) :: x + n <= |k.text|) && Sorted(planted[b], k.text, n)
  {
    hide Heap, Sorted, SplitAt, HeadIx, Planted;
    var n := LimitAt(p, k.text, k.pos);
    if n < NEED {
      PlantedNone(p, k);
    } else {
      var h := HeadIx(p.crc, k.text, k.pos, p.hashMask);
      PlantedIs(p, k, h);
      InsertKeeps(k.trees[h], k.text, k.pos, n, p.cut, Floor(k.pos, p.size));
    }
  }

  lemma NextComplete(p: Params, k: Scene)
    requires Complete(p, k) && k.pos < |k.text| && p.size <= p.cut
    ensures Complete(p, NextPlain(p, k))
  {
    hide Heap, Nodes, Prune, HeadIx, Stands, Planted;
    var next, planted := NextPlain(p, k), Planted(p, k);
    forall x: nat | Floor(next.pos, p.size) < x < next.pos && x + NEED <= |k.text|
      ensures var h := HeadIx(p.crc, k.text, x, p.hashMask); h < |next.trees| && Stands(p, k.text, next.trees[h], x)
    {
      var h := HeadIx(p.crc, k.text, x, p.hashMask);
      HeadBound(p.crc, k.text, x, p.hashMask);
      PlantedStands(p, k, x);
      assert Heap(planted[h], Floor(k.pos, p.size), k.pos + 1);
      StandsPrune(p, k.text, planted[h], Floor(k.pos, p.size), k.pos + 1, Floor(next.pos, p.size), x);
    }
  }

  lemma PlantedStands(p: Params, k: Scene, x: nat)
    requires Complete(p, k) && k.pos < |k.text| && p.size <= p.cut
    requires Floor(k.pos, p.size) < x <= k.pos && x + NEED <= |k.text|
    ensures var h := HeadIx(p.crc, k.text, x, p.hashMask);
      h < |Planted(p, k)| && Stands(p, k.text, Planted(p, k)[h], x)
  {
    hide Heap, Nodes, HeadIx, Stands, SplitAt, Planted;
    var h := HeadIx(p.crc, k.text, x, p.hashMask);
    HeadBound(p.crc, k.text, x, p.hashMask);
    if k.pos + NEED > |k.text| {
      PlantedNone(p, k);
    } else {
      var hp := HeadIx(p.crc, k.text, k.pos, p.hashMask);
      PlantedIs(p, k, hp);
      assert Heap(k.trees[hp], Floor(k.pos, p.size), k.pos);
      var s := SplitAt(k.trees[hp], k.text, k.pos, LimitAt(p, k.text, k.pos), p.cut);
      if x == k.pos {
        StandsNew(p, k.text, x, s.less, s.greater);
      } else if h == hp {
        StandsInsert(p, k.text, k.trees[h], k.pos, Floor(k.pos, p.size), x);
      }
    }
  }

  lemma {:induction false} RunWhole(p: Params, k: Scene, num: nat)
    requires Fresh(p, k) && k.pos + num <= |k.text| && p.size <= p.cut && Complete(p, k) && Ordered(p, k)
    ensures Complete(p, RunPlain(p, k, num)) && Ordered(p, RunPlain(p, k, num))
    decreases num
  {
    hide Fresh, Complete, Ordered, NextPlain;
    if num > 0 {
      RunWhole(p, k, num - 1);
      NextComplete(p, RunPlain(p, k, num - 1));
      NextOrdered(p, RunPlain(p, k, num - 1));
    }
  }

  // At the first position there is nothing to stand for.
  lemma FirstWhole(p: Params, t: seq<byte>, trees: seq<Tree>)
    requires p.Ok() && |t| > 0 && |trees| == p.hashMask + 1 && forall b :: 0 <= b < |trees| ==> trees[b] == Nil
    ensures Complete(p, Scene(t, 1, trees)) && Ordered(p, Scene(t, 1, trees))
  {
  }

  // ---------- what must be there ----------

  // All that the two short tables call for is reported.
  lemma ReportedHits(crc: seq<nat>, hashMask: nat, t: seq<byte>, pos: nat, n: nat, size: nat, cut: nat,
      trees: seq<Tree>, found: seq<Found>)
    requires Reported(crc, hashMask, t, pos, n, size, cut, trees, found)
      || ChainReported(crc, hashMask, t, pos, n, size, cut, found)
    ensures HitsReported(crc, t, pos, size, found)
  {
    hide HeadIx, Shorts, Dist2, Dist3, Records, Members, Matches, HitsReported, Before, Nodes;
    var s := Shorts(t, pos, n, size, Dist2(crc, t, pos), Dist3(crc, t, pos));
    HitsThere(crc, t, pos, n, size, found[|s.found|..]);
    assert found == s.found + found[|s.found|..];
  }

  // ---------- nothing better ----------

  // A pair is reported that is at least as long and at least as near as the match at any position of the window.
  ghost predicate NothingBetter(t: seq<byte>, pos: nat, n: nat, size: nat, found: seq<Found>)
    requires pos + n <= |t|
  {
    forall x: nat :: Floor(pos, size) < x < pos && Lcp(t, x, pos, n) >= 4 ==> Covered(found, t, pos, n, x)
  }

  lemma BetterInTree(p: Params, k: Scene, n: nat, found: seq<Found>, x: nat)
    requires Complete(p, k) && Ordered(p, k) && p.size <= p.cut && 4 <= n && k.pos + n <= |k.text|
    requires n <= p.matchMaxLen && Floor(k.pos, p.size) < x < k.pos && Lcp(k.text, x, k.pos, n) >= 4
    requires Reported(p.crc, p.hashMask, k.text, k.pos, n, p.size, p.cut, k.trees, found)
    ensures Covered(found, k.text, k.pos, n, x)
  {
    hide Lcp, Heap, Sorted, Nodes, HeadIx, Shorts, Dist2, Dist3, Matches, Covered;
    var t, pos := k.text, k.pos;
    FourSame(p.crc, p.hashMask, t, x, pos, n);
    var h := HeadIx(p.crc, t, pos, p.hashMask);
    var s := Shorts(t, pos, n, p.size, Dist2(p.crc, t, pos), Dist3(p.crc, t, pos));
    var more := if s.maxLen == n then [] else Matches(k.trees[h], t, pos, n, p.cut, s.maxLen);
    LcpAtMost(t, x, pos, n);
    if Lcp(t, x, pos, n) <= s.maxLen {
      ShortsCover(p.crc, t, pos, n, p.size, x);
    } else {
      ShortsLimit(p.crc, t, pos, n, p.size);
      var y: nat :| y in Nodes(k.trees[h]) && Replaces(p, t, y, x);
      HeapBounds(k.trees[h], Floor(pos, p.size), pos);
      LimitMono(p, t, y, pos);
      LimitMono(p, t, y, y);
      SameShare(t, x, y, pos, LimitAt(p, t, y), n);
      SortedShorter(k.trees[h], t, LimitAt(p, t, pos), n);
      HeightBound(k.trees[h], Floor(pos, p.size), pos);
      MatchesCover(k.trees[h], t, pos, n, p.cut, s.maxLen, Floor(pos, p.size), pos, y);
      CoveredOlder(more, t, pos, n, x, y);
    }
    CoveredMore(s.found, more, t, pos, n, x);
  }

  lemma ShortsLimit(crc: seq<nat>, t: seq<byte>, pos: nat, n: nat, size: nat)
    requires |crc| == 256 && 0 < pos && 4 <= n && pos + n <= |t|
    ensures Shorts(t, pos, n, size, Dist2(crc, t, pos), Dist3(crc, t, pos)).maxLen <= n
  {
    hide Lcp, Dist2, Dist3;
  }

  lemma CoveredOlder(found: seq<Found>, t: seq<byte>, pos: nat, n: nat, x: nat, y: nat)
    requires x <= y < pos && pos + n <= |t| && Lcp(t, x, pos, n) == Lcp(t, y, pos, n) && Covered(found, t, pos, n, y)
    ensures Covered(found, t, pos, n, x)
  {
    hide Lcp;
    var i :| 0 <= i < |found| && found[i].len >= Lcp(t, y, pos, n) && found[i].dist <= pos - y - 1;
    assert found[i].dist <= pos - x - 1;
  }

  // Bt4, after any number of positions from the first on: with cutValue no smaller than the window nothing in
  // the window is better than what is reported.
  lemma BtLongest(p: Params, t: seq<byte>, trees: seq<Tree>, num: nat, n: nat, found: seq<Found>)
    requires p.Ok() && 1 + num <= |t| && |trees| == p.hashMask + 1
    requires forall b :: 0 <= b < |trees| ==> trees[b] == Nil
    requires p.size <= p.cut && 4 <= n <= p.matchMaxLen && 1 + num + n <= |t| && Fresh(p, Scene(t, 1, trees))
    requires Reported(p.crc, p.hashMask, t, 1 + num, n, p.size, p.cut,
                      RunPlain(p, Scene(t, 1, trees), num).trees, found)
    ensures NothingBetter(t, 1 + num, n, p.size, found)
  {
    hide Lcp, Fresh, Reported, Complete, Ordered, Covered, RunPlain, Params.Ok;
    var k := RunPlain(p, Scene(t, 1, trees), num);
    FirstWhole(p, t, trees);
    RunWhole(p, Scene(t, 1, trees), num);
    var pos := 1 + num;
    forall x: nat | Floor(pos, p.size) < x < pos && Lcp(t, x, pos, n) >= 4
      ensures Covered(found, t, pos, n, x)
    {
      BetterInTree(p, k, n, found, x);
    }
  }

  // The same for Hc4.
  lemma HcLongest(crc: seq<nat>, hashMask: nat, t: seq<byte>, pos: nat, n: nat, size: nat, cut: nat,
      found: seq<Found>)
    requires ChainReported(crc, hashMask, t, pos, n, size, cut, found) && size <= cut
    ensures NothingBetter(t, pos, n, size, found)
  {
    hide Lcp, HeadIx, Shorts, Dist2, Dist3, Records, Members, Before, Covered;
    var h, lo := HeadIx(crc, t, pos, hashMask), Floor(pos, size);
    var chain := Members(crc, hashMask, t, lo, pos, h);
    var s := Shorts(t, pos, n, size, Dist2(crc, t, pos), Dist3(crc, t, pos));
    var more := if s.maxLen == n then [] else Records(chain, t, pos, n, cut, s.maxLen);
    MembersFall(crc, hashMask, t, lo, pos, h);
    if lo < pos {
      FallingFew(chain, lo, pos);
    }
    forall x: nat | lo < x < pos && Lcp(t, x, pos, n) >= 4
      ensures Covered(found, t, pos, n, x)
    {
      FourSame(crc, hashMask, t, x, pos, n);
      LcpAtMost(t, x, pos, n);
      if Lcp(t, x, pos, n) <= s.maxLen {
        ShortsCover(crc, t, pos, n, size, x);
      } else {
        ShortsLimit(crc, t, pos, n, size);
        MembersExactly(crc, hashMask, t, lo, pos, h, x);
        var i :| 0 <= i < |chain| && chain[i] == x;
        RecordsCover(chain, t, pos, n, cut, s.maxLen, lo, pos, i);
      }
      CoveredMore(s.found, more, t, pos, n, x);
    }
  }

  lemma {:induction false} FallingFew(chain: seq<nat>, lo: nat, hi: nat)
    requires Falling(chain, lo, hi) && lo < hi
    ensures |chain| < hi - lo
    decreases |chain|
  {
    if chain != [] {
      FallingFew(chain[1..], lo, chain[0]);
    }
  }
}
