// What Bt4 and Hc4 report at a position and what they leave for the next one, on values: the trees and
// the answers over any run of positions, and why lowering the positions on the way changes no answer.
module LzReports {
  import opened Words
  import opened LzTree
  import opened LzFind
  import opened LzHash
  import opened LzForest
  import opened LzShort
  import opened LzChain

  // The trees after normalisation lowered the positions by sub, or did not happen.
  function Renumbered(trees: seq<Tree>, sub: nat): seq<Tree> {
    if sub == 0 then trees else ShiftAll(trees, sub)
  }

  // ---------- the trees over a run ----------

  const NEED: nat := 4      // numHashBytes

  // What a finder is made with.
  datatype Params = Params(crc: seq<nat>, hashMask: nat, size: nat, matchMaxLen: nat, cut: nat) {
    ghost predicate Ok() {
      |crc| == 256 && 0 < size < TWO_32 && matchMaxLen >= NEED
    }
  }

  // The text, the position in it, and the trees of all buckets.
  datatype Scene = Scene(text: seq<byte>, pos: nat, trees: seq<Tree>)

  ghost predicate Fresh(p: Params, k: Scene) {
    && p.Ok() && 0 < k.pos <= |k.text| && |k.trees| == p.hashMask + 1
    && forall b :: 0 <= b < |k.trees| ==> Heap(k.trees[b], Floor(k.pos, p.size), k.pos)
  }

  // The position goes to the root of its bucket's split tree, unless too few bytes follow it.
  ghost function Planted(p: Params, k: Scene): (r: seq<Tree>)
    requires Fresh(p, k) && k.pos < |k.text|
    ensures |r| == |k.trees| && forall b :: 0 <= b < |r| ==> Heap(r[b], Floor(k.pos, p.size), k.pos + 1)
  {
    var n := Min(p.matchMaxLen, |k.text| - k.pos);
    FreshWiden(p, k);
    if n < NEED then k.trees else
      var h := HeadIx(p.crc, k.text, k.pos, p.hashMask);
      HeadBound(p.crc, k.text, k.pos, p.hashMask);
      assert Heap(k.trees[h], Floor(k.pos, p.size), k.pos);
      InsertKeeps(k.trees[h], k.text, k.pos, n, p.cut, Floor(k.pos, p.size));
      var s := SplitAt(k.trees[h], k.text, k.pos, n, p.cut);
      k.trees[h := Node(k.pos, s.less, s.greater)]
  }

  lemma FreshWiden(p: Params, k: Scene)
    requires Fresh(p, k)
    ensures forall b :: 0 <= b < |k.trees| ==> Heap(k.trees[b], Floor(k.pos, p.size), k.pos + 1)
  {
    forall b | 0 <= b < |k.trees|
      ensures Heap(k.trees[b], Floor(k.pos, p.size), k.pos + 1)
    {
      HeapWiden(k.trees[b], Floor(k.pos, p.size), k.pos, k.pos + 1);
    }
  }

  lemma HeadBound(crc: seq<nat>, t: seq<byte>, pos: nat, hashMask: nat)
    requires |crc| == 256 && pos + 4 <= |t|
    ensures HeadIx(crc, t, pos, hashMask) <= hashMask
  {
    hide H4;
    HashRange(crc, t[pos], t[pos + 1], t[pos + 2], t[pos + 3], hashMask);
  }

  // How much the positions are lowered when pos is reached.
  function Lowering(p: Params, pos: nat, rest: nat): (sub: nat)
    requires 0 < p.size < TWO_32
    ensures sub < pos || sub == 0
  {
    if pos == TWO_32 && rest >= NEED then pos - p.size else 0
  }

  // One position on: what a search leaves and what a skip leaves. The trees lose what leaves the
  // window, and are renumbered when the position reaches 2^32.
  ghost function Next(p: Params, k: Scene): (r: Scene)
    requires Fresh(p, k) && k.pos < |k.text|
    ensures Fresh(p, r) && r.text[r.pos..] == k.text[k.pos + 1..]
  {
    var pos := k.pos + 1;
    var trees := PruneAll(Planted(p, k), Floor(pos, p.size));
    var sub := Lowering(p, pos, |k.text| - pos);
    NextFresh(p, k, trees, sub);
    Scene(k.text[sub..], pos - sub, Renumbered(trees, sub))
  }

  lemma NextFresh(p: Params, k: Scene, trees: seq<Tree>, sub: nat)
    requires Fresh(p, k) && k.pos < |k.text| && trees == PruneAll(Planted(p, k), Floor(k.pos + 1, p.size))
    requires sub == Lowering(p, k.pos + 1, |k.text| - (k.pos + 1))
    ensures Fresh(p, Scene(k.text[sub..], k.pos + 1 - sub, Renumbered(trees, sub)))
    ensures k.text[sub..][k.pos + 1 - sub..] == k.text[k.pos + 1..]
  {
    hide Heap, Prune, Shift;
    var planted, lo, pos := Planted(p, k), Floor(k.pos + 1, p.size), k.pos + 1;
    forall b | 0 <= b < |trees|
      ensures Heap(trees[b], lo, pos) && (sub > 0 ==> Heap(ShiftAll(trees, sub)[b], 0, pos - sub))
    {
      PruneHeap(planted[b], Floor(k.pos, p.size), pos, lo);
      if sub > 0 {
        ShiftHeap(trees[b], lo, pos, sub);
      }
    }
  }

  lemma {:induction false} PruneHeap(tree: Tree, lo: nat, hi: nat, lo': nat)
    requires Heap(tree, lo, hi) && lo <= lo'
    ensures Heap(Prune(tree, lo'), lo', hi) && Nodes(Prune(tree, lo')) <= Nodes(tree)
    decreases tree
  {
    if tree.Node? && tree.pos > lo' {
      PruneHeap(tree.left, lo, tree.pos, lo');
      PruneHeap(tree.right, lo, tree.pos, lo');
    }
  }

  // num positions on.
  ghost function Run(p: Params, k: Scene, num: nat): (r: Scene)
    requires Fresh(p, k) && k.pos + num <= |k.text|
    ensures Fresh(p, r) && r.text[r.pos..] == k.text[k.pos + num..]
  {
    if num == 0 then k else
      var before := Run(p, k, num - 1);
      assert |before.text| - before.pos == |before.text[before.pos..]| == |k.text| - k.pos - (num - 1);
      assert before.text[before.pos..][1..] == before.text[before.pos + 1..];
      assert k.text[k.pos + (num - 1)..][1..] == k.text[k.pos + num..];
      Next(p, before)
  }

  // k' is where num positions lead from k.
  ghost predicate Ran(p: Params, k: Scene, num: nat, k': Scene) {
    Fresh(p, k) && k.pos + num <= |k.text| && k' == Run(p, k, num)
  }

  // All that Bt4 reports for a position: the short matches, then what the walk through its
  // bucket's tree finds longer, unless a short match already reaches the limit.
  ghost predicate Reported(crc: seq<nat>, hashMask: nat, t: seq<byte>, pos: nat, n: nat, size: nat, cut: nat,
      trees: seq<Tree>, found: seq<Found>) {
    && |crc| == 256 && 4 <= n && 0 < pos && pos + n <= |t|
    && var h := HeadIx(crc, t, pos, hashMask);
      && h < |trees| && (forall x <- Nodes(trees[h]) :: x + n <= |t| && x < pos)
      && var s := Shorts(t, pos, n, size, Dist2(crc, t, pos), Dist3(crc, t, pos));
        found == s.found + if s.maxLen == n then [] else Matches(trees[h], t, pos, n, cut, s.maxLen)
  }

  // All that Hc4 reports: the short matches, then, of the newest positions of the bucket that
  // are still in the window, each that matches longer.
  ghost predicate ChainReported(crc: seq<nat>, hashMask: nat, t: seq<byte>, pos: nat, n: nat, size: nat,
      cut: nat, found: seq<Found>) {
    && |crc| == 256 && 4 <= n && 0 < pos && pos + n <= |t|
    && var s := Shorts(t, pos, n, size, Dist2(crc, t, pos), Dist3(crc, t, pos));
      var chain := Members(crc, hashMask, t, Floor(pos, size), pos, HeadIx(crc, t, pos, hashMask));
      Before(chain, pos) && found == s.found + if s.maxLen == n then [] else Records(chain, t, pos, n, cut, s.maxLen)
  }

  lemma PlantedIs(p: Params, k: Scene, h: nat)
    requires Fresh(p, k) && k.pos + NEED <= |k.text| && h == HeadIx(p.crc, k.text, k.pos, p.hashMask)
    ensures var n := Min(p.matchMaxLen, |k.text| - k.pos);
      && h < |k.trees| && (forall x <- Nodes(k.trees[h]) :: x + n <= |k.text|)
      && var s := SplitAt(k.trees[h], k.text, k.pos, n, p.cut);
        Planted(p, k) == k.trees[h := Node(k.pos, s.less, s.greater)]
  {
    hide SplitAt, Nodes, HeadIx, Heap;
    HeadBound(p.crc, k.text, k.pos, p.hashMask);
    assert Heap(k.trees[h], Floor(k.pos, p.size), k.pos);
    InsertKeeps(k.trees[h], k.text, k.pos, Min(p.matchMaxLen, |k.text| - k.pos), p.cut, Floor(k.pos, p.size));
  }

  // The end of a step for a position that has been planted, or has no hash.
  lemma PlantedAt(p: Params, k: Scene, h: nat)
    requires Fresh(p, k) && k.pos + NEED <= |k.text| && h == HeadIx(p.crc, k.text, k.pos, p.hashMask)
    ensures var n := Min(p.matchMaxLen, |k.text| - k.pos);
      && h < |k.trees| && (forall x <- Nodes(k.trees[h]) :: x + n <= |k.text|)
      && var s := SplitAt(k.trees[h], k.text, k.pos, n, p.cut);
        Stepped(p, k, k.trees[h := Node(k.pos, s.less, s.greater)])
  {
    hide SplitAt, Nodes, HeadIx, PruneAll, Planted, Run, Heap, Renumbered;
    RunOne(p, k);
    PlantedIs(p, k, h);
    assert p.Ok();
  }

  lemma Passed(p: Params, k: Scene)
    requires Fresh(p, k) && k.pos < |k.text| < k.pos + NEED
    ensures Stepped(p, k, k.trees)
  {
    hide PruneAll, Run, Heap, Renumbered, SplitAt, HeadIx;
    RunOne(p, k);
  }

  lemma RunOne(p: Params, k: Scene)
    requires Fresh(p, k) && k.pos < |k.text|
    ensures Run(p, k, 1) == Next(p, k)
  {
    hide Next, Fresh;
    assert Run(p, k, 0) == k;
  }

  // Moving on with these trees is the next step.
  ghost predicate Stepped(p: Params, k: Scene, trees: seq<Tree>) {
    && 0 < p.size < TWO_32 && k.pos < |k.text|
    && var sub := Lowering(p, k.pos + 1, |k.text| - k.pos - 1);
      Ran(p, k, 1, Scene(k.text[sub..], k.pos + 1 - sub, Renumbered(PruneAll(trees, Floor(k.pos + 1, p.size)), sub)))
  }

  lemma RanNone(p: Params, k: Scene)
    requires Fresh(p, k)
    ensures Ran(p, k, 0, k)
  {
  }

  lemma RanOn(p: Params, k: Scene, num: nat, a: Scene, b: Scene)
    requires Ran(p, k, num, a) && Ran(p, a, 1, b) && k.pos + num < |k.text|
    ensures Ran(p, k, num + 1, b)
  {
    hide Next, Fresh;
    assert Run(p, a, 1) == Next(p, Run(p, a, 0));
  }

  // ---------- renumbering does not show ----------

  lemma {:induction false} ShiftNone(tree: Tree)
    ensures Shift(tree, 0) == tree
    decreases tree
  {
    if tree.Node? {
      ShiftNone(tree.left);
      ShiftNone(tree.right);
    }
  }

  lemma {:induction false} ShiftTwice(tree: Tree, a: nat, b: nat)
    ensures Shift(Shift(tree, a), b) == Shift(tree, a + b)
    decreases tree
  {
    if tree.Node? {
      ShiftTwice(tree.left, a, b);
      ShiftTwice(tree.right, a, b);
    }
  }

  lemma {:induction false} PruneShift(tree: Tree, lo: nat, hi: nat, lo': nat, sub: nat)
    requires Heap(tree, lo, hi) && sub <= lo <= lo'
    ensures Prune(Shift(tree, sub), lo' - sub) == Shift(Prune(tree, lo'), sub)
    decreases tree
  {
    hide Nodes;
    if tree.Node? {
      PruneShift(tree.left, lo, tree.pos, lo', sub);
      PruneShift(tree.right, lo, tree.pos, lo', sub);
    }
  }

  lemma ShiftInside(tree: Tree, t: seq<byte>, n: nat, lo: nat, hi: nat, sub: nat)
    requires Heap(tree, lo, hi) && sub <= lo && sub <= |t| && forall x <- Nodes(tree) :: x + n <= |t|
    ensures forall x <- Nodes(Shift(tree, sub)) :: x + n <= |t[sub..]|
  {
    hide Nodes, Heap;
    forall x | x in Nodes(Shift(tree, sub))
      ensures x + n <= |t[sub..]|
    {
      ShiftNodes(tree, lo, hi, sub, x);
    }
  }

  // Splitting a renumbered tree gives the renumbered halves.
  lemma {:induction false} SplitShift(tree: Tree, t: seq<byte>, pos: nat, n: nat, cut: nat, lo: nat, hi: nat, sub: nat)
    requires Heap(tree, lo, hi) && sub <= lo && sub <= pos && pos + n <= |t|
    requires forall x <- Nodes(tree) :: x + n <= |t|
    ensures (forall x <- Nodes(Shift(tree, sub)) :: x + n <= |t[sub..]|) && pos - sub + n <= |t[sub..]|
    ensures var s := SplitAt(tree, t, pos, n, cut);
      SplitAt(Shift(tree, sub), t[sub..], pos - sub, n, cut) == Split(Shift(s.less, sub), Shift(s.greater, sub))
    decreases tree
  {
    hide Lcp, SplitAt, Nodes, Heap, Shift;
    ShiftInside(tree, t, n, lo, hi, sub);
    ShiftUnfold(tree, sub);
    SplitStep(tree, t, pos, n, cut);
    SplitStep(Shift(tree, sub), t[sub..], pos - sub, n, cut);
    if tree.Nil? || cut == 0 {
      ShiftUnfold(Nil, sub);
    } else {
      HeapParts(tree, lo, hi);
      var q := tree.pos;
      LcpShift(t, q, pos, n, sub);
      var k := Lcp(t, q, pos, n);
      if k < n {
        var right := t[q + k] < t[pos + k];
        assert t[sub..][q - sub + k] == t[q + k] && t[sub..][pos - sub + k] == t[pos + k];
        var s := SplitAt(if right then tree.right else tree.left, t, pos, n, cut - 1);
        SplitShift(if right then tree.right else tree.left, t, pos, n, cut - 1, lo, hi, sub);
        ShiftUnfold(Node(q, tree.left, s.less), sub);
        ShiftUnfold(Node(q, s.greater, tree.right), sub);
      }
    }
  }

  lemma SplitStep(tree: Tree, t: seq<byte>, pos: nat, n: nat, cut: nat)
    requires pos + n <= |t| && forall x <- Nodes(tree) :: x + n <= |t|
    ensures tree.Nil? || cut == 0 ==> SplitAt(tree, t, pos, n, cut) == Split(Nil, Nil)
    ensures tree.Node? && cut > 0 ==>
      && tree.pos + n <= |t| && (forall x <- Nodes(tree.left) :: x + n <= |t|)
      && (forall x <- Nodes(tree.right) :: x + n <= |t|)
      && var q, k := tree.pos, Lcp(t, tree.pos, pos, n);
        SplitAt(tree, t, pos, n, cut) == if k == n then Split(tree.left, tree.right)
          else if t[q + k] < t[pos + k] then
            var s := SplitAt(tree.right, t, pos, n, cut - 1); Split(Node(q, tree.left, s.less), s.greater)
          else
            var s := SplitAt(tree.left, t, pos, n, cut - 1); Split(s.less, Node(q, s.greater, tree.right))
  {
    hide Lcp;
    NodesSons(tree);
  }

  // The same position without any renumbering.
  ghost function NextPlain(p: Params, k: Scene): (r: Scene)
    requires Fresh(p, k) && k.pos < |k.text|
    ensures Fresh(p, r) && r.text == k.text && r.pos == k.pos + 1
  {
    var trees := PruneAll(Planted(p, k), Floor(k.pos + 1, p.size));
    PlainFresh(p, k, trees);
    Scene(k.text, k.pos + 1, trees)
  }

  lemma PlainFresh(p: Params, k: Scene, trees: seq<Tree>)
    requires Fresh(p, k) && k.pos < |k.text| && trees == PruneAll(Planted(p, k), Floor(k.pos + 1, p.size))
    ensures Fresh(p, Scene(k.text, k.pos + 1, trees))
  {
    hide Heap, Prune;
    var planted := Planted(p, k);
    forall b | 0 <= b < |trees|
      ensures Heap(trees[b], Floor(k.pos + 1, p.size), k.pos + 1)
    {
      PruneHeap(planted[b], Floor(k.pos, p.size), k.pos + 1, Floor(k.pos + 1, p.size));
    }
  }

  // A finder with positions of any size, num positions on.
  ghost function RunPlain(p: Params, k: Scene, num: nat): (r: Scene)
    requires Fresh(p, k) && k.pos + num <= |k.text|
    ensures Fresh(p, r) && r.text == k.text && r.pos == k.pos + num
  {
    if num == 0 then k else NextPlain(p, RunPlain(p, k, num - 1))
  }

  // b is a with all positions lowered by an amount that is outside a's window.
  ghost predicate Alike(p: Params, a: Scene, b: Scene, sub: nat) {
    && Fresh(p, a) && Fresh(p, b) && sub <= Floor(a.pos, p.size) && a.pos == b.pos + sub
    && b.text == a.text[sub..] && b.trees == ShiftAll(a.trees, sub)
  }

  lemma AlikeSelf(p: Params, k: Scene)
    requires Fresh(p, k)
    ensures Alike(p, k, k, 0)
  {
    hide Heap, Shift;
    var shifted := ShiftAll(k.trees, 0);
    forall b | 0 <= b < |k.trees|
      ensures shifted[b] == k.trees[b]
    {
      ShiftNone(k.trees[b]);
    }
    assert shifted == k.trees && k.text[0..] == k.text;
  }

  lemma PlantedAlike(p: Params, a: Scene, b: Scene, sub: nat)
    requires Alike(p, a, b, sub) && a.pos < |a.text|
    ensures b.pos < |b.text| && Planted(p, b) == ShiftAll(Planted(p, a), sub)
  {
    hide Heap, SplitAt, HeadIx, Nodes, Planted;
    var n := Min(p.matchMaxLen, |a.text| - a.pos);
    if n < NEED {
      PlantedNone(p, a);
      PlantedNone(p, b);
    } else {
      var h := HeadIx(p.crc, a.text, a.pos, p.hashMask);
      HeadShift(p.crc, p.hashMask, a.text, a.pos, sub);
      PlantedIs(p, a, h);
      PlantedIs(p, b, h);
      SplitShift(a.trees[h], a.text, a.pos, n, p.cut, Floor(a.pos, p.size), a.pos, sub);
      var s := SplitAt(a.trees[h], a.text, a.pos, n, p.cut);
      ShiftUnfold(Node(a.pos, s.less, s.greater), sub);
      assert Planted(p, b) == ShiftAll(Planted(p, a), sub);
    }
  }

  lemma PlantedNone(p: Params, k: Scene)
    requires Fresh(p, k) && k.pos < |k.text| < k.pos + NEED
    ensures Planted(p, k) == k.trees
  {
    hide Heap, SplitAt, HeadIx;
  }

  // The window's edge moves, on both sides.
  lemma PrunedAlike(p: Params, trees: seq<Tree>, lo: nat, hi: nat, lo': nat, sub: nat)
    requires (forall b :: 0 <= b < |trees| ==> Heap(trees[b], lo, hi)) && sub <= lo <= lo'
    ensures PruneAll(ShiftAll(trees, sub), lo' - sub) == ShiftAll(PruneAll(trees, lo'), sub)
  {
    hide Heap, Prune, Shift;
    var l, r := PruneAll(ShiftAll(trees, sub), lo' - sub), ShiftAll(PruneAll(trees, lo'), sub);
    forall b | 0 <= b < |trees|
      ensures l[b] == r[b]
    {
      PruneShift(trees[b], lo, hi, lo', sub);
    }
    assert l == r;
  }

  lemma ShiftAllTwice(trees: seq<Tree>, a: nat, b: nat)
    ensures Renumbered(ShiftAll(trees, a), b) == ShiftAll(trees, a + b)
  {
    hide Shift;
    var l, r := ShiftAll(ShiftAll(trees, a), b), ShiftAll(trees, a + b);
    forall i | 0 <= i < |trees|
      ensures l[i] == r[i]
    {
      ShiftTwice(trees[i], a, b);
    }
    assert l == r;
  }

  // One position on, whether this is where the positions are lowered or not.
  lemma NextAlike(p: Params, a: Scene, b: Scene, sub: nat) returns (sub': nat)
    requires Alike(p, a, b, sub) && a.pos < |a.text|
    ensures b.pos < |b.text| && Alike(p, NextPlain(p, a), Next(p, b), sub')
  {
    hide Heap, Planted, PruneAll, ShiftAll, Renumbered, Floor, Lowering, Min;
    PlantedAlike(p, a, b, sub);
    var planted := Planted(p, a);
    FloorLowered(p.size, a.pos, sub);
    PrunedAlike(p, planted, Floor(a.pos, p.size), a.pos + 1, Floor(a.pos + 1, p.size), sub);
    var more := Lowering(p, b.pos + 1, |b.text| - (b.pos + 1));
    LoweringFits(p, b.pos + 1, |b.text| - (b.pos + 1), sub);
    ShiftAllTwice(PruneAll(planted, Floor(a.pos + 1, p.size)), sub, more);
    assert a.text[sub..][more..] == a.text[sub + more..];
    sub' := sub + more;
  }

  lemma LoweringFits(p: Params, pos: nat, rest: nat, sub: nat)
    requires 0 < p.size < TWO_32 && sub <= Floor(pos + sub, p.size)
    ensures var more := Lowering(p, pos, rest); more <= pos && sub + more <= Floor(pos + sub, p.size)
  {
  }

  // Lowered by an amount outside the window, the window's edge is lowered as much.
  lemma FloorLowered(size: nat, pos: nat, sub: nat)
    requires size > 0 && sub <= Floor(pos, size)
    ensures sub <= pos && Floor(pos - sub, size) == Floor(pos, size) - sub && Floor(pos, size) <= Floor(pos + 1, size)
    ensures Floor(pos + 1 - sub, size) == Floor(pos + 1, size) - sub
  {
  }

  lemma {:induction false} RunAlike(p: Params, k: Scene, num: nat) returns (sub: nat)
    requires Fresh(p, k) && k.pos + num <= |k.text|
    ensures Alike(p, RunPlain(p, k, num), Run(p, k, num), sub)
    decreases num
  {
    hide Fresh, Next, NextPlain, Alike;
    if num == 0 {
      AlikeSelf(p, k);
      sub := 0;
    } else {
      var sub0 := RunAlike(p, k, num - 1);
      sub := NextAlike(p, RunPlain(p, k, num - 1), Run(p, k, num - 1), sub0);
    }
  }

  // ---------- and so every report is the same ----------

  lemma ShortsLowered(crc: seq<nat>, t: seq<byte>, pos: nat, n: nat, size: nat, sub: nat)
    requires |crc| == 256 && 4 <= n && 0 < pos && pos + n <= |t| && size > 0 && sub <= Floor(pos, size)
    ensures 0 < pos - sub && pos - sub + n <= |t[sub..]|
    ensures Shorts(t[sub..], pos - sub, n, size, Dist2(crc, t[sub..], pos - sub), Dist3(crc, t[sub..], pos - sub))
      == Shorts(t, pos, n, size, Dist2(crc, t, pos), Dist3(crc, t, pos))
  {
    hide H2, H3, Newest2, Newest3, Lcp;
    var t', pos' := t[sub..], pos - sub;
    assert t'[pos'] == t[pos] && t'[pos' + 1] == t[pos + 1] && t'[pos' + 2] == t[pos + 2];
    var h2, h3 := H2(crc, t[pos], t[pos + 1]), H3(crc, t[pos], t[pos + 1], t[pos + 2]);
    NewestShift(crc, t, pos, h2, sub);
    NewestShift(crc, t, pos, h3, sub);
    HitLowered(t, pos, n, size, Newest2(crc, t, pos, h2), sub);
    HitLowered(t, pos, n, size, Newest3(crc, t, pos, h3), sub);
  }

  // A position in the window stays as far back; one outside stays outside.
  lemma HitLowered(t: seq<byte>, pos: nat, n: nat, size: nat, q: nat, sub: nat)
    requires 0 < pos && q < pos && pos + n <= |t| && size > 0 && sub <= Floor(pos, size)
    ensures var q', pos' := SaturSub(q, sub), pos - sub; var d, d' := pos - q, pos' - q';
      if d < (if pos < size then pos else size) then
        && d' == d && d' < (if pos' < size then pos' else size)
        && Lcp(t[sub..], pos' - d', pos', n) == Lcp(t, pos - d, pos, n)
      else d' >= if pos' < size then pos' else size
  {
    hide Lcp;
    if pos - q < (if pos < size then pos else size) && sub <= q {
      LcpShift(t, q, pos, n, sub);
    }
  }

  lemma ReportedAlike(p: Params, a: Scene, b: Scene, sub: nat, n: nat, found: seq<Found>)
    requires Alike(p, a, b, sub)
    ensures Reported(p.crc, p.hashMask, a.text, a.pos, n, p.size, p.cut, a.trees, found)
      <==> Reported(p.crc, p.hashMask, b.text, b.pos, n, p.size, p.cut, b.trees, found)
  {
    hide Heap, HeadIx, Nodes, Shorts, Dist2, Dist3, Matches, Shift;
    if 4 <= n && a.pos + n <= |a.text| {
      var h := HeadIx(p.crc, a.text, a.pos, p.hashMask);
      HeadBound(p.crc, a.text, a.pos, p.hashMask);
      HeadShift(p.crc, p.hashMask, a.text, a.pos, sub);
      ShortsLowered(p.crc, a.text, a.pos, n, p.size, sub);
      HeapBounds(a.trees[h], Floor(a.pos, p.size), a.pos);
      var s := Shorts(a.text, a.pos, n, p.size, Dist2(p.crc, a.text, a.pos), Dist3(p.crc, a.text, a.pos));
      ShiftMatches(a.trees[h], a.text, a.pos, n, p.cut, s.maxLen, Floor(a.pos, p.size), sub);
    }
  }

  // Normalisation does not show: after any number of positions Bt4 reports what it would report if no
  // position were ever lowered.
  lemma NormalisationInvisible(p: Params, k: Scene, num: nat, n: nat, found: seq<Found>)
    requires Fresh(p, k) && k.pos + num <= |k.text|
    ensures var plain, lowered := RunPlain(p, k, num), Run(p, k, num);
      Reported(p.crc, p.hashMask, plain.text, plain.pos, n, p.size, p.cut, plain.trees, found)
      <==> Reported(p.crc, p.hashMask, lowered.text, lowered.pos, n, p.size, p.cut, lowered.trees, found)
  {
    hide Fresh, Alike, RunPlain, Run, Reported;
    var sub := RunAlike(p, k, num);
    ReportedAlike(p, RunPlain(p, k, num), Run(p, k, num), sub, n, found);
  }

  // The same for Hc4, whose reports depend on the text and the position only.
  lemma ChainReportedLowered(crc: seq<nat>, hashMask: nat, t: seq<byte>, pos: nat, n: nat, size: nat, cut: nat,
      found: seq<Found>, sub: nat)
    requires size > 0 && sub <= Floor(pos, size) && pos <= |t|
    ensures ChainReported(crc, hashMask, t, pos, n, size, cut, found)
      <==> ChainReported(crc, hashMask, t[sub..], pos - sub, n, size, cut, found)
  {
    hide HeadIx, Shorts, Dist2, Dist3, Records, Members, Before;
    FloorLowered(size, pos, sub);
    if |crc| == 256 && 4 <= n && 0 < pos && pos + n <= |t| {
      var lo, h := Floor(pos, size), HeadIx(crc, t, pos, hashMask);
      HeadShift(crc, hashMask, t, pos, sub);
      ShortsLowered(crc, t, pos, n, size, sub);
      var s := Shorts(t, pos, n, size, Dist2(crc, t, pos), Dist3(crc, t, pos));
      ShiftRecords(crc, hashMask, t, lo, pos, h, pos, n, cut, s.maxLen, sub);
    }
  }
}
