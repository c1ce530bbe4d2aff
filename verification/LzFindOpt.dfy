// The two forms of BtGetMatches's inner part: GetMatchesSpec1 once per position, and
// GetMatchesSpecN_2 over the whole batch with its shortcut for long matches. Both leave the
// same array and write the same list.
module LzFindOpt {
  import opened Words
  import opened LzTree
  import opened LzSon
  import opened LzFind
  import opened LzForest

  // The pairs of one position as they are written: twice their number, then each length and distance.
  function Flat(found: seq<Found>): (r: seq<nat>)
    ensures |r| == 2 * |found|
  {
    if found == [] then [] else [found[0].len, found[0].dist] + Flat(found[1..])
  }

  function Listed(found: seq<Found>): seq<nat> {
    [2 * |found|] + Flat(found)
  }

  // The list starts with its own length; then lengths and distances alternate.
  lemma {:induction false} ListedAt(found: seq<Found>, i: nat)
    requires i < |found|
    ensures var s := Listed(found);
      && |s| == 1 + s[0] && s[0] == 2 * |found|
      && s[2 * i + 1] == found[i].len && s[2 * i + 2] == found[i].dist
    decreases |found|
  {
    if i > 0 {
      ListedAt(found[1..], i - 1);
    }
  }

  // The son array, the hash heads, the trees, and what has been written.
  datatype Batch = Batch(son: seq<nat>, heads: seq<nat>, trees: seq<Tree>, d: seq<nat>)

  ghost predicate Sound(b: Batch, g: Ring, t: seq<byte>, pos: nat, n: nat) {
    && g.size > 0 && n > 0 && pos > 0 && |b.son| == 2 * g.size
    && Forest(b.son, g, Floor(pos, g.size), pos, t, n, b.heads, b.trees)
  }

  lemma SoundSearch(b: Batch, g: Ring, t: seq<byte>, pos: nat, n: nat, h: nat)
    requires Sound(b, g, t, pos, n) && pos + n <= |t| && h < |b.heads|
    ensures |b.trees| == |b.heads| && Searchable(b.son, g, t, pos, n, b.heads[h], b.trees[h])
  {
    assert Bucket(b.son, g, Floor(pos, g.size), pos, t, n, b.heads[h], b.trees[h]);
  }

  lemma SoundForest(b: Batch, g: Ring, t: seq<byte>, pos: nat, n: nat)
    requires Sound(b, g, t, pos, n)
    ensures g.size > 0 && n > 0 && pos > 0 && |b.son| == 2 * g.size
      && Forest(b.son, g, Floor(pos, g.size), pos, t, n, b.heads, b.trees)
  {
    hide Forest;
  }

  lemma ForestSound(b: Batch, g: Ring, t: seq<byte>, pos: nat, n: nat)
    requires g.size > 0 && n > 0 && pos > 0 && |b.son| == 2 * g.size
    requires Forest(b.son, g, Floor(pos, g.size), pos, t, n, b.heads, b.trees)
    ensures Sound(b, g, t, pos, n)
  {
    hide Forest;
  }

  // The batch once the position has gone into bucket h.
  ghost function Entered(b: Batch, g: Ring, pos: nat, h: nat, son: seq<nat>, s: Split, found: seq<Found>): Batch
    requires h < |b.heads| == |b.trees|
  {
    Batch(son, b.heads[h := pos], PruneAll(b.trees[h := Node(pos, s.less, s.greater)], Floor(pos + 1, g.size)),
          b.d + Listed(found))
  }

  lemma EnteredSound(b: Batch, g: Ring, t: seq<byte>, pos: nat, n: nat, cut: nat, best: nat, h: nat)
    requires Sound(b, g, t, pos, n) && pos + n <= |t| && h < |b.heads|
    ensures |b.trees| == |b.heads| && forall x <- Nodes(b.trees[h]) :: x + n <= |t| && x < pos
    ensures g.size > 0 && |b.son| == 2 * g.size
    ensures var tree := b.trees[h];
      var son := Walk(b.son, g, tree, t, pos, n, cut, Cell(pos, 1), Cell(pos, 0));
      var r := Entered(b, g, pos, h, son, SplitAt(tree, t, pos, n, cut), Matches(tree, t, pos, n, cut, best));
      Sound(r, g, t, pos + 1, n)
  {
    hide Sound, Walk, SplitAt, Matches, Nodes, Forest, Inserted, Searchable, PruneAll, Listed, Holds, Heap, Sorted;
    SoundForest(b, g, t, pos, n);
    SoundSearch(b, g, t, pos, n, h);
    SearchableParts(b.son, g, t, pos, n, b.heads[h], b.trees[h]);
    var tree := b.trees[h];
    var son := Walk(b.son, g, tree, t, pos, n, cut, Cell(pos, 1), Cell(pos, 0));
    WalkInserts(b.son, g, t, pos, n, b.heads[h], tree, cut);
    ForestInsert(b.son, son, g, t, pos, n, cut, b.heads, b.trees, h);
    var s := SplitAt(tree, t, pos, n, cut);
    ForestMoves(son, g, Floor(pos, g.size), pos + 1, t, n, b.heads[h := pos],
                b.trees[h := Node(pos, s.less, s.greater)], Floor(pos + 1, g.size), pos + 1, n);
    ForestSound(Entered(b, g, pos, h, son, s, Matches(tree, t, pos, n, cut, best)), g, t, pos + 1, n);
  }

  // One position by GetMatchesSpec1, head h of the hash.
  ghost function OneMore(b: Batch, g: Ring, t: seq<byte>, pos: nat, n: nat, cut: nat, best: nat, h: nat): (r: Batch)
    requires Sound(b, g, t, pos, n) && pos + n <= |t| && h < |b.heads|
    ensures Sound(r, g, t, pos + 1, n) && |r.heads| == |b.heads|
  {
    EnteredSound(b, g, t, pos, n, cut, best, h);
    var tree := b.trees[h];
    var son := Walk(b.son, g, tree, t, pos, n, cut, Cell(pos, 1), Cell(pos, 0));
    Entered(b, g, pos, h, son, SplitAt(tree, t, pos, n, cut), Matches(tree, t, pos, n, cut, best))
  }

  // The first k positions from pos on, whose heads are hs, one after another.
  ghost function After(b: Batch, g: Ring, t: seq<byte>, pos: nat, n: nat, cut: nat, best: nat, hs: seq<nat>, k: nat)
      : (r: Batch)
    requires Sound(b, g, t, pos, n) && k <= |hs| && pos + |hs| - 1 + n <= |t| && HeadsIn(hs, |b.heads|)
    ensures Sound(r, g, t, pos + k, n) && |r.heads| == |b.heads|
    decreases k
  {
    if k == 0 then b else
      var r := After(b, g, t, pos, n, cut, best, hs, k - 1);
      var h := hs[k - 1];
      assert h < |r.heads|;
      var r' := OneMore(r, g, t, pos + k - 1, n, cut, best, h);
      assert |r'.heads| == |b.heads|;
      r'
  }

  lemma AfterMore(b: Batch, g: Ring, t: seq<byte>, pos: nat, n: nat, cut: nat, best: nat, hs: seq<nat>, k: nat)
    requires Sound(b, g, t, pos, n) && k < |hs| && pos + |hs| - 1 + n <= |t| && HeadsIn(hs, |b.heads|)
    ensures After(b, g, t, pos, n, cut, best, hs, k + 1)
      == OneMore(After(b, g, t, pos, n, cut, best, hs, k), g, t, pos + k, n, cut, best, hs[k])
  {
    hide OneMore, Sound;
  }

  predicate HeadsIn(hs: seq<nat>, buckets: nat) {
    forall i :: 0 <= i < |hs| ==> hs[i] < buckets
  }

  // The hash thread's delta for a head, whose own numbering may have been lowered at other times: exact
  // inside the window, and outside it anything that is known to be outside.
  predicate DeltaFor(size: nat, pos: nat, head: nat, delta: nat) {
    && 0 < delta && (pos < size ==> delta <= pos)
    && if head > Floor(pos, size) then head < pos && delta == pos - head else delta >= Cbs(size, pos)
  }

  // The reference that stands for a delta.
  function RefOf(pos: nat, delta: nat): nat {
    if delta <= pos then pos - delta else 0
  }

  // The hash thread's deltas: how far back each position's head was when its turn came.
  ghost predicate Deltas(deltas: seq<nat>, b: Batch, g: Ring, t: seq<byte>, pos: nat, n: nat, cut: nat,
      best: nat, hs: seq<nat>) {
    && Sound(b, g, t, pos, n) && |hs| == |deltas| && pos + |hs| - 1 + n <= |t| && best < n && cut > 0
    && HeadsIn(hs, |b.heads|)
    && (forall i :: 0 <= i < |deltas| ==>
      DeltaFor(g.size, pos + i, After(b, g, t, pos, n, cut, best, hs, i).heads[hs[i]], deltas[i]))
  }

  // The batch after the first k positions.
  ghost function Upto(deltas: seq<nat>, b: Batch, g: Ring, t: seq<byte>, pos: nat, n: nat, cut: nat, best: nat,
      hs: seq<nat>, k: nat): (r: Batch)
    requires Deltas(deltas, b, g, t, pos, n, cut, best, hs) && k <= |deltas|
    ensures g.size > 0 && |r.son| == 2 * g.size && |r.heads| == |r.trees| == |b.heads|
  {
    After(b, g, t, pos, n, cut, best, hs, k)
  }

  // k positions have been dealt with; the list was below its limit before each but the first.
  ghost predicate Stopped(k: nat, d: seq<nat>, limit: nat, deltas: seq<nat>, b: Batch, g: Ring, t: seq<byte>, pos: nat,
      n: nat, cut: nat, best: nat, hs: seq<nat>)
    requires Deltas(deltas, b, g, t, pos, n, cut, best, hs)
  {
    && k <= |deltas| && (k == |deltas| || |d| >= limit)
    && forall j :: 0 < j < k ==> |Upto(deltas, b, g, t, pos, n, cut, best, hs, j).d| < limit
  }

  // ---------- GetMatchesSpec1 for every position ----------

  // The form without the batch takes deltas up to the position only: it computes the reference pos - delta.
  method OneByOne(t: seq<byte>, n: nat, pos0: nat, son: array<nat>, cutValue: nat, maxLen: nat,
      deltas: seq<nat>, limit: nat,
                  cyc0: nat, size: nat, ghost g: Ring, ghost b: Batch, ghost hs: seq<nat>)
      returns (d: seq<nat>, posRes: nat)
    requires Deltas(deltas, b, g, t, pos0, n, cutValue, maxLen, hs) && b.son == son[..] && b.d == []
    requires size == g.size && cyc0 == Slot(g, pos0) && cyc0 + |deltas| <= size && limit > 0
    requires forall i :: 0 <= i < |deltas| ==> deltas[i] <= pos0 + i
    modifies son
    ensures pos0 <= posRes <= pos0 + |deltas|
      && Stopped(posRes - pos0, d, limit, deltas, b, g, t, pos0, n, cutValue, maxLen, hs)
    ensures var r := Upto(deltas, b, g, t, pos0, n, cutValue, maxLen, hs, posRes - pos0); son[..] == r.son && d == r.d
  {
    hide Sound, OneMore, Walk, Matches, SplitAt, Inserted, Searchable, Slot, Nodes, Forest, Upto, Listed, Deltas, Lcp;
    d, posRes := [], pos0;
    var k := 0;
    DeltasParts(deltas, b, g, t, pos0, n, cutValue, maxLen, hs);
    UptoNone(deltas, b, g, t, pos0, n, cutValue, maxLen, hs);
    while k < |deltas| && |d| < limit
      invariant k <= |deltas| && posRes == pos0 + k
      invariant var r := Upto(deltas, b, g, t, pos0, n, cutValue, maxLen, hs, k); son[..] == r.son && d == r.d
      invariant forall j :: 0 < j < k ==> |Upto(deltas, b, g, t, pos0, n, cutValue, maxLen, hs, j).d| < limit
    {
      ghost var r := Upto(deltas, b, g, t, pos0, n, cutValue, maxLen, hs, k);
      SlotOn(g, pos0, k);
      Turn(deltas, b, g, t, pos0, n, cutValue, maxLen, hs, k);
      var found := GetMatchesSpec1(t, n, posRes - deltas[k], posRes, son, cyc0 + k, size, cutValue,
                                   maxLen, g, r.trees[hs[k]]);
      d := d + Listed(found);
      posRes, k := posRes + 1, k + 1;
    }
  }

  lemma DeltasParts(deltas: seq<nat>, b: Batch, g: Ring, t: seq<byte>, pos: nat, n: nat, cut: nat,
      best: nat, hs: seq<nat>)
    requires Deltas(deltas, b, g, t, pos, n, cut, best, hs)
    ensures n > 0 && pos > 0 && g.size > 0 && |b.son| == 2 * g.size && Sound(b, g, t, pos, n) && |hs| == |deltas|
    ensures pos + |hs| - 1 + n <= |t| && best < n && cut > 0 && HeadsIn(hs, |b.heads|)
  {
  }

  lemma UptoNone(deltas: seq<nat>, b: Batch, g: Ring, t: seq<byte>, pos: nat, n: nat, cut: nat, best: nat, hs: seq<nat>)
    requires Deltas(deltas, b, g, t, pos, n, cut, best, hs)
    ensures Upto(deltas, b, g, t, pos, n, cut, best, hs, 0) == b
  {
  }

  // From r to r' by one search of head h's tree at pos, delta back.
  ghost predicate Searched(r: Batch, r': Batch, g: Ring, t: seq<byte>, pos: nat, n: nat, cut: nat,
      best: nat, h: nat, delta: nat) {
    && |r.trees| == |r.heads| && h < |r.heads| && g.size > 0 && |r.son| == 2 * g.size
    && 0 < delta && (pos < g.size ==> delta <= pos)
    && Searchable(r.son, g, t, pos, n, RefOf(pos, delta), r.trees[h])
    && pos + n <= |t| && (forall x <- Nodes(r.trees[h]) :: x + n <= |t| && x < pos)
    && r'.son == Walk(r.son, g, r.trees[h], t, pos, n, cut, Cell(pos, 1), Cell(pos, 0))
    && r'.d == r.d + Listed(Matches(r.trees[h], t, pos, n, cut, best))
  }

  // The k-th position's turn: what there is to search, and what the batch is afterwards.
  lemma Turn(deltas: seq<nat>, b: Batch, g: Ring, t: seq<byte>, pos: nat, n: nat, cut: nat,
      best: nat, hs: seq<nat>, k: nat)
    requires Deltas(deltas, b, g, t, pos, n, cut, best, hs) && k < |deltas|
    ensures k < |hs|
    ensures Searched(Upto(deltas, b, g, t, pos, n, cut, best, hs, k),
                     Upto(deltas, b, g, t, pos, n, cut, best, hs, k + 1),
                     g, t, pos + k, n, cut, best, hs[k], deltas[k])
  {
    hide OneMore, Sound, Walk, Matches, Nodes, Searchable, After, Listed;
    var r := After(b, g, t, pos, n, cut, best, hs, k);
    AfterMore(b, g, t, pos, n, cut, best, hs, k);
    OneMoreIs(r, g, t, pos + k, n, cut, best, hs[k]);
    Rehead(r.son, g, t, pos + k, n, r.heads[hs[k]], deltas[k], r.trees[hs[k]]);
  }

  // References outside the window are all the same.
  lemma Rehead(son: seq<nat>, g: Ring, t: seq<byte>, pos: nat, n: nat, head: nat, delta: nat, tree: Tree)
    requires Searchable(son, g, t, pos, n, head, tree) && DeltaFor(g.size, pos, head, delta)
    ensures Searchable(son, g, t, pos, n, RefOf(pos, delta), tree)
  {
    hide Lcp, Leq, PairIx;
  }

  // Inside a batch the slots do not wrap.
  lemma SlotOn(g: Ring, pos: nat, k: nat)
    requires g.size > 0 && Slot(g, pos) + k < g.size
    ensures Slot(g, pos + k) == Slot(g, pos) + k
  {
    var x := pos + g.off;
    ModUnique(x, g.size, x / g.size, x % g.size);
    ModUnique(x + k, g.size, x / g.size, x % g.size + k);
  }

  lemma OneMoreIs(b: Batch, g: Ring, t: seq<byte>, pos: nat, n: nat, cut: nat, best: nat, h: nat)
    requires Sound(b, g, t, pos, n) && pos + n <= |t| && h < |b.heads|
    ensures |b.trees| == |b.heads| && Searchable(b.son, g, t, pos, n, b.heads[h], b.trees[h])
    ensures g.size > 0 && |b.son| == 2 * g.size && forall x <- Nodes(b.trees[h]) :: x + n <= |t| && x < pos
    ensures var r := OneMore(b, g, t, pos, n, cut, best, h);
      && r.son == Walk(b.son, g, b.trees[h], t, pos, n, cut, Cell(pos, 1), Cell(pos, 0))
      && r.d == b.d + Listed(Matches(b.trees[h], t, pos, n, cut, best))
  {
    hide Walk, Matches, SplitAt, Forest, Holds, Heap, Lcp;
    SoundSearch(b, g, t, pos, n, h);
    SearchableParts(b.son, g, t, pos, n, b.heads[h], b.trees[h]);
  }

  // ---------- GetMatchesSpecN_2 ----------

  // min(cyclicBufferSize, pos)
  function Cbs(size: nat, pos: nat): nat {
    if pos < size then pos else size
  }

  // A reference is outside the window exactly when its distance reaches cbs.
  lemma WindowByDelta(size: nat, pos: nat, ref: nat)
    requires ref <= pos && size > 0
    ensures pos - ref >= Cbs(size, pos) <==> ref <= Floor(pos, size)
  {
  }

  lemma PairByDelta(g: Ring, lo: nat, pos: nat, q: nat)
    requires g.size > 0 && lo == Floor(pos, g.size) && lo < q < pos && (pos < g.size ==> Slot(g, pos) == pos)
    ensures var cyc := Slot(g, pos); var delta := pos - q;
      PairIx(g, q) == 2 * (cyc - delta + (if cyc < delta then Cbs(g.size, pos) else 0))
  {
    PairAt(g, lo, pos, q);
  }

  // One position's search, with distances instead of references; full when the walk ended on
  // an equal node, at distance delta.
  method TreeIterations(t: seq<byte>, n: nat, pos: nat, son: array<nat>, cutValue: nat, maxLen0: nat,
      delta0: nat, cyc: nat, cbs: nat,
                        ghost g: Ring, ghost tree: Tree)
      returns (found: seq<Found>, full: bool, delta: nat)
    requires delta0 <= pos && Searchable(son[..], g, t, pos, n, pos - delta0, tree) && cutValue > 0 && maxLen0 < n
    requires cyc == Slot(g, pos) && (pos < g.size ==> cyc == pos) && cbs == Cbs(g.size, pos) && delta0 < cbs
    modifies son
    ensures pos + n <= |t| && forall x <- Nodes(tree) :: x + n <= |t| && x < pos
    ensures found == Matches(tree, t, pos, n, cutValue, maxLen0)
    ensures son[..] == Walk(old(son[..]), g, tree, t, pos, n, cutValue, Cell(pos, 1), Cell(pos, 0))
    ensures full ==> 0 < delta < cbs && Lcp(t, pos - delta, pos, n) == n
  {
    hide Lcp, Leq, Holds, Heap, Sorted, Nodes, Walking, Walk, Matches, Slot, Searchable, Here;
    SearchableParts(son[..], g, t, pos, n, pos - delta0, tree);
    ghost var was, lo := son[..], Floor(pos, g.size);
    WalkStart(was, g, lo, t, pos, n, pos - delta0, tree);
    var cut: nat, maxLen: nat := cutValue, maxLen0;
    var e := Ends(2 * cyc + 1, 2 * cyc, 0, 0);
    ghost var rem, w := tree, Walker(Cell(pos, 1), Cell(pos, 0), Nowhere, Nowhere);
    found, full, delta := [], false, delta0;
    WalkingParts(was, g, lo, t, pos, n, pos - delta, rem, w.p0, w.p1, 0, 0, w.lower, w.upper);
    WindowByDelta(g.size, pos, pos - delta);
    ghost var all := Matches(tree, t, pos, n, cutValue, maxLen0);
    ghost var end := Walk(was, g, tree, t, pos, n, cutValue, w.p0, w.p1);
    while true
      invariant delta <= pos
        && Walking(son[..], g, lo, t, pos, n, pos - delta, rem, w.p0, w.p1, e.len0, e.len1, w.lower, w.upper)
      invariant e.ptr0 == CellIx(g, w.p0) && e.ptr1 == CellIx(g, w.p1)
      invariant forall x <- Nodes(rem) :: x + n <= |t| && x < pos
      invariant rem.Node? && cut > 0 && delta < cbs && maxLen < n
      invariant all == found + Matches(rem, t, pos, n, cut, maxLen)
      invariant end == Walk(son[..], g, rem, t, pos, n, cut, w.p0, w.p1)
      decreases cut
    {
      var curMatch := pos - delta;
      WalkingParts(son[..], g, lo, t, pos, n, curMatch, rem, w.p0, w.p1, e.len0, e.len1, w.lower, w.upper);
      PairByDelta(g, lo, pos, curMatch);
      MatchNext(all, found, rem, t, pos, n, cut, maxLen);
      var pair := 2 * (cyc - delta + (if cyc < delta then cbs else 0));
      var len := CommonLength(t, curMatch, pos, n, if e.len0 < e.len1 then e.len0 else e.len1);
      found := found + Here(len, delta - 1, maxLen);
      if maxLen < len {
        maxLen := len;
        if len == n {
          WalkNext(son[..], g, rem, t, pos, n, cut, w.p0, w.p1);
          TakeOver(son, e.ptr0, e.ptr1, pair, son[pair], g, w.p0, w.p1, curMatch);
          full := true;
          return;
        }
      }
      var next;
      next, e, rem, w := Descend(t, n, pos, son, curMatch, len, pair, e, g, lo, cut, rem, w);
      // the NULL exit is not taken
      assert next < curMatch;
      delta := pos - next;
      cut := cut - 1;
      WalkingParts(son[..], g, lo, t, pos, n, next, rem, w.p0, w.p1, e.len0, e.len1, w.lower, w.upper);
      WindowByDelta(g.size, pos, next);
      if cut == 0 || delta >= cbs {
        WalkNext(son[..], g, rem, t, pos, n, cut, w.p0, w.p1);
        MatchNext(all, found, rem, t, pos, n, cut, maxLen);
        son[e.ptr0] := 0;
        son[e.ptr1] := 0;
        return;
      }
    }
  }

  // Equal to the limit, and on the next byte too, is equal to the limit one position on.
  lemma LongOn(t: seq<byte>, q: nat, pos: nat, n: nat)
    requires n > 0 && q + n < |t| && pos + n < |t| && Lcp(t, q, pos, n) == n && t[q + n] == t[pos + n]
    ensures Lcp(t, q + 1, pos + 1, n) == n
  {
    hide Lcp;
    LcpIs(t, q, pos, n);
    var q', pos' := q + 1, pos + 1;
    forall i | 0 <= i < n
      ensures At(t, q', i) == At(t, pos', i)
    {
      if i + 1 < n {
        assert At(t, q, i + 1) == At(t, pos, i + 1);
      }
    }
    assert IsLcp(t, q + 1, pos + 1, n, n);
    LcpUnique(t, q + 1, pos + 1, n, n);
  }

  // A search whose head is equal to the limit copies the head's pair and reports just it.
  lemma LongSearch(son: seq<nat>, g: Ring, t: seq<byte>, pos: nat, n: nat, q: nat, tree: Tree, cut: nat, best: nat)
    requires Searchable(son, g, t, pos, n, q, tree) && Floor(pos, g.size) < q < pos && q + n <= |t|
      && Lcp(t, q, pos, n) == n && cut > 0 && best < n
    ensures pos + n <= |t| && (forall x <- Nodes(tree) :: x + n <= |t| && x < pos) && |son| == 2 * g.size && g.size > 0
    ensures Walk(son, g, tree, t, pos, n, cut, Cell(pos, 1), Cell(pos, 0))
      == son[CellIx(g, Cell(pos, 0)) := son[PairIx(g, q)]][CellIx(g, Cell(pos, 1)) := son[PairIx(g, q) + 1]]
    ensures Listed(Matches(tree, t, pos, n, cut, best)) == [2, n, pos - q - 1]
  {
    hide Lcp, PairIx, CellIx, Walk, Matches, Holds, Heap, Sorted, Nodes;
    SearchableParts(son, g, t, pos, n, q, tree);
    HoldsRoot(son, g, Floor(pos, g.size), q, tree);
    WalkNext(son, g, tree, t, pos, n, cut, Cell(pos, 1), Cell(pos, 0));
    MatchNext(Matches(tree, t, pos, n, cut, best), [], tree, t, pos, n, cut, best);
    assert Flat([Found(n, pos - q - 1)][1..]) == [];
  }

  // lenLimit[diff] and lenLimit[0] for the position at hand.
  predicate GoesOn(t: seq<byte>, n: nat, pos: nat, delta: nat) {
    delta <= pos && pos + n < |t| && t[pos - delta + n] == t[pos + n]
  }

  // The shortcut: while the next head is just as far back and the match goes on, the pair is
  // copied without a search. k is the last position dealt with.
  method LongMatches(t: seq<byte>, n: nat, pos0: nat, son: array<nat>, cutValue: nat, maxLen: nat, deltas: seq<nat>,
      limit: nat, cyc0: nat, cbs: nat,
                     delta: nat, k0: nat, d0: seq<nat>, ghost g: Ring, ghost b: Batch, ghost hs: seq<nat>)
      returns (k: nat, d: seq<nat>)
    requires Deltas(deltas, b, g, t, pos0, n, cutValue, maxLen, hs) && k0 < |deltas|
    requires cyc0 == Slot(g, pos0) && cyc0 + |deltas| <= g.size && (pos0 < g.size ==> cyc0 == pos0)
    requires cbs == Cbs(g.size, pos0 + k0) && 0 < delta < cbs && Lcp(t, pos0 + k0 - delta, pos0 + k0, n) == n
    requires var r := Upto(deltas, b, g, t, pos0, n, cutValue, maxLen, hs, k0 + 1); son[..] == r.son && d0 == r.d
    requires forall j :: 0 < j <= k0 ==> |Upto(deltas, b, g, t, pos0, n, cutValue, maxLen, hs, j).d| < limit
    modifies son
    ensures k0 <= k < |deltas|
    ensures var r := Upto(deltas, b, g, t, pos0, n, cutValue, maxLen, hs, k + 1); son[..] == r.son && d == r.d
    ensures forall j :: 0 < j <= k ==> |Upto(deltas, b, g, t, pos0, n, cutValue, maxLen, hs, j).d| < limit
  {
    hide Sound, OneMore, Walk, Matches, SplitAt, Searchable, Slot, Nodes, Forest, Upto, Listed, Deltas, Lcp, GoesOn;
    DeltasParts(deltas, b, g, t, pos0, n, cutValue, maxLen, hs);
    k, d := k0, d0;
    while k + 1 < |deltas| && deltas[k + 1] == delta && GoesOn(t, n, pos0 + k, delta) && |d| < limit
      invariant k0 <= k < |deltas| && Lcp(t, pos0 + k - delta, pos0 + k, n) == n
      invariant var r := Upto(deltas, b, g, t, pos0, n, cutValue, maxLen, hs, k + 1); son[..] == r.son && d == r.d
      invariant forall j :: 0 < j <= k ==> |Upto(deltas, b, g, t, pos0, n, cutValue, maxLen, hs, j).d| < limit
    {
      LongTurn(deltas, b, g, t, pos0, n, cutValue, maxLen, hs, k, delta, cbs, k0);
      SlotOn(g, pos0, k + 1);
      d := d + [2, n, delta - 1];
      k := k + 1;
      var cyc := cyc0 + k;
      var dest := 2 * cyc;
      var diff: int := if cyc < delta then cbs - delta else 0 - delta;
      var src := dest + 2 * diff;
      var p0, p1 := son[src], son[src + 1];
      son[dest] := p0;
      son[dest + 1] := p1;
    }
  }

  // From r to r' by copying a pair: src and cyc as the shortcut computes them.
  ghost predicate Copied(r: Batch, r': Batch, cyc: nat, delta: nat, cbs: nat, n: nat) {
    var src := 2 * cyc + 2 * (if cyc < delta then cbs - delta else 0 - delta);
    && 0 <= src && src + 1 < |r.son| && 2 * cyc + 1 < |r.son|
    && r'.son == r.son[2 * cyc := r.son[src]][2 * cyc + 1 := r.son[src + 1]] && r'.d == r.d + [2, n, delta - 1]
  }

  lemma LongTurn(deltas: seq<nat>, b: Batch, g: Ring, t: seq<byte>, pos0: nat, n: nat, cut: nat, best: nat,
      hs: seq<nat>, k: nat, delta: nat, cbs: nat, k0: nat)
    requires Deltas(deltas, b, g, t, pos0, n, cut, best, hs) && k0 <= k && k + 1 < |deltas| && deltas[k + 1] == delta
    requires g.size > 0 && Slot(g, pos0) + |deltas| <= g.size && (pos0 < g.size ==> Slot(g, pos0) == pos0)
    requires cbs == Cbs(g.size, pos0 + k0) && 0 < delta < cbs && GoesOn(t, n, pos0 + k, delta)
    requires pos0 + k + n <= |t| && delta <= pos0 + k && Lcp(t, pos0 + k - delta, pos0 + k, n) == n
    ensures pos0 + k + 1 + n <= |t| && Lcp(t, pos0 + k + 1 - delta, pos0 + k + 1, n) == n
    ensures Copied(Upto(deltas, b, g, t, pos0, n, cut, best, hs, k + 1),
                   Upto(deltas, b, g, t, pos0, n, cut, best, hs, k + 2),
      Slot(g, pos0) + k + 1, delta, cbs, n)
  {
    hide Sound, OneMore, Walk, Matches, Searchable, Slot, Nodes, Upto, Listed, Deltas, Lcp;
    DeltasParts(deltas, b, g, t, pos0, n, cut, best, hs);
    var pos := pos0 + k + 1;
    Turn(deltas, b, g, t, pos0, n, cut, best, hs, k + 1);
    LongOn(t, pos0 + k - delta, pos0 + k, n);
    SlotOn(g, pos0, k + 1);
    var r := Upto(deltas, b, g, t, pos0, n, cut, best, hs, k + 1);
    LongSearch(r.son, g, t, pos, n, pos - delta, r.trees[hs[k + 1]], cut, best);
    PairAt(g, Floor(pos, g.size), pos, pos - delta);
    PairsApart(g, pos, pos - delta);
  }

  // The batched search with its shortcut: what it leaves and writes is what GetMatchesSpec1
  // leaves and writes, one position after another, and neither NULL exit is taken.
  method GetMatchesSpecN_2(t: seq<byte>, n: nat, pos0: nat, son: array<nat>, cutValue: nat, maxLen: nat,
      deltas: seq<nat>, limit: nat,
                           cyc0: nat, size: nat, ghost g: Ring, ghost b: Batch, ghost hs: seq<nat>)
      returns (d: seq<nat>, posRes: nat)
    requires Deltas(deltas, b, g, t, pos0, n, cutValue, maxLen, hs) && b.son == son[..] && b.d == []
    requires size == g.size && cyc0 == Slot(g, pos0) && cyc0 + |deltas| <= size
      && (pos0 < size ==> cyc0 == pos0) && limit > 0
    modifies son
    ensures pos0 <= posRes <= pos0 + |deltas|
      && Stopped(posRes - pos0, d, limit, deltas, b, g, t, pos0, n, cutValue, maxLen, hs)
    ensures var r := Upto(deltas, b, g, t, pos0, n, cutValue, maxLen, hs, posRes - pos0); son[..] == r.son && d == r.d
  {
    hide Sound, OneMore, Walk, Matches, SplitAt, Inserted, Searchable, Slot, Nodes, Forest, Upto, Listed, Deltas, Lcp;
    d := [];
    var k := 0;
    DeltasParts(deltas, b, g, t, pos0, n, cutValue, maxLen, hs);
    UptoNone(deltas, b, g, t, pos0, n, cutValue, maxLen, hs);
    while k < |deltas| && |d| < limit
      invariant k <= |deltas|
      invariant var r := Upto(deltas, b, g, t, pos0, n, cutValue, maxLen, hs, k); son[..] == r.son && d == r.d
      invariant forall j :: 0 < j < k ==> |Upto(deltas, b, g, t, pos0, n, cutValue, maxLen, hs, j).d| < limit
      decreases |deltas| - k
    {
      ghost var r := Upto(deltas, b, g, t, pos0, n, cutValue, maxLen, hs, k);
      SlotOn(g, pos0, k);
      Turn(deltas, b, g, t, pos0, n, cutValue, maxLen, hs, k);
      var pos, cyc, delta := pos0 + k, cyc0 + k, deltas[k];
      // delta == 0, and delta > pos before the window is full, would return NULL
      assert 0 < delta && (pos < size ==> delta <= pos);
      var cbs := if pos < size then pos else size;
      WindowByDelta(size, pos, RefOf(pos, delta));
      if delta >= cbs {
        OutOfWindow(r.son, g, t, pos, n, RefOf(pos, delta), r.trees[hs[k]], cutValue, maxLen);
        d := d + [0];
        son[2 * cyc] := 0;
        son[2 * cyc + 1] := 0;
        OrderOfZeros(r.son, 2 * cyc);
      } else {
        var found, full, last := TreeIterations(t, n, pos, son, cutValue, maxLen, delta, cyc, cbs, g, r.trees[hs[k]]);
        d := d + Listed(found);
        if full {
          k, d := LongMatches(t, n, pos0, son, cutValue, maxLen, deltas, limit, cyc0, cbs, last, k, d, g, b, hs);
        }
      }
      k := k + 1;
    }
    posRes := pos0 + k;
  }

  lemma OrderOfZeros(son: seq<nat>, i: nat)
    requires i + 1 < |son|
    ensures son[i := 0][i + 1 := 0] == son[i + 1 := 0][i := 0]
  {
  }

  lemma OutOfWindow(son: seq<nat>, g: Ring, t: seq<byte>, pos: nat, n: nat, q: nat, tree: Tree, cut: nat, best: nat)
    requires Searchable(son, g, t, pos, n, q, tree) && q <= Floor(pos, g.size)
    ensures pos + n <= |t| && (forall x <- Nodes(tree) :: x + n <= |t| && x < pos) && g.size > 0 && |son| == 2 * g.size
    ensures Walk(son, g, tree, t, pos, n, cut, Cell(pos, 1), Cell(pos, 0))
      == son[CellIx(g, Cell(pos, 1)) := 0][CellIx(g, Cell(pos, 0)) := 0]
    ensures Listed(Matches(tree, t, pos, n, cut, best)) == [0]
  {
    hide Lcp, PairIx, CellIx;
    SearchableParts(son, g, t, pos, n, q, tree);
  }

  // The two forms stop at the same position with the same list and the same array.
  lemma SameBatch(deltas: seq<nat>, b: Batch, g: Ring, t: seq<byte>, pos: nat, n: nat, cut: nat, best: nat,
      hs: seq<nat>, limit: nat, k1: nat, k2: nat)
    requires Deltas(deltas, b, g, t, pos, n, cut, best, hs) && b.d == [] && limit > 0
      && k1 <= |deltas| && k2 <= |deltas|
    requires Stopped(k1, Upto(deltas, b, g, t, pos, n, cut, best, hs, k1).d, limit, deltas, b, g,
                     t, pos, n, cut, best, hs)
    requires Stopped(k2, Upto(deltas, b, g, t, pos, n, cut, best, hs, k2).d, limit, deltas, b, g,
                     t, pos, n, cut, best, hs)
    ensures k1 == k2
  {
    hide Deltas, Upto;
    UptoNone(deltas, b, g, t, pos, n, cut, best, hs);
    if 0 < k1 < k2 {
      NotFullBefore(deltas, b, g, t, pos, n, cut, best, hs, limit, k2, k1);
    } else if 0 < k2 < k1 {
      NotFullBefore(deltas, b, g, t, pos, n, cut, best, hs, limit, k1, k2);
    }
  }

  lemma NotFullBefore(deltas: seq<nat>, b: Batch, g: Ring, t: seq<byte>, pos: nat, n: nat, cut: nat, best: nat,
      hs: seq<nat>, limit: nat, k: nat, j: nat)
    requires Deltas(deltas, b, g, t, pos, n, cut, best, hs) && 0 < j < k <= |deltas|
    requires Stopped(k, Upto(deltas, b, g, t, pos, n, cut, best, hs, k).d, limit, deltas, b, g,
                     t, pos, n, cut, best, hs)
    ensures |Upto(deltas, b, g, t, pos, n, cut, best, hs, j).d| < limit
  {
    hide Deltas, Upto;
  }
}
