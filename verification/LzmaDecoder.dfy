// The decode macros of LzmaDec.c: bits, bit trees, matched literals, lengths and distances,
// each read by LZMA_DECODE_REAL's code and matched against the reader it stands for.
module LzmaDecoder {
  import opened Words
  import opened Masks
  import opened LzmaContexts
  import opened LzmaLayout
  import opened RangeCoder
  import opened ProbArrays
  import opened LzmaSymbols
  import opened LzmaDryRun
  import opened LzmaMasks

  // The locals range, code and buf of LZMA_DECODE_REAL.
  datatype Regs = Regs(range: nat, code: nat, buf: nat)

  // The locals and the array, with the decoder they stand for named.
  ghost predicate Reads(probs: array<nat>, src: seq<byte>, g: Regs, lits: nat, d: RcDec)
    reads probs
  {
    && probs.Length == DecProbs(lits)
    && d == RcDec(g.range, g.code, g.buf, DecView(probs[..], lits), src, false)
    && DecOk(d)
  }

  // NORMALIZE; a byte past the end reads as zero, and the callers show that none is.
  function Normalized(g: Regs, src: seq<byte>): Regs {
    if g.range < TOP_VALUE then Regs(g.range * 256, W32(g.code * 256 + ByteAt(src, g.buf)), g.buf + 1) else g
  }

  lemma LearnArray(a: seq<nat>, lits: nat, c: Ctx, b: bit)
    requires |a| == DecProbs(lits) && ProbsOk(DecView(a, lits)) && ValidCtx(c, lits)
    ensures DecIx(c) < |a| && 31 <= a[DecIx(c)] <= 2017 && Prob(DecView(a, lits), c) == a[DecIx(c)]
    ensures var v := Adapt(a[DecIx(c)], b);
      v >= 0 && DecView(a[DecIx(c) := v], lits) == Updated(DecView(a, lits), c, b)
        && ProbsOk(DecView(a[DecIx(c) := v], lits))
  {
    DecViewUpdate(a, lits, c, 0);
    ProbOk(DecView(a, lits), c, b);
    DecViewUpdate(a, lits, c, Adapt(a[DecIx(c)], b));
  }

  // IF_BIT_0 with UPDATE_0 in one branch and UPDATE_1 in the other.
  method GetBit(probs: array<nat>, src: seq<byte>, g0: Regs, ghost d: RcDec, ix: nat, ghost c: Ctx, ghost lits: nat)
      returns (b: bit, g: Regs)
    requires Reads(probs, src, g0, lits, d) && ValidCtx(c, lits) && ix == DecIx(c)
    modifies probs
    ensures b == DecBit(d, c).0 && Reads(probs, src, g, lits, DecBit(d, c).1)
  {
    hide DecView, DecIx, ValidCtx;
    LearnArray(probs[..], lits, c, 0);
    LearnArray(probs[..], lits, c, 1);
    var ttt := probs[ix];
    g := Normalized(g0, src);
    BoundOk(g.range, ttt);
    var bound := (g.range / 2048) * ttt;
    if g.code < bound {
      g := g.(range := bound);
      probs[ix] := ttt + (2048 - ttt) / 32;
      b := 0;
    } else {
      g := g.(range := g.range - bound, code := g.code - bound);
      probs[ix] := ttt - ttt / 32;
      b := 1;
    }
  }

  // TREE_DECODE: from node i0, n bits; the result keeps the leading one.
  method TreeDecode(probs: array<nat>, src: seq<byte>, g0: Regs, ghost d0: RcDec, base: nat, limit: nat, ghost n0: nat,
      ghost t: TreeId, ghost lits: nat)
      returns (v: nat, g: Regs)
    requires Reads(probs, src, g0, lits, d0) && limit == Pow2(n0)
    requires forall m :: 1 <= m < Pow2(n0) ==> ValidCtx(Node(t, m), lits) && DecIx(Node(t, m)) == base + m
    modifies probs
    ensures v == TreeDec(d0, t, 1, n0).v && Reads(probs, src, g, lits, TreeDec(d0, t, 1, n0).d)
  {
    hide Reads, DecBit, ValidCtx, DecIx, Pow2, TreeDec;
    var i: nat := 1;
    g := g0;
    ghost var d, n: nat := d0, n0;
    TreeDecStart(n0);
    while i < limit
      invariant Reads(probs, src, g, lits, d) && n <= n0
      invariant TreeNode(i, n, n0)
      invariant TreeDec(d0, t, 1, n0).d == TreeDec(d, t, i, n).d
      invariant TreeDec(d0, t, 1, n0).v + limit == TreeDec(d, t, i, n).v + i * Pow2(n)
      decreases n
    {
      TreeNodeMore(i, n, n0, limit);
      TreeDecStep(d, t, i, n);
      var b: bit;
      b, g := GetBit(probs, src, g, d, base + i, Node(t, i), lits);
      d := DecBit(d, Node(t, i)).1;
      i := 2 * i + b;
      n := n - 1;
      TreeNodeNext(i, n, n0, b);
    }
    TreeNodeMore(i, n, n0, limit);
    TreeDecEnd(d, t, i);
    v := i - limit;
  }

  ghost predicate TreeNode(i: nat, n: nat, n0: nat) {
    n <= n0 && Pow2(n0 - n) <= i < 2 * Pow2(n0 - n)
  }

  lemma TreeDecStart(n0: nat)
    ensures TreeNode(1, n0, n0)
  {
    assert Pow2(0) == 1;
  }

  lemma TreeNodeMore(i: nat, n: nat, n0: nat, limit: nat)
    requires TreeNode(i, n, n0) && limit == Pow2(n0)
    ensures i < limit <==> n > 0
    ensures i >= 1 && (n == 0 ==> i >= limit)
  {
    if n > 0 {
      Pow2Mono(n0 - n + 1, n0);
    }
  }

  lemma TreeNodeNext(j: nat, n: nat, n0: nat, b: bit)
    requires n < n0 && j >= b && (j - b) % 2 == 0 && TreeNode((j - b) / 2, n + 1, n0)
    ensures TreeNode(j, n, n0)
  {
    assert Pow2(n0 - n) == 2 * Pow2(n0 - n - 1);
  }

  lemma TreeDecStep(d: RcDec, t: TreeId, m: nat, n: nat)
    requires n > 0
    ensures var (b, d1) := DecBit(d, Node(t, m)); var rest := TreeDec(d1, t, 2 * m + b, n - 1);
      && TreeDec(d, t, m, n).d == rest.d
      && TreeDec(d, t, m, n).v + m * Pow2(n) == rest.v + (2 * m + b) * Pow2(n - 1)
  {
    hide DecBit;
    var p := Pow2(n - 1);
    var b := DecBit(d, Node(t, m)).0;
    assert Pow2(n) == 2 * p;
    assert (2 * m + b) * p == m * (2 * p) + b * p;
  }

  lemma TreeDecEnd(d: RcDec, t: TreeId, m: nat)
    ensures TreeDec(d, t, m, 0) == Read(0, d) && Pow2(0) == 1
  {
  }

  // ---------- reverse trees ----------

  lemma DecNodeSnoc(p: seq<bit>, b: bit)
    ensures DecNode([]) == 1 && DecNode(p + [b]) == DecNode(p) + Pow2(|p|) * (1 + b)
    decreases p
  {
    if p == [] {
      assert (p + [b])[1..] == [];
      assert DecNode([b]) == 2 + b;
    } else {
      DecNodeSnoc(p[1..], b);
      assert (p + [b])[1..] == p[1..] + [b];
      assert 2 * (Pow2(|p| - 1) * (1 + b)) == Pow2(|p|) * (1 + b);
    }
  }

  lemma RevDecStep(d: RcDec, r: RevId, path: seq<bit>, n: nat)
    requires n > 0
    ensures var (b, d1) := DecBit(d, RevNode(r, path)); var rest := RevDec(d1, r, path + [b], n - 1);
      RevDec(d, r, path, n) == Read(b + 2 * rest.v, rest.d)
  {
  }

  // What has been read so far and what is still to come add up to the whole value.
  ghost predicate RevSum(whole: nat, path: seq<bit>, rest: nat) {
    whole + Pow2(|path|) == DecNode(path) + Pow2(|path|) * rest
  }

  lemma RevSumStep(whole: nat, path: seq<bit>, b: bit, rest: nat)
    requires RevSum(whole, path, b + 2 * rest)
    ensures RevSum(whole, path + [b], rest)
  {
    DecNodeSnoc(path, b);
    var p := Pow2(|path|);
    assert Pow2(|path + [b]|) == 2 * p;
    assert p * (b + 2 * rest) == p * b + (2 * p) * rest;
    assert p * (1 + b) == p + p * b;
  }

  // REV_BIT_VAR: the distance itself walks the tree, base and node together.
  method RevDecode(probs: array<nat>, src: seq<byte>, g0: Regs, ghost d0: RcDec, base: nat, numBits: nat,
      ghost r: RevId, ghost lits: nat)
      returns (distance: nat, g: Regs)
    requires Reads(probs, src, g0, lits, d0) && numBits > 0
    requires forall p: seq<bit> :: |p| < numBits
               ==> ValidCtx(RevNode(r, p), lits) && DecIx(RevNode(r, p)) == base + DecNode(p)
    modifies probs
    ensures distance == base + RevDec(d0, r, [], numBits).v && Reads(probs, src, g, lits, RevDec(d0, r, [], numBits).d)
  {
    hide Reads, DecBit, ValidCtx, DecIx, RevDec, RevSum, DecNode;
    var m: nat, left: nat := 1, numBits;
    distance := base + 1;
    g := g0;
    ghost var d, path: seq<bit> := d0, [];
    ghost var whole := RevDec(d0, r, [], numBits);
    RevSumBegin(whole.v);
    while left != 0
      invariant Reads(probs, src, g, lits, d) && left + |path| == numBits
      invariant distance == base + DecNode(path) && m == Pow2(|path|)
      invariant RevSum(whole.v, path, RevDec(d, r, path, left).v) && whole.d == RevDec(d, r, path, left).d
    {
      RevDecStep(d, r, path, left);
      var b: bit;
      b, g := GetBit(probs, src, g, d, distance, RevNode(r, path), lits);
      DecNodeSnoc(path, b);
      if b == 0 {
        distance := distance + m;
        m := m + m;
      } else {
        m := m + m;
        distance := distance + m;
      }
      d := DecBit(d, RevNode(r, path)).1;
      RevSumStep(whole.v, path, b, RevDec(d, r, path + [b], left - 1).v);
      path := path + [b];
      left := left - 1;
    }
    RevSumEnd(whole.v, path, d, r);
    distance := distance - m;
  }

  lemma RevSumBegin(whole: nat)
    ensures RevSum(whole, [], whole) && DecNode([]) == 1 && Pow2(0) == 1
  {
  }

  lemma RevSumEnd(whole: nat, path: seq<bit>, d: RcDec, r: RevId)
    ensures RevDec(d, r, path, 0) == Read(0, d)
    ensures RevSum(whole, path, 0) ==> DecNode(path) == whole + Pow2(|path|)
  {
  }

  // The unrolled align tree: REV_BIT_CONST with 1, 2 and 4, then REV_BIT_LAST.
  method AlignDecode(probs: array<nat>, src: seq<byte>, g0: Regs, ghost d0: RcDec, ghost lits: nat)
      returns (i: nat, g: Regs)
    requires Reads(probs, src, g0, lits, d0)
    modifies probs
    ensures i == RevDec(d0, AlignTree, [], 4).v < 16 && Reads(probs, src, g, lits, RevDec(d0, AlignTree, [], 4).d)
  {
    hide Reads, DecBit, RevDec, Pow2, DecNode;
    var b: bit;
    ghost var d := d0;
    AlignIx([], lits);
    RevDecStep(d, AlignTree, [], 4);
    i := 1;
    b, g := GetBit(probs, src, g0, d, ALIGN + i, RevNode(AlignTree, []), lits);
    d := DecBit(d, RevNode(AlignTree, [])).1;
    i := if b == 0 then i + 1 else i + 2;
    ghost var p1 := [] + [b];
    AlignIx(p1, lits);
    RevDecStep(d, AlignTree, p1, 3);
    b, g := GetBit(probs, src, g, d, ALIGN + i, RevNode(AlignTree, p1), lits);
    d := DecBit(d, RevNode(AlignTree, p1)).1;
    i := if b == 0 then i + 2 else i + 4;
    ghost var p2 := p1 + [b];
    AlignIx(p2, lits);
    RevDecStep(d, AlignTree, p2, 2);
    b, g := GetBit(probs, src, g, d, ALIGN + i, RevNode(AlignTree, p2), lits);
    d := DecBit(d, RevNode(AlignTree, p2)).1;
    i := if b == 0 then i + 4 else i + 8;
    ghost var p3 := p2 + [b];
    AlignIx(p3, lits);
    RevDecStep(d, AlignTree, p3, 1);
    b, g := GetBit(probs, src, g, d, ALIGN + i, RevNode(AlignTree, p3), lits);
    d := DecBit(d, RevNode(AlignTree, p3)).1;
    RevSumEnd(0, p3 + [b], d, AlignTree);
    i := if b == 0 then i - 8 else i;
  }

  // The node numbers of the align tree for paths of up to three bits.
  lemma AlignIx(p: seq<bit>, lits: nat)
    requires |p| < 4
    ensures ValidCtx(RevNode(AlignTree, p), lits)
    ensures DecIx(RevNode(AlignTree, p)) == ALIGN + (if |p| == 0 then 1 else if |p| == 1 then 2 + Int(p[0])
      else if |p| == 2 then 4 + Int(p[0]) + 2 * Int(p[1]) else 8 + Int(p[0]) + 2 * Int(p[1]) + 4 * Int(p[2]))
  {
    if |p| > 0 {
      DecNodeSnoc(p[..|p| - 1], p[|p| - 1]);
      assert p == p[..|p| - 1] + [p[|p| - 1]];
      assert Pow2(0) == 1 && Pow2(1) == 2 && Pow2(2) == 4;
      AlignIx(p[..|p| - 1], lits);
    }
  }

  function Int(b: bit): int {
    b
  }

  // ---------- direct bits ----------

  // The bits read so far and the left bits still to come make up total.
  ghost predicate Joined(total: nat, x: nat, left: nat, rest: nat) {
    total == x * Pow2(left) + rest
  }

  // The loop that subtracts half the range and looks at the sign.
  method DirectDecode(probs: array<nat>, src: seq<byte>, g0: Regs, ghost d0: RcDec, distance0: nat,
      numBits: nat, ghost lits: nat)
      returns (distance: nat, g: Regs)
    requires Reads(probs, src, g0, lits, d0) && 0 < numBits <= 26 && distance0 < 4
    ensures distance == distance0 * Pow2(numBits) + DirectDec(d0, numBits).v
    ensures Reads(probs, src, g, lits, DirectDec(d0, numBits).d)
  {
    hide DirectDec, DecDirect, DecView, Pow2, And, Normalized, Joined, ProbsOk;
    g := g0;
    distance := distance0;
    var left: nat := numBits;
    ghost var d := d0;
    ghost var whole := DirectDec(d0, numBits);
    ghost var total := DirectTotal(distance0, numBits, whole.v);
    while left != 0
      invariant Reads(probs, src, g, lits, d) && left <= numBits
      invariant Joined(total, distance, left, DirectDec(d, left).v) && whole.d == DirectDec(d, left).d
      invariant distance < 4 * Pow2(numBits - left)
      decreases left
    {
      DirectDecStep(d, left);
      DirectRegs(g, src, d);
      g := Normalized(g, src);
      var half := g.range / 2;
      var code := W32(g.code - half);
      var t := W32(0 - code / 0x8000_0000);
      DistanceBit(total, distance, left, numBits, DecDirect(d).0, DirectDec(DecDirect(d).1, left - 1).v);
      distance := W32(distance * 2 + (t + 1));
      g := Regs(half, W32(code + And(half, t)), g.buf);
      d := DecDirect(d).1;
      left := left - 1;
    }
    DirectDecEnd(d, total, distance);
  }

  ghost function DirectTotal(x: nat, n: nat, rest: nat): (total: nat)
    ensures total == x * Pow2(n) + rest && Joined(total, x, n, rest) && Pow2(0) == 1 && x * Pow2(0) == x
  {
    x * Pow2(n) + rest
  }

  lemma DirectDecStep(d: RcDec, n: nat)
    requires n > 0
    ensures var (b, d1) := DecDirect(d);
      DirectDec(d, n) == Read(b * Pow2(n - 1) + DirectDec(d1, n - 1).v, DirectDec(d1, n - 1).d)
  {
  }

  lemma DirectDecEnd(d: RcDec, total: nat, x: nat)
    ensures DirectDec(d, 0) == Read(0, d)
    ensures Joined(total, x, 0, 0) ==> total == x
  {
  }

  // The sign mask restores the code when half the range was too much.
  lemma SignMask(half: nat, diff: nat)
    requires half < TWO_32 && diff < TWO_32
    ensures var t := W32(0 - diff / 0x8000_0000);
      && And(half, t) == (if diff >= 0x8000_0000 then half else 0)
      && W32(t + 1) == (if diff >= 0x8000_0000 then 0 else 1)
  {
    AndOnes(half);
    AndZero(half);
    if diff >= 0x8000_0000 {
      assert diff / 0x8000_0000 == 1;
    } else {
      assert diff / 0x8000_0000 == 0;
    }
  }

  lemma DirectRegs(g: Regs, src: seq<byte>, d: RcDec)
    requires d.range == g.range && d.code == g.code && d.pos == g.buf && d.src == src && DecOk(d)
    ensures var n := Normalized(g, src); var half := n.range / 2; var code := W32(n.code - half);
      var t := W32(0 - code / 0x8000_0000);
      && var (b, d1) := DecDirect(d);
      && d1 == d.(range := half, code := W32(code + And(half, t)), pos := n.buf) && DecOk(d1)
      && W32(t + 1) == b
  {
    hide And, ProbsOk;
    var n := Normalized(g, src);
    NormalizedOk(g, src, d);
    hide Normalized, Norm;
    var half := n.range / 2;
    SignMask(half, W32(n.code - half));
    if W32(n.code - half) >= 0x8000_0000 {
      AddBack(n.code, half);
    }
  }

  lemma AddBack(code: nat, half: nat)
    requires code < TWO_32 && half < TWO_32
    ensures W32(W32(code - half) + half) == code
  {
    assert W32(code - half) == if code >= half then code - half else code - half + TWO_32;
  }

  lemma NormalizedOk(g: Regs, src: seq<byte>, d: RcDec)
    requires d.range == g.range && d.code == g.code && d.pos == g.buf && d.src == src && DecOk(d)
    ensures var n := Normalized(g, src); Norm(d) == d.(range := n.range, code := n.code, pos := n.buf)
    ensures TOP_VALUE <= Normalized(g, src).range < TWO_32 && Normalized(g, src).code < TWO_32
  {
  }

  lemma DistanceBit(total: nat, x: nat, left: nat, n: nat, b: bit, rest: nat)
    requires 0 < left <= n <= 26 && x < 4 * Pow2(n - left)
    requires Joined(total, x, left, b * Pow2(left - 1) + rest)
    ensures x * 2 + b < TWO_32 && x * 2 + b < 4 * Pow2(n - (left - 1))
    ensures Joined(total, x * 2 + b, left - 1, rest)
  {
    hide Pow2;
    Pow2Start(n - (left - 1));
    Pow2Start(left);
    Pow2Mono(n - (left - 1), 30);
    Pow2Consts();
    Shifted(x, b, Pow2(left - 1));
  }

  lemma Shifted(x: nat, b: bit, p: nat)
    ensures x * (2 * p) + b * p == (x * 2 + b) * p
  {
  }

  // ---------- literals after a match ----------

  // What is still to be read of a literal: predicted while offs is 0x100, plain afterwards.
  ghost function LitToCome(d: RcDec, l: nat, m: nat, n: nat, mb: nat, offs: nat): Read<nat>
    requires mb < Pow2(n)
  {
    if offs == 0x100 then MatchedDec(d, l, m, n, mb) else TreeDec(d, LitTree(l), m, n)
  }

  // The masks of one MATCHED_LITER_DEC: where it looks, and whether the prediction goes on.
  lemma MatchedMasks(l: nat, m: nat, n: nat, mb: nat, matchByte: nat, offs: nat, b: bit, lits: nat)
    requires n > 0 && MatchAt(mb, n, matchByte) && (offs == 0 || offs == 0x100) && l < lits && 1 <= m < 0x100
    ensures mb < Pow2(n)
    ensures var o := And(offs, matchByte * 2); var c := LitNode(l, m, n, mb, offs);
      && ValidCtx(c, lits) && DecIx(c) == LITERAL + LIT_SIZE * l + o + offs + m
      && (if b == 0 then Xor(o, offs) else o) == (if offs == 0x100 && TopBit(n, mb) == b then 0x100 else 0)
  {
    hide And, Xor, MatchAt, TopBit, Pow2;
    MatchGo(mb, n, matchByte);
    Pow2Consts();
    XorFlag();
    AndZero(matchByte * 2);
    AndBit(matchByte * 2, 8);
  }

  lemma XorFlag()
    ensures Xor(0x100, 0x100) == 0 && Xor(0, 0x100) == 0x100 && Xor(0, 0) == 0
  {
    assert Xor(0x10, 0x10) == 0 && Xor(0, 0x10) == 0x10;
  }

  lemma LitToComeStep(d: RcDec, l: nat, m: nat, n: nat, mb: nat, offs: nat)
    requires n > 0 && mb < Pow2(n)
    ensures var (b, d1) := DecBit(d, LitNode(l, m, n, mb, offs));
      var rest := LitToCome(d1, l, 2 * m + b, n - 1, LowBits(n, mb),
                            if offs == 0x100 && TopBit(n, mb) == b then 0x100 else 0);
      && LitToCome(d, l, m, n, mb, offs).d == rest.d
      && LitToCome(d, l, m, n, mb, offs).v + m * Pow2(n) == rest.v + (2 * m + b) * Pow2(n - 1)
  {
    hide DecBit, TopBit, LowBits;
    var b := DecBit(d, LitNode(l, m, n, mb, offs)).0;
    assert (2 * m + b) * Pow2(n - 1) == m * (2 * Pow2(n - 1)) + b * Pow2(n - 1);
  }

  lemma LitToComeEnd(d: RcDec, l: nat, m: nat, mb: nat, offs: nat)
    requires mb < Pow2(0)
    ensures LitToCome(d, l, m, 0, mb, offs) == Read(0, d) && m * Pow2(0) == m
  {
  }

  // MATCHED_LITER_DEC eight times; symbol keeps the leading one.
  method MatchedLiteral(probs: array<nat>, src: seq<byte>, g0: Regs, ghost d0: RcDec, prob: nat, matchByte0: byte,
      ghost l: nat, ghost lits: nat)
      returns (symbol: nat, g: Regs)
    requires Reads(probs, src, g0, lits, d0) && l < lits && prob == LITERAL + LIT_SIZE * l
    modifies probs
    ensures Pow2(8) == 256
    ensures symbol == 0x100 + MatchedDec(d0, l, 1, 8, matchByte0).v
      && Reads(probs, src, g, lits, MatchedDec(d0, l, 1, 8, matchByte0).d)
  {
    hide Reads, DecBit, ValidCtx, DecIx, Pow2, LitToCome, LitNode, And, Xor, MatchAt, TopBit,
      LowBits, TreeNode, MatchedDec;
    LitToComeBegin(d0, l, matchByte0);
    var matchByte: nat, offs: nat := matchByte0, 0x100;
    symbol := 1;
    g := g0;
    ghost var d, n: nat, mb: nat := d0, 8, matchByte0;
    ghost var whole := MatchedDec(d0, l, 1, 8, matchByte0);
    while symbol < 0x100
      invariant Reads(probs, src, g, lits, d) && n <= 8
      invariant TreeNode(symbol, n, 8) && MatchAt(mb, n, matchByte) && mb < Pow2(n) && (offs == 0 || offs == 0x100)
      invariant whole.d == LitToCome(d, l, symbol, n, mb, offs).d
      invariant whole.v + 0x100 == LitToCome(d, l, symbol, n, mb, offs).v + symbol * Pow2(n)
      decreases n
    {
      TreeNodeMore(symbol, n, 8, 0x100);
      LitToComeStep(d, l, symbol, n, mb, offs);
      MatchGo(mb, n, matchByte);
      ghost var c := LitNode(l, symbol, n, mb, offs);
      ghost var read := DecBit(d, c).0;
      MatchedMasks(l, symbol, n, mb, matchByte, offs, read, lits);
      matchByte := matchByte + matchByte;
      var bit := offs;
      offs := And(offs, matchByte);
      var b: bit;
      b, g := GetBit(probs, src, g, d, prob + (offs + bit + symbol), c, lits);
      d := DecBit(d, c).1;
      if b == 0 {
        offs := Xor(offs, bit);
      }
      symbol := 2 * symbol + b;
      mb := LowBits(n, mb);
      n := n - 1;
      TreeNodeNext(symbol, n, 8, b);
      MatchStays(mb, n, matchByte);
    }
    TreeNodeMore(symbol, n, 8, 0x100);
    LitToComeEnd(d, l, symbol, mb, offs);
  }

  lemma MatchStays(mb: nat, n: nat, matchByte: nat)
    requires MatchAt(mb, n, matchByte)
    ensures mb < Pow2(n)
  {
  }

  lemma LitToComeBegin(d: RcDec, l: nat, mb: byte)
    ensures Pow2(8) == 256 && LitToCome(d, l, 1, 8, mb, 0x100) == MatchedDec(d, l, 1, 8, mb)
    ensures MatchAt(mb, 8, mb) && TreeNode(1, 8, 8)
  {
    Pow2Consts();
    MatchBegin(mb);
    TreeDecStart(8);
  }

  // ---------- lengths ----------

  lemma LenChoices(rep: bool, lits: nat)
    ensures Pow2(3) == 8 && Pow2(8) == 256
    ensures ValidCtx(LenChoice(rep), lits) && DecIx(LenChoice(rep)) == LenIx(rep, REP_LEN_CODER, LEN_CODER)
    ensures ValidCtx(LenChoice2(rep), lits) && DecIx(LenChoice2(rep)) == LenIx(rep, REP_LEN_CODER, LEN_CODER) + 8
  {
    Pow2Consts();
  }

  lemma LowNodes(rep: bool, ps: nat, lits: nat)
    requires ps < 16
    ensures forall m :: 1 <= m < Pow2(3) ==>
      ValidCtx(Node(LowTree(rep, ps), m), lits)
        && DecIx(Node(LowTree(rep, ps), m)) == LenIx(rep, REP_LEN_CODER, LEN_CODER) + 16 * ps + m
  {
    Pow2Consts();
  }

  lemma MidNodes(rep: bool, ps: nat, lits: nat)
    requires ps < 16
    ensures forall m :: 1 <= m < Pow2(3) ==>
      ValidCtx(Node(MidTree(rep, ps), m), lits)
        && DecIx(Node(MidTree(rep, ps), m)) == LenIx(rep, REP_LEN_CODER, LEN_CODER) + 16 * ps + 8 + m
  {
    Pow2Consts();
  }

  lemma HighNodes(rep: bool, lits: nat)
    ensures forall m :: 1 <= m < Pow2(8) ==>
      ValidCtx(Node(HighTree(rep), m), lits)
        && DecIx(Node(HighTree(rep), m)) == LenIx(rep, REP_LEN_CODER, LEN_CODER) + 256 + m
  {
    Pow2Consts();
  }

  // The length part of LZMA_DECODE_REAL; posState is the position state times 16.
  method LenDecode(probs: array<nat>, src: seq<byte>, g0: Regs, ghost d0: RcDec, prob: nat, posState: nat,
      ghost rep: bool, ghost ps: nat, ghost lits: nat)
      returns (len: nat, g: Regs)
    requires Reads(probs, src, g0, lits, d0) && ps < 16 && posState == 16 * ps
      && prob == LenIx(rep, REP_LEN_CODER, LEN_CODER)
    modifies probs
    ensures len == LenDec(d0, rep, ps).v && Reads(probs, src, g, lits, LenDec(d0, rep, ps).d)
  {
    hide Reads, DecBit, ValidCtx, DecIx, Pow2, TreeDec;
    LenChoices(rep, lits);
    var b: bit;
    b, g := GetBit(probs, src, g0, d0, prob, LenChoice(rep), lits);
    ghost var d := DecBit(d0, LenChoice(rep)).1;
    if b == 0 {
      LowNodes(rep, ps, lits);
      len, g := TreeDecode(probs, src, g, d, prob + posState, 8, 3, LowTree(rep, ps), lits);
    } else {
      b, g := GetBit(probs, src, g, d, prob + 8, LenChoice2(rep), lits);
      d := DecBit(d, LenChoice2(rep)).1;
      if b == 0 {
        MidNodes(rep, ps, lits);
        len, g := TreeDecode(probs, src, g, d, prob + posState + 8, 8, 3, MidTree(rep, ps), lits);
        len := len + 8;
      } else {
        HighNodes(rep, lits);
        len, g := TreeDecode(probs, src, g, d, prob + 256, 256, 8, HighTree(rep), lits);
        len := len + 16;
      }
    }
  }

  // ---------- distances ----------

  lemma SlotNodesDec(ls: nat, lits: nat)
    requires ls < 4
    ensures Pow2(6) == 64
    ensures forall m :: 1 <= m < Pow2(6)
              ==> ValidCtx(Node(SlotTree(ls), m), lits) && DecIx(Node(SlotTree(ls), m)) == POS_SLOT + 64 * ls + m
  {
    Pow2Consts();
  }

  lemma SpecNodesDec(slot: nat, lits: nat)
    requires 4 <= slot < 14
    ensures forall p: seq<bit> :: |p| < FooterBits(slot) ==>
      ValidCtx(RevNode(SpecTree(slot), p), lits) && DecIx(RevNode(SpecTree(slot), p)) == SlotBase(slot) + DecNode(p)
  {
  }

  // The distance part; len is the length minus 2.
  method DistDecode(probs: array<nat>, src: seq<byte>, g0: Regs, ghost d0: RcDec, len: nat, ghost lits: nat)
      returns (distance: nat, g: Regs)
    requires Reads(probs, src, g0, lits, d0)
    modifies probs
    ensures distance == DistDec(d0, LenState(len + 2)).v && Reads(probs, src, g, lits, DistDec(d0, LenState(len + 2)).d)
  {
    hide Reads, DecBit, ValidCtx, DecIx, Pow2, TreeDec, FooterDec, SlotBase, Pending, Run, TreeEvs, ProbsOk;
    var ls := if len < 4 then len else 3;
    SlotNodesDec(ls, lits);
    distance, g := TreeDecode(probs, src, g0, d0, POS_SLOT + 64 * ls, 64, 6, SlotTree(ls), lits);
    ghost var d := TreeDec(d0, SlotTree(ls), 1, 6).d;
    TreeSound(d0, SlotTree(ls), 1, 6);
    SlotParts(distance, d);
    if distance >= 14 {
      distance, g := FarFooter(probs, src, g, d, distance, lits);
    } else if distance >= 4 {
      distance, g := NearFooter(probs, src, g, d, distance, lits);
    }
  }

  // Slots 4 to 13: the whole footer is a reverse tree.
  method NearFooter(probs: array<nat>, src: seq<byte>, g0: Regs, ghost d: RcDec, posSlot: nat, ghost lits: nat)
      returns (distance: nat, g: Regs)
    requires Reads(probs, src, g0, lits, d) && 4 <= posSlot < 14
    modifies probs
    ensures distance == SlotBase(posSlot) + FooterDec(d, posSlot).v
      && Reads(probs, src, g, lits, FooterDec(d, posSlot).d)
  {
    hide Reads, ValidCtx, DecIx, Pow2, RevDec;
    var numDirectBits := posSlot / 2 - 1;
    distance := (2 + posSlot % 2) * Pow2(numDirectBits);
    SpecNodesDec(posSlot, lits);
    distance, g := RevDecode(probs, src, g0, d, distance, numDirectBits, SpecTree(posSlot), lits);
  }

  // Slots from 14: direct bits, then the align tree in the low four bits, which are still zero.
  method FarFooter(probs: array<nat>, src: seq<byte>, g0: Regs, ghost d: RcDec, posSlot: nat, ghost lits: nat)
      returns (distance: nat, g: Regs)
    requires Reads(probs, src, g0, lits, d) && 14 <= posSlot < 64
    modifies probs
    ensures distance == SlotBase(posSlot) + FooterDec(d, posSlot).v
      && Reads(probs, src, g, lits, FooterDec(d, posSlot).d)
  {
    hide Reads, Pow2, RevDec, DirectDec, SlotBase;
    var numDirectBits := posSlot / 2 - 1 - 4;
    distance := 2 + posSlot % 2;
    ghost var hi := DirectDec(d, numDirectBits);
    DistWhole(posSlot, distance, hi.v, RevDec(hi.d, AlignTree, [], 4).v);
    distance, g := DirectDecode(probs, src, g0, d, distance, numDirectBits, lits);
    var i: nat;
    i, g := AlignDecode(probs, src, g, hi.d, lits);
    distance := distance * 16 + i;
  }

  lemma SlotParts(slot: nat, d: RcDec)
    requires slot < Pow2(6)
    ensures slot < 64 && (slot < 4 ==> SlotBase(slot) == slot && FooterDec(d, slot) == Read(0, d))
  {
    Pow2Consts();
  }

  lemma DistWhole(slot: nat, x: nat, hi: nat, i: nat)
    requires 14 <= slot < 64 && x == 2 + slot % 2
    ensures FooterBits(slot) >= 4 && (x * Pow2(FooterBits(slot) - 4) + hi) * 16 + i == SlotBase(slot) + (hi * 16 + i)
  {
    AlignSplit(slot);
    var q := Pow2(FooterBits(slot) - 4);
    assert x * (16 * q) == (x * q) * 16;
  }
}
