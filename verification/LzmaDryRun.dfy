// What makes LzmaDec_TryDummy and LZMA_REQUIRED_INPUT_MAX right: no symbol asks for the same
// context twice, and no symbol is more than 22 modelled and 26 direct bits.
module LzmaDryRun {
  import opened Words
  import opened LzmaContexts
  import opened LzmaLayout
  import opened RangeCoder
  import opened LzmaSymbols

  // ---------- the shape of a symbol's events ----------

  function Models(evs: seq<Event>): nat {
    if evs == [] then 0 else (if evs[0].Model? then 1 else 0) + Models(evs[1..])
  }

  function Directs(evs: seq<Event>): nat {
    if evs == [] then 0 else (if evs[0].Direct? then 1 else 0) + Directs(evs[1..])
  }

  lemma {:induction false} CountConcat(a: seq<Event>, b: seq<Event>)
    ensures Models(a + b) == Models(a) + Models(b) && Directs(a + b) == Directs(a) + Directs(b)
  {
    if a == [] {
      assert a + b == b;
    } else {
      assert (a + b)[1..] == a[1..] + b;
      CountConcat(a[1..], b);
    }
  }

  // No context is asked for twice.
  ghost predicate Fresh(evs: seq<Event>) {
    forall i, j :: 0 <= i < j < |evs| && evs[i].Model? && evs[j].Model? ==> evs[i].ctx != evs[j].ctx
  }

  // Which part of a symbol a context belongs to.
  function Kind(c: Ctx): nat {
    match c
    case IsMatch(_, _) => 0
    case IsRep(_) => 1
    case IsRepG0(_) => 2
    case IsRepG1(_) => 2
    case IsRepG2(_) => 2
    case IsRep0Long(_, _) => 2
    case LenChoice(_) => 3
    case LenChoice2(_) => 3
    case Node(LowTree(_, _), _) => 4
    case Node(MidTree(_, _), _) => 4
    case Node(HighTree(_), _) => 4
    case Node(SlotTree(_), _) => 5
    case Node(LitTree(_), _) => 6
    case MatchedNode(_, _, _) => 6
    case RevNode(_, _) => 7
  }

  ghost predicate Within(evs: seq<Event>, lo: nat, hi: nat) {
    forall i :: 0 <= i < |evs| && evs[i].Model? ==> lo <= Kind(evs[i].ctx) <= hi
  }

  ghost predicate AllValid(evs: seq<Event>, lits: nat) {
    forall i :: 0 <= i < |evs| && evs[i].Model? ==> ValidCtx(evs[i].ctx, lits)
  }

  ghost predicate Tidy(evs: seq<Event>, lo: nat, hi: nat, models: nat, directs: nat, lits: nat) {
    Fresh(evs) && Within(evs, lo, hi) && AllValid(evs, lits) && Models(evs) <= models && Directs(evs) <= directs
  }

  lemma TidyConcat(a: seq<Event>, lo: nat, mid: nat, am: nat, ad: nat, b: seq<Event>, mid': nat, hi: nat,
      bm: nat, bd: nat, lits: nat)
    requires Tidy(a, lo, mid, am, ad, lits) && Tidy(b, mid', hi, bm, bd, lits) && lo <= mid < mid' <= hi
    ensures Tidy(a + b, lo, hi, am + bm, ad + bd, lits)
  {
    CountConcat(a, b);
  }

  lemma EmptyTidy(k: nat, lits: nat)
    ensures Tidy([], k, k, 0, 0, lits)
  {
  }

  function TreeSize(t: TreeId): nat {
    match t
    case LitTree(_) => 0x100
    case LowTree(_, _) => 8
    case MidTree(_, _) => 8
    case HighTree(_) => 0x100
    case SlotTree(_) => 64
  }

  predicate TreeOk(t: TreeId, lits: nat) {
    ValidTreeNode(t, 1, lits)
  }

  lemma HeightStep(m: nat, b: bit, n: nat, size: nat)
    requires n > 0 && (m + 1) * Pow2(n) <= 2 * size
    ensures m < size && (2 * m + b + 1) * Pow2(n - 1) <= 2 * size
  {
    var p := Pow2(n - 1);
    assert (m + 1) * Pow2(n) == (2 * m + 2) * p;
    assert (2 * m + b + 1) * p <= (2 * m + 2) * p;
    assert (m + 1) * p >= m + 1;
  }

  // Every event of a tree is a node of that tree from m down.
  ghost predicate TreeNodes(evs: seq<Event>, t: TreeId, m: nat) {
    forall i :: 0 <= i < |evs| ==> evs[i].Model? && evs[i].ctx.Node? && evs[i].ctx.tree == t && evs[i].ctx.m >= m
  }

  lemma {:induction false} TreeTidy(t: TreeId, m: nat, n: nat, v: nat, lits: nat)
    requires 1 <= m && v < Pow2(n) && TreeOk(t, lits) && (m + 1) * Pow2(n) <= 2 * TreeSize(t)
    ensures Tidy(TreeEvs(t, m, n, v), Kind(Node(t, 0)), Kind(Node(t, 0)), n, 0, lits)
    ensures TreeNodes(TreeEvs(t, m, n, v), t, m)
    decreases n
  {
    hide Tidy, Pow2;
    if n == 0 {
      EmptyTidy(Kind(Node(t, 0)), lits);
    } else {
      var b := TopBit(n, v);
      HeightStep(m, b, n, TreeSize(t));
      TreeTidy(t, 2 * m + b, n - 1, LowBits(n, v), lits);
      var tail := TreeEvs(t, 2 * m + b, n - 1, LowBits(n, v));
      Prepend(Node(t, m), b, tail, Kind(Node(t, 0)), n - 1, lits);
    }
  }

  // A modelled bit in a context that the events after it do not use.
  lemma Prepend(c: Ctx, b: bit, tail: seq<Event>, k: nat, n: nat, lits: nat)
    requires Tidy(tail, k, k, n, 0, lits) && Kind(c) == k && ValidCtx(c, lits)
    requires forall i :: 0 <= i < |tail| && tail[i].Model? ==> tail[i].ctx != c
    ensures Tidy([Model(c, b)] + tail, k, k, n + 1, 0, lits)
  {
    var evs := [Model(c, b)] + tail;
    assert evs[1..] == tail;
  }

  ghost predicate MatchedNodes(evs: seq<Event>, m: nat) {
    forall i :: 0 <= i < |evs| ==>
      (evs[i].Model?
       && ((evs[i].ctx.MatchedNode? && evs[i].ctx.m >= m) || (evs[i].ctx.Node? && evs[i].ctx.tree.LitTree?)))
  }

  lemma {:induction false} MatchedTidy(l: nat, m: nat, n: nat, mb: nat, v: nat, lits: nat)
    requires 1 <= m && mb < Pow2(n) && v < Pow2(n) && l < lits && (m + 1) * Pow2(n) <= 0x200
    ensures Tidy(MatchedEvs(l, m, n, mb, v), 6, 6, n, 0, lits)
    ensures MatchedNodes(MatchedEvs(l, m, n, mb, v), m)
    decreases n
  {
    hide Tidy, Pow2, TreeEvs;
    if n == 0 {
      EmptyTidy(6, lits);
    } else {
      var x, b := TopBit(n, mb), TopBit(n, v);
      HeightStep(m, b, n, 0x100);
      if x == b {
        var tail := MatchedEvs(l, 2 * m + b, n - 1, LowBits(n, mb), LowBits(n, v));
        MatchedTidy(l, 2 * m + b, n - 1, LowBits(n, mb), LowBits(n, v), lits);
        MatchedPrepend(l, x, m, b, tail, n - 1, lits);
      } else {
        var tail := TreeEvs(LitTree(l), 2 * m + b, n - 1, LowBits(n, v));
        TreeTidy(LitTree(l), 2 * m + b, n - 1, LowBits(n, v), lits);
        MatchedPrepend(l, x, m, b, tail, n - 1, lits);
      }
    }
  }

  lemma MatchedPrepend(l: nat, x: bit, m: nat, b: bit, tail: seq<Event>, n: nat, lits: nat)
    requires 1 <= m < 0x100 && l < lits && Tidy(tail, 6, 6, n, 0, lits)
    requires MatchedNodes(tail, m + 1)
    ensures Tidy([Model(MatchedNode(l, x, m), b)] + tail, 6, 6, n + 1, 0, lits)
    ensures MatchedNodes([Model(MatchedNode(l, x, m), b)] + tail, m)
  {
    hide Tidy;
    Prepend(MatchedNode(l, x, m), b, tail, 6, n, lits);
  }

  ghost predicate RevNodes(evs: seq<Event>, depth: nat) {
    forall i :: 0 <= i < |evs| ==> evs[i].Model? && evs[i].ctx.RevNode? && |evs[i].ctx.path| >= depth
  }

  lemma TidyWeaken(evs: seq<Event>, lo: nat, hi: nat, m: nat, d: nat, m': nat, d': nat, lits: nat)
    requires Tidy(evs, lo, hi, m, d, lits) && m <= m' && d <= d'
    ensures Tidy(evs, lo, hi, m', d', lits)
  {
  }

  lemma {:induction false} RevTidy(r: RevId, path: seq<bit>, n: nat, v: nat, lits: nat)
    requires match r case SpecTree(slot) => 4 <= slot < 14
      && |path| + n <= FooterBits(slot) case AlignTree => |path| + n <= 4
    ensures Tidy(RevEvs(r, path, n, v), 7, 7, n, 0, lits)
    ensures RevNodes(RevEvs(r, path, n, v), |path|)
    decreases n
  {
    hide Tidy, Pow2;
    if n > 0 {
      RevTidy(r, path + [v % 2], n - 1, v / 2, lits);
      Prepend(RevNode(r, path), v % 2, RevEvs(r, path + [v % 2], n - 1, v / 2), 7, n - 1, lits);
    } else {
      EmptyTidy(7, lits);
    }
  }

  lemma {:induction false} DirectTidy(n: nat, v: nat, lits: nat)
    requires v < Pow2(n)
    ensures Tidy(DirectEvs(n, v), 7, 7, 0, n, lits)
    ensures forall i :: 0 <= i < |DirectEvs(n, v)| ==> DirectEvs(n, v)[i].Direct?
    decreases n
  {
    if n > 0 {
      DirectTidy(n - 1, LowBits(n, v), lits);
      assert DirectEvs(n, v)[1..] == DirectEvs(n - 1, LowBits(n, v));
    }
  }

  lemma HeadsTidy(evs: seq<Event>, k: nat, lits: nat)
    requires 1 <= |evs| <= 3 && AllValid(evs, lits) && Within(evs, k, k) && Fresh(evs)
    requires forall i :: 0 <= i < |evs| ==> evs[i].Model?
    ensures Tidy(evs, k, k, |evs|, 0, lits)
  {
    CountConcat(evs[..1], evs[1..]);
    assert evs == evs[..1] + evs[1..] && Models(evs[..1]) == 1;
    if |evs| > 1 {
      CountConcat(evs[1..2], evs[2..]);
      assert evs[1..] == evs[1..2] + evs[2..];
      assert evs[1..2][1..] == [];
      if |evs| == 3 {
        assert evs[2..][1..] == [];
      }
    }
  }

  lemma LenTidy(rep: bool, ps: nat, l: nat, lits: nat)
    requires l < 272 && ps < 16
    ensures Tidy(LenEvs(rep, ps, l), 3, 4, 10, 0, lits)
  {
    hide TreeEvs, Tidy, Pow2;
    Pow2Consts();
    var c1, c2 := LenChoice(rep), LenChoice2(rep);
    if l < 8 {
      var h := [Model(c1, 0)];
      HeadsTidy(h, 3, lits);
      TreeTidy(LowTree(rep, ps), 1, 3, l, lits);
      TidyConcat(h, 3, 3, 1, 0, TreeEvs(LowTree(rep, ps), 1, 3, l), 4, 4, 3, 0, lits);
      TidyWeaken(LenEvs(rep, ps, l), 3, 4, 4, 0, 10, 0, lits);
    } else if l < 16 {
      var h := [Model(c1, 1), Model(c2, 0)];
      HeadsTidy(h, 3, lits);
      TreeTidy(MidTree(rep, ps), 1, 3, l - 8, lits);
      TidyConcat(h, 3, 3, 2, 0, TreeEvs(MidTree(rep, ps), 1, 3, l - 8), 4, 4, 3, 0, lits);
      TidyWeaken(LenEvs(rep, ps, l), 3, 4, 5, 0, 10, 0, lits);
    } else {
      var h := [Model(c1, 1), Model(c2, 1)];
      HeadsTidy(h, 3, lits);
      TreeTidy(HighTree(rep), 1, 8, l - 16, lits);
      TidyConcat(h, 3, 3, 2, 0, TreeEvs(HighTree(rep), 1, 8, l - 16), 4, 4, 8, 0, lits);
    }
  }

  // The direct bits use no context, so they sit in kind 7 beside the align tree.
  lemma DirectThenAlign(a: seq<Event>, b: seq<Event>, n: nat, lits: nat)
    requires Tidy(a, 7, 7, 0, n, lits) && Tidy(b, 7, 7, 4, 0, lits)
    requires forall i :: 0 <= i < |a| ==> a[i].Direct?
    ensures Tidy(a + b, 7, 7, 4, n, lits)
  {
    CountConcat(a, b);
  }

  lemma FooterTidy(slot: nat, low: nat, lits: nat)
    requires slot < 64 && low < Pow2(FooterBits(slot))
    ensures if slot < 14 then Tidy(FooterEvs(slot, low), 7, 7, 5, 0, lits)
            else Tidy(FooterEvs(slot, low), 7, 7, 4, 26, lits)
  {
    hide Tidy, Pow2, RevEvs, DirectEvs;
    if slot < 4 {
      EmptyTidy(7, lits);
      TidyWeaken([], 7, 7, 0, 0, 5, 0, lits);
    } else if slot < 14 {
      RevTidy(SpecTree(slot), [], FooterBits(slot), low, lits);
      TidyWeaken(FooterEvs(slot, low), 7, 7, FooterBits(slot), 0, 5, 0, lits);
    } else {
      AlignSplit(slot);
      var n := FooterBits(slot) - 4;
      DirectTidy(n, low / 16, lits);
      RevTidy(AlignTree, [], 4, low % 16, lits);
      DirectThenAlign(DirectEvs(n, low / 16), RevEvs(AlignTree, [], 4, low % 16), n, lits);
      TidyWeaken(FooterEvs(slot, low), 7, 7, 4, n, 4, 26, lits);
    }
  }

  // The two shapes a symbol can have: no direct bits, or at most 26 of them.
  ghost predicate SymShape(evs: seq<Event>, lits: nat) {
    Tidy(evs, 0, 7, 23, 0, lits) || Tidy(evs, 0, 7, 22, 26, lits)
  }

  lemma DistTidy(ls: nat, dist: nat, lits: nat)
    requires dist <= END_DIST && ls < 4
    ensures Tidy(DistEvs(ls, dist), 5, 7, 11, 0, lits) || Tidy(DistEvs(ls, dist), 5, 7, 10, 26, lits)
  {
    hide TreeEvs, FooterEvs, Tidy, Pow2;
    SlotRange(dist);
    SlotBound(dist);
    Pow2Consts();
    var slot := Slot(dist);
    TreeTidy(SlotTree(ls), 1, 6, slot, lits);
    var low := dist - SlotBase(slot);
    FooterTidy(slot, low, lits);
    TidyConcat(TreeEvs(SlotTree(ls), 1, 6, slot), 5, 5, 6, 0, FooterEvs(slot, low), 7, 7,
      if slot < 14 then 5 else 4, if slot < 14 then 0 else 26, lits);
  }

  lemma LitTidy(p: Props, m: Lz, b: byte)
    requires PropsOk(p)
    ensures Tidy(LitEvs(p, m, b), 6, 6, 8, 0, Lits(p))
  {
    hide Tidy, Pow2, LitState, TreeEvs, MatchedEvs, Lits;
    LitStateBound(p, m);
    Pow2Consts();
    if m.state < 7 {
      TreeTidy(LitTree(LitState(p, m)), 1, 8, b, Lits(p));
    } else {
      MatchedTidy(LitState(p, m), 1, 8, Back(m.out, m.rep0), b, Lits(p));
    }
  }

  lemma {:induction false} Pow2Add(a: nat, b: nat)
    ensures Pow2(a + b) == Pow2(a) * Pow2(b)
  {
    if a > 0 {
      Pow2Add(a - 1, b);
      assert Pow2(a) * Pow2(b) == 2 * (Pow2(a - 1) * Pow2(b));
    }
  }

  lemma LitStateBound(p: Props, m: Lz)
    requires PropsOk(p)
    ensures LitState(p, m) < Lits(p)
  {
    Pow2Add(p.lp, p.lc);
    Pow2Add(p.lc, 8 - p.lc);
    Pow2Consts();
    QuotientLess(PrevByte(m), Pow2(p.lc), Pow2(8 - p.lc));
    DigitsLess(|m.out| % Pow2(p.lp), Pow2(p.lp), PrevByte(m) / Pow2(8 - p.lc), Pow2(p.lc));
  }

  lemma QuotientLess(x: nat, y: nat, q: nat)
    requires q > 0 && x < y * q
    ensures x / q < y
  {
    if x / q >= y {
      MulMono(y, x / q, q);
    }
  }

  lemma DigitsLess(x: nat, a: nat, z: nat, y: nat)
    requires x < a && z < y
    ensures x * y + z < a * y
  {
    assert (x + 1) * y <= a * y;
  }

  // Every symbol asks for valid, distinct contexts and fits one of the two shapes.
  lemma SymTidy(p: Props, m: Lz, s: Sym)
    requires PropsOk(p) && LzOk(m) && ValidSym(s)
    ensures SymShape(SymEvs(p, m, s), Lits(p))
  {
    hide LenEvs, DistEvs, LitEvs, Tidy, Pow2;
    var st, ps, l := m.state, PosState(p, m), Lits(p);
    assert ps < 16 by { Pow2Mono(p.pb, 4); Pow2Consts(); }
    match s
    case Lit(b) =>
      var h := [Model(IsMatch(st, ps), 0)];
      HeadsTidy(h, 0, l);
      LitTidy(p, m, b);
      TidyConcat(h, 0, 0, 1, 0, LitEvs(p, m, b), 6, 6, 8, 0, l);
      Shape(SymEvs(p, m, s), 6, 9, l);
    case Match(dist, len) =>
      MatchTidy(st, ps, dist, len, l);
    case Rep(i, len) =>
      var r := RepEvs(st, ps, i);
      HeadsTidy(r, 2, l);
      LenTidy(true, ps, len - 2, l);
      TidyConcat(r, 2, 2, |r|, 0, LenEvs(true, ps, len - 2), 3, 4, 10, 0, l);
      FlagsTidy(st, ps, 1, l);
      TidyConcat([Model(IsMatch(st, ps), 1), Model(IsRep(st), 1)], 0, 1, 2, 0,
                 r + LenEvs(true, ps, len - 2), 2, 4, |r| + 10, 0, l);
      Shape(SymEvs(p, m, s), 4, |r| + 12, l);
    case ShortRep =>
      var r := RepEvs(st, ps, SHORT_REP);
      HeadsTidy(r, 2, l);
      FlagsTidy(st, ps, 1, l);
      TidyConcat([Model(IsMatch(st, ps), 1), Model(IsRep(st), 1)], 0, 1, 2, 0, r, 2, 2, |r|, 0, l);
      Shape(SymEvs(p, m, s), 2, |r| + 2, l);
  }

  lemma Shape(evs: seq<Event>, hi: nat, n: nat, lits: nat)
    requires Tidy(evs, 0, hi, n, 0, lits) && hi <= 7 && n <= 23
    ensures SymShape(evs, lits)
  {
  }

  lemma FlagsTidy(st: nat, ps: nat, b: bit, lits: nat)
    requires st < 12 && ps < 16
    ensures Tidy([Model(IsMatch(st, ps), 1), Model(IsRep(st), b)], 0, 1, 2, 0, lits)
  {
    HeadsTidy([Model(IsMatch(st, ps), 1)], 0, lits);
    HeadsTidy([Model(IsRep(st), b)], 1, lits);
    assert [Model(IsMatch(st, ps), 1)] + [Model(IsRep(st), b)] == [Model(IsMatch(st, ps), 1), Model(IsRep(st), b)];
    TidyConcat([Model(IsMatch(st, ps), 1)], 0, 0, 1, 0, [Model(IsRep(st), b)], 1, 1, 1, 0, lits);
  }

  lemma MatchTidy(st: nat, ps: nat, dist: nat, len: nat, l: nat)
    requires st < 12 && ps < 16 && dist <= END_DIST && 2 <= len <= 273
    ensures SymShape([Model(IsMatch(st, ps), 1), Model(IsRep(st), 0)]
                     + (LenEvs(false, ps, len - 2) + DistEvs(LenState(len), dist)), l)
  {
    hide LenEvs, DistEvs, Tidy, Pow2;
    var h, le, de := [Model(IsMatch(st, ps), 1), Model(IsRep(st), 0)], LenEvs(false, ps, len - 2),
      DistEvs(LenState(len), dist);
    FlagsTidy(st, ps, 0, l);
    LenTidy(false, ps, len - 2, l);
    DistTidy(LenState(len), dist, l);
    if Tidy(de, 5, 7, 11, 0, l) {
      TidyConcat(le, 3, 4, 10, 0, de, 5, 7, 11, 0, l);
      TidyConcat(h, 0, 1, 2, 0, le + de, 3, 7, 21, 0, l);
    } else {
      TidyConcat(le, 3, 4, 10, 0, de, 5, 7, 10, 26, l);
      TidyConcat(h, 0, 1, 2, 0, le + de, 3, 7, 20, 26, l);
    }
  }

  // ---------- the dry run ----------

  ghost function Frozen(d: RcDec): RcDec {
    d.(frozen := true)
  }

  // The real decoder r and the dry one f agree on everything but the contexts already used.
  ghost predicate Twins(r: RcDec, f: RcDec, used: set<Ctx>) {
    && !r.frozen && f.frozen
    && r.range == f.range && r.code == f.code && r.pos == f.pos && r.src == f.src
    && forall c :: c !in used ==> Prob(r.probs, c) == Prob(f.probs, c)
  }

  ghost predicate Unused(evs: seq<Event>, used: set<Ctx>) {
    forall i :: 0 <= i < |evs| && evs[i].Model? ==> evs[i].ctx !in used
  }

  lemma UpdatedOther(p: Probs, c: Ctx, b: bit, c': Ctx)
    requires c' != c
    ensures Prob(Updated(p, c, b), c') == Prob(p, c')
  {
  }

  lemma TwinsEvent(r: RcDec, f: RcDec, used: set<Ctx>, ev: Event)
    requires Twins(r, f, used) && (ev.Model? ==> ev.ctx !in used)
    ensures DecEvent(r, ev).0 == DecEvent(f, ev).0 && DecEvent(f, ev).1.probs == f.probs
    ensures Twins(DecEvent(r, ev).1, DecEvent(f, ev).1, if ev.Model? then used + {ev.ctx} else used)
  {
    hide Bound, Adapt, W32, ByteAt, Updated, Prob;
    if ev.Model? {
      forall c' | c' !in used + {ev.ctx}
        ensures Prob(DecEvent(r, ev).1.probs, c') == Prob(f.probs, c')
      {
        UpdatedOther(r.probs, ev.ctx, DecEvent(r, ev).0, c');
      }
    }
  }

  lemma TwinsSame(r: RcDec, f: RcDec, used: set<Ctx>)
    requires Twins(r, f, used)
    ensures r.range == f.range && r.code == f.code && r.pos == f.pos
  {
  }

  lemma UnusedRest(evs: seq<Event>, used: set<Ctx>)
    requires evs != [] && Fresh(evs) && Unused(evs, used)
    ensures Fresh(evs[1..]) && Unused(evs[1..], if evs[0].Model? then used + {evs[0].ctx} else used)
    ensures evs[0].Model? ==> evs[0].ctx !in used
  {
  }

  lemma {:induction false} TwinsRun(r: RcDec, f: RcDec, used: set<Ctx>, evs: seq<Event>)
    requires Twins(r, f, used) && Fresh(evs) && Unused(evs, used) && Pending(r, evs)
    ensures Pending(f, evs)
    ensures var r' := Run(r, evs); var f' := Run(f, evs);
      r'.range == f'.range && r'.code == f'.code && r'.pos == f'.pos && f'.probs == f.probs
    decreases evs
  {
    hide DecEvent, Twins, Fresh, Unused;
    TwinsSame(r, f, used);
    if evs != [] {
      var used' := if evs[0].Model? then used + {evs[0].ctx} else used;
      UnusedRest(evs, used);
      TwinsEvent(r, f, used, evs[0]);
      TwinsRun(DecEvent(r, evs[0]).1, DecEvent(f, evs[0]).1, used', evs[1..]);
    }
  }

  // LzmaDec_TryDummy reads the symbol LZMA_DECODE_REAL reads and consumes the same bytes,
  // although it adapts no probability.
  lemma DryRunAgrees(p: Props, m: Lz, d: RcDec)
    requires PropsOk(p) && LzOk(m) && !d.frozen
    ensures var r := SymDec(p, m, d); var f := SymDec(p, m, Frozen(d));
      r.v == f.v && r.d.pos == f.d.pos && r.d.range == f.d.range && r.d.code == f.d.code && f.d.probs == d.probs
  {
    hide SymDec, SymEvs, Pending, Run;
    SymSound(p, m, d);
    var s := SymDec(p, m, d).v;
    SymTidy(p, m, s);
    TwinsRun(d, Frozen(d), {}, SymEvs(p, m, s));
    SymUnique(p, m, Frozen(d), s);
  }

  // ---------- at most 20 bytes a symbol ----------

  function Exp(b: nat, e: nat): nat {
    if e == 0 then 1 else b * Exp(b, e - 1)
  }

  // A modelled bit leaves at least 253921 / 2^24 of the range, a direct bit (2^24 - 1) / 2^25.
  const KEEP_MODEL: nat := 253921
  const KEEP_DIRECT: nat := 0xFF_FFFF
  const OF_MODEL: nat := 0x100_0000
  const OF_DIRECT: nat := 0x200_0000

  function Kept(evs: seq<Event>): nat {
    if evs == [] then 1 else (if evs[0].Model? then KEEP_MODEL else KEEP_DIRECT) * Kept(evs[1..])
  }

  function Of(evs: seq<Event>): (r: nat)
    ensures r > 0
  {
    if evs == [] then 1 else (if evs[0].Model? then OF_MODEL else OF_DIRECT) * Of(evs[1..])
  }

  ghost predicate DecOk(d: RcDec) {
    0x1_0000 <= d.range < TWO_32 && d.code < TWO_32 && ProbsOk(d.probs)
  }

  lemma BoundKeeps(range: nat, t: nat)
    requires TOP_VALUE <= range < TWO_32 && 31 <= t <= 2017
    ensures Bound(range, t) <= range
    ensures Bound(range, t) * OF_MODEL >= range * KEEP_MODEL
    ensures (range - Bound(range, t)) * OF_MODEL >= range * KEEP_MODEL
  {
    var q := range / 2048;
    assert q * 31 <= q * t <= q * 2017;
    assert q * 31 * OF_MODEL >= range * KEEP_MODEL;
  }

  ghost predicate Keeps(d: RcDec, d': RcDec, of: nat, keep: nat) {
    && DecOk(d') && d.pos <= d'.pos <= d.pos + 1
    && d'.range * of >= d.range * Pow256(d'.pos - d.pos) * keep
  }

  lemma ModelKeeps(d: RcDec, c: Ctx)
    requires DecOk(d)
    ensures Keeps(d, DecBit(d, c).1, OF_MODEL, KEEP_MODEL)
  {
    var d1 := Norm(d);
    assert Pow256(1) == 256;
    assert d1.range == d.range * Pow256(d1.pos - d.pos);
    ProbOk(d1.probs, c, 0);
    ProbOk(d1.probs, c, 1);
    BoundOk(d1.range, Prob(d1.probs, c));
    BoundKeeps(d1.range, Prob(d1.probs, c));
  }

  lemma DirectKeeps(d: RcDec)
    requires DecOk(d)
    ensures Keeps(d, DecDirect(d).1, OF_DIRECT, KEEP_DIRECT)
  {
    var d1 := Norm(d);
    assert Pow256(1) == 256;
    assert d1.range == d.range * Pow256(d1.pos - d.pos);
  }

  lemma EventKeeps(d: RcDec, ev: Event)
    requires DecOk(d)
    ensures Keeps(d, DecEvent(d, ev).1, if ev.Model? then OF_MODEL else OF_DIRECT,
                  if ev.Model? then KEEP_MODEL else KEEP_DIRECT)
  {
    hide DecBit, DecDirect, Keeps;
    if ev.Model? { ModelKeeps(d, ev.ctx); } else { DirectKeeps(d); }
  }

  lemma {:induction false} RunKeeps(d: RcDec, evs: seq<Event>)
    requires DecOk(d)
    ensures var d' := Run(d, evs);
      && DecOk(d') && d'.pos >= d.pos
      && d'.range * Of(evs) >= d.range * Pow256(d'.pos - d.pos) * Kept(evs)
    decreases evs
  {
    hide DecEvent, DecBit, DecDirect, DecOk;
    if evs != [] {
      var d1 := DecEvent(d, evs[0]).1;
      EventKeeps(d, evs[0]);
      RunKeeps(d1, evs[1..]);
      var d' := Run(d, evs);
      Pow256Add(d1.pos - d.pos, d'.pos - d1.pos);
      var of, keep := if evs[0].Model? then OF_MODEL else OF_DIRECT, if evs[0].Model? then KEEP_MODEL else KEEP_DIRECT;
      Chain(d'.range, Of(evs[1..]), d1.range, Pow256(d'.pos - d1.pos), Kept(evs[1..]),
        of, d.range, Pow256(d1.pos - d.pos), keep);
    }
  }

  lemma {:induction false} Pow256Add(a: nat, b: nat)
    ensures Pow256(a + b) == Pow256(a) * Pow256(b)
  {
    if a > 0 {
      Pow256Add(a - 1, b);
      assert 256 * (Pow256(a - 1) * Pow256(b)) == Pow256(a) * Pow256(b);
    }
  }

  lemma Chain(r2: nat, o: nat, r1: nat, x: nat, k: nat, of: nat, r0: nat, y: nat, keep: nat)
    requires r2 * o >= r1 * x * k && r1 * of >= r0 * y * keep
    ensures r2 * (of * o) >= r0 * (y * x) * (keep * k)
  {
    calc {
      r2 * (of * o);
      (r2 * o) * of;
      >= { MulMono(r1 * x * k, r2 * o, of); }
      (r1 * x * k) * of;
      (r1 * of) * (x * k);
      >= { MulMono(r0 * y * keep, r1 * of, x * k); }
      (r0 * y * keep) * (x * k);
      r0 * (y * x) * (keep * k);
    }
  }

  // Fewer bits keep a larger share.
  lemma {:induction false} ShareBound(evs: seq<Event>, m: nat, k: nat)
    requires Models(evs) <= m && Directs(evs) <= k
    ensures Of(evs) * (Exp(KEEP_MODEL, m) * Exp(KEEP_DIRECT, k)) <= Kept(evs) * (Exp(OF_MODEL, m) * Exp(OF_DIRECT, k))
    decreases evs, m + k
  {
    if evs == [] {
      ExpMono(KEEP_MODEL, OF_MODEL, m);
      ExpMono(KEEP_DIRECT, OF_DIRECT, k);
      MulMono2(Exp(KEEP_MODEL, m), Exp(OF_MODEL, m), Exp(KEEP_DIRECT, k), Exp(OF_DIRECT, k));
    } else if evs[0].Model? {
      ShareBound(evs[1..], m - 1, k);
      ShareStep(Of(evs[1..]), Kept(evs[1..]), Exp(KEEP_MODEL, m - 1), Exp(KEEP_DIRECT, k), Exp(OF_MODEL, m - 1),
                Exp(OF_DIRECT, k), OF_MODEL, KEEP_MODEL);
    } else {
      ShareBound(evs[1..], m, k - 1);
      var a, b, c, e := Exp(KEEP_DIRECT, k - 1), Exp(KEEP_MODEL, m), Exp(OF_DIRECT, k - 1), Exp(OF_MODEL, m);
      assert a * b == b * a && c * e == e * c;
      ShareStep(Of(evs[1..]), Kept(evs[1..]), a, b, c, e, OF_DIRECT, KEEP_DIRECT);
      assert (KEEP_DIRECT * a) * b == b * (KEEP_DIRECT * a) && (OF_DIRECT * c) * e == e * (OF_DIRECT * c);
    }
  }

  lemma ShareStep(o: nat, kept: nat, a: nat, b: nat, c: nat, e: nat, of: nat, keep: nat)
    requires o * (a * b) <= kept * (c * e)
    ensures (of * o) * ((keep * a) * b) <= (keep * kept) * ((of * c) * e)
  {
    calc {
      (of * o) * ((keep * a) * b);
      (o * (a * b)) * (of * keep);
      <= { MulMono(o * (a * b), kept * (c * e), of * keep); }
      (kept * (c * e)) * (of * keep);
      (keep * kept) * ((of * c) * e);
    }
  }

  lemma {:induction false} ExpMono(a: nat, b: nat, e: nat)
    requires a <= b
    ensures Exp(a, e) <= Exp(b, e)
  {
    if e > 0 {
      ExpMono(a, b, e - 1);
      MulMono2(a, b, Exp(a, e - 1), Exp(b, e - 1));
    }
  }

  lemma {:induction false} ExpAdd(b: nat, i: nat, j: nat)
    ensures Exp(b, i + j) == Exp(b, i) * Exp(b, j)
  {
    if i > 0 {
      ExpAdd(b, i - 1, j);
      assert b * (Exp(b, i - 1) * Exp(b, j)) == Exp(b, i) * Exp(b, j);
    }
  }

  // 22 modelled and 26 direct bits, or 23 modelled ones, divide the range by less than 256^20.
  lemma WorstCases()
    ensures Exp(OF_MODEL, 22) * Exp(OF_DIRECT, 26) < Pow256(20) * (Exp(KEEP_MODEL, 22) * Exp(KEEP_DIRECT, 26))
    ensures Exp(OF_MODEL, 23) * Exp(OF_DIRECT, 0) < Pow256(20) * (Exp(KEEP_MODEL, 23) * Exp(KEEP_DIRECT, 0))
  {
    assert Exp(253921, 11) == 282933790190672111850420410008996903488024239477270338665121;
    assert Exp(0xFF_FFFF, 13)
      == 8343692893866293818061778064317467450552820707595505493054212141091924268467542780081787109375;
    assert Exp(0x100_0000, 11) == 29642774844752946028434172162224104410437116074403984394101141506025761187823616;
    assert Exp(0x200_0000, 13)
      == 68351585149469122636640694597425667667286544715412888638305331450311031224980497600734786781970432;
    assert Pow256(10) == 1208925819614629174706176;
    ExpAdd(KEEP_MODEL, 11, 11);
    ExpAdd(KEEP_DIRECT, 13, 13);
    ExpAdd(OF_MODEL, 11, 11);
    ExpAdd(OF_DIRECT, 13, 13);
    Pow256Add(10, 10);
  }

  // A share below 1/256^20 cannot be lost by a symbol.
  lemma ShapeShare(evs: seq<Event>, lits: nat)
    requires SymShape(evs, lits)
    ensures Of(evs) < Pow256(20) * Kept(evs)
  {
    hide Exp, Of, Kept, Pow256, Fresh, Within, AllValid;
    WorstCases();
    KeptPositive(evs);
    var m, k := if Tidy(evs, 0, 7, 23, 0, lits) then 23 else 22, if Tidy(evs, 0, 7, 23, 0, lits) then 0 else 26;
    ShareBound(evs, m, k);
    Cancel(Of(evs), Kept(evs), Exp(KEEP_MODEL, m) * Exp(KEEP_DIRECT, k),
           Exp(OF_MODEL, m) * Exp(OF_DIRECT, k), Pow256(20));
  }

  lemma Cancel(o: nat, kept: nat, a: nat, c: nat, p: nat)
    requires o * a <= kept * c && c < p * a && kept > 0
    ensures o < p * kept
  {
    assert kept * c < kept * (p * a);
    assert kept * (p * a) == (p * kept) * a;
    if o >= p * kept {
      MulMono(p * kept, o, a);
    }
  }

  // Whatever the bytes, one symbol read from a normalised decoder, with the normalisation
  // after it, consumes at most LZMA_REQUIRED_INPUT_MAX bytes.
  lemma InputBound(p: Props, m: Lz, d: RcDec)
    requires PropsOk(p) && LzOk(m) && DecOk(d) && d.range >= TOP_VALUE
    ensures d.pos <= Norm(SymDec(p, m, d).d).pos <= d.pos + 20
  {
    hide SymDec, SymEvs, Tidy, Run, Pending, Of, Kept, Pow256, SymShape, ProbsOk;
    SymSound(p, m, d);
    var evs := SymEvs(p, m, SymDec(p, m, d).v);
    var d' := Run(d, evs);
    SymTidy(p, m, SymDec(p, m, d).v);
    RunKeeps(d, evs);
    ShapeShare(evs, Lits(p));
    KeptPositive(evs);
    BytesLeft(d'.range, Of(evs), d.range, d'.pos - d.pos, Kept(evs));
  }

  lemma {:induction false} KeptPositive(evs: seq<Event>)
    ensures Kept(evs) > 0
  {
    if evs != [] {
      KeptPositive(evs[1..]);
    }
  }

  lemma {:induction false} Pow256Mono(a: nat, b: nat)
    requires a <= b
    ensures Pow256(a) <= Pow256(b)
  {
    if a > 0 {
      Pow256Mono(a - 1, b - 1);
    }
  }

  lemma BytesLeft(r: nat, o: nat, r0: nat, c: nat, kept: nat)
    requires r * o >= r0 * Pow256(c) * kept && r0 >= TOP_VALUE && kept > 0 && o < Pow256(20) * kept && r < TWO_32
    ensures c <= 20 && (r < TOP_VALUE ==> c <= 19)
  {
    if c > 20 {
      Pow256Mono(21, c);
      TooMany(r, o, r0, Pow256(c), kept, TWO_32, Pow256(20));
    } else if c == 20 && r < TOP_VALUE {
      TooMany(r, o, r0, Pow256(c), kept, TOP_VALUE, Pow256(20));
    }
  }

  lemma TooMany(r: nat, o: nat, r0: nat, x: nat, kept: nat, lim: nat, y: nat)
    requires r < lim && r0 >= TOP_VALUE && kept > 0 && o < y * kept && y > 0
    requires lim * y <= TOP_VALUE * x
    ensures r * o < r0 * x * kept
  {
    StrictMul(r, o, lim, y * kept);
    Associate(lim, y, kept);
    MulMono(lim * y, TOP_VALUE * x, kept);
    MulMono(TOP_VALUE, r0, x);
    MulMono(TOP_VALUE * x, r0 * x, kept);
  }

  lemma Associate(a: nat, b: nat, c: nat)
    ensures a * (b * c) == (a * b) * c
  {
  }

  lemma StrictMul(r: nat, o: nat, lim: nat, z: nat)
    requires r < lim && o < z
    ensures r * o < lim * z
  {
    MulMono2(r, lim, o, z - 1);
  }
}
