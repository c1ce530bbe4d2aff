// Where the two sides keep the probability of a context: CLzmaDec's single array (index
// counted from probs, so SpecPos is 0) and the member arrays of CLzmaEnc laid end to end.
// The reverse trees differ: the encoder's index appends each bit at the low end, the
// decoder's adds it at its own weight.
module LzmaLayout {
  import opened Words
  import opened LzmaContexts

  const LIT_SIZE: nat := 0x300

  // (2 | (slot & 1)) << footerBits, the smallest distance of a slot
  function SlotBase(slot: nat): nat {
    if slot < 4 then slot else (2 + slot % 2) * Pow2(slot / 2 - 1)
  }

  function FooterBits(slot: nat): nat {
    if slot < 4 then 0 else slot / 2 - 1
  }

  predicate ValidTreeNode(t: TreeId, m: nat, lits: nat) {
    match t
    case LitTree(l) => l < lits && 1 <= m < 0x100
    case LowTree(_, ps) => ps < 16 && 1 <= m < 8
    case MidTree(_, ps) => ps < 16 && 1 <= m < 8
    case HighTree(_) => 1 <= m < 0x100
    case SlotTree(ls) => ls < 4 && 1 <= m < 64
  }

  predicate ValidRevNode(r: RevId, path: seq<bit>) {
    match r
    case SpecTree(slot) => 4 <= slot < 14 && |path| < FooterBits(slot)
    case AlignTree => |path| < 4
  }

  // A reverse tree's node numbered as each side numbers it: the encoder's m = (m << 1) | bit,
  // the decoder's i += m or i += 2 * m with m doubling.
  function EncNode(path: seq<bit>): nat {
    if path == [] then 1 else 2 * EncNode(path[..|path| - 1]) + path[|path| - 1]
  }

  function DecNode(path: seq<bit>): nat {
    if path == [] then 1 else 2 * DecNode(path[1..]) + path[0]
  }

  predicate ValidCtx(c: Ctx, lits: nat) {
    match c
    case IsMatch(s, ps) => s < 12 && ps < 16
    case IsRep(s) => s < 12
    case IsRepG0(s) => s < 12
    case IsRepG1(s) => s < 12
    case IsRepG2(s) => s < 12
    case IsRep0Long(s, ps) => s < 12 && ps < 16
    case LenChoice(_) => true
    case LenChoice2(_) => true
    case Node(t, m) => ValidTreeNode(t, m, lits)
    case MatchedNode(l, mb, m) => l < lits && mb < 2 && 1 <= m < 0x100
    case RevNode(r, path) => ValidRevNode(r, path)
  }

  function LenIx(rep: bool, rep0: nat, len0: nat): nat {
    if rep then rep0 else len0
  }

  // ---------- decoder ----------

  const REP_LEN_CODER: nat := 384
  const LEN_CODER: nat := 896
  const IS_MATCH: nat := 1408
  const ALIGN: nat := 1664
  const IS_REP: nat := 1680
  const IS_REP_G0: nat := 1692
  const IS_REP_G1: nat := 1704
  const IS_REP_G2: nat := 1716
  const IS_REP0_LONG: nat := 128
  const POS_SLOT: nat := 1728
  const LITERAL: nat := 1984

  function DecIx(c: Ctx): nat {
    match c
    case IsMatch(s, ps) => IS_MATCH + 16 * ps + s
    case IsRep(s) => IS_REP + s
    case IsRepG0(s) => IS_REP_G0 + s
    case IsRepG1(s) => IS_REP_G1 + s
    case IsRepG2(s) => IS_REP_G2 + s
    case IsRep0Long(s, ps) => IS_REP0_LONG + 16 * ps + s
    case LenChoice(rep) => LenIx(rep, REP_LEN_CODER, LEN_CODER)
    case LenChoice2(rep) => LenIx(rep, REP_LEN_CODER, LEN_CODER) + 8
    case Node(LowTree(rep, ps), m) => LenIx(rep, REP_LEN_CODER, LEN_CODER) + 16 * ps + m
    case Node(MidTree(rep, ps), m) => LenIx(rep, REP_LEN_CODER, LEN_CODER) + 16 * ps + 8 + m
    case Node(HighTree(rep), m) => LenIx(rep, REP_LEN_CODER, LEN_CODER) + 256 + m
    case Node(SlotTree(ls), m) => POS_SLOT + 64 * ls + m
    case Node(LitTree(l), m) => LITERAL + LIT_SIZE * l + m
    case MatchedNode(l, mb, m) => LITERAL + LIT_SIZE * l + 0x100 + 0x100 * mb + m
    case RevNode(SpecTree(slot), path) => SlotBase(slot) + DecNode(path)
    case RevNode(AlignTree, path) => ALIGN + DecNode(path)
  }

  function DecProbs(lits: nat): nat {
    LITERAL + LIT_SIZE * lits
  }

  // ---------- encoder ----------

  const ENC_ALIGN: nat := 0
  const ENC_IS_REP: nat := 16
  const ENC_IS_REP_G0: nat := 28
  const ENC_IS_REP_G1: nat := 40
  const ENC_IS_REP_G2: nat := 52
  const ENC_IS_MATCH: nat := 64
  const ENC_IS_REP0_LONG: nat := 256
  const ENC_POS_SLOT: nat := 448
  const ENC_POS: nat := 704
  const ENC_LEN: nat := 832
  const ENC_REP_LEN: nat := 1344
  const ENC_LIT: nat := 1856

  function EncIx(c: Ctx): nat {
    match c
    case IsMatch(s, ps) => ENC_IS_MATCH + 16 * s + ps
    case IsRep(s) => ENC_IS_REP + s
    case IsRepG0(s) => ENC_IS_REP_G0 + s
    case IsRepG1(s) => ENC_IS_REP_G1 + s
    case IsRepG2(s) => ENC_IS_REP_G2 + s
    case IsRep0Long(s, ps) => ENC_IS_REP0_LONG + 16 * s + ps
    case LenChoice(rep) => LenIx(rep, ENC_REP_LEN, ENC_LEN)
    case LenChoice2(rep) => LenIx(rep, ENC_REP_LEN, ENC_LEN) + 8
    case Node(LowTree(rep, ps), m) => LenIx(rep, ENC_REP_LEN, ENC_LEN) + 16 * ps + m
    case Node(MidTree(rep, ps), m) => LenIx(rep, ENC_REP_LEN, ENC_LEN) + 8 + 16 * ps + m
    case Node(HighTree(rep), m) => LenIx(rep, ENC_REP_LEN, ENC_LEN) + 256 + m
    case Node(SlotTree(ls), m) => ENC_POS_SLOT + 64 * ls + m
    case Node(LitTree(l), m) => ENC_LIT + LIT_SIZE * l + m
    case MatchedNode(l, mb, m) => ENC_LIT + LIT_SIZE * l + 0x100 + 0x100 * mb + m
    case RevNode(SpecTree(slot), path) => ENC_POS + SlotBase(slot) + EncNode(path)
    case RevNode(AlignTree, path) => ENC_ALIGN + EncNode(path)
  }

  function EncProbs(lits: nat): nat {
    ENC_LIT + LIT_SIZE * lits
  }

  // ---------- neither layout lets two contexts share a probability ----------

  lemma Pow2Table()
    ensures Pow2(0) == 1 && Pow2(1) == 2 && Pow2(2) == 4 && Pow2(3) == 8 && Pow2(4) == 16 && Pow2(5) == 32
    ensures SlotBase(4) == 4 && SlotBase(5) == 6 && SlotBase(6) == 8 && SlotBase(7) == 12 && SlotBase(8) == 16
    ensures SlotBase(9) == 24 && SlotBase(10) == 32 && SlotBase(11) == 48 && SlotBase(12) == 64 && SlotBase(13) == 96
  {
  }

  lemma {:induction false} EncNodeRange(p: seq<bit>)
    ensures Pow2(|p|) <= EncNode(p) < 2 * Pow2(|p|)
  {
    if p != [] {
      EncNodeRange(p[..|p| - 1]);
    }
  }

  lemma {:induction false} DecNodeRange(p: seq<bit>)
    ensures Pow2(|p|) <= DecNode(p) < 2 * Pow2(|p|)
  {
    if p != [] {
      DecNodeRange(p[1..]);
    }
  }

  lemma {:induction false} EncNodeInjective(p: seq<bit>, q: seq<bit>)
    requires EncNode(p) == EncNode(q)
    ensures p == q
  {
    EncNodeRange(p);
    EncNodeRange(q);
    if p != [] && q != [] {
      EncNodeInjective(p[..|p| - 1], q[..|q| - 1]);
      assert p == p[..|p| - 1] + [p[|p| - 1]] && q == q[..|q| - 1] + [q[|q| - 1]];
    }
  }

  lemma {:induction false} DecNodeInjective(p: seq<bit>, q: seq<bit>)
    requires DecNode(p) == DecNode(q)
    ensures p == q
  {
    DecNodeRange(p);
    DecNodeRange(q);
    if p != [] && q != [] {
      DecNodeInjective(p[1..], q[1..]);
      assert p == [p[0]] + p[1..] && q == [q[0]] + q[1..];
    }
  }

  lemma Pow2Mono(j: nat, k: nat)
    requires j <= k
    ensures Pow2(j) <= Pow2(k)
    decreases k
  {
    if j < k {
      Pow2Mono(j, k - 1);
    }
  }

  // The nodes of a slot's tree stay inside that slot's own distances.
  lemma RevOffset(slot: nat, path: seq<bit>)
    requires ValidRevNode(SpecTree(slot), path)
    ensures 0 < DecNode(path) < Pow2(FooterBits(slot)) && 0 < EncNode(path) < Pow2(FooterBits(slot))
    ensures 4 <= SlotBase(slot) && SlotBase(slot) + Pow2(FooterBits(slot)) <= 128
  {
    Pow2Table();
    EncNodeRange(path);
    DecNodeRange(path);
    Pow2Mono(|path| + 1, FooterBits(slot));
  }

  lemma SlotsDisjoint(s1: nat, s2: nat)
    requires 4 <= s1 < s2 < 14
    ensures SlotBase(s1) + Pow2(FooterBits(s1)) <= SlotBase(s2)
  {
    Pow2Table();
  }

  function Region(c: Ctx): nat {
    match c
    case IsMatch(_, _) => 0
    case IsRep(_) => 1
    case IsRepG0(_) => 2
    case IsRepG1(_) => 3
    case IsRepG2(_) => 4
    case IsRep0Long(_, _) => 5
    case LenChoice(rep) => if rep then 6 else 7
    case LenChoice2(rep) => if rep then 6 else 7
    case Node(LowTree(rep, _), _) => if rep then 6 else 7
    case Node(MidTree(rep, _), _) => if rep then 6 else 7
    case Node(HighTree(rep), _) => if rep then 6 else 7
    case Node(SlotTree(_), _) => 8
    case Node(LitTree(_), _) => 9
    case MatchedNode(_, _, _) => 9
    case RevNode(SpecTree(_), _) => 10
    case RevNode(AlignTree, _) => 11
  }

  function DecRegion(i: nat): nat {
    if i < 128 then 10 else if i < 384 then 5 else if i < 896 then 6 else if i < 1408 then 7
    else if i < 1664 then 0 else if i < 1680 then 11 else if i < 1692 then 1 else if i < 1704 then 2
    else if i < 1716 then 3 else if i < 1728 then 4 else if i < 1984 then 8 else 9
  }

  function EncRegion(i: nat): nat {
    if i < 16 then 11 else if i < 28 then 1 else if i < 40 then 2 else if i < 52 then 3
    else if i < 64 then 4 else if i < 256 then 0 else if i < 448 then 5 else if i < 704 then 8
    else if i < 832 then 10 else if i < 1344 then 7 else if i < 1856 then 6 else 9
  }

  lemma InRegion(c: Ctx, lits: nat)
    requires ValidCtx(c, lits)
    ensures DecRegion(DecIx(c)) == Region(c) && EncRegion(EncIx(c)) == Region(c)
    ensures DecIx(c) < DecProbs(lits) && EncIx(c) < EncProbs(lits)
  {
    match c
    case RevNode(SpecTree(slot), path) => RevOffset(slot, path);
    case RevNode(AlignTree, path) =>
      Pow2Table();
      Pow2Mono(|path| + 1, 4);
      EncNodeRange(path);
      DecNodeRange(path);
    case _ =>
  }

  lemma RevInjective(r: RevId, p: seq<bit>, s: RevId, q: seq<bit>)
    requires ValidRevNode(r, p) && ValidRevNode(s, q) && (r.SpecTree? <==> s.SpecTree?)
    ensures DecIx(RevNode(r, p)) == DecIx(RevNode(s, q)) ==> RevNode(r, p) == RevNode(s, q)
    ensures EncIx(RevNode(r, p)) == EncIx(RevNode(s, q)) ==> RevNode(r, p) == RevNode(s, q)
  {
    if r == s {
      if DecNode(p) == DecNode(q) { DecNodeInjective(p, q); }
      if EncNode(p) == EncNode(q) { EncNodeInjective(p, q); }
    } else {
      RevOffset(r.slot, p);
      RevOffset(s.slot, q);
      if r.slot < s.slot { SlotsDisjoint(r.slot, s.slot); } else { SlotsDisjoint(s.slot, r.slot); }
    }
  }

  lemma LengthsInjective(c: Ctx, d: Ctx, lits: nat)
    requires ValidCtx(c, lits) && ValidCtx(d, lits) && Region(c) == Region(d) && 6 <= Region(c) <= 7
    ensures DecIx(c) == DecIx(d) ==> c == d
    ensures EncIx(c) == EncIx(d) ==> c == d
  {
    hide DecIx, EncIx, LenIx, LenCtxAt;
    LenCtxBack(c, lits);
    LenCtxBack(d, lits);
  }

  predicate LenHead(c: Ctx) {
    c.LenChoice? || c.LenChoice2?
  }

  // Where a length context is in its coder's array, on both sides, and back.
  lemma LenCtxBack(c: Ctx, lits: nat)
    requires ValidCtx(c, lits) && 6 <= Region(c) <= 7
    ensures var rep := Region(c) == 6; var i := DecIx(c) - LenIx(rep, REP_LEN_CODER, LEN_CODER);
      && EncIx(c) == LenIx(rep, ENC_REP_LEN, ENC_LEN) + i
      && (LenHead(c) <==> i == 0 || i == 8)
      && LenCtxAt(LenHead(c), i, rep) == c
  {
  }

  // The length context at offset i of a length coder's array.
  function LenCtxAt(choice: bool, i: int, rep: bool): Ctx {
    if choice then (if i == 0 then LenChoice(rep) else LenChoice2(rep))
    else if i >= 256 then Node(HighTree(rep), i - 256)
    else if i >= 0 && i % 16 < 8 then Node(LowTree(rep, i / 16), i % 16)
    else if i >= 0 then Node(MidTree(rep, i / 16), i % 16 - 8)
    else LenChoice(rep)
  }

  // The literal context at offset i of the literal arrays.
  function LitCtxAt(i: nat): Ctx {
    var l, r := i / LIT_SIZE, i % LIT_SIZE;
    if r < 0x100 then Node(LitTree(l), r) else MatchedNode(l, r / 0x100 - 1, r % 0x100)
  }

  lemma LiteralAt(c: Ctx, lits: nat)
    requires ValidCtx(c, lits) && Region(c) == 9
    ensures DecIx(c) >= LITERAL && EncIx(c) - ENC_LIT == DecIx(c) - LITERAL
    ensures LitCtxAt(DecIx(c) - LITERAL) == c
  {
    match c
    case Node(LitTree(l), m) => LitQuotient(l, m);
    case MatchedNode(l, mb, m) => LitQuotient(l, 0x100 + 0x100 * mb + m);
  }

  lemma LitQuotient(l: nat, r: nat)
    requires r < LIT_SIZE
    ensures (LIT_SIZE * l + r) / LIT_SIZE == l && (LIT_SIZE * l + r) % LIT_SIZE == r
  {
  }

  lemma LiteralsInjective(c: Ctx, d: Ctx, lits: nat)
    requires ValidCtx(c, lits) && ValidCtx(d, lits) && Region(c) == Region(d) == 9
    ensures DecIx(c) == DecIx(d) ==> c == d
    ensures EncIx(c) == EncIx(d) ==> c == d
  {
    LiteralAt(c, lits);
    LiteralAt(d, lits);
  }

  lemma FlagsInjective(c: Ctx, d: Ctx, lits: nat)
    requires ValidCtx(c, lits) && ValidCtx(d, lits) && Region(c) == Region(d)
    requires Region(c) < 6 || Region(c) == 8
    ensures DecIx(c) == DecIx(d) ==> c == d
    ensures EncIx(c) == EncIx(d) ==> c == d
  {
    if c.Node? && d.Node? {
      assert c.tree.SlotTree? && d.tree.SlotTree?;
    } else if c.IsMatch? || c.IsRep0Long? {
    } else {
    }
  }

  // Neither layout lets two contexts share a probability.
  lemma LayoutsInjective(c: Ctx, d: Ctx, lits: nat)
    requires ValidCtx(c, lits) && ValidCtx(d, lits)
    ensures DecIx(c) == DecIx(d) ==> c == d
    ensures EncIx(c) == EncIx(d) ==> c == d
  {
    InRegion(c, lits);
    InRegion(d, lits);
    if Region(c) == Region(d) {
      if c.RevNode? {
        RevInjective(c.rev, c.path, d.rev, d.path);
      } else if 6 <= Region(c) <= 7 {
        LengthsInjective(c, d, lits);
      } else if Region(c) == 9 {
        LiteralsInjective(c, d, lits);
      } else {
        FlagsInjective(c, d, lits);
      }
    }
  }
}
