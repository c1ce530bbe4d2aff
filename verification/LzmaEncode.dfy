// LzmaEnc_CodeOneBlock's symbol switch, and a whole block: any parse in, range-coder bytes out.
module LzmaEncode {
  import opened Words
  import opened Masks
  import opened LzmaContexts
  import opened LzmaLayout
  import opened RangeCoder
  import opened ProbArrays
  import opened RangeEncoder
  import opened LzmaSymbols
  import opened LzmaDryRun
  import opened LzmaRun
  import opened LzmaMasks
  import opened LzmaEncoder

  // ---------- decisions ----------

  const MARK_LIT: nat := 0xFFFF_FFFF

  // The symbol that GetOptimum's (len, backRes) stands for.
  function Decided(data: seq<byte>, pos: nat, len: nat, back: nat): Sym
    requires pos < |data|
  {
    if back == MARK_LIT then Lit(data[pos])
    else if back < 4 then (if len == 1 then ShortRep else Rep(back, len))
    else Match(back - 4, len)
  }

  // A decision the parser may take: it is allowed there and its bytes are the source's.
  ghost predicate Sound(p: Props, m: Lz, data: seq<byte>, len: nat, back: nat) {
    && m.out < data && m.out <= data && back <= MARK_LIT
    && (back == MARK_LIT || (len == 1 && back < 4) ==> len == 1 && (back == 0 || back == MARK_LIT))
    && var s := Decided(data, |m.out|, len, back);
      && Legal(p, m, s) && Apply(m, s).out <= data && |Apply(m, s).out| == |m.out| + len
  }

  // kLiteralNextStates and its siblings
  function LitNextTable(s: nat): nat
    requires s < 12
  {
    [0, 0, 0, 0, 1, 2, 3, 4, 5, 6, 4, 5][s]
  }

  function MatchNextTable(s: nat): nat
    requires s < 12
  {
    [7, 7, 7, 7, 7, 7, 7, 10, 10, 10, 10, 10][s]
  }

  function RepNextTable(s: nat): nat
    requires s < 12
  {
    [8, 8, 8, 8, 8, 8, 8, 11, 11, 11, 11, 11][s]
  }

  function ShortRepNextTable(s: nat): nat
    requires s < 12
  {
    [9, 9, 9, 9, 9, 9, 9, 11, 11, 11, 11, 11][s]
  }

  lemma NextTables(s: nat)
    requires s < 12
    ensures LitNextTable(s) == LitNext(s) && MatchNextTable(s) == MatchNext(s)
    ensures RepNextTable(s) == RepNext(s) && ShortRepNextTable(s) == ShortRepNext(s)
  {
  }

  // ---------- one branch of the switch at a time ----------

  lemma LitContexts(p: Props, pos: nat, prev: byte, l: nat)
    requires PropsOk(p) && l == LitStateOf(p, pos, prev) && l < Lits(p)
    ensures LpMask(p) >= 0 && Pow2(8) == 256 && Pow2(8 - 1) == 128
    ensures var base := ENC_LIT + 3 * (And(W32(W32(pos) * 256) + prev, LpMask(p)) * Pow2(p.lc));
      && base == ENC_LIT + LIT_SIZE * l
      && forall m :: 1 <= m < Pow2(8)
           ==> ValidCtx(Node(LitTree(l), m), Lits(p)) && EncIx(Node(LitTree(l), m)) == base + m
  {
    LitOffset(p, pos, prev);
    Pow2Consts();
    Pow2Start(8);
  }

  // LitEnc_Encode or LitEnc_EncodeMatched, by the state.
  method PutLiteral(rc: RangeEnc, probs: array<nat>, ghost e0: RcEnc, p: Props, data: seq<byte>, nowPos: nat,
      state: nat, rep0: nat, ghost m: Lz)
    requires PropsOk(p) && Coded(rc, probs, Lits(p), e0) && LzInv(p, m) && m.rep0 == rep0 && m.state == state
    requires 0 < nowPos < |data| && m.out == data[..nowPos]
    modifies rc, probs
    ensures Coded(rc, probs, Lits(p), EncAll(e0, LitEvs(p, m, data[nowPos])))
  {
    hide EncEvent, EncAll, Coded, TreeEvs, MatchedEvs, Pow2, And, EncIx, ValidCtx;
    var prev := data[nowPos - 1];
    ghost var l := LitState(p, m);
    assert PrevByte(m) == prev && l == LitStateOf(p, nowPos, prev);
    LitStateBound(p, m);
    LitContexts(p, nowPos, prev, l);
    var base := ENC_LIT + 3 * (And(W32(W32(nowPos) * 256) + prev, LpMask(p)) * Pow2(p.lc));
    var curByte := data[nowPos];
    if state < 7 {
      TreeEncode(rc, probs, e0, base, curByte, 8, 128, LitTree(l), Lits(p));
    } else {
      LitEncodeMatched(rc, probs, e0, base, curByte, data[nowPos - rep0], l, Lits(p));
    }
  }

  // isRepG0, isRep0Long, isRepG1, isRepG2
  method PutRepSelect(rc: RangeEnc, probs: array<nat>, ghost e0: RcEnc, state: nat, posState: nat, back: nat,
      len: nat, ghost lits: nat)
    requires Coded(rc, probs, lits, e0) && state < 12 && posState < 16 && back < 4 && (len == 1 ==> back == 0)
    modifies rc, probs
    ensures Coded(rc, probs, lits, EncAll(e0, RepEvs(state, posState, if len == 1 then SHORT_REP else back)))
  {
    hide EncEvent, EncAll, Coded;
    var b0: bit := if back == 0 then 0 else 1;
    ghost var e := EncEvent(e0, Model(IsRepG0(state), b0));
    if back == 0 {
      PutBit0(rc, probs, e0, ENC_IS_REP_G0 + state, IsRepG0(state), lits);
      if len != 1 {
        PutBit1(rc, probs, e, ENC_IS_REP0_LONG + 16 * state + posState, IsRep0Long(state, posState), lits);
      } else {
        PutBit0(rc, probs, e, ENC_IS_REP0_LONG + 16 * state + posState, IsRep0Long(state, posState), lits);
      }
      EncAll2(e0, Model(IsRepG0(state), 0), Model(IsRep0Long(state, posState), if len != 1 then 1 else 0));
    } else {
      PutBit1(rc, probs, e0, ENC_IS_REP_G0 + state, IsRepG0(state), lits);
      if back == 1 {
        PutBit0(rc, probs, e, ENC_IS_REP_G1 + state, IsRepG1(state), lits);
        EncAll2(e0, Model(IsRepG0(state), 1), Model(IsRepG1(state), 0));
      } else {
        PutBit1(rc, probs, e, ENC_IS_REP_G1 + state, IsRepG1(state), lits);
        e := EncEvent(e, Model(IsRepG1(state), 1));
        if back == 2 {
          PutBit0(rc, probs, e, ENC_IS_REP_G2 + state, IsRepG2(state), lits);
        } else {
          PutBit1(rc, probs, e, ENC_IS_REP_G2 + state, IsRepG2(state), lits);
        }
        EncAll3(e0, Model(IsRepG0(state), 1), Model(IsRepG1(state), 1),
                Model(IsRepG2(state), if back == 2 then 0 else 1));
      }
    }
  }

  lemma EncAll2(e: RcEnc, x: Event, y: Event)
    ensures EncAll(e, [x, y]) == EncEvent(EncEvent(e, x), y)
  {
    EncAllCons(e, x, [y]);
    EncAll1(EncEvent(e, x), y);
    assert [x] + [y] == [x, y];
  }

  lemma SpecNodes(slot: nat, lits: nat)
    requires 4 <= slot < 14
    ensures forall path: seq<bit> :: |path| < FooterBits(slot) ==>
      ValidCtx(RevNode(SpecTree(slot), path), lits)
      && EncIx(RevNode(SpecTree(slot), path)) == ENC_POS + SlotBase(slot) + EncNode(path)
  {
  }

  lemma AlignNodes(lits: nat)
    ensures forall path: seq<bit> :: |path| < 4 ==>
      ValidCtx(RevNode(AlignTree, path), lits) && EncIx(RevNode(AlignTree, path)) == ENC_ALIGN + EncNode(path)
  {
  }

  lemma SlotNodes(ls: nat, lits: nat)
    requires ls < 4
    ensures Pow2(6) == 64 && Pow2(5) == 32
    ensures forall m :: 1 <= m < Pow2(6) ==>
      ValidCtx(Node(SlotTree(ls), m), lits) && EncIx(Node(SlotTree(ls), m)) == ENC_POS_SLOT + 64 * ls + m
  {
    Pow2Consts();
  }

  // Only the low n bits of v matter to a reverse tree of n bits.
  lemma {:induction false} RevLow(r: RevId, path: seq<bit>, n: nat, v: nat, w: nat)
    requires v % Pow2(n) == w % Pow2(n)
    ensures RevEvs(r, path, n, v) == RevEvs(r, path, n, w)
    decreases n
  {
    if n > 0 {
      ModDouble(v, Pow2(n - 1));
      ModDouble(w, Pow2(n - 1));
      RevLow(r, path + [v % 2], n - 1, v / 2, w / 2);
    }
  }

  lemma ModOfSum(k: nat, p: nat, x: nat)
    requires p > 0
    ensures (k * p + x) % p == x % p
  {
    ModUnique(k * p + x, p, k + x / p, x % p);
  }

  // A distance from 128 up: slot base, direct bits, align bits.
  lemma FarDistance(dist: nat)
    requires 128 <= dist <= END_DIST
    ensures var s := Slot(dist); var f := FooterBits(s); var low := dist - SlotBase(s);
      && 14 <= s < 64 && 6 <= f <= 30 && dist >= SlotBase(s) && low < Pow2(f)
      && (SlotBase(s) == 2 * Pow2(f) || SlotBase(s) == 3 * Pow2(f))
      && low / 16 < Pow2(f - 4) && Or15(dist) == SlotBase(s) + (low / 16) * 16 + 15
      && RevEvs(AlignTree, [], 4, dist) == RevEvs(AlignTree, [], 4, low % 16)
  {
    SlotRange(dist);
    SlotBound(dist);
    var s := Slot(dist);
    AlignSplit(s);
    var f := FooterBits(s);
    assert SlotBase(s) == 2 * Pow2(f) || SlotBase(s) == 3 * Pow2(f) by {
      if s % 2 == 0 { assert SlotBase(s) == 2 * Pow2(f); } else { assert SlotBase(s) == 3 * Pow2(f); }
    }
    hide Slot, SlotBase, Pow2, RevEvs;
    var low := dist - SlotBase(s);
    Sixteens(dist, SlotBase(s), low);
    Pow2Consts();
    RevLow(AlignTree, [], 4, dist, low % 16);
  }

  lemma Sixteens(dist: nat, base: nat, low: nat)
    requires dist == base + low && base % 16 == 0
    ensures dist % 16 == low % 16 && Or15(dist) == base + (low / 16) * 16 + 15
  {
  }

  lemma NearDistance(dist: nat)
    requires 4 <= dist < 128
    ensures var s := Slot(dist); var f := FooterBits(s);
      4 <= s < 14 && f > 0 && dist >= SlotBase(s) && dist - SlotBase(s) < Pow2(f)
      && (2 + s % 2) * Pow2(f) == SlotBase(s)
      && forall r: RevId :: RevEvs(r, [], f, dist) == RevEvs(r, [], f, dist - SlotBase(s))
  {
    SlotRange(dist);
    SlotBound(dist);
    var s := Slot(dist);
    var f := FooterBits(s);
    var low := dist - SlotBase(s);
    ModOfSum(2 + s % 2, Pow2(f), low);
    forall r: RevId
      ensures RevEvs(r, [], f, dist) == RevEvs(r, [], f, low)
    {
      RevLow(r, [], f, dist, low);
    }
  }

  // The footer of a distance: reversed bits, or direct bits and the align tree.
  method PutFooter(rc: RangeEnc, probs: array<nat>, ghost e0: RcEnc, dist: nat, posSlot: nat, ghost lits: nat)
    requires Coded(rc, probs, lits, e0) && 4 <= dist <= END_DIST && posSlot == Slot(dist)
    modifies rc, probs
    ensures SlotBase(posSlot) <= dist < SlotBase(posSlot) + Pow2(FooterBits(posSlot)) && posSlot < 64
    ensures Coded(rc, probs, lits, EncAll(e0, FooterEvs(posSlot, dist - SlotBase(posSlot))))
  {
    hide EncEvent, EncAll, Coded, DirectEvs, RevEvs, EncIx, ValidCtx, FastPosOk, Slot, SlotBase, Pow2;
    SlotRange(dist);
    SlotBound(dist);
    ghost var low := dist - SlotBase(posSlot);
    var footerBits := posSlot / 2 - 1;
    if dist < 128 {
      NearDistance(dist);
      SpecNodes(posSlot, lits);
      var base := (2 + posSlot % 2) * Pow2(footerBits);
      ReverseEncode(rc, probs, e0, ENC_POS + base, footerBits, dist, SpecTree(posSlot), lits);
    } else {
      FarDistance(dist);
      AlignNodes(lits);
      ghost var hi, lo := DirectEvs(footerBits - 4, low / 16), RevEvs(AlignTree, [], 4, low % 16);
      EncAllConcat(e0, hi, lo);
      DirectEncode(rc, probs, e0, dist, footerBits, SlotBase(posSlot), low / 16, lits);
      ReverseEncode(rc, probs, EncAll(e0, hi), ENC_ALIGN, 4, dist, AlignTree, lits);
    }
  }

  // The distance slot, then its footer.
  method PutDistance(rc: RangeEnc, probs: array<nat>, ghost e0: RcEnc, fastPos: array<nat>, dist: nat,
      len: nat, ghost lits: nat)
    requires Coded(rc, probs, lits, e0) && dist <= END_DIST && 2 <= len
    requires fastPos != probs && FastPosOk(fastPos)
    modifies rc, probs
    ensures Coded(rc, probs, lits, EncAll(e0, DistEvs(LenState(len), dist)))
  {
    hide EncEvent, EncAll, Coded, TreeEvs, FooterEvs, EncIx, ValidCtx, FastPosOk, Slot, SlotBase, Pow2;
    var posSlot := GetPosSlot(fastPos, dist);
    SlotRange(dist);
    SlotBound(dist);
    var ls := LenState(len);
    SlotNodes(ls, lits);
    ghost var slotEvs, footEvs := TreeEvs(SlotTree(ls), 1, 6, posSlot), FooterEvs(posSlot, dist - SlotBase(posSlot));
    EncAllConcat(e0, slotEvs, footEvs);
    TreeEncode(rc, probs, e0, ENC_POS_SLOT + 64 * ls, posSlot, 6, 32, SlotTree(ls), lits);
    if dist >= 4 {
      PutFooter(rc, probs, EncAll(e0, slotEvs), dist, posSlot, lits);
    } else {
      NoFooter(EncAll(e0, slotEvs), posSlot, dist);
    }
  }

  lemma NoFooter(e: RcEnc, slot: nat, dist: nat)
    requires dist < 4 && slot == Slot(dist)
    ensures slot < 4 && SlotBase(slot) == dist && Pow2(FooterBits(slot)) == 1
    ensures EncAll(e, FooterEvs(slot, 0)) == e
  {
  }

  lemma EncAllNone(e: RcEnc)
    ensures EncAll(e, []) == e
  {
  }

  function RepTail(state: nat, posState: nat, back: nat, len: nat): seq<Event>
    requires len == 1 || 2 <= len <= 273
  {
    [Model(IsRep(state), 1)] +
    if len == 1 then RepEvs(state, posState, SHORT_REP)
    else RepEvs(state, posState, back) + LenEvs(true, posState, len - 2)
  }

  // isRep 1, the choice of distance and, unless it is a short rep, the length.
  method PutRep(rc: RangeEnc, probs: array<nat>, ghost e0: RcEnc, state: nat, posState: nat, back: nat,
      len: nat, ghost lits: nat)
    requires Coded(rc, probs, lits, e0) && state < 12 && posState < 16 && back < 4
    requires if len == 1 then back == 0 else 2 <= len <= 273
    modifies rc, probs
    ensures Coded(rc, probs, lits, EncAll(e0, RepTail(state, posState, back, len)))
  {
    hide EncEvent, EncAll, Coded, LenEvs, RepEvs;
    ghost var sel := RepEvs(state, posState, if len == 1 then SHORT_REP else back);
    ghost var e := EncEvent(e0, Model(IsRep(state), 1));
    PutBit1(rc, probs, e0, ENC_IS_REP + state, IsRep(state), lits);
    PutRepSelect(rc, probs, e, state, posState, back, len, lits);
    if len != 1 {
      EncAllCons(e0, Model(IsRep(state), 1), sel + LenEvs(true, posState, len - 2));
      EncAllConcat(e, sel, LenEvs(true, posState, len - 2));
      LenEncode(rc, probs, EncAll(e, sel), ENC_REP_LEN, len - 2, posState, true, lits);
    } else {
      EncAllCons(e0, Model(IsRep(state), 1), sel);
    }
  }

  function MatchTail(state: nat, posState: nat, dist: nat, len: nat): seq<Event>
    requires dist <= END_DIST && 2 <= len <= 273
  {
    [Model(IsRep(state), 0)] + (LenEvs(false, posState, len - 2) + DistEvs(LenState(len), dist))
  }

  // isRep 0, the length and the distance.
  method PutMatch(rc: RangeEnc, probs: array<nat>, ghost e0: RcEnc, fastPos: array<nat>, state: nat, posState: nat,
      dist: nat, len: nat, ghost lits: nat)
    requires Coded(rc, probs, lits, e0) && state < 12 && posState < 16 && dist <= END_DIST && 2 <= len <= 273
    requires fastPos != probs && FastPosOk(fastPos)
    modifies rc, probs
    ensures Coded(rc, probs, lits, EncAll(e0, MatchTail(state, posState, dist, len)))
  {
    hide EncEvent, EncAll, Coded, LenEvs, DistEvs, FastPosOk;
    ghost var le, de := LenEvs(false, posState, len - 2), DistEvs(LenState(len), dist);
    ghost var e := EncEvent(e0, Model(IsRep(state), 0));
    PutBit0(rc, probs, e0, ENC_IS_REP + state, IsRep(state), lits);
    EncAllCons(e0, Model(IsRep(state), 0), le + de);
    EncAllConcat(e, le, de);
    LenEncode(rc, probs, e, ENC_LEN, len - 2, posState, false, lits);
    PutDistance(rc, probs, EncAll(e, le), fastPos, dist, len, lits);
  }

  function AfterIsMatch(p: Props, m: Lz, s: Sym): seq<Event>
    requires p.lc <= 8 && ValidSym(s)
  {
    var st, ps := m.state, PosState(p, m);
    match s
    case Lit(b) => LitEvs(p, m, b)
    case Match(dist, len) => MatchTail(st, ps, dist, len)
    case Rep(i, len) => RepTail(st, ps, i, len)
    case ShortRep => RepTail(st, ps, 0, 1)
  }

  lemma SymEvsSplit(p: Props, m: Lz, s: Sym)
    requires PropsOk(p) && ValidSym(s)
    ensures SymEvs(p, m, s)
      == [Model(IsMatch(m.state, PosState(p, m)), if s.Lit? then 0 else 1)] + AfterIsMatch(p, m, s)
    ensures SymEvs(p, m, s)[1..] == AfterIsMatch(p, m, s)
  {
    hide LenEvs, DistEvs, LitEvs, RepEvs, PosState;
  }

  // The state and the four distances an encoder at m has in its fields.
  predicate Remembers(state: nat, reps: seq<nat>, m: Lz) {
    state == m.state && reps == [m.rep0, m.rep1, m.rep2, m.rep3]
  }

  // The repeated distance chosen moves to the front.
  method UseRep(reps0: seq<nat>, dist: nat) returns (reps: seq<nat>)
    requires |reps0| == 4 && dist < 4
    ensures reps
      == [reps0[dist], reps0[if dist == 0 then 1 else 0], reps0[if dist <= 1 then 2 else 1],
          reps0[if dist <= 2 then 3 else 2]]
  {
    reps := reps0;
    if dist != 0 {
      var d := reps[dist];
      if dist != 1 {
        if dist == 3 {
          reps := reps[3 := reps[2]];
        }
        reps := reps[2 := reps[1]];
      }
      reps := reps[1 := reps[0]];
      reps := reps[0 := d];
    }
  }

  lemma RepApplied(m: Lz, s: Sym, state: nat, reps: seq<nat>, dist: nat, len: nat)
    requires LzOk(m) && dist < 4
    requires if len == 1 then dist == 0 && s == ShortRep else s == Rep(dist, len)
    requires state == (if len != 1 then RepNextTable(m.state) else ShortRepNextTable(m.state))
    requires var r := [m.rep0, m.rep1, m.rep2, m.rep3];
      reps == [r[dist], r[if dist == 0 then 1 else 0], r[if dist <= 1 then 2 else 1], r[if dist <= 2 then 3 else 2]]
    ensures Remembers(state, reps, Apply(m, s))
  {
    NextTables(m.state);
  }

  lemma LitOrMatchApplied(m: Lz, s: Sym, state: nat, reps: seq<nat>)
    requires LzOk(m) && (s.Lit? || s.Match?)
    requires state == (if s.Lit? then LitNextTable(m.state) else MatchNextTable(m.state))
    requires reps == (if s.Lit? then [m.rep0, m.rep1, m.rep2, m.rep3] else [s.dist + 1, m.rep0, m.rep1, m.rep2])
    ensures Remembers(state, reps, Apply(m, s))
  {
    NextTables(m.state);
  }

  // isMatch, the first bit of every symbol.
  method PutIsMatch(rc: RangeEnc, probs: array<nat>, ghost e0: RcEnc, p: Props, state: nat, posState: nat, bit: bit,
      ghost m: Lz, ghost s: Sym)
    requires PropsOk(p) && Coded(rc, probs, Lits(p), e0) && LzOk(m) && ValidSym(s)
    requires state == m.state && posState == PosState(p, m) < 16 && (bit == 0 <==> s.Lit?)
    modifies rc, probs
    ensures Coded(rc, probs, Lits(p), EncEvent(e0, Model(IsMatch(m.state, PosState(p, m)), bit)))
    ensures EncAll(e0, SymEvs(p, m, s))
      == EncAll(EncEvent(e0, Model(IsMatch(m.state, PosState(p, m)), bit)), AfterIsMatch(p, m, s))
  {
    hide EncEvent, EncAll, Coded, SymEvs, AfterIsMatch;
    SymEvsSplit(p, m, s);
    EncAllCons(e0, Model(IsMatch(state, posState), bit), AfterIsMatch(p, m, s));
    var ix := ENC_IS_MATCH + 16 * state + posState;
    if bit == 0 {
      PutBit0(rc, probs, e0, ix, IsMatch(state, posState), Lits(p));
    } else {
      PutBit1(rc, probs, e0, ix, IsMatch(state, posState), Lits(p));
    }
  }

  lemma SoundParts(p: Props, m: Lz, data: seq<byte>, len: nat, back: nat, s: Sym)
    requires PropsOk(p) && LzInv(p, m) && Sound(p, m, data, len, back) && s == Decided(data, |m.out|, len, back)
    ensures ValidSym(s) && back <= MARK_LIT && (back == MARK_LIT <==> s.Lit?)
    ensures back == MARK_LIT ==> s == Lit(data[|m.out|])
    ensures back < 4 ==> if len == 1 then back == 0 && s == ShortRep else s == Rep(back, len) && 2 <= len <= 273
    ensures 4 <= back < MARK_LIT ==> s == Match(back - 4, len) && 2 <= len <= 273
  {
  }

  // The switch of LzmaEnc_CodeOneBlock on one decision, with the fields it updates.
  method CodeDecision(rc: RangeEnc, probs: array<nat>, ghost e0: RcEnc, fastPos: array<nat>, p: Props,
      state0: nat, reps0: seq<nat>,
                      data: seq<byte>, nowPos: nat, len: nat, back: nat, ghost m: Lz, ghost s: Sym)
      returns (state: nat, reps: seq<nat>)
    requires PropsOk(p) && Coded(rc, probs, Lits(p), e0) && fastPos != probs && FastPosOk(fastPos)
    requires Remembers(state0, reps0, m) && LzInv(p, m)
    requires 0 < nowPos < |data| && m.out == data[..nowPos] && Sound(p, m, data, len, back)
      && s == Decided(data, nowPos, len, back)
    modifies rc, probs
    ensures Coded(rc, probs, Lits(p), EncAll(e0, SymEvs(p, m, s)))
    ensures Remembers(state, reps, Apply(m, s))
  {
    hide EncEvent, EncAll, Coded, SymEvs, LitEvs, RepTail, MatchTail, FastPosOk, And, Pow2, Apply, Sound, Decided,
      LitNextTable, MatchNextTable, RepNextTable, ShortRepNextTable;
    PosStateMask(nowPos, p.pb);
    SoundParts(p, m, data, len, back, s);
    var posState := And(W32(nowPos), Pow2(p.pb) - 1);
    var b0: bit := if back == MARK_LIT then 0 else 1;
    ghost var e := EncEvent(e0, Model(IsMatch(m.state, PosState(p, m)), b0));
    PutIsMatch(rc, probs, e0, p, state0, posState, b0, m, s);
    if back == MARK_LIT {
      PutLiteral(rc, probs, e, p, data, nowPos, state0, reps0[0], m);
      state, reps := LitNextTable(state0), reps0;
      LitOrMatchApplied(m, s, state, reps);
    } else if back < 4 {
      PutRep(rc, probs, e, state0, posState, back, len, Lits(p));
      reps := UseRep(reps0, back);
      state := if len != 1 then RepNextTable(state0) else ShortRepNextTable(state0);
      RepApplied(m, s, state, reps, back, len);
    } else {
      PutMatch(rc, probs, e, fastPos, state0, posState, back - 4, len, Lits(p));
      state, reps := MatchNextTable(state0), [back - 4 + 1, reps0[0], reps0[1], reps0[2]];
      LitOrMatchApplied(m, s, state, reps);
    }
  }

  lemma StateAfter(p: Props, m: Lz, s: Sym)
    requires LzInv(p, m)
    ensures Apply(m, s).state < 12
  {
  }

  lemma CodedView(rc: RangeEnc, probs: array<nat>, lits: nat, e: RcEnc)
    ensures Coded(rc, probs, lits, e) <==> Coding(rc, probs, lits) && View(rc, probs, lits) == e
  {
  }

  class LzmaEnc {
    const p: Props
    const rc: RangeEnc
    const probs: array<nat>
    const fastPos: array<nat>
    var state: nat
    var reps: seq<nat>

    ghost predicate Valid()
      reads this, rc, probs, fastPos
    {
      && PropsOk(p) && probs != fastPos
      && Coding(rc, probs, Lits(p))
      && FastPosOk(fastPos)
      && state < 12 && |reps| == 4
    }

    // The encoder has coded m.out and remembers m's state and distances.
    ghost predicate Holds(m: Lz)
      reads this
    {
      Remembers(state, reps, m)
    }

    ghost function Code(): RcEnc
      reads this, rc, probs, fastPos
      requires Valid()
    {
      View(rc, probs, Lits(p))
    }

    // LzmaEnc_Init and LzmaEnc_FastPosInit
    constructor (p: Props)
      requires PropsOk(p)
      ensures Valid() && Holds(LZ_INIT) && this.p == p && fresh(rc) && fresh(probs) && fresh(fastPos)
      ensures rc.out == [] && Code() == InitEnc(InitialProbs(Lits(p)))
    {
      this.p := p;
      rc := new RangeEnc();
      probs := new nat[EncProbs(Lits(p))](_ => PROB_INIT);
      fastPos := new nat[FAST_POS_SIZE](_ => 0);
      state, reps := 0, [1, 1, 1, 1];
      new;
      FastPosInit(fastPos);
      InitialView(probs[..], Lits(p));
    }

    // One turn of LzmaEnc_CodeOneBlock's loop: codes the decision (len, back) at nowPos.
    method CodeSymbol(data: seq<byte>, nowPos: nat, len: nat, back: nat, ghost m: Lz, ghost s: Sym)
      requires Valid() && Holds(m) && LzInv(p, m)
      requires 0 < nowPos < |data| && m.out == data[..nowPos] && Sound(p, m, data, len, back)
        && s == Decided(data, nowPos, len, back)
      modifies this, rc, probs
      ensures Valid() && Holds(Apply(m, s))
      ensures Code() == EncAll(old(Code()), SymEvs(p, m, s))
    {
      hide EncEvent, EncAll, Coded, Coding, View, SymEvs, FastPosOk, Apply, Decided, Sound, LzInv;
      ghost var e0 := Code();
      StateAfter(p, m, s);
      SoundParts(p, m, data, len, back, s);
      CodedView(rc, probs, Lits(p), e0);
      state, reps := CodeDecision(rc, probs, e0, fastPos, p, state, reps, data, nowPos, len, back, m, s);
      CodedView(rc, probs, Lits(p), EncAll(e0, SymEvs(p, m, s)));
    }

    // Flush with writeEndMark 0
    method Flush() returns (out: seq<byte>)
      requires Valid()
      modifies rc
      ensures Flushed(old(Code()), out)
    {
      rc.FlushData(EncView(probs[..], Lits(p)));
      out := rc.out;
    }

    // The first byte of a stream: RangeEnc_EncodeBit_0 and LitEnc_Encode, with no byte before it.
    method CodeFirst(b: byte)
      requires Valid() && Holds(LZ_INIT)
      modifies this, rc, probs
      ensures Valid() && Holds(Apply(LZ_INIT, Lit(b)))
      ensures Code() == EncAll(old(Code()), SymEvs(p, LZ_INIT, Lit(b)))
    {
      hide EncEvent, EncAll, Coding, View, SymEvs, TreeEvs, FastPosOk, Pow2;
      FirstContexts(p, b);
      ghost var e0 := Code();
      EncAllCons(e0, Model(IsMatch(0, 0), 0), TreeEvs(LitTree(0), 1, 8, b));
      PutBit0(rc, probs, e0, ENC_IS_MATCH, IsMatch(0, 0), Lits(p));
      TreeEncode(rc, probs, EncEvent(e0, Model(IsMatch(0, 0), 0)), ENC_LIT, b, 8, 128, LitTree(0), Lits(p));
    }
  }

  lemma FirstContexts(p: Props, b: byte)
    requires PropsOk(p)
    ensures Pow2(8) == 256 && Pow2(8 - 1) == 128
    ensures SymEvs(p, LZ_INIT, Lit(b)) == [Model(IsMatch(0, 0), 0)] + TreeEvs(LitTree(0), 1, 8, b)
    ensures forall m :: 1 <= m < Pow2(8)
              ==> ValidCtx(Node(LitTree(0), m), Lits(p)) && EncIx(Node(LitTree(0), m)) == ENC_LIT + m
  {
    hide TreeEvs, Pow2;
    Pow2Consts();
    Pow2Start(8);
    NothingBefore(p);
  }

  lemma NothingBefore(p: Props)
    requires PropsOk(p)
    ensures LitState(p, LZ_INIT) == 0 && PosState(p, LZ_INIT) == 0 && Lits(p) > 0
  {
    assert 0 % Pow2(p.lp) == 0 && 0 / Pow2(8 - p.lc) == 0;
  }

  // ---------- a whole block ----------

  datatype Decision = Decision(len: nat, back: nat)

  // A parse of the rest of the source: sound decisions that end exactly at its end.
  ghost predicate ParseOk(p: Props, m: Lz, data: seq<byte>, parse: seq<Decision>)
    decreases parse
  {
    if parse == [] then m.out == data
    else
      && Sound(p, m, data, parse[0].len, parse[0].back)
      && ParseOk(p, Apply(m, Decided(data, |m.out|, parse[0].len, parse[0].back)), data, parse[1..])
  }

  // The symbols a parse stands for.
  ghost function ParseSyms(p: Props, m: Lz, data: seq<byte>, parse: seq<Decision>): seq<Sym>
    requires ParseOk(p, m, data, parse)
    decreases parse
  {
    if parse == [] then [] else
      var s := Decided(data, |m.out|, parse[0].len, parse[0].back);
      [s] + ParseSyms(p, Apply(m, s), data, parse[1..])
  }

  lemma {:induction false} ParseLegal(p: Props, m: Lz, data: seq<byte>, parse: seq<Decision>)
    requires ParseOk(p, m, data, parse)
    ensures LegalAll(p, m, ParseSyms(p, m, data, parse))
    ensures ApplyAll(m, ParseSyms(p, m, data, parse)).out == data
    decreases parse
  {
    hide Legal, Apply, Decided;
    if parse != [] {
      var s := Decided(data, |m.out|, parse[0].len, parse[0].back);
      SoundLegal(p, m, data, parse[0].len, parse[0].back, s);
      ParseLegal(p, Apply(m, s), data, parse[1..]);
      assert ParseSyms(p, m, data, parse)[1..] == ParseSyms(p, Apply(m, s), data, parse[1..]);
    }
  }

  lemma SoundLegal(p: Props, m: Lz, data: seq<byte>, len: nat, back: nat, s: Sym)
    requires Sound(p, m, data, len, back) && s == Decided(data, |m.out|, len, back)
    ensures Legal(p, m, s)
  {
  }

  // The first literal and then the parse.
  ghost function BlockSyms(p: Props, data: seq<byte>, parse: seq<Decision>): seq<Sym>
    requires data != [] && ParseOk(p, Apply(LZ_INIT, Lit(data[0])), data, parse)
  {
    [Lit(data[0])] + ParseSyms(p, Apply(LZ_INIT, Lit(data[0])), data, parse)
  }

  lemma BlockLegal(p: Props, data: seq<byte>, parse: seq<Decision>)
    requires data != [] && ParseOk(p, Apply(LZ_INIT, Lit(data[0])), data, parse)
    ensures LegalAll(p, LZ_INIT, BlockSyms(p, data, parse)) && ApplyAll(LZ_INIT, BlockSyms(p, data, parse)).out == data
  {
    var s := Lit(data[0]);
    ParseLegal(p, Apply(LZ_INIT, s), data, parse);
    assert BlockSyms(p, data, parse)[1..] == ParseSyms(p, Apply(LZ_INIT, s), data, parse);
  }

  ghost function BlockEvs(p: Props, data: seq<byte>, parse: seq<Decision>): seq<Event>
    requires PropsOk(p) && (data != [] ==> ParseOk(p, Apply(LZ_INIT, Lit(data[0])), data, parse))
  {
    if data == [] then [] else
      BlockLegal(p, data, parse);
      AllEvs(p, LZ_INIT, BlockSyms(p, data, parse))
  }

  // LzmaEnc_CodeOneBlock and Flush over a whole source, with any parser's decisions.
  method EncodeBlock(p: Props, data: seq<byte>, parse: seq<Decision>) returns (out: seq<byte>)
    requires PropsOk(p) && (data != [] ==> ParseOk(p, Apply(LZ_INIT, Lit(data[0])), data, parse))
    ensures Flushed(EncAll(InitEnc(InitialProbs(Lits(p))), BlockEvs(p, data, parse)), out)
  {
    hide EncEvent, EncAll, Coding, View, SymEvs, FastPosOk, Apply, Decided, Sound, LzInv, Legal, PropsOk;
    var enc := new LzmaEnc(p);
    ghost var e0 := enc.Code();
    ghost var p0 := InitialProbs(Lits(p));
    EncAllNone(e0);
    if data != [] {
      ghost var m := Apply(LZ_INIT, Lit(data[0]));
      FirstStep(p, data, parse);
      enc.CodeFirst(data[0]);
      BlockEvsCons(p, data, parse, e0);
      var nowPos, k := 1, 0;
      while k < |parse|
        invariant 0 <= k <= |parse| && enc.Valid() && enc.Holds(m) && enc.p == p
        invariant fresh(enc.rc) && fresh(enc.probs) && fresh(enc)
        invariant LzInv(p, m) && 0 < nowPos <= |data| && m.out == data[..nowPos]
        invariant ParseOk(p, m, data, parse[k..])
        invariant EncAll(e0, BlockEvs(p, data, parse)) == EncAll(enc.Code(), RestEvs(p, m, data, parse[k..]))
      {
        ParseRoom(p, m, data, parse[k..]);
        ghost var s := Decided(data, nowPos, parse[k].len, parse[k].back);
        ParseStep(p, m, data, parse[k..], s, enc.Code());
        enc.CodeSymbol(data, nowPos, parse[k].len, parse[k].back, m, s);
        assert parse[k..][1..] == parse[k + 1..];
        m := Apply(m, s);
        nowPos := nowPos + parse[k].len;
        k := k + 1;
      }
      RestNone(p, m, data, parse[k..], enc.Code());
    }
    out := enc.Flush();
  }

  ghost function RestEvs(p: Props, m: Lz, data: seq<byte>, parse: seq<Decision>): seq<Event>
    requires PropsOk(p) && ParseOk(p, m, data, parse)
  {
    ParseLegal(p, m, data, parse);
    AllEvs(p, m, ParseSyms(p, m, data, parse))
  }

  lemma RestNone(p: Props, m: Lz, data: seq<byte>, parse: seq<Decision>, e: RcEnc)
    requires PropsOk(p) && ParseOk(p, m, data, parse) && parse == []
    ensures EncAll(e, RestEvs(p, m, data, parse)) == e
  {
  }

  lemma ParseRoom(p: Props, m: Lz, data: seq<byte>, parse: seq<Decision>)
    requires ParseOk(p, m, data, parse) && parse != []
    ensures |m.out| < |data|
  {
  }

  lemma ParseStep(p: Props, m: Lz, data: seq<byte>, parse: seq<Decision>, s: Sym, e: RcEnc)
    requires PropsOk(p) && LzInv(p, m) && ParseOk(p, m, data, parse) && parse != []
    requires s == Decided(data, |m.out|, parse[0].len, parse[0].back)
    ensures Sound(p, m, data, parse[0].len, parse[0].back) && |m.out| < |data|
    ensures LzInv(p, Apply(m, s)) && |m.out| + parse[0].len <= |data|
      && Apply(m, s).out == data[..|m.out| + parse[0].len]
    ensures ParseOk(p, Apply(m, s), data, parse[1..]) && ValidSym(s)
    ensures EncAll(e, RestEvs(p, m, data, parse))
      == EncAll(EncAll(e, SymEvs(p, m, s)), RestEvs(p, Apply(m, s), data, parse[1..]))
  {
    hide SymEvs, EncAll;
    SoundLegal(p, m, data, parse[0].len, parse[0].back, s);
    ApplyInv(p, m, s);
    ParseLegal(p, m, data, parse);
    var rest := ParseSyms(p, Apply(m, s), data, parse[1..]);
    assert ParseSyms(p, m, data, parse)[1..] == rest;
    EncAllConcat(e, SymEvs(p, m, s), AllEvs(p, Apply(m, s), rest));
  }

  lemma FirstStep(p: Props, data: seq<byte>, parse: seq<Decision>)
    requires PropsOk(p) && data != [] && ParseOk(p, Apply(LZ_INIT, Lit(data[0])), data, parse)
    ensures LzInv(p, Apply(LZ_INIT, Lit(data[0]))) && Apply(LZ_INIT, Lit(data[0])).out == data[..1]
  {
    ApplyInv(p, LZ_INIT, Lit(data[0]));
  }

  lemma BlockEvsCons(p: Props, data: seq<byte>, parse: seq<Decision>, e: RcEnc)
    requires PropsOk(p) && data != [] && ParseOk(p, Apply(LZ_INIT, Lit(data[0])), data, parse)
    ensures EncAll(e, BlockEvs(p, data, parse))
         == EncAll(EncAll(e, SymEvs(p, LZ_INIT, Lit(data[0]))), RestEvs(p, Apply(LZ_INIT, Lit(data[0])), data, parse))
  {
    hide SymEvs, EncAll;
    var s := Lit(data[0]);
    var rest := ParseSyms(p, Apply(LZ_INIT, s), data, parse);
    BlockLegal(p, data, parse);
    assert BlockSyms(p, data, parse)[1..] == rest;
    EncAllConcat(e, SymEvs(p, LZ_INIT, s), AllEvs(p, Apply(LZ_INIT, s), rest));
  }

  lemma InitialView(a: seq<nat>, lits: nat)
    requires |a| == EncProbs(lits) && forall i :: 0 <= i < |a| ==> a[i] == PROB_INIT
    ensures EncArray(a, lits) && EncView(a, lits) == InitialProbs(lits)
  {
    forall c | ValidCtx(c, lits)
      ensures EncIx(c) < |a|
    {
      InRegion(c, lits);
    }
  }
}
