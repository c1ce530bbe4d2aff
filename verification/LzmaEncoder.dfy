// The pieces of LzmaEnc.c's symbol emission: the bit-tree loops, the FastPos table and the
// sentinel loop of the direct bits.
module LzmaEncoder {
  import opened Words
  import opened Masks
  import opened LzmaContexts
  import opened LzmaLayout
  import opened RangeCoder
  import opened ProbArrays
  import opened RangeEncoder
  import opened LzmaSymbols
  import opened LzmaDryRun
  import opened LzmaMasks

  // ---------- the bit-tree loops ----------

  // A range encoder and a probability array ready for the next bit, and what they stand for.
  ghost predicate Coding(rc: RangeEnc, probs: array<nat>, lits: nat)
    reads rc, probs
  {
    rc.Valid() && EncArray(probs[..], lits)
  }

  ghost function View(rc: RangeEnc, probs: array<nat>, lits: nat): RcEnc
    reads rc, probs
    requires Coding(rc, probs, lits)
  {
    rc.Abs(EncView(probs[..], lits))
  }

  // The same with the encoder it stands for named.
  ghost predicate Coded(rc: RangeEnc, probs: array<nat>, lits: nat, e: RcEnc)
    reads rc, probs
  {
    Coding(rc, probs, lits) && View(rc, probs, lits) == e
  }

  method PutBit(rc: RangeEnc, probs: array<nat>, ghost e0: RcEnc, ix: nat, bit: bit, ghost c: Ctx, ghost lits: nat)
    requires Coded(rc, probs, lits, e0) && ValidCtx(c, lits) && ix == EncIx(c)
    modifies rc, probs
    ensures Coded(rc, probs, lits, EncEvent(e0, Model(c, bit)))
  {
    rc.Bit(probs, ix, bit, c, lits);
  }

  // Where the loop of RcTree_Encode stands: at node m with the n low bits v still to write,
  // sym holding both.
  ghost predicate TreeAt(m: nat, v: nat, n: nat, n0: nat, half: nat, sym: nat) {
    && n <= n0 && n0 > 0 && half == Pow2(n0 - 1)
    && v < Pow2(n) && sym == m * (2 * half) + v * Pow2(n0 - n)
    && Pow2(n0 - n) <= m < 2 * Pow2(n0 - n)
  }

  lemma TreeBegin(v: nat, n0: nat, half: nat)
    requires n0 > 0 && half == Pow2(n0 - 1) && v < Pow2(n0)
    ensures TreeAt(1, v, n0, n0, half, v + 2 * half)
  {
    assert Pow2(0) == 1;
  }

  lemma TreeMore(m: nat, v: nat, n: nat, n0: nat, half: nat, sym: nat)
    requires TreeAt(m, v, n, n0, half, sym)
    ensures sym < 2 * half * (2 * half) <==> n > 0
    ensures n > 0 ==> 1 <= m < Pow2(n0) && v < Pow2(n) && sym / (2 * half) == m && (sym / half) % 2 == TopBit(n, v)
                      && TreeAt(2 * m + TopBit(n, v), LowBits(n, v), n - 1, n0, half, 2 * sym)
  {
    hide Pow2, LowBits, TopBit, TreeAt;
    if n == 0 { TreeStop(m, v, n0, half, sym); }
    else { TreeBelow(m, v, n, n0, half, sym); TreeBits(m, v, n, n0, half, sym); TreeGo(m, v, n, n0, half, sym); }
  }

  lemma TreeStop(m: nat, v: nat, n0: nat, half: nat, sym: nat)
    requires TreeAt(m, v, 0, n0, half, sym)
    ensures sym >= 2 * half * (2 * half)
  {
    MulMono(2 * half, m, 2 * half);
  }

  lemma TreeBits(m: nat, v: nat, n: nat, n0: nat, half: nat, sym: nat)
    requires TreeAt(m, v, n, n0, half, sym)
    ensures v < Pow2(n)
  {
  }

  lemma TreeBelow(m: nat, v: nat, n: nat, n0: nat, half: nat, sym: nat)
    requires TreeAt(m, v, n, n0, half, sym) && n > 0
    ensures sym < 2 * half * (2 * half) && 1 <= m < Pow2(n0)
  {
    var k, h := n0 - n, 2 * half;
    assert Pow2(n) * Pow2(k) == h by { Pow2Add(n, k); }
    assert m < h by { Pow2Mono(k + 1, n0); }
    var p, q := Pow2(n), Pow2(k);
    hide Pow2;
    BelowMark(m, v, p, q, h, sym);
  }

  lemma TreeGo(m: nat, v: nat, n: nat, n0: nat, half: nat, sym: nat)
    requires TreeAt(m, v, n, n0, half, sym) && n > 0
    ensures sym / (2 * half) == m && (sym / half) % 2 == TopBit(n, v)
    ensures TreeAt(2 * m + TopBit(n, v), LowBits(n, v), n - 1, n0, half, 2 * sym)
  {
    var k := n0 - n;
    Pow2Add(k, n - 1);
    TreeStep(m, v, n, k, half, sym);
    assert n0 - (n - 1) == k + 1;
    assert Pow2(k + 1) == 2 * Pow2(k);
  }

  lemma BelowMark(m: nat, v: nat, p: nat, q: nat, h: nat, sym: nat)
    requires m < h && v < p && p * q == h && sym == m * h + v * q && q > 0
    ensures sym < h * h
  {
    MulMono(v + 1, p, q);
    assert (v + 1) * q == v * q + q;
    MulMono(m + 1, h, h);
    assert (m + 1) * h == m * h + h;
  }

  // LitEnc_Encode (half 128) and the distance-slot loop (half 32).
  method TreeEncode(rc: RangeEnc, probs: array<nat>, ghost e0: RcEnc, base: nat, sym0: nat, ghost n0: nat, half: nat,
      ghost t: TreeId, ghost lits: nat)
    requires Coded(rc, probs, lits, e0) && n0 > 0 && half == Pow2(n0 - 1) && sym0 < Pow2(n0)
    requires forall m :: 1 <= m < Pow2(n0) ==> ValidCtx(Node(t, m), lits) && EncIx(Node(t, m)) == base + m
    modifies rc, probs
    ensures Coded(rc, probs, lits, EncAll(e0, TreeEvs(t, 1, n0, sym0)))
  {
    hide EncIx, EncEvent, Coded, Pow2, TreeAt, ValidCtx;
    var sym: nat := sym0 + 2 * half;
    ghost var m: nat, v: nat, n: nat := 1, sym0, n0;
    ghost var e := e0;
    TreeBegin(sym0, n0, half);
    TreeMore(m, v, n, n0, half, sym);
    while sym < 2 * half * (2 * half)
      invariant Coded(rc, probs, lits, e)
      invariant TreeAt(m, v, n, n0, half, sym) && (sym < 2 * half * (2 * half) <==> n > 0)
      invariant v < Pow2(n)
      invariant EncAll(e0, TreeEvs(t, 1, n0, sym0)) == EncAll(e, TreeEvs(t, m, n, v))
      decreases n
    {
      TreeMore(m, v, n, n0, half, sym);
      var ix := base + sym / (2 * half);
      var bit := (sym / half) % 2;
      sym := sym * 2;
      PutBit(rc, probs, e, ix, bit, Node(t, m), lits);
      e := EncEvent(e, Model(Node(t, m), bit));
      m, v, n := 2 * m + bit, LowBits(n, v), n - 1;
      TreeMore(m, v, n, n0, half, sym);
    }
  }

  // ---------- literals after a match ----------

  ghost function LitRest(l: nat, m: nat, n: nat, mb: nat, v: nat, offs: nat): seq<Event>
    requires mb < Pow2(n) && v < Pow2(n)
  {
    if offs == 0x100 then MatchedEvs(l, m, n, mb, v) else TreeEvs(LitTree(l), m, n, v)
  }

  lemma OffsStep(offs: nat, matchByte: nat, sym: nat, n: nat, mb: nat, v: nat)
    requires (offs == 0x100 || offs == 0) && n > 0 && mb < Pow2(n) && v < Pow2(n)
    requires matchByte < 0x10_0000 && sym < 0x10_0000 && Bit(matchByte, 8) == TopBit(n, mb)
      && Bit(sym, 8) == TopBit(n, v)
    ensures And(matchByte, offs) == (if offs == 0x100 then 0x100 * TopBit(n, mb) else 0)
    ensures And(offs, Not32(Xor(matchByte, sym)))
      == (if offs == 0x100 && TopBit(n, mb) == TopBit(n, v) then 0x100 else 0)
  {
    hide And, Xor;
    Pow2Consts();
    AndBit(matchByte, 8);
    AgreeBit(matchByte, sym);
    AndZero(matchByte);
    AndZero(Not32(Xor(matchByte, sym)));
  }

  lemma LitNodeAt(l: nat, m: nat, n: nat, mb: nat, offs: nat, lits: nat)
    requires n > 0 && l < lits && 1 <= m < 0x100 && (offs == 0x100 || offs == 0)
    ensures var c := LitNode(l, m, n, mb, offs);
      ValidCtx(c, lits)
      && EncIx(c) == ENC_LIT + LIT_SIZE * l + offs + (if offs == 0x100 then 0x100 * TopBit(n, mb) else 0) + m
  {
  }

  lemma LitRestStep(l: nat, m: nat, n: nat, mb: nat, v: nat, offs: nat)
    requires n > 0 && mb < Pow2(n) && v < Pow2(n)
    ensures var b := TopBit(n, v); var offs' := if offs == 0x100 && TopBit(n, mb) == b then 0x100 else 0;
      LitRest(l, m, n, mb, v, offs)
      == [Model(LitNode(l, m, n, mb, offs), b)] + LitRest(l, 2 * m + b, n - 1, LowBits(n, mb), LowBits(n, v), offs')
  {
  }

  lemma EncAllCons(e: RcEnc, ev: Event, rest: seq<Event>)
    ensures EncAll(e, [ev] + rest) == EncAll(EncEvent(e, ev), rest)
  {
    assert ([ev] + rest)[1..] == rest;
  }

  // Where the loop of LitEnc_EncodeMatched stands.
  ghost predicate MatchedAt(m: nat, v: nat, mb: nat, n: nat, matchByte: nat, offs: nat, sym: nat) {
    && TreeAt(m, v, n, 8, 128, sym) && (sym < 0x1_0000 <==> n > 0)
    && MatchAt(mb, n, matchByte) && (offs == 0 || offs == 0x100)
  }

  lemma MatchedBegin(mb: byte, v: byte)
    ensures MatchedAt(1, v, mb, 8, mb, 0x100, v + 0x100) && Pow2(8) == 256
  {
    Pow2Consts();
    assert Pow2(7) == 128;
    TreeBegin(v, 8, 128);
    MatchBegin(mb);
    TreeMore(1, v, 8, 8, 128, v + 0x100);
  }

  lemma MatchedStays(m: nat, v: nat, mb: nat, n: nat, matchByte: nat, offs: nat, sym: nat)
    requires MatchedAt(m, v, mb, n, matchByte, offs, sym)
    ensures n <= 8 && v < Pow2(n) && mb < Pow2(n) && (sym < 0x1_0000 <==> n > 0) && Pow2(0) == 1
  {
  }

  // The context index and the next masks, as the loop body computes them.
  lemma MatchedGo(l: nat, m: nat, v: nat, mb: nat, n: nat, matchByte: nat, offs: nat, sym: nat, lits: nat)
    requires MatchedAt(m, v, mb, n, matchByte, offs, sym) && n > 0 && l < lits
    ensures v < Pow2(n) && mb < Pow2(n)
    ensures var c := LitNode(l, m, n, mb, offs);
      ValidCtx(c, lits) && EncIx(c) == ENC_LIT + LIT_SIZE * l + offs + And(matchByte * 2, offs) + sym / 0x100
    ensures (sym / 128) % 2 == TopBit(n, v)
    ensures var offs' := And(offs, Not32(Xor(matchByte * 2, sym * 2)));
      && MatchedAt(2 * m + TopBit(n, v), LowBits(n, v), LowBits(n, mb), n - 1, matchByte * 2, offs', sym * 2)
      && LitRest(l, m, n, mb, v, offs)
         == [Model(LitNode(l, m, n, mb, offs), TopBit(n, v))]
            + LitRest(l, 2 * m + TopBit(n, v), n - 1, LowBits(n, mb), LowBits(n, v), offs')
  {
    hide And, Xor, Not32, TreeAt, MatchAt, LitRest, Pow2, TopBit, LowBits;
    Pow2Consts();
    MatchGo(mb, n, matchByte);
    TreeMore(m, v, n, 8, 128, sym);
    SymBit(sym, n, v);
    OffsStep(offs, matchByte * 2, sym * 2, n, mb, v);
    TreeMore(2 * m + TopBit(n, v), LowBits(n, v), n - 1, 8, 128, sym * 2);
    LitNodeAt(l, m, n, mb, offs, lits);
    LitRestStep(l, m, n, mb, v, offs);
  }

  method LitEncodeMatched(rc: RangeEnc, probs: array<nat>, ghost e0: RcEnc, base: nat, sym0: byte, matchByte0: byte,
      ghost l: nat, ghost lits: nat)
    requires Coded(rc, probs, lits, e0) && l < lits && base == ENC_LIT + LIT_SIZE * l
    modifies rc, probs
    ensures Pow2(8) == 256
    ensures Coded(rc, probs, lits, EncAll(e0, MatchedEvs(l, 1, 8, matchByte0, sym0)))
  {
    hide EncEvent, EncAll, Coded, Pow2, MatchedAt, And, Xor, Not32, LitNode, LitRest, EncIx, ValidCtx, TopBit;
    MatchedBegin(matchByte0, sym0);
    LitRestBegin(l, matchByte0, sym0);
    var sym: nat, matchByte: nat, offs: nat := sym0 + 0x100, matchByte0, 0x100;
    ghost var m: nat, v: nat, mb: nat, n: nat := 1, sym0, matchByte0, 8;
    ghost var e := e0;
    MatchedStays(m, v, mb, n, matchByte, offs, sym);
    while sym < 0x1_0000
      invariant Coded(rc, probs, lits, e)
      invariant MatchedAt(m, v, mb, n, matchByte, offs, sym) && (sym < 0x1_0000 <==> n > 0)
      invariant v < Pow2(n) && mb < Pow2(n)
      invariant EncAll(e0, MatchedEvs(l, 1, 8, matchByte0, sym0)) == EncAll(e, LitRest(l, m, n, mb, v, offs))
      decreases n
    {
      MatchedGo(l, m, v, mb, n, matchByte, offs, sym, lits);
      ghost var c := LitNode(l, m, n, mb, offs);
      matchByte := matchByte * 2;
      var ix := base + offs + And(matchByte, offs) + sym / 0x100;
      var bit := (sym / 128) % 2;
      sym := sym * 2;
      offs := And(offs, Not32(Xor(matchByte, sym)));
      m, v, mb, n := 2 * m + bit, LowBits(n, v), LowBits(n, mb), n - 1;
      EncAllCons(e, Model(c, bit), LitRest(l, m, n, mb, v, offs));
      PutBit(rc, probs, e, ix, bit, c, lits);
      e := EncEvent(e, Model(c, bit));
      MatchedStays(m, v, mb, n, matchByte, offs, sym);
    }
    LitRestEnd(e, l, m, mb, v, offs);
  }

  lemma LitRestBegin(l: nat, mb: byte, v: byte)
    ensures Pow2(8) == 256 && LitRest(l, 1, 8, mb, v, 0x100) == MatchedEvs(l, 1, 8, mb, v)
  {
    Pow2Consts();
  }

  lemma LitRestEnd(e: RcEnc, l: nat, m: nat, mb: nat, v: nat, offs: nat)
    requires mb < Pow2(0) && v < Pow2(0)
    ensures EncAll(e, LitRest(l, m, 0, mb, v, offs)) == e
  {
  }

  lemma SymBit(sym: nat, n: nat, v: nat)
    requires n > 0 && (sym / 128) % 2 == TopBit(n, v)
    ensures Bit(2 * sym, 8) == TopBit(n, v)
  {
    Pow2Consts();
    assert (2 * sym) / 256 == sym / 128;
  }

  // ---------- reverse trees ----------

  // RcTree_ReverseEncode
  method ReverseEncode(rc: RangeEnc, probs: array<nat>, ghost e0: RcEnc, base: nat, numBits: nat, sym0: nat,
      ghost r: RevId, ghost lits: nat)
    requires Coded(rc, probs, lits, e0) && numBits > 0
    requires forall p: seq<bit> :: |p| < numBits
               ==> ValidCtx(RevNode(r, p), lits) && EncIx(RevNode(r, p)) == base + EncNode(p)
    modifies rc, probs
    ensures Coded(rc, probs, lits, EncAll(e0, RevEvs(r, [], numBits, sym0)))
  {
    hide EncEvent, EncAll, Coded, EncIx, ValidCtx, EncNode, RevEvs;
    EncNodeSnoc([], 0);
    var m: nat, sym, left := 1, sym0, numBits;
    ghost var path: seq<bit> := [];
    ghost var e := e0;
    while left != 0
      invariant Coded(rc, probs, lits, e)
      invariant left + |path| == numBits && m == EncNode(path)
      invariant EncAll(e0, RevEvs(r, [], numBits, sym0)) == EncAll(e, RevEvs(r, path, left, sym))
    {
      var bit := sym % 2;
      sym := sym / 2;
      RevStep(r, path, left, 2 * sym + bit);
      EncAllCons(e, Model(RevNode(r, path), bit), RevEvs(r, path + [bit], left - 1, sym));
      PutBit(rc, probs, e, base + m, bit, RevNode(r, path), lits);
      e := EncEvent(e, Model(RevNode(r, path), bit));
      m := m * 2 + bit;
      EncNodeSnoc(path, bit);
      path := path + [bit];
      left := left - 1;
    }
    RevEnd(e, r, path, sym);
  }

  lemma EncNodeSnoc(path: seq<bit>, b: bit)
    ensures EncNode([]) == 1 && EncNode(path + [b]) == 2 * EncNode(path) + b
  {
    assert (path + [b])[..|path|] == path;
  }

  lemma RevStep(r: RevId, path: seq<bit>, n: nat, v: nat)
    requires n > 0
    ensures RevEvs(r, path, n, v) == [Model(RevNode(r, path), v % 2)] + RevEvs(r, path + [v % 2], n - 1, v / 2)
  {
  }

  lemma RevEnd(e: RcEnc, r: RevId, path: seq<bit>, v: nat)
    ensures EncAll(e, RevEvs(r, path, 0, v)) == e
  {
  }

  // ---------- lengths ----------

  // RC_BIT_0 and RC_BIT_1
  method PutBit0(rc: RangeEnc, probs: array<nat>, ghost e0: RcEnc, ix: nat, ghost c: Ctx, ghost lits: nat)
    requires Coded(rc, probs, lits, e0) && ValidCtx(c, lits) && ix == EncIx(c)
    modifies rc, probs
    ensures Coded(rc, probs, lits, EncEvent(e0, Model(c, 0)))
  {
    NarrowArray(probs[..], lits, c, 0);
    var ttt := probs[ix];
    rc.Bit0Base(probs, ix, ttt, (rc.range / 2048) * ttt, c, lits);
    rc.Normalize(EncView(probs[..], lits));
  }

  method PutBit1(rc: RangeEnc, probs: array<nat>, ghost e0: RcEnc, ix: nat, ghost c: Ctx, ghost lits: nat)
    requires Coded(rc, probs, lits, e0) && ValidCtx(c, lits) && ix == EncIx(c)
    modifies rc, probs
    ensures Coded(rc, probs, lits, EncEvent(e0, Model(c, 1)))
  {
    NarrowArray(probs[..], lits, c, 1);
    var ttt := probs[ix];
    rc.Bit1Base(probs, ix, ttt, (rc.range / 2048) * ttt, c, lits);
    rc.Normalize(EncView(probs[..], lits));
  }

  lemma TreeCons(t: TreeId, m: nat, n: nat, v: nat)
    requires n > 0 && v < Pow2(n)
    ensures TreeEvs(t, m, n, v) == [Model(Node(t, m), TopBit(n, v))]
      + TreeEvs(t, 2 * m + TopBit(n, v), n - 1, LowBits(n, v))
  {
  }

  lemma ThreeBits(v: nat)
    requires v < 8
    ensures Pow2(3) == 8 && Pow2(2) == 4 && Pow2(1) == 2 && Pow2(0) == 1
    ensures TopBit(3, v) == v / 4 && LowBits(3, v) == v % 4
    ensures TopBit(2, v % 4) == (v / 2) % 2 && LowBits(2, v % 4) == v % 2
    ensures TopBit(1, v % 2) == v % 2 && LowBits(1, v % 2) == 0
  {
    assert Pow2(2) == 4;
  }

  lemma Tree3(t: TreeId, v: nat)
    requires v < 8
    ensures Pow2(3) == 8
    ensures TreeEvs(t, 1, 3, v)
      == [Model(Node(t, 1), v / 4), Model(Node(t, 2 + v / 4), (v / 2) % 2),
          Model(Node(t, 2 * (2 + v / 4) + (v / 2) % 2), v % 2)]
  {
    hide TreeEvs, TopBit, LowBits, Pow2;
    ThreeBits(v);
    TreeCons(t, 1, 3, v);
    TreeCons(t, 2 + v / 4, 2, v % 4);
    TreeCons(t, 2 * (2 + v / 4) + (v / 2) % 2, 1, v % 2);
    TreeNil(t, 2 * (2 * (2 + v / 4) + (v / 2) % 2) + v % 2);
  }

  lemma TreeNil(t: TreeId, m: nat)
    ensures Pow2(0) == 1 && TreeEvs(t, m, 0, 0) == []
  {
  }

  lemma EncAll1(e: RcEnc, x: Event)
    ensures EncAll(e, [x]) == EncEvent(e, x)
  {
    EncAllCons(e, x, []);
    assert [x] + [] == [x];
  }

  lemma EncAll3(e: RcEnc, x: Event, y: Event, z: Event)
    ensures EncAll(e, [x, y, z]) == EncEvent(EncEvent(EncEvent(e, x), y), z)
  {
    EncAllCons(e, x, [y, z]);
    EncAllCons(EncEvent(e, x), y, [z]);
    EncAll1(EncEvent(EncEvent(e, x), y), z);
    assert [x] + [y, z] == [x, y, z] && [y] + [z] == [y, z];
  }

  // The unrolled three-bit tree of LenEnc_Encode.
  method LenTree(rc: RangeEnc, probs: array<nat>, ghost e0: RcEnc, base: nat, sym: nat,
      ghost t: TreeId, ghost lits: nat)
    requires Coded(rc, probs, lits, e0) && sym < 8
    requires forall m :: 1 <= m < 8 ==> ValidCtx(Node(t, m), lits) && EncIx(Node(t, m)) == base + m
    modifies rc, probs
    ensures Pow2(3) == 8
    ensures Coded(rc, probs, lits, EncAll(e0, TreeEvs(t, 1, 3, sym)))
  {
    hide EncEvent, EncAll, Coded, EncIx, ValidCtx, TreeEvs;
    ghost var e := e0;
    Tree3(t, sym);
    var bit: bit := sym / 4;
    PutBit(rc, probs, e, base + 1, bit, Node(t, 1), lits);
    e := EncEvent(e, Model(Node(t, 1), bit));
    var m := 2 + bit;
    bit := (sym / 2) % 2;
    PutBit(rc, probs, e, base + m, bit, Node(t, m), lits);
    e := EncEvent(e, Model(Node(t, m), bit));
    m := 2 * m + bit;
    bit := sym % 2;
    PutBit(rc, probs, e, base + m, bit, Node(t, m), lits);
    EncAll3(e0, Model(Node(t, 1), sym / 4), Model(Node(t, 2 + sym / 4), (sym / 2) % 2), Model(Node(t, m), sym % 2));
  }

  method LenEncode(rc: RangeEnc, probs: array<nat>, ghost e0: RcEnc, base: nat, sym0: nat, posState: nat,
      ghost rep: bool, ghost lits: nat)
    requires Coded(rc, probs, lits, e0) && sym0 < 272 && posState < 16 && base == LenIx(rep, ENC_REP_LEN, ENC_LEN)
    modifies rc, probs
    ensures Coded(rc, probs, lits, EncAll(e0, LenEvs(rep, posState, sym0)))
  {
    hide EncEvent, EncAll, Coded, TreeEvs, Pow2;
    var sym, p := sym0, base;
    ghost var e := e0;
    Pow2Consts();
    assert Pow2(7) == 128 by { Pow2Start(8); }
    if sym >= 8 {
      PutBit1(rc, probs, e, p, LenChoice(rep), lits);
      e := EncEvent(e, Model(LenChoice(rep), 1));
      p := p + 8;
      if sym >= 16 {
        PutBit1(rc, probs, e, p, LenChoice2(rep), lits);
        e := EncEvent(e, Model(LenChoice2(rep), 1));
        EncAll2Then(e0, Model(LenChoice(rep), 1), Model(LenChoice2(rep), 1), TreeEvs(HighTree(rep), 1, 8, sym - 16));
        TreeEncode(rc, probs, e, base + 256, sym - 16, 8, 128, HighTree(rep), lits);
        return;
      }
      sym := sym - 8;
    }
    if p == base {
      PutBit0(rc, probs, e, p, LenChoice(rep), lits);
      EncAllCons(e0, Model(LenChoice(rep), 0), TreeEvs(LowTree(rep, posState), 1, 3, sym));
      LenTree(rc, probs, EncEvent(e, Model(LenChoice(rep), 0)), p + 16 * posState, sym, LowTree(rep, posState), lits);
    } else {
      PutBit0(rc, probs, e, p, LenChoice2(rep), lits);
      EncAll2Then(e0, Model(LenChoice(rep), 1), Model(LenChoice2(rep), 0), TreeEvs(MidTree(rep, posState), 1, 3, sym));
      LenTree(rc, probs, EncEvent(e, Model(LenChoice2(rep), 0)), p + 16 * posState, sym, MidTree(rep, posState), lits);
    }
  }

  lemma EncAll2Then(e: RcEnc, x: Event, y: Event, rest: seq<Event>)
    ensures EncAll(e, [x, y] + rest) == EncAll(EncEvent(EncEvent(e, x), y), rest)
  {
    EncAllCons(e, x, [y] + rest);
    EncAllCons(EncEvent(e, x), y, rest);
    assert [x] + ([y] + rest) == [x, y] + rest;
  }

  // ---------- distances ----------

  const NUM_LOG_BITS: nat := 14     // kNumLogBits for a 64-bit size_t
  const FAST_POS_SIZE: nat := 0x4000

  lemma SlotNext(s: nat)
    requires s >= 2
    ensures SlotBase(s + 1) == SlotBase(s) + Pow2(FooterBits(s))
  {
    if s >= 4 {
      if s % 2 == 0 {
        assert FooterBits(s + 1) == FooterBits(s);
      } else {
        assert FooterBits(s + 1) == FooterBits(s) + 1;
      }
    } else {
      assert Pow2(1) == 2 && Pow2(0) == 1;
    }
  }

  lemma SlotBase28()
    ensures SlotBase(28) == FAST_POS_SIZE
  {
    assert Pow2(13) == 0x2000;
  }

  // 1 << ((slot >> 1) - 1)
  function SlotCount(slot: nat): nat
    requires slot >= 2
  {
    Pow2(slot / 2 - 1)
  }

  lemma SlotFill(slot: nat)
    requires 2 <= slot < 28
    ensures forall d :: SlotBase(slot) <= d < SlotBase(slot + 1) ==> Slot(d) == slot
    ensures SlotBase(slot) + SlotCount(slot) == SlotBase(slot + 1) <= FAST_POS_SIZE
  {
    SlotNext(slot);
    SlotBaseMono(slot + 1, 28);
    SlotBase28();
    assert SlotCount(slot) == Pow2(FooterBits(slot));
    forall d | SlotBase(slot) <= d < SlotBase(slot + 1)
      ensures Slot(d) == slot
    {
      SlotOf(slot, d);
    }
  }

  ghost predicate FastPosOk(fastPos: array<nat>)
    reads fastPos
  {
    fastPos.Length == FAST_POS_SIZE && forall d :: 0 <= d < FAST_POS_SIZE ==> fastPos[d] == Slot(d)
  }

  // LzmaEnc_FastPosInit: the table gives the slot of every distance below 2^14.
  method FastPosInit(fastPos: array<nat>)
    requires fastPos.Length == FAST_POS_SIZE
    modifies fastPos
    ensures FastPosOk(fastPos)
  {
    assert Slot(0) == 0 && Slot(1) == 1 && SlotBase(2) == 2;
    SlotBase28();
    hide Slot, SlotBase, SlotCount;
    fastPos[0] := 0;
    fastPos[1] := 1;
    var at: nat, slot: nat := 2, 2;
    while slot < NUM_LOG_BITS * 2
      invariant 2 <= slot <= 28 && at == SlotBase(slot) <= FAST_POS_SIZE
      invariant forall d :: 0 <= d < at ==> fastPos[d] == Slot(d)
    {
      SlotFill(slot);
      var k := SlotCount(slot);
      var j := 0;
      while j < k
        invariant 0 <= j <= k
        invariant forall d :: 0 <= d < at + j ==> fastPos[d] == Slot(d)
      {
        fastPos[at + j] := slot;
        j := j + 1;
      }
      at := at + k;
      slot := slot + 1;
    }
  }

  lemma SlotBaseMono(s: nat, t: nat)
    requires 2 <= s <= t
    ensures SlotBase(s) <= SlotBase(t)
    decreases t - s
  {
    if s < t {
      SlotNext(s);
      SlotBaseMono(s + 1, t);
    }
  }

  lemma {:induction false} SlotShift(dist: nat, z: nat)
    requires dist / Pow2(z) >= 2
    ensures Slot(dist) == Slot(dist / Pow2(z)) + 2 * z
    decreases z
  {
    if z > 0 {
      var p := Pow2(z - 1);
      DivDiv(dist, p);
      assert dist >= 4 by { if dist < 4 { assert dist / 2 <= 1; SmallQuotient(dist / 2, p); } }
      SlotShift(dist / 2, z - 1);
    }
  }

  lemma SmallQuotient(x: nat, p: nat)
    requires p > 0
    ensures x / p <= x
  {
    QuotientLess(x, x + 1, p);
  }

  // GetPosSlot: the table itself below kNumFullDistances, a shifted look-up above.
  method GetPosSlot(fastPos: array<nat>, pos: nat) returns (res: nat)
    requires FastPosOk(fastPos) && pos <= END_DIST
    ensures res == Slot(pos)
  {
    if pos < 128 {
      res := fastPos[pos];
    } else {
      assert Pow2(6) == 64;
      assert Pow2(19) == 0x8_0000 by { assert Pow2(10) == 0x400; }
      var zz := if pos < 0x10_0000 then 6 else 6 + NUM_LOG_BITS - 1;
      SlotShift(pos, zz);
      res := fastPos[pos / Pow2(zz)] + zz * 2;
    }
  }

  // x | 0xF
  function Or15(x: nat): nat {
    x - x % 16 + 15
  }

  // pos2 with j direct bits w still to send, above the sentinel of four ones.
  ghost predicate Sentinel(pos2: nat, j: nat, w: nat) {
    j <= 26 && w < Pow2(j) && pos2 == (w * 16 + 15) * Pow2(28 - j)
  }

  lemma SentinelBegin(dist: nat, f: nat, base: nat, v: nat)
    requires 6 <= f <= 30 && v < Pow2(f - 4) && (base == 2 * Pow2(f) || base == 3 * Pow2(f))
    requires Or15(dist) == base + v * 16 + 15
    ensures Sentinel(W32(Or15(dist) * Pow2(32 - f)), f - 4, v)
  {
    Pow2Add(f, 32 - f);
    AllOnes();
    SentinelFits(f - 4, v);
    var p, q := Pow2(f), Pow2(32 - f);
    assert 28 - (f - 4) == 32 - f;
    hide Pow2;
    SlotBitsDrop(Or15(dist), base, v * 16 + 15, p, q);
  }

  // The slot's own two bits are shifted out of the 32-bit word.
  lemma SlotBitsDrop(x: nat, base: nat, low: nat, p: nat, q: nat)
    requires p * q == TWO_32 && x == base + low && (base == 2 * p || base == 3 * p) && low * q < TWO_32
    ensures W32(x * q) == low * q
  {
    var k := if base == 2 * p then 2 else 3;
    assert x * q == k * (p * q) + low * q;
    ModUnique(x * q, TWO_32, k, low * q);
  }

  lemma SentinelFits(j: nat, w: nat)
    requires j <= 26 && w < Pow2(j)
    ensures (w * 16 + 15) * Pow2(28 - j) < TWO_32
  {
    Pow2Add(j, 28 - j);
    Pow28();
    FitsArith(w, Pow2(j), Pow2(28 - j));
  }

  lemma FitsArith(w: nat, p: nat, q: nat)
    requires w < p && p * q == 0x1000_0000 && q > 0
    ensures (w * 16 + 15) * q < TWO_32
  {
    MulMono(w + 1, p, q);
    assert (w + 1) * q == w * q + q;
    assert (w * 16 + 15) * q == 16 * (w * q) + 15 * q;
  }

  lemma Pow28()
    ensures Pow2(28) == 0x1000_0000 && Pow2(27) == 0x800_0000 && Pow2(1) == 2
  {
    assert Pow2(14) == 0x4000;
    Pow2Add(14, 14);
  }

  // The loop stops exactly when only the sentinel is left.
  lemma SentinelEnds(pos2: nat, j: nat, w: nat)
    requires Sentinel(pos2, j, w)
    ensures pos2 == 0xF000_0000 <==> j == 0
  {
    Pow28();
    if j > 0 {
      Pow2Add(j, 28 - j);
      Pow2Start(j);
      EndsArith(w, Pow2(j - 1), Pow2(28 - j));
    }
  }

  lemma EndsArith(w: nat, h: nat, q: nat)
    requires (2 * h) * q == 0x1000_0000 && q > 0
    ensures (w * 16 + 15) * q != 0xF000_0000
  {
    assert (30 * h) * q == 0xF000_0000;
    CancelFactor(w * 16 + 15, 30 * h, q);
  }

  lemma CancelFactor(a: nat, b: nat, q: nat)
    requires q > 0
    ensures a * q == b * q ==> a == b
  {
    if a < b { MulLess(a, b, q); } else if b < a { MulLess(b, a, q); }
  }

  lemma MulLess(a: nat, b: nat, q: nat)
    requires a < b && q > 0
    ensures a * q < b * q
  {
    MulMono(a + 1, b, q);
  }

  lemma SentinelStep(pos2: nat, j: nat, w: nat)
    requires Sentinel(pos2, j, w) && j > 0
    ensures pos2 < TWO_32 && w < Pow2(j) && pos2 / 0x8000_0000 == TopBit(j, w)
    ensures Sentinel(W32(pos2 + pos2), j - 1, LowBits(j, w))
  {
    hide Pow2, W32, TopBit, LowBits;
    SentinelParts(j, w);
    StepArith(TopBit(j, w), LowBits(j, w), Pow2(j - 1), Pow2(28 - j), w, pos2);
  }

  lemma SentinelParts(j: nat, w: nat)
    requires 0 < j <= 26 && w < Pow2(j)
    ensures var h, q := Pow2(j - 1), Pow2(28 - j);
      && w == TopBit(j, w) * h + LowBits(j, w) && LowBits(j, w) < h
      && h * (2 * q) == 0x1000_0000 && Pow2(28 - (j - 1)) == 2 * q && (LowBits(j, w) * 16 + 15) * (2 * q) < TWO_32
  {
    Pow28();
    Pow2Add(j - 1, 28 - (j - 1));
    Pow2Twice(28 - (j - 1));
    SentinelFits(j - 1, LowBits(j, w));
  }

  lemma DoubleWraps(b: bit, x: nat)
    requires 2 * x < TWO_32
    ensures var y := b * 0x8000_0000 + x; y < TWO_32 && y / 0x8000_0000 == b && W32(y + y) == 2 * x
  {
    ModUnique(2 * (b * 0x8000_0000 + x), TWO_32, b, 2 * x);
    ModUnique(b * 0x8000_0000 + x, 0x8000_0000, b, x);
  }

  lemma StepArith(b: bit, w': nat, h: nat, q: nat, w: nat, pos2: nat)
    requires h * (2 * q) == 0x1000_0000 && w == b * h + w' && pos2 == (w * 16 + 15) * q
      && (w' * 16 + 15) * (2 * q) < TWO_32
    ensures pos2 < TWO_32 && pos2 / 0x8000_0000 == b && W32(pos2 + pos2) == (w' * 16 + 15) * (2 * q)
  {
    hide W32;
    var x := (w' * 16 + 15) * q;
    assert (w' * 16 + 15) * (2 * q) == 2 * x;
    DoubleWraps(b, x);
    assert h * q == 0x800_0000;
    assert pos2 == b * 0x8000_0000 + x by {
      if b == 0 { assert w == w'; } else { assert (w * 16 + 15) * q == 16 * (h * q) + x; }
    }
  }

  method DirectEncode(rc: RangeEnc, probs: array<nat>, ghost e0: RcEnc, dist: nat, footerBits: nat, ghost base: nat,
      ghost v: nat, ghost lits: nat)
    requires Coded(rc, probs, lits, e0) && 6 <= footerBits <= 30 && v < Pow2(footerBits - 4)
    requires (base == 2 * Pow2(footerBits) || base == 3 * Pow2(footerBits)) && Or15(dist) == base + v * 16 + 15
    modifies rc
    ensures Coded(rc, probs, lits, EncAll(e0, DirectEvs(footerBits - 4, v)))
  {
    hide EncEvent, EncAll, Pow2, Sentinel;
    SentinelBegin(dist, footerBits, base, v);
    var pos2: nat := W32(Or15(dist) * Pow2(32 - footerBits));
    ghost var e, j: nat, w: nat := e0, footerBits - 4, v;
    SentinelEnds(pos2, j, w);
    while pos2 != 0xF000_0000
      invariant Coded(rc, probs, lits, e)
      invariant Sentinel(pos2, j, w) && (pos2 == 0xF000_0000 <==> j == 0) && w < Pow2(j)
      invariant EncAll(e0, DirectEvs(footerBits - 4, v)) == EncAll(e, DirectEvs(j, w))
      decreases j
    {
      SentinelStep(pos2, j, w);
      var b: bit := pos2 / 0x8000_0000;
      DirectCons(e, j, w);
      rc.Direct(b, EncView(probs[..], lits));
      e := EncEvent(e, Direct(b));
      pos2 := W32(pos2 + pos2);
      w, j := LowBits(j, w), j - 1;
      SentinelEnds(pos2, j, w);
    }
    DirectDone(e, w);
  }

  lemma DirectCons(e: RcEnc, j: nat, w: nat)
    requires j > 0 && w < Pow2(j)
    ensures EncAll(e, DirectEvs(j, w)) == EncAll(EncEvent(e, Direct(TopBit(j, w))), DirectEvs(j - 1, LowBits(j, w)))
  {
    EncAllCons(e, Direct(TopBit(j, w)), DirectEvs(j - 1, LowBits(j, w)));
  }

  lemma DirectDone(e: RcEnc, w: nat)
    requires w < Pow2(0)
    ensures EncAll(e, DirectEvs(0, w)) == e
  {
  }
}
