// Shifted words and masks as both sides compute with them: the symbol and the match byte
// moving up through a word, the position masks, and the literal-context arithmetic.
module LzmaMasks {
  import opened Words
  import opened Masks
  import opened LzmaContexts
  import opened LzmaLayout
  import opened LzmaSymbols
  import opened LzmaDryRun

  // ---------- words shifted one bit at a time ----------

  lemma Pow2Start(n: nat)
    requires n > 0
    ensures Pow2(0) == 1 && Pow2(n) == 2 * Pow2(n - 1)
  {
  }

  // The shifted symbol of RcTree_Encode: the node above the mark, the bits left below it.
  lemma TreeStep(m: nat, v: nat, n: nat, k: nat, half: nat, sym: nat)
    requires n > 0 && v < Pow2(n) && Pow2(k) * Pow2(n - 1) == half && half > 0
    requires sym == m * (2 * half) + v * Pow2(k)
    ensures sym / (2 * half) == m && (sym / half) % 2 == TopBit(n, v)
    ensures 2 * sym == (2 * m + TopBit(n, v)) * (2 * half) + LowBits(n, v) * Pow2(k + 1)
  {
    var b, w := TopBit(n, v), LowBits(n, v);
    TreeStepArith(m, b, w, Pow2(n - 1), Pow2(k), half, v, sym);
  }

  lemma TreeStepArith(m: nat, b: bit, w: nat, p: nat, q: nat, half: nat, v: nat, sym: nat)
    requires v == b * p + w && w < p && q * p == half && half > 0 && q > 0
    requires sym == m * (2 * half) + v * q
    ensures sym / (2 * half) == m && (sym / half) % 2 == b
    ensures 2 * sym == (2 * m + b) * (2 * half) + w * (2 * q)
  {
    SplitTop(b, w, p, q, half, v);
    Digits2(m, b, w * q, half);
    assert (2 * m + b) * (2 * half) == 2 * (m * (2 * half) + b * half);
    assert w * (2 * q) == 2 * (w * q);
  }

  lemma SplitTop(b: bit, w: nat, p: nat, q: nat, half: nat, v: nat)
    requires v == b * p + w && w < p && q * p == half && q > 0
    ensures v * q == b * half + w * q && w * q < half
  {
    if b == 0 { assert v == w; } else { assert v * q == p * q + w * q; }
    MulMono(w + 1, p, q);
    assert (w + 1) * q == w * q + q;
  }

  lemma Digits2(m: nat, b: bit, r: nat, half: nat)
    requires r < half
    ensures (m * (2 * half) + b * half + r) / (2 * half) == m
    ensures ((m * (2 * half) + b * half + r) / half) % 2 == b
  {
    var sym := m * (2 * half) + b * half + r;
    assert half * (2 * m + b) == m * (2 * half) + b * half;
    ModUnique(sym, half, 2 * m + b, r);
    ModUnique(sym, 2 * half, m, b * half + r);
  }

  // matchByte shifted along with the symbol: the bits of the match byte still ahead are mb.
  ghost predicate MatchAt(mb: nat, n: nat, matchByte: nat) {
    && n <= 8 && mb < Pow2(n)
    && matchByte / 256 < Pow2(8 - n) && matchByte % 256 == mb * Pow2(8 - n)
  }

  lemma MatchBegin(mb: byte)
    ensures MatchAt(mb, 8, mb)
  {
    Pow2Consts();
  }

  lemma MatchGo(mb: nat, n: nat, matchByte: nat)
    requires MatchAt(mb, n, matchByte) && n > 0
    ensures mb < Pow2(n) && Bit(2 * matchByte, 8) == TopBit(n, mb) && 2 * matchByte < 0x10_0000
    ensures MatchAt(LowBits(n, mb), n - 1, 2 * matchByte)
  {
    hide Pow2, TopBit, LowBits;
    var k := 8 - n;
    Pow2Consts();
    Pow2Add(k, n - 1);
    Pow2Start(8);
    Pow2Start(k + 1);
    Pow2Mono(k, 8);
    MatchArith(matchByte, matchByte / 256, TopBit(n, mb), LowBits(n, mb), Pow2(n - 1), Pow2(k));
    assert 8 - (n - 1) == k + 1;
  }

  lemma MatchArith(y: nat, x: nat, b: bit, w: nat, p: nat, q: nat)
    requires q * p == 128 && w < p && q > 0 && y == 256 * x + (b * p + w) * q
    ensures (2 * y) / 256 == 2 * x + b && (2 * y) % 256 == w * (2 * q)
  {
    SplitTop(b, w, p, q, 128, b * p + w);
    ModUnique(2 * y, 256, 2 * x + b, w * (2 * q));
  }

  // The node LitEnc_EncodeMatched codes in while the bits still agree, and after they differ.
  function LitNode(l: nat, m: nat, n: nat, mb: nat, offs: nat): Ctx
    requires n > 0
  {
    if offs == 0x100 then MatchedNode(l, TopBit(n, mb), m) else Node(LitTree(l), m)
  }

  // ---------- context numbers as the masks compute them ----------

  // A 32-bit position keeps its low bits.
  lemma LowBitsKept(pos: nat, k: nat)
    requires k <= 32
    ensures W32(pos) % Pow2(k) == pos % Pow2(k)
  {
    Pow2Add(k, 32 - k);
    AllOnes();
    ModMod(pos, Pow2(k), Pow2(32 - k));
  }

  // (nowPos32 & pbMask)
  lemma PosStateMask(pos: nat, pb: nat)
    requires pb <= 4
    ensures And(W32(pos), Pow2(pb) - 1) == pos % Pow2(pb) < 16
  {
    AndLow(W32(pos), pb);
    LowBitsKept(pos, pb);
    Pow2Mono(pb, 4);
    Pow2Consts();
  }

  // ((UInt32)0x100 << lp) - ((unsigned)0x100 >> lc)
  function LpMask(p: Props): int
    requires p.lc <= 8
  {
    Pow2(8 + p.lp) - Pow2(8 - p.lc)
  }

  // (pos * 256 + prev) without its low 8 - lc bits, and those two digits modulo lp + lc bits.
  lemma LitDigits(pos: nat, prev: byte, lc: nat, lp: nat)
    requires lc <= 8 && lp <= 4
    ensures ((pos * 256 + prev) / Pow2(8 - lc)) % Pow2(lp + lc) == (pos % Pow2(lp)) * Pow2(lc) + prev / Pow2(8 - lc)
  {
    hide Pow2;
    var a, b, c := Pow2(lc), Pow2(8 - lc), Pow2(lp);
    Pow2Add(lc, 8 - lc);
    Pow2Add(lp, lc);
    Pow2Consts();
    DigitsArith(pos, prev, a, b, c);
  }

  lemma DigitsArith(pos: nat, prev: byte, a: nat, b: nat, c: nat)
    requires a * b == 256 && c > 0 && a > 0 && b > 0
    ensures ((pos * 256 + prev) / b) % (c * a) == (pos % c) * a + prev / b
  {
    QuotientLess(prev, a, b);
    DigitsHigh(pos, prev, a, b);
    DigitsLow(pos, a, c, prev / b);
  }

  lemma DigitsHigh(pos: nat, prev: nat, a: nat, b: nat)
    requires a * b == 256 && b > 0
    ensures (pos * 256 + prev) / b == pos * a + prev / b
  {
    var h, l := prev / b, prev % b;
    assert prev == b * h + l;
    TwoDigits(pos, prev, a, b, h, l);
    ModUnique(pos * 256 + prev, b, pos * a + h, l);
  }

  lemma DigitsLow(pos: nat, a: nat, c: nat, h: nat)
    requires c > 0 && h < a
    ensures c * a > 0 && (pos * a + h) % (c * a) == (pos % c) * a + h
  {
    var q, r := pos / c, pos % c;
    assert pos == c * q + r;
    DigitsLess(r, c, h, a);
    Spread(pos, a, c, q, r, h);
    ModUnique(pos * a + h, c * a, q, r * a + h);
  }

  lemma TwoDigits(pos: nat, prev: nat, a: nat, b: nat, h: nat, l: nat)
    requires a * b == 256 && prev == b * h + l
    ensures pos * 256 + prev == b * (pos * a + h) + l
  {
    assert pos * (a * b) == b * (pos * a);
  }

  lemma Spread(pos: nat, a: nat, c: nat, q: nat, r: nat, h: nat)
    requires pos == c * q + r
    ensures pos * a + h == (c * a) * q + (r * a + h)
  {
    assert (c * q) * a == (c * a) * q;
    assert (c * q + r) * a == (c * q) * a + r * a;
  }

  // 3 * ((((pos << 8) + prevByte) & lpMask) << lc) is 0x300 times the literal state.
  lemma LitOffset(p: Props, pos: nat, prev: byte)
    requires PropsOk(p)
    ensures LpMask(p) >= 0
    ensures 3 * (And(W32(W32(pos) * 256) + prev, LpMask(p)) * Pow2(p.lc)) == LIT_SIZE * LitStateOf(p, pos, prev)
  {
    hide And, Pow2;
    var x := W32(W32(pos) * 256) + prev;
    Pow2Mono(8 - p.lc, 8 + p.lp);
    AndRun(x, 8 - p.lc, 8 + p.lp);
    ShiftedPos(pos);
    var y := W32(W32(pos) * 256) / 256;
    assert x == y * 256 + prev;
    LitDigits(y, prev, p.lc, p.lp);
    assert 8 + p.lp - (8 - p.lc) == p.lp + p.lc;
    YLow(pos, p.lp);
    Pow2Add(8 - p.lc, p.lc);
    Pow2Consts();
    var s := LitStateOf(p, pos, prev);
    ThreeTimes(s, Pow2(8 - p.lc), Pow2(p.lc));
  }

  lemma ThreeTimes(s: nat, a: nat, b: nat)
    requires a * b == 256
    ensures 3 * ((s * a) * b) == LIT_SIZE * s
  {
    assert (s * a) * b == s * (a * b);
  }

  lemma ShiftedPos(pos: nat)
    ensures W32(W32(pos) * 256) == (W32(pos) % 0x100_0000) * 256
  {
  }

  lemma YLow(pos: nat, lp: nat)
    requires lp <= 4
    ensures (W32(W32(pos) * 256) / 256) % Pow2(lp) == pos % Pow2(lp)
  {
    ShiftedPos(pos);
    assert Pow2(24) == 0x100_0000 by { assert Pow2(12) == 0x1000; Pow2Add(12, 12); }
    Pow2Add(lp, 24 - lp);
    ModMod(W32(pos), Pow2(lp), Pow2(24 - lp));
    LowBitsKept(pos, lp);
  }
}
