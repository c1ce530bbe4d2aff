// The LZMA format described a second time, from the outside: the state as a function of the kinds of the last
// symbols, the four distances as a list that is moved to the front, and the events of a symbol in closed form.
module LzmaFormat {
  import opened Words
  import opened Masks
  import opened LzmaContexts
  import opened LzmaLayout
  import opened RangeCoder
  import opened LzmaSymbols
  import opened LzmaDryRun
  import opened LzmaRun

  // ---------- the state ----------

  lemma {:induction false} ApplySnoc(m: Lz, syms: seq<Sym>, s: Sym)
    ensures ApplyAll(m, syms + [s]) == Apply(ApplyAll(m, syms), s)
    decreases |syms|
  {
    hide Apply;
    if syms == [] {
      assert ([] + [s])[1..] == [] && ApplyAll(m, [s]) == ApplyAll(Apply(m, s), []);
    } else {
      ApplySnoc(Apply(m, syms[0]), syms[1..], s);
      assert (syms + [s])[1..] == syms[1..] + [s];
    }
  }

  // How many literals the list ends in.
  function LitsBehind(syms: seq<Sym>): (j: nat)
    ensures j <= |syms| && (j < |syms| ==> !syms[|syms| - 1 - j].Lit?)
  {
    if syms == [] || !syms[|syms| - 1].Lit? then 0 else 1 + LitsBehind(syms[..|syms| - 1])
  }

  // Below 7 after a literal. A match, a repeat or a short repeat gives 7, 8 or 9 behind a literal, and 10, 11 or
  // 11 behind anything else; the first literal then gives 4, 5, 6, 4 or 5, the second 1, 2, 3, 1 or 2, and the
  // third 0.
  lemma {:induction false} StateHistory(syms: seq<Sym>)
    ensures var s, j := ApplyAll(LZ_INIT, syms).state, LitsBehind(syms);
      && (s < 7 <==> syms == [] || j > 0)
      && (j == |syms| || j >= 3 ==> s == 0)
      && (j < |syms| && j < 3 ==>
        var k := |syms| - 1 - j;
        var behindLit := k == 0 || syms[k - 1].Lit?;
        s == match syms[k]
             case Match(_, _) => if behindLit then [7, 4, 1][j] else [10, 4, 1][j]
             case Rep(_, _) => if behindLit then [8, 5, 2][j] else [11, 5, 2][j]
             case ShortRep => if behindLit then [9, 6, 3][j] else [11, 5, 2][j]
             case Lit(_) => 0)
    decreases |syms|
  {
    if syms != [] {
      var init, last := syms[..|syms| - 1], syms[|syms| - 1];
      assert syms == init + [last];
      ApplySnoc(LZ_INIT, init, last);
      StateHistory(init);
      if last.Lit? {
        assert LitsBehind(syms) == 1 + LitsBehind(init);
      } else if init != [] {
        assert init[|init| - 1].Lit? <==> LitsBehind(init) > 0;
      }
    }
  }

  // ---------- the distances and the output ----------

  function Dists(m: Lz): seq<nat> {
    [m.rep0, m.rep1, m.rep2, m.rep3]
  }

  // A repeated distance moves to the front, a new one pushes the oldest out.
  lemma DistsMove(m: Lz, s: Sym)
    requires ValidSym(s)
    ensures var r := Dists(m);
      Dists(Apply(m, s)) == match s
                            case Lit(_) => r
                            case ShortRep => r
                            case Rep(i, _) => [r[i]] + r[..i] + r[i + 1..]
                            case Match(dist, _) => [dist + 1] + r[..3]
  {
  }

  // A literal adds its byte; anything else repeats the output from its distance on.
  lemma SymbolWrites(p: Props, m: Lz, s: Sym, k: nat)
    requires PropsOk(p) && LzInv(p, m) && Legal(p, m, s)
    ensures var out := Apply(m, s).out;
      && m.out <= out
      && |out| == |m.out| + (if s.Rep? || s.Match? then s.len else 1)
      && (s.Lit? ==> out[|m.out|] == s.b)
      && (!s.Lit? && |m.out| <= k < |out| ==>
        var dist := match s
                    case ShortRep => m.rep0
                    case Rep(i, _) => Dists(m)[i]
                    case Match(d, _) => d + 1
                    case Lit(_) => 0;
        1 <= dist <= k && out[k] == out[k - dist])
  {
    hide Copy;
    var n := |m.out|;
    if !s.Lit? && n <= k < |Apply(m, s).out| {
      match s
      case ShortRep => CopyPeriod(m.out, m.rep0, 1, k);
      case Rep(i, len) => CopyPeriod(m.out, RepDist(m, i), len, k);
      case Match(dist, len) => CopyPeriod(m.out, dist + 1, len, k);
    }
  }

  // ---------- bits ----------

  function Div(v: nat, k: nat): nat
    requires k > 0
  {
    v / k
  }

  lemma Shifted(b: nat, low: nat, a: nat, c: nat)
    requires low < Pow2(a + c)
    ensures Div(b * Pow2(a + c) + low, Pow2(c)) == b * Pow2(a) + Div(low, Pow2(c)) && Div(low, Pow2(c)) < Pow2(a)
  {
    hide Pow2;
    Pow2Add(a, c);
    var q, r := low / Pow2(c), low % Pow2(c);
    assert low == Pow2(c) * q + r;
    assert b * Pow2(a + c) + low == Pow2(c) * (b * Pow2(a) + q) + r by {
      assert b * (Pow2(a) * Pow2(c)) == Pow2(c) * (b * Pow2(a));
    }
    ModUnique(b * Pow2(a + c) + low, Pow2(c), b * Pow2(a) + q, r);
    MulIf(Pow2(a), q, Pow2(c));
  }

  lemma MulIf(a: nat, b: nat, c: nat)
    ensures a <= b ==> a * c <= b * c
  {
  }

  // The i digits above that place.
  function Top(v: nat, n: nat, i: nat): nat
    requires i <= n
  {
    Div(v, Pow2(n - i))
  }

  // A tree's node: m followed by the i digits of top.
  function Below(m: nat, i: nat, top: nat): nat {
    m * Pow2(i) + top
  }

  // The bit of v that is i places below the top one of n.
  function Digit(v: nat, n: nat, i: nat): bit
    requires i < n
  {
    Div(v, Pow2(n - 1 - i)) % 2
  }

  lemma DigitTop(v: nat, n: nat)
    requires n > 0 && v < Pow2(n)
    ensures Digit(v, n, 0) == TopBit(n, v) && Top(v, n, 0) == 0
  {
    hide Pow2;
    Halves(n);
    var q, b := Pow2(n - 1), TopBit(n, v);
    ModUnique(v, q, b, LowBits(n, v));
    ModUnique(v, Pow2(n), 0, v);
  }

  lemma Halves(n: nat)
    requires n > 0
    ensures Pow2(n) == 2 * Pow2(n - 1)
  {
  }

  // Below the top bit, the digits and the number above them are those of the rest.
  lemma DigitBelow(v: nat, n: nat, i: nat)
    requires 0 < i < n && v < Pow2(n)
    ensures Digit(v, n, i) == Digit(LowBits(n, v), n - 1, i - 1)
    ensures Top(v, n, i) == Below(TopBit(n, v), i - 1, Top(LowBits(n, v), n - 1, i - 1))
  {
    hide Pow2, Div, TopBit;
    var b, low := TopBit(n, v), LowBits(n, v);
    Shifted(b, low, i, n - 1 - i);
    Shifted(b, low, i - 1, n - i);
    Halves(i);
    EvenPlus(b, Pow2(i - 1), Div(low, Pow2(n - 1 - i)));
  }

  lemma EvenPlus(b: nat, p: nat, r: nat)
    ensures (b * (2 * p) + r) % 2 == r % 2
  {
    assert b * (2 * p) == 2 * (b * p);
  }

  lemma NodeBelow(m: nat, b: bit, i: nat, rest: nat)
    requires i > 0
    ensures Below(2 * m + b, i - 1, rest) == Below(m, i, Below(b, i - 1, rest))
    ensures Below(m, 0, 0) == m
  {
    hide Pow2;
    PowNone();
    Halves(i);
    assert (2 * m + b) * Pow2(i - 1) == m * (2 * Pow2(i - 1)) + b * Pow2(i - 1);
  }

  // A bit tree: bit i of the value from the top, in the context of a one followed by the bits above it.
  lemma {:induction false} TreeAt(t: TreeId, m: nat, n: nat, v: nat, i: nat)
    requires v < Pow2(n) && i < n
    ensures |TreeEvs(t, m, n, v)| == n
    ensures TreeEvs(t, m, n, v)[i] == Model(Node(t, Below(m, i, Top(v, n, i))), Digit(v, n, i))
    decreases n
  {
    hide Pow2, Digit, LowBits, Top, Below, TopBit;
    DigitTop(v, n);
    NodeBelow(m, 0, 1, 0);
    var b, low := TopBit(n, v), LowBits(n, v);
    if n == 1 {
      NoBits(t, 2 * m + b, low);
    } else if i > 0 {
      TreeAt(t, 2 * m + b, n - 1, low, i - 1);
      DigitBelow(v, n, i);
      NodeBelow(m, b, i, Top(low, n - 1, i - 1));
    } else {
      TreeAt(t, 2 * m + b, n - 1, low, 0);
    }
  }

  lemma NoBits(t: TreeId, m: nat, v: nat)
    requires v < Pow2(0)
    ensures TreeEvs(t, m, 0, v) == []
  {
  }

  lemma PowNone()
    ensures Pow2(0) == 1
  {
  }

  lemma {:induction false} DirectAt(n: nat, v: nat, i: nat)
    requires v < Pow2(n) && i < n
    ensures |DirectEvs(n, v)| == n && DirectEvs(n, v)[i] == Direct(Digit(v, n, i))
    decreases n
  {
    hide Pow2, Digit, LowBits;
    DigitTop(v, n);
    if i > 0 {
      DirectAt(n - 1, LowBits(n, v), i - 1);
      DigitBelow(v, n, i);
    } else if n > 1 {
      DirectAt(n - 1, LowBits(n, v), 0);
    }
  }

  // A literal predicted by the byte mb: as long as all bits agree with mb's, the context also has mb's next bit.
  lemma {:induction false} MatchedAt(l: nat, m: nat, n: nat, mb: nat, v: nat, i: nat)
    requires mb < Pow2(n) && v < Pow2(n) && i < n
    ensures |MatchedEvs(l, m, n, mb, v)| == n
    ensures var node := Below(m, i, Top(v, n, i));
      MatchedEvs(l, m, n, mb, v)[i] ==
        Model(if Top(v, n, i) == Top(mb, n, i) then MatchedNode(l, Digit(mb, n, i), node)
              else Node(LitTree(l), node), Digit(v, n, i))
    decreases n
  {
    hide Pow2, Digit, LowBits, TreeEvs, Top, Below, TopBit;
    DigitTop(v, n);
    DigitTop(mb, n);
    NodeBelow(m, 0, 1, 0);
    var x, b := TopBit(n, mb), TopBit(n, v);
    var low, mlow := LowBits(n, v), LowBits(n, mb);
    var j := if i > 0 then i - 1 else 0;
    if n == 1 {
      NoMatched(l, 2 * m + b, mlow, low);
    } else if x == b {
      MatchedAt(l, 2 * m + b, n - 1, mlow, low, j);
    } else {
      TreeAt(LitTree(l), 2 * m + b, n - 1, low, j);
    }
    if i > 0 {
      DigitBelow(v, n, i);
      DigitBelow(mb, n, i);
      NodeBelow(m, b, i, Top(low, n - 1, i - 1));
      LowFits(v, n, i);
      LowFits(mb, n, i);
      TopsDiffer(b, x, Top(low, n - 1, i - 1), Top(mlow, n - 1, i - 1), i);
    }
  }

  lemma NoMatched(l: nat, m: nat, mb: nat, v: nat)
    requires v < Pow2(0) && mb < Pow2(0)
    ensures MatchedEvs(l, m, 0, mb, v) == [] && TreeEvs(LitTree(l), m, 0, v) == []
  {
  }

  lemma LowFits(v: nat, n: nat, i: nat)
    requires 0 < i < n && v < Pow2(n)
    ensures Top(LowBits(n, v), n - 1, i - 1) < Pow2(i - 1)
  {
    hide Pow2;
    Shifted(0, LowBits(n, v), i - 1, n - i);
  }

  lemma TopsDiffer(b: bit, x: bit, u: nat, w: nat, i: nat)
    requires i > 0
    ensures b == x ==> (Below(b, i - 1, u) == Below(x, i - 1, w) <==> u == w)
    ensures b != x && u < Pow2(i - 1) && w < Pow2(i - 1) ==> Below(b, i - 1, u) != Below(x, i - 1, w)
  {
    hide Pow2;
  }

  // The i lowest bits of v, lowest first.
  function LowDigits(v: nat, i: nat): seq<bit> {
    if i == 0 then [] else LowDigits(v, i - 1) + [(v / Pow2(i - 1)) % 2]
  }

  // A reverse tree: bit i from the bottom, in the context of the bits below it.
  lemma {:induction false} ReverseAt(r: RevId, path: seq<bit>, n: nat, v: nat, i: nat)
    requires i < n
    ensures |RevEvs(r, path, n, v)| == n
    ensures RevEvs(r, path, n, v)[i] == Model(RevNode(r, path + LowDigits(v, i)), (v / Pow2(i)) % 2)
    decreases n
  {
    hide Pow2;
    PowNone();
    if n > 1 {
      ReverseAt(r, path + [v % 2], n - 1, v / 2, if i > 0 then i - 1 else 0);
    } else {
      assert RevEvs(r, path + [v % 2], 0, v / 2) == [];
    }
    if i > 0 {
      LowHalf(v, i);
      HalfDiv(v, i);
      assert path + [v % 2] + LowDigits(v / 2, i - 1) == path + ([v % 2] + LowDigits(v / 2, i - 1));
    } else {
      assert path + [] == path;
    }
  }

  lemma HalfDiv(v: nat, i: nat)
    requires i > 0
    ensures v / 2 / Pow2(i - 1) == v / Pow2(i)
  {
    hide Pow2;
    Halves(i);
    DivDiv(v, Pow2(i - 1));
  }

  lemma {:induction false} LowHalf(v: nat, i: nat)
    requires i > 0
    ensures LowDigits(v, i) == [v % 2] + LowDigits(v / 2, i - 1)
    decreases i
  {
    hide Pow2;
    PowNone();
    if i > 1 {
      LowHalf(v, i - 1);
      HalfDiv(v, i - 1);
    }
  }

  // ---------- symbols ----------

  // Which kind of symbol it is, as a code word of flags.
  lemma KindWords(p: Props, m: Lz, s: Sym)
    requires PropsOk(p) && ValidSym(s)
    ensures var st, ps := m.state, |m.out| % Pow2(p.pb);
      match s
      case Lit(_) => [Model(IsMatch(st, ps), 0)] <= SymEvs(p, m, s)
      case Match(_, _) => [Model(IsMatch(st, ps), 1), Model(IsRep(st), 0)] <= SymEvs(p, m, s)
      case ShortRep =>
        SymEvs(p, m, s) == [Model(IsMatch(st, ps), 1), Model(IsRep(st), 1), Model(IsRepG0(st), 0),
                            Model(IsRep0Long(st, ps), 0)]
      case Rep(i, _) =>
        (if i == 0 then
           [Model(IsMatch(st, ps), 1), Model(IsRep(st), 1), Model(IsRepG0(st), 0), Model(IsRep0Long(st, ps), 1)]
         else if i == 1 then
           [Model(IsMatch(st, ps), 1), Model(IsRep(st), 1), Model(IsRepG0(st), 1), Model(IsRepG1(st), 0)]
         else
           [Model(IsMatch(st, ps), 1), Model(IsRep(st), 1), Model(IsRepG0(st), 1), Model(IsRepG1(st), 1),
            Model(IsRepG2(st), if i == 2 then 0 else 1)]) <= SymEvs(p, m, s)
  {
    hide LenEvs, DistEvs, LitEvs, Pow2;
  }

  // The eight bits of a literal: its contexts are chosen by the low lp bits of the position and the high lc bits
  // of the byte before, and behind a match by the byte that stands at the last distance as well.
  lemma LiteralBits(p: Props, m: Lz, b: byte, i: nat)
    requires PropsOk(p) && i < 8
    ensures |SymEvs(p, m, Lit(b))| == 9
    ensures var prev: nat := if m.out == [] then 0 else m.out[|m.out| - 1];
      var lit := (|m.out| % Pow2(p.lp)) * Pow2(p.lc) + prev / Pow2(8 - p.lc);
      var guess: nat := if 1 <= m.rep0 <= |m.out| then m.out[|m.out| - m.rep0] else 0;
      var node := Below(1, i, Top(b, 8, i));
      SymEvs(p, m, Lit(b))[1 + i] ==
        Model(if m.state >= 7 && Top(b, 8, i) == Top(guess, 8, i) then MatchedNode(lit, Digit(guess, 8, i), node)
              else Node(LitTree(lit), node), Digit(b, 8, i))
  {
    hide Pow2, TreeEvs, MatchedEvs, Digit, Top, Below;
    Pow2Consts();
    var l := LitState(p, m);
    if m.state < 7 {
      TreeAt(LitTree(l), 1, 8, b, i);
    } else {
      MatchedAt(l, 1, 8, Back(m.out, m.rep0), b, i);
    }
  }

  // A length: two flags at most choose a tree of 8, 8 or 256 lengths; the two small ones depend on the position.
  lemma LengthWords(rep: bool, ps: nat, len: nat)
    requires 2 <= len <= 273
    ensures Pow2(3) == 8 && Pow2(8) == 256
    ensures var first, second := LenChoice(rep), LenChoice2(rep);
      LenEvs(rep, ps, len - 2) ==
        if len < 10 then [Model(first, 0)] + TreeEvs(LowTree(rep, ps), 1, 3, len - 2)
        else if len < 18 then [Model(first, 1), Model(second, 0)] + TreeEvs(MidTree(rep, ps), 1, 3, len - 10)
        else [Model(first, 1), Model(second, 1)] + TreeEvs(HighTree(rep), 1, 8, len - 18)
  {
    hide TreeEvs, Pow2;
    Pow2Consts();
  }

  // A match's distance: six bits of slot in one of four trees, by the lengths 2, 3, 4 and 5 or more; then, from
  // slot 4 on, the offset in the slot's range: reversed below slot 14, else plain bits and four aligned ones.
  lemma DistanceWords(p: Props, m: Lz, dist: nat, len: nat)
    requires PropsOk(p) && dist <= END_DIST && 2 <= len <= 273
    ensures var slot := Slot(dist); var low: int := dist - SlotBase(slot); var n := FooterBits(slot);
      && Slot(dist) < Pow2(6) && 0 <= low < Pow2(n)
      && (slot >= 14 ==> n >= 4 && low / 16 < Pow2(n - 4))
      && SymEvs(p, m, Match(dist, len))[2..] ==
        LenEvs(false, |m.out| % Pow2(p.pb), len - 2) + (TreeEvs(SlotTree(if len > 5 then 3 else len - 2), 1, 6, slot)
          + (if slot < 4 then [] else if slot < 14 then RevEvs(SpecTree(slot), [], n, low)
             else DirectEvs(n - 4, low / 16) + RevEvs(AlignTree, [], 4, low % 16)))
  {
    hide TreeEvs, Pow2, LenEvs, RevEvs, DirectEvs, Slot, SlotBase, FooterBits;
    Pow2Consts();
    SlotRange(dist);
    SlotBound(dist);
    if Slot(dist) >= 14 {
      AlignSplit(Slot(dist));
    }
  }
}
