// The LZMA symbol layer as functions: which range-coder events a symbol is written as,
// which symbol a decoder reads, and what a symbol does to the state and the output.
module LzmaSymbols {
  import opened Words
  import opened LzmaContexts
  import opened LzmaLayout
  import opened RangeCoder

  datatype Props = Props(lc: nat, lp: nat, pb: nat, dicSize: nat)

  predicate PropsOk(p: Props) {
    p.lc <= 8 && p.lp <= 4 && p.pb <= 4 && 0x1000 <= p.dicSize < TWO_32
  }

  datatype Sym =
    | Lit(b: byte)
    | ShortRep
    | Rep(idx: nat, len: nat)
    | Match(dist: nat, len: nat)    // dist counts from 0; END_DIST is the end mark

  const END_DIST: nat := 0xFFFF_FFFF

  predicate ValidSym(s: Sym) {
    match s
    case Lit(_) => true
    case ShortRep => true
    case Rep(i, len) => i < 4 && 2 <= len <= 273
    case Match(dist, len) => dist <= END_DIST && 2 <= len <= 273
  }

  // What both sides remember between symbols; out is everything decoded so far.
  datatype Lz = Lz(state: nat, rep0: nat, rep1: nat, rep2: nat, rep3: nat, out: seq<byte>)

  const LZ_INIT: Lz := Lz(0, 1, 1, 1, 1, [])

  predicate LzOk(m: Lz) {
    m.state < 12
  }

  // A value read and the decoder after it.
  datatype Read<T> = Read(v: T, d: RcDec)

  // ---------- components: events, reader, and both directions of their agreement ----------

  function TopBit(n: nat, v: nat): bit
    requires n > 0
  {
    if v >= Pow2(n - 1) then 1 else 0
  }

  function LowBits(n: nat, v: nat): (r: nat)
    requires n > 0 && v < Pow2(n)
    ensures r < Pow2(n - 1) && v == TopBit(n, v) * Pow2(n - 1) + r
  {
    if v >= Pow2(n - 1) then v - Pow2(n - 1) else v
  }

  // A top bit and the bits below it, joined and split again.
  lemma JoinBits(n: nat, b: bit, low: nat)
    requires n > 0 && low < Pow2(n - 1)
    ensures var v := b * Pow2(n - 1) + low; v < Pow2(n) && TopBit(n, v) == b && LowBits(n, v) == low
  {
  }

  // RcTree_Encode: the low n bits of v, most significant first, below node m.
  function TreeEvs(t: TreeId, m: nat, n: nat, v: nat): seq<Event>
    requires v < Pow2(n)
    decreases n
  {
    if n == 0 then [] else
      var b := TopBit(n, v);
      [Model(Node(t, m), b)] + TreeEvs(t, 2 * m + b, n - 1, LowBits(n, v))
  }

  ghost function TreeDec(d: RcDec, t: TreeId, m: nat, n: nat): Read<nat>
    decreases n
  {
    if n == 0 then Read(0, d) else
      var (b, d1) := DecBit(d, Node(t, m));
      var rest := TreeDec(d1, t, 2 * m + b, n - 1);
      Read(b * Pow2(n - 1) + rest.v, rest.d)
  }

  lemma {:induction false} TreeSound(d: RcDec, t: TreeId, m: nat, n: nat)
    ensures var r := TreeDec(d, t, m, n);
      r.v < Pow2(n) && Pending(d, TreeEvs(t, m, n, r.v)) && r.d == Run(d, TreeEvs(t, m, n, r.v))
    decreases n
  {
    hide DecBit, Pow2, TopBit, LowBits;
    if n == 0 {
      Pow2Consts();
    } else {
      var (b, d1) := DecBit(d, Node(t, m));
      TreeSound(d1, t, 2 * m + b, n - 1);
      JoinBits(n, b, TreeDec(d1, t, 2 * m + b, n - 1).v);
    }
  }

  lemma {:induction false} TreeUnique(d: RcDec, t: TreeId, m: nat, n: nat, v: nat)
    requires v < Pow2(n) && Pending(d, TreeEvs(t, m, n, v))
    ensures TreeDec(d, t, m, n).v == v
    decreases n
  {
    hide DecBit;
    if n > 0 {
      var b := TopBit(n, v);
      TreeUnique(DecBit(d, Node(t, m)).1, t, 2 * m + b, n - 1, LowBits(n, v));
    }
  }

  // RcTree_ReverseEncode: n bits of v, least significant first.
  function RevEvs(r: RevId, path: seq<bit>, n: nat, v: nat): seq<Event>
    decreases n
  {
    if n == 0 then [] else
      [Model(RevNode(r, path), v % 2)] + RevEvs(r, path + [v % 2], n - 1, v / 2)
  }

  ghost function RevDec(d: RcDec, r: RevId, path: seq<bit>, n: nat): Read<nat>
    decreases n
  {
    if n == 0 then Read(0, d) else
      var (b, d1) := DecBit(d, RevNode(r, path));
      var rest := RevDec(d1, r, path + [b], n - 1);
      Read(b + 2 * rest.v, rest.d)
  }

  lemma {:induction false} RevSound(d: RcDec, r: RevId, path: seq<bit>, n: nat)
    ensures var x := RevDec(d, r, path, n);
      x.v < Pow2(n) && Pending(d, RevEvs(r, path, n, x.v)) && x.d == Run(d, RevEvs(r, path, n, x.v))
    decreases n
  {
    hide DecBit;
    if n > 0 {
      var (b, d1) := DecBit(d, RevNode(r, path));
      RevSound(d1, r, path + [b], n - 1);
      var x := RevDec(d, r, path, n).v;
      assert x % 2 == b && x / 2 == RevDec(d1, r, path + [b], n - 1).v;
    }
  }

  lemma {:induction false} RevUnique(d: RcDec, r: RevId, path: seq<bit>, n: nat, v: nat)
    requires v < Pow2(n) && Pending(d, RevEvs(r, path, n, v))
    ensures RevDec(d, r, path, n).v == v
    decreases n
  {
    hide DecBit;
    if n > 0 {
      RevUnique(DecBit(d, RevNode(r, path)).1, r, path + [v % 2], n - 1, v / 2);
    }
  }

  function DirectEvs(n: nat, v: nat): seq<Event>
    requires v < Pow2(n)
  {
    if n == 0 then [] else
      var b := TopBit(n, v);
      [Direct(b)] + DirectEvs(n - 1, LowBits(n, v))
  }

  ghost function DirectDec(d: RcDec, n: nat): Read<nat>
    decreases n
  {
    if n == 0 then Read(0, d) else
      var (b, d1) := DecDirect(d);
      var rest := DirectDec(d1, n - 1);
      Read(b * Pow2(n - 1) + rest.v, rest.d)
  }

  lemma {:induction false} DirectSound(d: RcDec, n: nat)
    ensures var r := DirectDec(d, n);
      r.v < Pow2(n) && Pending(d, DirectEvs(n, r.v)) && r.d == Run(d, DirectEvs(n, r.v))
    decreases n
  {
    hide DecDirect;
    if n > 0 {
      DirectSound(DecDirect(d).1, n - 1);
    }
  }

  lemma {:induction false} DirectUnique(d: RcDec, n: nat, v: nat)
    requires v < Pow2(n) && Pending(d, DirectEvs(n, v))
    ensures DirectDec(d, n).v == v
    decreases n
  {
    hide DecDirect;
    if n > 0 {
      var b := TopBit(n, v);
      DirectUnique(DecDirect(d).1, n - 1, LowBits(n, v));
    }
  }

  // A literal after a match: bits are predicted by the match byte mb until the first that differs.
  function MatchedEvs(l: nat, m: nat, n: nat, mb: nat, v: nat): seq<Event>
    requires mb < Pow2(n) && v < Pow2(n)
    decreases n
  {
    if n == 0 then [] else
      var x, b := TopBit(n, mb), TopBit(n, v);
      [Model(MatchedNode(l, x, m), b)]
      + if x == b then MatchedEvs(l, 2 * m + b, n - 1, LowBits(n, mb), LowBits(n, v))
        else TreeEvs(LitTree(l), 2 * m + b, n - 1, LowBits(n, v))
  }

  ghost function MatchedDec(d: RcDec, l: nat, m: nat, n: nat, mb: nat): Read<nat>
    requires mb < Pow2(n)
    decreases n
  {
    if n == 0 then Read(0, d) else
      var x := TopBit(n, mb);
      var (b, d1) := DecBit(d, MatchedNode(l, x, m));
      var rest := if x == b then MatchedDec(d1, l, 2 * m + b, n - 1, LowBits(n, mb))
                  else TreeDec(d1, LitTree(l), 2 * m + b, n - 1);
      Read(b * Pow2(n - 1) + rest.v, rest.d)
  }

  lemma {:induction false} MatchedSound(d: RcDec, l: nat, m: nat, n: nat, mb: nat)
    requires mb < Pow2(n)
    ensures var r := MatchedDec(d, l, m, n, mb);
      r.v < Pow2(n) && Pending(d, MatchedEvs(l, m, n, mb, r.v)) && r.d == Run(d, MatchedEvs(l, m, n, mb, r.v))
    decreases n
  {
    hide DecBit, Pow2, TopBit, LowBits, TreeDec, TreeEvs;
    if n == 0 {
      Pow2Consts();
    } else {
      var x := TopBit(n, mb);
      var (b, d1) := DecBit(d, MatchedNode(l, x, m));
      if x == b {
        MatchedSound(d1, l, 2 * m + b, n - 1, LowBits(n, mb));
        JoinBits(n, b, MatchedDec(d1, l, 2 * m + b, n - 1, LowBits(n, mb)).v);
      } else {
        TreeSound(d1, LitTree(l), 2 * m + b, n - 1);
        JoinBits(n, b, TreeDec(d1, LitTree(l), 2 * m + b, n - 1).v);
      }
    }
  }

  lemma {:induction false} MatchedUnique(d: RcDec, l: nat, m: nat, n: nat, mb: nat, v: nat)
    requires mb < Pow2(n) && v < Pow2(n) && Pending(d, MatchedEvs(l, m, n, mb, v))
    ensures MatchedDec(d, l, m, n, mb).v == v
    decreases n
  {
    hide DecBit;
    if n > 0 {
      var x, b := TopBit(n, mb), TopBit(n, v);
      var d1 := DecBit(d, MatchedNode(l, x, m)).1;
      if x == b {
        MatchedUnique(d1, l, 2 * m + b, n - 1, LowBits(n, mb), LowBits(n, v));
      } else {
        TreeUnique(d1, LitTree(l), 2 * m + b, n - 1, LowBits(n, v));
      }
    }
  }

  // ---------- lengths ----------

  // l is the length minus LZMA_MATCH_LEN_MIN.
  function LenEvs(rep: bool, ps: nat, l: nat): seq<Event>
    requires l < 272
  {
    Pow2Consts();
    if l < 8 then [Model(LenChoice(rep), 0)] + TreeEvs(LowTree(rep, ps), 1, 3, l)
    else if l < 16 then [Model(LenChoice(rep), 1), Model(LenChoice2(rep), 0)] + TreeEvs(MidTree(rep, ps), 1, 3, l - 8)
    else [Model(LenChoice(rep), 1), Model(LenChoice2(rep), 1)] + TreeEvs(HighTree(rep), 1, 8, l - 16)
  }

  ghost function LenDec(d: RcDec, rep: bool, ps: nat): Read<nat> {
    var (b1, d1) := DecBit(d, LenChoice(rep));
    if b1 == 0 then TreeDec(d1, LowTree(rep, ps), 1, 3) else
      var (b2, d2) := DecBit(d1, LenChoice2(rep));
      if b2 == 0 then
        var r := TreeDec(d2, MidTree(rep, ps), 1, 3);
        Read(8 + r.v, r.d)
      else
        var r := TreeDec(d2, HighTree(rep), 1, 8);
        Read(16 + r.v, r.d)
  }

  lemma LenSound(d: RcDec, rep: bool, ps: nat)
    ensures var r := LenDec(d, rep, ps);
      r.v < 272 && Pending(d, LenEvs(rep, ps, r.v)) && r.d == Run(d, LenEvs(rep, ps, r.v))
  {
    hide DecBit, Pow2, TreeDec, TreeEvs;
    Pow2Consts();
    var (b1, d1) := DecBit(d, LenChoice(rep));
    if b1 == 0 {
      TreeSound(d1, LowTree(rep, ps), 1, 3);
    } else {
      var (b2, d2) := DecBit(d1, LenChoice2(rep));
      if b2 == 0 {
        TreeSound(d2, MidTree(rep, ps), 1, 3);
      } else {
        TreeSound(d2, HighTree(rep), 1, 8);
      }
    }
  }

  lemma LenUnique(d: RcDec, rep: bool, ps: nat, l: nat)
    requires l < 272 && Pending(d, LenEvs(rep, ps, l))
    ensures LenDec(d, rep, ps).v == l
  {
    hide DecBit, Pow2, TreeDec, TreeEvs;
    Pow2Consts();
    var d1 := DecBit(d, LenChoice(rep)).1;
    if l < 8 {
      TreeUnique(d1, LowTree(rep, ps), 1, 3, l);
    } else {
      var d2 := DecBit(d1, LenChoice2(rep)).1;
      if l < 16 {
        TreeUnique(d2, MidTree(rep, ps), 1, 3, l - 8);
      } else {
        TreeUnique(d2, HighTree(rep), 1, 8, l - 16);
      }
    }
  }

  // ---------- distances ----------

  // 2 * floor(log2 dist) plus the bit below the top one; distances below 4 are their own slot.
  function Slot(dist: nat): nat {
    if dist < 4 then dist else Slot(dist / 2) + 2
  }

  lemma SlotBaseDouble(s: nat)
    requires s >= 4
    ensures Pow2(FooterBits(s)) == (if s < 6 then 2 else 2 * Pow2(FooterBits(s - 2)))
    ensures s >= 6 ==> SlotBase(s) == 2 * SlotBase(s - 2)
    ensures s < 6 ==> SlotBase(s) == 2 * (s - 2)
  {
    assert Pow2(1) == 2;
    if s >= 6 {
      assert FooterBits(s) == FooterBits(s - 2) + 1;
      assert (s - 2) % 2 == s % 2;
    }
  }

  // The distances of slot s are exactly the FooterBits(s)-bit range that starts at SlotBase(s).
  lemma {:induction false} SlotRange(dist: nat)
    ensures var s := Slot(dist); SlotBase(s) <= dist < SlotBase(s) + Pow2(FooterBits(s))
    ensures dist >= 4 <==> Slot(dist) >= 4
  {
    if dist >= 4 {
      SlotRange(dist / 2);
      SlotBaseDouble(Slot(dist));
    }
  }

  lemma {:induction false} SlotOf(s: nat, dist: nat)
    requires SlotBase(s) <= dist < SlotBase(s) + Pow2(FooterBits(s))
    ensures Slot(dist) == s
    decreases dist
  {
    if s >= 4 {
      SlotBaseDouble(s);
      SlotRange(s);
      if s < 6 {
        SlotOf(s - 2, dist / 2);
      } else {
        SlotOf(s - 2, dist / 2);
      }
    }
  }

  lemma SlotBound(dist: nat)
    requires dist <= END_DIST
    ensures Slot(dist) < 64
    ensures Slot(dist) < 14 <==> dist < 128
  {
    Pow2Consts();
    SlotLess(dist, 5, 14);
    SlotLess(dist, 30, 64);
  }

  lemma {:induction false} SlotLess(dist: nat, k: nat, s: nat)
    requires s == 2 * k + 4
    ensures Slot(dist) < s <==> dist < 4 * Pow2(k)
    decreases k
  {
    if k > 0 && dist >= 4 {
      SlotLess(dist / 2, k - 1, s - 2);
    }
  }

  // Slots from 14 on end in four align bits, the rest of the footer being direct bits.
  lemma AlignSplit(s: nat)
    requires 14 <= s < 64
    ensures FooterBits(s) >= 6 && Pow2(FooterBits(s)) == 16 * Pow2(FooterBits(s) - 4)
    ensures SlotBase(s) % 16 == 0 && SlotBase(s) + Pow2(FooterBits(s)) <= TWO_32
  {
    hide Pow2;
    var f := FooterBits(s);
    Pow2Plus4(f - 4);
    Pow2Mono(f, 30);
    Pow2Consts();
    Sixteenths(2 + s % 2, Pow2(f), Pow2(f - 4));
  }

  lemma Sixteenths(x: nat, p: nat, q: nat)
    requires p == 16 * q && 2 <= x <= 3
    ensures (x * p) % 16 == 0 && x * p <= 3 * p
  {
    assert x * p == 16 * (x * q);
  }

  lemma Pow2Plus4(k: nat)
    ensures Pow2(k + 4) == 16 * Pow2(k)
  {
    assert Pow2(k + 4) == 2 * Pow2(k + 3) == 4 * Pow2(k + 2) == 8 * Pow2(k + 1);
  }

  lemma Pow2Consts()
    ensures Pow2(0) == 1 && Pow2(3) == 8 && Pow2(4) == 16 && Pow2(5) == 32 && Pow2(6) == 64 && Pow2(8) == 256
    ensures Pow2(30) == 0x4000_0000
  {
    assert Pow2(5) == 32;
    assert Pow2(10) == 0x400;
    assert Pow2(20) == 0x10_0000;
  }

  function FooterEvs(slot: nat, low: nat): seq<Event>
    requires slot < 64 && low < Pow2(FooterBits(slot))
  {
    if slot < 4 then []
    else if slot < 14 then RevEvs(SpecTree(slot), [], FooterBits(slot), low)
    else
      AlignSplit(slot);
      DirectEvs(FooterBits(slot) - 4, low / 16) + RevEvs(AlignTree, [], 4, low % 16)
  }

  // ls is min(length - 2, 3).
  function DistEvs(ls: nat, dist: nat): seq<Event>
    requires dist <= END_DIST
  {
    SlotRange(dist);
    SlotBound(dist);
    Pow2Consts();
    TreeEvs(SlotTree(ls), 1, 6, Slot(dist)) + FooterEvs(Slot(dist), dist - SlotBase(Slot(dist)))
  }

  ghost function FooterDec(d: RcDec, slot: nat): Read<nat> {
    if slot < 4 then Read(0, d)
    else if slot < 14 then RevDec(d, SpecTree(slot), [], FooterBits(slot))
    else
      var hi := DirectDec(d, if FooterBits(slot) >= 4 then FooterBits(slot) - 4 else 0);
      var lo := RevDec(hi.d, AlignTree, [], 4);
      Read(hi.v * 16 + lo.v, lo.d)
  }

  ghost function DistDec(d: RcDec, ls: nat): Read<nat> {
    var s := TreeDec(d, SlotTree(ls), 1, 6);
    var f := FooterDec(s.d, s.v);
    Read(SlotBase(s.v) + f.v, f.d)
  }

  lemma FooterSound(d: RcDec, slot: nat)
    requires slot < 64
    ensures var r := FooterDec(d, slot);
      r.v < Pow2(FooterBits(slot)) && Pending(d, FooterEvs(slot, r.v)) && r.d == Run(d, FooterEvs(slot, r.v))
  {
    hide DecEvent, DecBit, DecDirect, RevDec, DirectDec, RevEvs, DirectEvs, Pow2;
    Pow2Consts();
    if slot >= 14 {
      AlignSplit(slot);
      var n := FooterBits(slot) - 4;
      var hi := DirectDec(d, n);
      DirectSound(d, n);
      RevSound(hi.d, AlignTree, [], 4);
      var lo := RevDec(hi.d, AlignTree, [], 4);
      var v := hi.v * 16 + lo.v;
      assert v / 16 == hi.v && v % 16 == lo.v;
      RunConcat(d, DirectEvs(n, hi.v), RevEvs(AlignTree, [], 4, lo.v));
    } else if slot >= 4 {
      RevSound(d, SpecTree(slot), [], FooterBits(slot));
    }
  }

  lemma FooterUnique(d: RcDec, slot: nat, low: nat)
    requires slot < 64 && low < Pow2(FooterBits(slot)) && Pending(d, FooterEvs(slot, low))
    ensures FooterDec(d, slot).v == low
  {
    hide DecEvent, DecBit, DecDirect, RevDec, DirectDec, RevEvs, DirectEvs, Pow2;
    Pow2Consts();
    if slot >= 14 {
      AlignSplit(slot);
      var n := FooterBits(slot) - 4;
      RunConcat(d, DirectEvs(n, low / 16), RevEvs(AlignTree, [], 4, low % 16));
      DirectSound(d, n);
      DirectUnique(d, n, low / 16);
      RevUnique(Run(d, DirectEvs(n, low / 16)), AlignTree, [], 4, low % 16);
    } else if slot >= 4 {
      RevUnique(d, SpecTree(slot), [], FooterBits(slot), low);
    }
  }

  lemma DistSound(d: RcDec, ls: nat)
    ensures var r := DistDec(d, ls);
      r.v <= END_DIST && Pending(d, DistEvs(ls, r.v)) && r.d == Run(d, DistEvs(ls, r.v))
  {
    hide DecBit, TreeDec, FooterDec;
    hide TreeEvs, FooterEvs, Pending, Run, Pow2;
    Pow2Consts();
    var s := TreeDec(d, SlotTree(ls), 1, 6);
    TreeSound(d, SlotTree(ls), 1, 6);
    FooterSound(s.d, s.v);
    var f := FooterDec(s.d, s.v);
    var dist := SlotBase(s.v) + f.v;
    SlotOf(s.v, dist);
    if s.v >= 14 { AlignSplit(s.v); } else { SlotLess(dist, 5, 14); }
    RunConcat(d, TreeEvs(SlotTree(ls), 1, 6, s.v), FooterEvs(s.v, f.v));
  }

  lemma DistUnique(d: RcDec, ls: nat, dist: nat)
    requires dist <= END_DIST && Pending(d, DistEvs(ls, dist))
    ensures DistDec(d, ls).v == dist
  {
    hide DecBit, TreeDec, FooterDec, Pow2, TreeEvs, FooterEvs, Pending, Run;
    SlotRange(dist);
    SlotBound(dist);
    Pow2Consts();
    var slot := Slot(dist);
    var low := dist - SlotBase(slot);
    RunConcat(d, TreeEvs(SlotTree(ls), 1, 6, slot), FooterEvs(slot, low));
    TreeUnique(d, SlotTree(ls), 1, 6, slot);
    TreeSound(d, SlotTree(ls), 1, 6);
    FooterUnique(Run(d, TreeEvs(SlotTree(ls), 1, 6, slot)), slot, low);
  }

  // ---------- whole symbols ----------

  function PosState(p: Props, m: Lz): nat {
    |m.out| % Pow2(p.pb)
  }

  function PrevByte(m: Lz): byte {
    if m.out == [] then 0 else m.out[|m.out| - 1]
  }

  // The low lp bits of the position followed by the high lc bits of the previous byte.
  function LitStateOf(p: Props, pos: nat, prev: byte): nat
    requires p.lc <= 8
  {
    var high: nat, scale: nat := pos % Pow2(p.lp), Pow2(p.lc);
    high * scale + prev / Pow2(8 - p.lc)
  }

  function LitState(p: Props, m: Lz): nat
    requires p.lc <= 8
  {
    LitStateOf(p, |m.out|, PrevByte(m))
  }

  function Lits(p: Props): nat {
    Pow2(p.lc + p.lp)
  }

  // The byte dist positions back.
  function Back(out: seq<byte>, dist: nat): byte {
    if 1 <= dist <= |out| then out[|out| - dist] else 0
  }

  const SHORT_REP: nat := 4

  // isRepG0, isRep0Long, isRepG1, isRepG2: which repeated distance, or a one-byte repeat of rep0.
  function RepEvs(s: nat, ps: nat, sel: nat): seq<Event> {
    if sel == 0 then [Model(IsRepG0(s), 0), Model(IsRep0Long(s, ps), 1)]
    else if sel == 1 then [Model(IsRepG0(s), 1), Model(IsRepG1(s), 0)]
    else if sel == 2 then [Model(IsRepG0(s), 1), Model(IsRepG1(s), 1), Model(IsRepG2(s), 0)]
    else if sel == 3 then [Model(IsRepG0(s), 1), Model(IsRepG1(s), 1), Model(IsRepG2(s), 1)]
    else [Model(IsRepG0(s), 0), Model(IsRep0Long(s, ps), 0)]
  }

  ghost function RepDec(d: RcDec, s: nat, ps: nat): Read<nat> {
    var (b0, d0) := DecBit(d, IsRepG0(s));
    if b0 == 0 then
      var (b, d1) := DecBit(d0, IsRep0Long(s, ps));
      Read(if b == 0 then SHORT_REP else 0, d1)
    else
      var (b1, d1) := DecBit(d0, IsRepG1(s));
      if b1 == 0 then Read(1, d1) else
        var (b2, d2) := DecBit(d1, IsRepG2(s));
        Read(2 + b2, d2)
  }

  lemma PendingCons(d: RcDec, evs: seq<Event>)
    requires evs != []
    ensures Pending(d, evs) <==> DecEvent(d, evs[0]).0 == evs[0].b && Pending(DecEvent(d, evs[0]).1, evs[1..])
    ensures Run(d, evs) == Run(DecEvent(d, evs[0]).1, evs[1..])
  {
  }

  lemma RepAgrees(d: RcDec, s: nat, ps: nat, sel: nat)
    requires sel <= SHORT_REP
    ensures RepDec(d, s, ps).v <= SHORT_REP
    ensures RepDec(d, s, ps).v == sel <==> Pending(d, RepEvs(s, ps, sel))
    ensures RepDec(d, s, ps).v == sel ==> RepDec(d, s, ps).d == Run(d, RepEvs(s, ps, sel))
  {
    hide DecBit;
    var evs := RepEvs(s, ps, sel);
    PendingCons(d, evs);
    var d0 := DecEvent(d, evs[0]).1;
    PendingCons(d0, evs[1..]);
    if |evs| == 3 {
      PendingCons(DecEvent(d0, evs[1]).1, evs[2..]);
    }
  }

  function LitEvs(p: Props, m: Lz, b: byte): seq<Event>
    requires p.lc <= 8
  {
    Pow2Consts();
    if m.state < 7 then TreeEvs(LitTree(LitState(p, m)), 1, 8, b)
    else MatchedEvs(LitState(p, m), 1, 8, Back(m.out, m.rep0), b)
  }

  ghost function LitDec(d: RcDec, p: Props, m: Lz): Read<nat>
    requires p.lc <= 8
  {
    Pow2Consts();
    if m.state < 7 then TreeDec(d, LitTree(LitState(p, m)), 1, 8)
    else MatchedDec(d, LitState(p, m), 1, 8, Back(m.out, m.rep0))
  }

  function LenState(len: nat): nat {
    if len < 5 && len >= 2 then len - 2 else 3
  }

  function SymEvs(p: Props, m: Lz, s: Sym): seq<Event>
    requires p.lc <= 8 && ValidSym(s)
  {
    var st, ps := m.state, PosState(p, m);
    match s
    case Lit(b) => [Model(IsMatch(st, ps), 0)] + LitEvs(p, m, b)
    case Match(dist, len) =>
      [Model(IsMatch(st, ps), 1), Model(IsRep(st), 0)] + (LenEvs(false, ps, len - 2) + DistEvs(LenState(len), dist))
    case Rep(i, len) =>
      [Model(IsMatch(st, ps), 1), Model(IsRep(st), 1)] + (RepEvs(st, ps, i) + LenEvs(true, ps, len - 2))
    case ShortRep =>
      [Model(IsMatch(st, ps), 1), Model(IsRep(st), 1)] + RepEvs(st, ps, SHORT_REP)
  }

  ghost function MatchDec(d: RcDec, ps: nat): Read<Sym> {
    var len := LenDec(d, false, ps);
    var dist := DistDec(len.d, LenState(len.v + 2));
    Read(Match(dist.v, len.v + 2), dist.d)
  }

  ghost function RepMatchDec(d: RcDec, st: nat, ps: nat): Read<Sym> {
    var sel := RepDec(d, st, ps);
    if sel.v == SHORT_REP then Read(ShortRep, sel.d) else
      var len := LenDec(sel.d, true, ps);
      Read(Rep(sel.v, len.v + 2), len.d)
  }

  // The symbol a decoder in state m reads from d.
  ghost function SymDec(p: Props, m: Lz, d: RcDec): Read<Sym>
    requires p.lc <= 8
  {
    var st, ps := m.state, PosState(p, m);
    var (b, d1) := DecBit(d, IsMatch(st, ps));
    if b == 0 then
      var r := LitDec(d1, p, m);
      Read(Lit(if r.v < 256 then r.v else 0), r.d)
    else
      var (c, d2) := DecBit(d1, IsRep(st));
      if c == 0 then MatchDec(d2, ps) else RepMatchDec(d2, st, ps)
  }

  lemma LitSound(d: RcDec, p: Props, m: Lz)
    requires p.lc <= 8
    ensures var r := LitDec(d, p, m);
      r.v < 256 && Pending(d, LitEvs(p, m, r.v)) && r.d == Run(d, LitEvs(p, m, r.v))
  {
    hide DecBit, TreeDec, TreeEvs, MatchedDec, MatchedEvs, Pow2;
    Pow2Consts();
    if m.state < 7 {
      TreeSound(d, LitTree(LitState(p, m)), 1, 8);
    } else {
      MatchedSound(d, LitState(p, m), 1, 8, Back(m.out, m.rep0));
    }
  }

  lemma LitUnique(d: RcDec, p: Props, m: Lz, b: byte)
    requires p.lc <= 8 && Pending(d, LitEvs(p, m, b))
    ensures LitDec(d, p, m).v == b
  {
    hide DecBit, TreeDec, TreeEvs, MatchedDec, MatchedEvs, Pow2;
    Pow2Consts();
    if m.state < 7 {
      TreeUnique(d, LitTree(LitState(p, m)), 1, 8, b);
    } else {
      MatchedUnique(d, LitState(p, m), 1, 8, Back(m.out, m.rep0), b);
    }
  }

  lemma TwoHeads(d: RcDec, x: Event, y: Event, rest: seq<Event>)
    ensures var d1 := DecEvent(d, x).1; var d2 := DecEvent(d1, y).1;
      && (Pending(d, [x, y] + rest) <==> DecEvent(d, x).0 == x.b && DecEvent(d1, y).0 == y.b && Pending(d2, rest))
      && Run(d, [x, y] + rest) == Run(d2, rest)
  {
    hide DecEvent;
    var evs := [x, y] + rest;
    PendingCons(d, evs);
    PendingCons(DecEvent(d, x).1, evs[1..]);
    assert evs[1..][1..] == rest;
  }

  // Whatever the bytes, the symbol read is a valid one and the bits read are its encoding.
  lemma SymSound(p: Props, m: Lz, d: RcDec)
    requires p.lc <= 8
    ensures var r := SymDec(p, m, d);
      ValidSym(r.v) && Pending(d, SymEvs(p, m, r.v)) && r.d == Run(d, SymEvs(p, m, r.v))
  {
    hide DecBit, LenDec, DistDec, RepDec, LenEvs, DistEvs, RepEvs, LitEvs, LitDec, Pending, Run;
    var st, ps := m.state, PosState(p, m);
    var (b, d1) := DecBit(d, IsMatch(st, ps));
    if b == 0 {
      LitSound(d1, p, m);
      PendingCons(d, SymEvs(p, m, SymDec(p, m, d).v));
    } else {
      var (c, d2) := DecBit(d1, IsRep(st));
      if c == 0 {
        LenSound(d2, false, ps);
        var len := LenDec(d2, false, ps);
        DistSound(len.d, LenState(len.v + 2));
        var dist := DistDec(len.d, LenState(len.v + 2));
        RunConcat(d2, LenEvs(false, ps, len.v), DistEvs(LenState(len.v + 2), dist.v));
        TwoHeads(d, Model(IsMatch(st, ps), 1), Model(IsRep(st), 0),
                 LenEvs(false, ps, len.v) + DistEvs(LenState(len.v + 2), dist.v));
      } else {
        var sel := RepDec(d2, st, ps);
        RepAgrees(d2, st, ps, 0);
        RepAgrees(d2, st, ps, sel.v);
        if sel.v == SHORT_REP {
          TwoHeads(d, Model(IsMatch(st, ps), 1), Model(IsRep(st), 1), RepEvs(st, ps, SHORT_REP));
        } else {
          LenSound(sel.d, true, ps);
          var len := LenDec(sel.d, true, ps);
          RunConcat(d2, RepEvs(st, ps, sel.v), LenEvs(true, ps, len.v));
          TwoHeads(d, Model(IsMatch(st, ps), 1), Model(IsRep(st), 1), RepEvs(st, ps, sel.v) + LenEvs(true, ps, len.v));
        }
      }
    }
  }

  // If the bits ahead are the encoding of s, the symbol read is s.
  lemma SymUnique(p: Props, m: Lz, d: RcDec, s: Sym)
    requires p.lc <= 8 && ValidSym(s) && Pending(d, SymEvs(p, m, s))
    ensures SymDec(p, m, d) == Read(s, Run(d, SymEvs(p, m, s)))
  {
    hide DecBit, LenDec, DistDec, RepDec, LenEvs, DistEvs, RepEvs, LitEvs, LitDec, Pending, Run;
    SymSound(p, m, d);
    var st, ps := m.state, PosState(p, m);
    var d1 := DecBit(d, IsMatch(st, ps)).1;
    var d2 := DecBit(d1, IsRep(st)).1;
    match s
    case Lit(b) =>
      PendingCons(d, SymEvs(p, m, s));
      LitUnique(d1, p, m, b);
    case Match(dist, len) =>
      var le, de := LenEvs(false, ps, len - 2), DistEvs(LenState(len), dist);
      TwoHeads(d, Model(IsMatch(st, ps), 1), Model(IsRep(st), 0), le + de);
      RunConcat(d2, le, de);
      LenUnique(d2, false, ps, len - 2);
      LenSound(d2, false, ps);
      DistUnique(Run(d2, le), LenState(len), dist);
    case Rep(i, len) =>
      var re, le := RepEvs(st, ps, i), LenEvs(true, ps, len - 2);
      TwoHeads(d, Model(IsMatch(st, ps), 1), Model(IsRep(st), 1), re + le);
      RunConcat(d2, re, le);
      RepAgrees(d2, st, ps, i);
      LenUnique(Run(d2, re), true, ps, len - 2);
    case ShortRep =>
      TwoHeads(d, Model(IsMatch(st, ps), 1), Model(IsRep(st), 1), RepEvs(st, ps, SHORT_REP));
      RepAgrees(d2, st, ps, SHORT_REP);
  }
}
