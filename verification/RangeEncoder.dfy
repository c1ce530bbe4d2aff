// CRangeEnc: the range encoder's registers, with the carry held back in cache and cacheSize.
module RangeEncoder {
  import opened Words
  import opened Masks
  import opened LzmaContexts
  import opened LzmaLayout
  import opened RangeCoder
  import opened ProbArrays

  // The pending 0xFF bytes.
  function FFs(n: nat): seq<byte> {
    seq(n, _ => 0xFF)
  }

  lemma {:induction false} ValFFs(n: nat)
    ensures Val(FFs(n)) == Pow256(n) - 1
  {
    if n > 0 {
      assert FFs(n) == FFs(n - 1) + [0xFF];
      ValFFs(n - 1);
      ValSnoc(FFs(n - 1), 0xFF);
    }
  }

  lemma {:induction false} ValZeros(n: nat)
    ensures Val(seq(n, _ => 0)) == 0
  {
    if n > 0 {
      var z := seq(n - 1, _ => 0 as byte);
      assert seq(n, _ => 0) == z + [0];
      ValZeros(n - 1);
      ValSnoc(z, 0);
    }
  }

  // The bytes already decided but for a carry.
  function Digits(out: seq<byte>, cache: byte, cacheSize: nat): seq<byte> {
    out + [cache] + FFs(cacheSize)
  }

  // A carry turns cache, FF, FF, ... into cache + 1, 00, 00, ...
  lemma CarryVal(out: seq<byte>, cache: byte, n: nat)
    requires cache < 255
    ensures Val(out + [cache + 1] + seq(n, _ => 0)) == Val(Digits(out, cache, n)) + 1
  {
    var z := seq(n, _ => 0 as byte);
    ValConcat(out + [cache + 1], z);
    ValConcat(out + [cache], FFs(n));
    ValSnoc(out, cache + 1);
    ValSnoc(out, cache);
    ValFFs(n);
    ValZeros(n);
    assert |z| == n && |FFs(n)| == n;
    var p := Pow256(n);
    assert Val(out + [cache + 1] + z) == (Val(out) * 256 + cache + 1) * p;
    assert Val(Digits(out, cache, n)) == (Val(out) * 256 + cache) * p + p - 1;
    assert (Val(out) * 256 + cache + 1) * p == (Val(out) * 256 + cache) * p + p;
  }

  function Fill(high: nat): byte {
    if high == 0 then 0xFF else 0x00
  }

  // The bytes after a shift that releases cache and the pending bytes, carry applied.
  lemma EmitVal(out: seq<byte>, cache: byte, n: nat, high: nat, c: byte)
    requires high <= 1 && cache + high <= 255
    ensures Val(Digits(out + [cache + high] + seq(n, _ => Fill(high)), c, 0))
      == (Val(Digits(out, cache, n)) + high) * 256 + c
  {
    var out' := out + [cache + high] + seq(n, _ => Fill(high));
    if high == 0 {
      assert out' == Digits(out, cache, n);
    } else {
      CarryVal(out, cache, n);
      assert out' == out + [cache + 1] + seq(n, _ => 0);
    }
    assert Digits(out', c, 0) == out' + [c];
    ValSnoc(out', c);
  }

  // The bytes after a shift that adds one more pending 0xFF.
  lemma PendVal(out: seq<byte>, cache: byte, n: nat)
    ensures Val(Digits(out, cache, n + 1)) == Val(Digits(out, cache, n)) * 256 + 0xFF
  {
    assert Digits(out, cache, n + 1) == Digits(out, cache, n) + [0xFF];
    ValSnoc(Digits(out, cache, n), 0xFF);
  }

  lemma NumberShift(low: nat, v: nat, high: nat, c: nat)
    requires low == high * TWO_32 + c * TOP_VALUE + low % TOP_VALUE
    ensures (v * TWO_32 + low) * 256 == ((v + high) * 256 + c) * TWO_32 + (low % TOP_VALUE) * 256
  {
  }

  lemma ShiftWord(low: nat)
    ensures W32(W32(low) * 256) == (low % TOP_VALUE) * 256
    ensures low == (low / TWO_32) * TWO_32 + W32(low)
    ensures W32(low) == (W32(low) / TOP_VALUE) * TOP_VALUE + low % TOP_VALUE && W32(low) / TOP_VALUE < 256
  {
    var h, r := low / TWO_32, low % TWO_32;
    var c, t := r / TOP_VALUE, r % TOP_VALUE;
    assert low == h * TWO_32 + c * TOP_VALUE + t && c < 256;
    ModUnique(low, TOP_VALUE, h * 256 + c, t);
    ModUnique(r * 256, TWO_32, c, t * 256);
  }

  class RangeEnc {
    var low: nat            // UInt64
    var range: nat          // UInt32
    var cache: nat          // unsigned
    var cacheSize: nat      // UInt64
    var out: seq<byte>      // buf and everything already passed to outStream

    // What RangeEnc_ShiftLow needs: a carry cannot overflow a cache of 0xFF.
    ghost predicate Ready()
      reads this
    {
      low < 2 * TWO_32 && cache < 256 && (cache == 255 ==> low < TWO_32)
    }

    // The registers between bits; range may still need RC_NORM.
    ghost predicate Wide()
      reads this
    {
      && 0x1_0000 <= range < TWO_32 && cache < 256
      && low + range <= 2 * TWO_32
      && (cache == 255 ==> low + range <= TWO_32)
    }

    ghost predicate Valid()
      reads this
    {
      Wide() && range >= TOP_VALUE
    }

    // The whole number emitted so far.
    ghost function Number(): nat
      reads this
      requires cache < 256
    {
      Val(Digits(out, cache, cacheSize)) * TWO_32 + low
    }

    ghost function Count(): nat
      reads this
    {
      |out| + 1 + cacheSize
    }

    ghost function Abs(p: Probs): RcEnc
      reads this
      requires cache < 256
    {
      RcEnc(Number(), range, Count(), p)
    }

    constructor ()
      ensures Valid() && out == []
      ensures forall p :: Abs(p) == InitEnc(p)
    {
      range, cache, low, cacheSize, out := 0xFFFF_FFFF, 0, 0, 0, [];
      new;
      assert Digits([], 0, 0) == [0];
      assert Val([0]) == 0 by { ValSnoc([], 0); assert [] + [0] == [0]; }
    }

    method ShiftLow()
      requires Ready()
      modifies `low, `cache, `cacheSize, `out
      ensures Ready()
      ensures low == (old(low) % TOP_VALUE) * 256 && low < TWO_32
      ensures Number() == old(Number()) * 256 && Count() == old(Count()) + 1
      ensures cache == 255 ==> old(low) >= TWO_32 + 0xFF00_0000 || (old(cache) == 255 && old(low) >= 0xFF00_0000)
      ensures old(low) < 0xFF00_0000 ==> cacheSize == 0 && cache == old(low) / TOP_VALUE
      ensures old(out) <= out
    {
      hide Val, W32, FFs;
      ShiftWord(low);
      var low32 := W32(low);
      var high := low / TWO_32;
      ghost var low0, cache0, size0, out0 := low, cache, cacheSize, out;
      low := W32(low32 * 256);
      if low32 < 0xFF00_0000 || high != 0 {
        out := out + [cache + high];
        cache := low32 / TOP_VALUE;
        var fill := Fill(high);
        while cacheSize != 0
          modifies `out, `cacheSize
          invariant cacheSize <= size0
          invariant out == out0 + [cache0 + high] + seq(size0 - cacheSize, _ => fill)
        {
          assert seq(size0 - cacheSize + 1, _ => fill) == seq(size0 - cacheSize, _ => fill) + [fill];
          out := out + [fill];
          cacheSize := cacheSize - 1;
        }
        EmitVal(out0, cache0, size0, high, cache);
        NumberShift(low0, Val(Digits(out0, cache0, size0)), high, cache);
      } else {
        cacheSize := cacheSize + 1;
        PendVal(out0, cache0, size0);
        NumberShift(low0, Val(Digits(out0, cache0, size0)), 0, 0xFF);
      }
    }

    // RangeEnc_FlushData: five shifts push out every pending byte of low.
    method FlushData(ghost p: Probs)
      requires Valid()
      modifies this
      ensures Flushed(old(Abs(p)), out)
    {
      hide Val, Pow256;
      var i := 0;
      ghost var n0, c0 := Number(), Count();
      Pow256Table();
      while i < 5
        modifies `low, `cache, `cacheSize, `out
        invariant 0 <= i <= 5 && Ready()
        invariant Number() == n0 * Pow256(i) && Count() == c0 + i
        invariant ZeroBytes(low, i) && (i == 5 ==> cache == 0 && cacheSize == 0)
      {
        FlushStep(low, i, n0);
        ShiftLow();
        i := i + 1;
      }
      FlushEnd(out, n0, low);
    }

    // RC_NORM
    method Normalize(ghost p: Probs)
      requires Wide()
      modifies this
      ensures Valid() && Abs(p) == EncNorm(old(Abs(p))) && old(out) <= out
    {
      if range < TOP_VALUE {
        range := range * 256;
        ShiftLow();
      }
    }

    // RC_BIT_0_BASE and RC_BIT_1_BASE, given ttt and newBound from RC_BIT_PRE.
    method Bit0Base(probs: array<nat>, ix: nat, ttt: nat, newBound: nat, ghost c: Ctx, ghost lits: nat)
      requires Valid() && EncArray(probs[..], lits) && ValidCtx(c, lits) && ix == EncIx(c)
      requires ix < probs.Length && ttt == probs[ix] && newBound == Bound(range, ttt)
      modifies `range, probs
      ensures Wide() && EncArray(probs[..], lits)
      ensures Abs(EncView(probs[..], lits)) == Narrow(old(Abs(EncView(probs[..], lits))), Model(c, 0))
    {
      hide S32, W32, Val, EncIx, EncView, Digits, EncNorm, Pow256, ProbsOk;
      NarrowArray(probs[..], lits, c, 0);
      BoundOk(range, ttt);
      range := newBound;
      probs[ix] := ttt + (2048 - ttt) / 32;
    }

    method Bit1Base(probs: array<nat>, ix: nat, ttt: nat, newBound: nat, ghost c: Ctx, ghost lits: nat)
      requires Valid() && EncArray(probs[..], lits) && ValidCtx(c, lits) && ix == EncIx(c)
      requires ix < probs.Length && ttt == probs[ix] && newBound == Bound(range, ttt)
      modifies `range, `low, probs
      ensures Wide() && EncArray(probs[..], lits)
      ensures Abs(EncView(probs[..], lits)) == Narrow(old(Abs(EncView(probs[..], lits))), Model(c, 1))
    {
      hide S32, W32, Val, EncIx, EncView, Digits, EncNorm, Pow256, ProbsOk;
      NarrowArray(probs[..], lits, c, 1);
      BoundOk(range, ttt);
      range := range - newBound;
      low := low + newBound;
      probs[ix] := ttt - ttt / 32;
    }

    // The register half of RC_BIT: the interval is chosen by masks made from the bit.
    method SelectHalf(newBound: nat, bit: bit)
      requires newBound < range < TWO_32
      modifies `range, `low
      ensures range == (if bit == 0 then newBound else old(range) - newBound)
      ensures low == old(low) + bit * newBound
    {
      hide And;
      MaskSelect(range, newBound, bit);
      var mask := W32(0 - bit);
      range := And(range, mask);
      mask := And(mask, newBound);
      range := W32(range - mask);
      low := low + mask;
      mask := W32(bit - 1);
      range := W32(range + And(newBound, mask));
    }

    // RC_BIT
    method Bit(probs: array<nat>, ix: nat, bit: bit, ghost c: Ctx, ghost lits: nat)
      requires Valid() && EncArray(probs[..], lits) && ValidCtx(c, lits) && ix == EncIx(c)
      modifies this, probs
      ensures Valid() && EncArray(probs[..], lits) && old(out) <= out
      ensures Abs(EncView(probs[..], lits)) == EncEvent(old(Abs(EncView(probs[..], lits))), Model(c, bit))
    {
      hide And, S32, W32, Val, EncIx, EncView, Digits, EncNorm, Adapt;
      NarrowArray(probs[..], lits, c, bit);
      var ttt := probs[ix];
      var newBound := (range / 2048) * ttt;
      BoundOk(range, ttt);
      SelectHalf(newBound, bit);
      ttt := AdaptByMask(ttt, bit);
      probs[ix] := ttt;
      Normalize(EncView(probs[..], lits));
    }

    // One step of the direct-bit loop: range >>= 1; low += range & (0 - b).
    method Direct(b: bit, ghost p: Probs)
      requires Valid()
      modifies this
      ensures Valid() && old(out) <= out
      ensures Abs(p) == EncEvent(old(Abs(p)), RangeCoder.Direct(b))
    {
      range := range / 2;
      AndOnes(range);
      low := low + And(range, W32(0 - b));
      Normalize(p);
    }
  }

  // The probability half of RC_BIT.
  method AdaptByMask(ttt: nat, bit: bit) returns (r: nat)
    requires 31 <= ttt <= 2017
    ensures r == Adapt(ttt, bit)
  {
    hide And, S32;
    MaskSelect(2, 1, bit);
    SignedAdapt(ttt, bit);
    var mask := And(W32(bit - 1), 2048 - 31) + 31;
    r := W32(ttt + W32(S32(W32(mask - ttt)) / 32));
  }

  // An encoder probability array with every probability in range.
  ghost predicate EncArray(a: seq<nat>, lits: nat) {
    |a| == EncProbs(lits) && ProbsOk(EncView(a, lits))
  }

  lemma NarrowArray(a: seq<nat>, lits: nat, c: Ctx, b: bit)
    requires EncArray(a, lits) && ValidCtx(c, lits)
    ensures EncIx(c) < |a| && 31 <= a[EncIx(c)] <= 2017
    ensures var v := Adapt(a[EncIx(c)], b); v >= 0 && EncArray(a[EncIx(c) := v], lits)
    ensures EncView(a[EncIx(c) := Adapt(a[EncIx(c)], b)], lits) == Updated(EncView(a, lits), c, b)
    ensures Prob(EncView(a, lits), c) == a[EncIx(c)]
  {
    EncViewUpdate(a, lits, c, 0);
    ProbOk(EncView(a, lits), c, b);
    EncViewUpdate(a, lits, c, Adapt(a[EncIx(c)], b));
  }

  // The masks of RC_BIT select what its branches would.
  lemma MaskSelect(range: nat, newBound: nat, bit: bit)
    requires newBound < range < TWO_32
    ensures var m := W32(0 - bit);
      And(range, m) == (if bit == 0 then 0 else range) && And(m, newBound) == (if bit == 0 then 0 else newBound)
    ensures var m := W32(bit - 1);
      And(newBound, m) == (if bit == 0 then newBound else 0)
      && And(m, 2048 - 31) == (if bit == 0 then 2048 - 31 else 0)
  {
    hide And;
    AndOnes(range);
    AndOnes(newBound);
    AndOnes(2048 - 31);
    AndZero(range);
    AndZero(newBound);
    AndZero(2048 - 31);
    assert W32(0 - 1) == ONES_32 && W32(0) == 0;
  }

  // The arithmetic shift of the signed difference adapts the probability either way.
  lemma SignedAdapt(ttt: nat, bit: bit)
    requires 31 <= ttt <= 2017
    ensures var mask := (if bit == 0 then 2048 - 31 else 0) + 31;
      W32(ttt + W32(S32(W32(mask - ttt)) / 32)) == Adapt(ttt, bit)
  {
    hide W32, S32;
    var mask := (if bit == 0 then 2048 - 31 else 0) + 31;
    SmallWord(mask - ttt);
    SmallWord(S32(W32(mask - ttt)) / 32);
    SmallWord(ttt + S32(W32(mask - ttt)) / 32);
    WrapAdd(ttt, S32(W32(mask - ttt)) / 32);
    if bit == 1 {
      assert (31 - ttt) / 32 == -(ttt / 32);
    }
  }

  lemma SmallWord(x: int)
    requires -4096 <= x <= 4096
    ensures S32(W32(x)) == x && (x >= 0 ==> W32(x) == x)
  {
    assert W32(x) == if x >= 0 then x else x + TWO_32;
  }

  lemma WrapAdd(a: nat, x: int)
    requires -4096 <= x <= 4096 && 0 <= a + x <= a + 4096 < TWO_32
    ensures W32(a + W32(x)) == a + x
  {
    assert W32(x) == if x >= 0 then x else x + TWO_32;
  }

  // The i lowest bytes of low are zero, all four of them once i is 4.
  ghost predicate ZeroBytes(low: nat, i: nat) {
    (i >= 1 ==> low < TWO_32) && low % Pow256(if i < 4 then i else 4) == 0
  }

  lemma Pow256Table()
    ensures Pow256(0) == 1 && Pow256(1) == 256 && Pow256(2) == 0x1_0000 && Pow256(3) == TOP_VALUE && Pow256(4) == TWO_32
    ensures Pow256(5) == 256 * TWO_32
  {
    assert Pow256(3) == TOP_VALUE;
  }

  lemma FlushStep(low: nat, i: nat, n0: nat)
    requires i < 5 && ZeroBytes(low, i)
    ensures ZeroBytes((low % TOP_VALUE) * 256, i + 1)
    ensures i == 4 ==> low == 0
    ensures n0 * Pow256(i) * 256 == n0 * Pow256(i + 1)
  {
    Pow256Table();
  }

  lemma FlushEnd(out: seq<byte>, n0: nat, low: nat)
    requires ZeroBytes(low, 5) && Val(Digits(out, 0, 0)) * TWO_32 + low == n0 * Pow256(5)
    ensures Val(out) == n0
  {
    Pow256Table();
    assert Digits(out, 0, 0) == out + [0];
    ValSnoc(out, 0);
  }
}
