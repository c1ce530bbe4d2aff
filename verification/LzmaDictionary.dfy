// The decoder's cyclic dictionary as a window on an append-only output.
module LzmaDictionary {
  import opened Words
  import opened LzmaSymbols
  import opened LzmaRun

  // Where the byte written k positions ago is: dicPos - k + (dicPos < k ? dicBufSize : 0)
  function DicIx(n: nat, dicPos: nat, k: nat): int {
    if dicPos < k then dicPos - k + n else dicPos - k
  }

  // The last bytes of out, as many as the dictionary can hold, are where DicIx says.
  ghost predicate DicHolds(dic: seq<byte>, dicPos: nat, out: seq<byte>) {
    && dicPos <= |dic|
    && forall k :: 1 <= k <= |out| && k <= |dic| ==> dic[DicIx(|dic|, dicPos, k)] == out[|out| - k]
  }

  lemma DicPush(dic: seq<byte>, dicPos: nat, out: seq<byte>, b: byte)
    requires DicHolds(dic, dicPos, out) && dicPos < |dic|
    ensures DicHolds(dic[dicPos := b], dicPos + 1, out + [b])
  {
    var n, next, dic', out' := |dic|, dicPos + 1, dic[dicPos := b], out + [b];
    forall k | 1 <= k <= |out'| && k <= n
      ensures dic'[DicIx(n, next, k)] == out'[|out'| - k]
    {
      if k > 1 {
        assert DicIx(n, next, k) == DicIx(n, dicPos, k - 1);
        assert dic[DicIx(n, dicPos, k - 1)] == out[|out| - (k - 1)];
      }
    }
  }

  // Starting over at the front of a full dictionary loses nothing.
  lemma DicWrap(dic: seq<byte>, out: seq<byte>)
    requires DicHolds(dic, |dic|, out)
    ensures DicHolds(dic, 0, out)
  {
    forall k | 1 <= k <= |out| && k <= |dic|
      ensures dic[DicIx(|dic|, 0, k)] == out[|out| - k]
    {
      assert DicIx(|dic|, 0, k) == DicIx(|dic|, |dic|, k);
    }
  }

  lemma DicBack(dic: seq<byte>, dicPos: nat, out: seq<byte>, k: nat)
    requires DicHolds(dic, dicPos, out) && 1 <= k <= |out| && k <= |dic|
    ensures 0 <= DicIx(|dic|, dicPos, k) < |dic| && dic[DicIx(|dic|, dicPos, k)] == Back(out, k)
  {
  }

  // Nothing but the bytes from lo to hi has been written.
  ghost predicate WroteOnly(before: seq<byte>, after: seq<byte>, lo: nat, hi: nat) {
    && |before| == |after|
    && forall i :: 0 <= i < |before| && !(lo <= i < hi) ==> after[i] == before[i]
  }

  lemma WroteBoth(a: seq<byte>, b: seq<byte>, c: seq<byte>, lo: nat, mid: nat, hi: nat)
    requires WroteOnly(a, b, lo, mid) && WroteOnly(b, c, mid, hi) && lo <= mid <= hi
    ensures WroteOnly(a, c, lo, hi)
  {
  }

  lemma WroteNothing(a: seq<byte>, lo: nat)
    ensures WroteOnly(a, a, lo, lo)
  {
  }

  // One byte copied from rep0 back.
  method PushBack(dic: array<byte>, dicPos: nat, from: nat, ghost rep0: nat, ghost out: seq<byte>)
    requires DicHolds(dic[..], dicPos, out) && dicPos < dic.Length && 1 <= rep0 <= |out| && rep0 <= dic.Length
    requires from == DicIx(dic.Length, dicPos, rep0)
    modifies dic
    ensures DicHolds(dic[..], dicPos + 1, out + [Back(out, rep0)])
    ensures dic[..] == old(dic[..])[dicPos := Back(out, rep0)]
  {
    DicBack(dic[..], dicPos, out, rep0);
    DicPush(dic[..], dicPos, out, dic[from]);
    dic[dicPos] := dic[from];
  }

  // The two copy loops of LZMA_DECODE_REAL: straight when the source does not wrap, else cyclic.
  method CopyMatch(dic: array<byte>, dicPos0: nat, rep0: nat, curLen0: nat, ghost out: seq<byte>) returns (dicPos: nat)
    requires DicHolds(dic[..], dicPos0, out) && 0 < curLen0 <= dic.Length - dicPos0
    requires 1 <= rep0 <= |out| && rep0 <= dic.Length
    modifies dic
    ensures dicPos == dicPos0 + curLen0 && DicHolds(dic[..], dicPos, Copy(out, rep0, curLen0))
    ensures WroteOnly(old(dic[..]), dic[..], dicPos0, dicPos)
  {
    hide DicHolds, Back;
    var pos := if dicPos0 < rep0 then dicPos0 - rep0 + dic.Length else dicPos0 - rep0;
    ghost var o := out;
    dicPos := dicPos0;
    if curLen0 <= dic.Length - pos {
      var src := pos - dicPos0;
      var lim := dicPos0 + curLen0;
      while dicPos != lim
        invariant dicPos0 <= dicPos <= lim && DicHolds(dic[..], dicPos, o) && |o| >= |out|
        invariant Copy(out, rep0, curLen0) == Copy(o, rep0, lim - dicPos)
        invariant WroteOnly(old(dic[..]), dic[..], dicPos0, dicPos)
      {
        PushBack(dic, dicPos, dicPos + src, rep0, o);
        o := o + [Back(o, rep0)];
        dicPos := dicPos + 1;
      }
    } else {
      var curLen := curLen0;
      while curLen != 0
        invariant 0 <= curLen <= curLen0 && dicPos == dicPos0 + curLen0 - curLen
          && DicHolds(dic[..], dicPos, o) && |o| >= |out|
        invariant curLen > 0 ==> pos == DicIx(dic.Length, dicPos, rep0)
        invariant Copy(out, rep0, curLen0) == Copy(o, rep0, curLen)
        invariant WroteOnly(old(dic[..]), dic[..], dicPos0, dicPos)
      {
        PushBack(dic, dicPos, pos, rep0, o);
        o := o + [Back(o, rep0)];
        dicPos := dicPos + 1;
        pos := pos + 1;
        if pos == dic.Length {
          pos := 0;
        }
        curLen := curLen - 1;
      }
    }
  }

  // The loop of LzmaDec_WriteRem: the source is worked out for every byte.
  method CopyRem(dic: array<byte>, dicPos0: nat, rep0: nat, len0: nat, ghost out: seq<byte>) returns (dicPos: nat)
    requires DicHolds(dic[..], dicPos0, out) && 0 < len0 <= dic.Length - dicPos0
    requires 1 <= rep0 <= |out| && rep0 <= dic.Length
    modifies dic
    ensures dicPos == dicPos0 + len0 && DicHolds(dic[..], dicPos, Copy(out, rep0, len0))
    ensures WroteOnly(old(dic[..]), dic[..], dicPos0, dicPos)
  {
    hide DicHolds, Back;
    ghost var o := out;
    dicPos := dicPos0;
    var len := len0;
    while len != 0
      invariant 0 <= len <= len0 && dicPos == dicPos0 + len0 - len && DicHolds(dic[..], dicPos, o) && |o| >= |out|
      invariant Copy(out, rep0, len0) == Copy(o, rep0, len)
      invariant WroteOnly(old(dic[..]), dic[..], dicPos0, dicPos)
    {
      PushBack(dic, dicPos, if dicPos < rep0 then dicPos - rep0 + dic.Length else dicPos - rep0, rep0, o);
      o := o + [Back(o, rep0)];
      dicPos := dicPos + 1;
      len := len - 1;
    }
  }
}
