// The hash thread of LzFindMt.c: GetHeads turns the hash values of a block into distances back, in a
// numbering of its own that is lowered at times of its own. What it hands over are the deltas that the
// tree thread's batches need, however it cuts the block up and whenever it lowers its own positions.
module LzHashThread {
  import opened Words
  import opened LzTree
  import opened LzSon
  import opened LzFind
  import opened LzForest
  import opened LzFindOpt

  const MAX_NORMALIZE: nat := 0xFFFF_FFFF        // kMtMaxValForNormalize
  const MAX_BLOCK: nat := 0x2_0000 - 2           // kMtHashBlockSize - 2
  const MAX_SIZE: nat := 0xF000_0001             // kLzmaMaxHistorySize + 1

  // The heads once k positions from at on, with the values hs, have gone into their buckets.
  function HeadsAfter(heads: seq<nat>, hs: seq<nat>, at: nat, k: nat): (r: seq<nat>)
    requires k <= |hs| && HeadsIn(hs, |heads|)
    ensures |r| == |heads|
  {
    if k == 0 then heads else HeadsAfter(heads, hs, at, k - 1)[hs[k - 1] := at + k - 1]
  }

  // How far back each position's head was when its turn came.
  ghost predicate Met(size: nat, heads: seq<nat>, hs: seq<nat>, at: nat, deltas: seq<nat>) {
    && size > 0 && |deltas| == |hs| && HeadsIn(hs, |heads|)
    && forall i: nat :: i < |hs| ==> DeltaFor(size, at + i, HeadsAfter(heads, hs, at, i)[hs[i]], deltas[i])
  }

  // The hash thread at its position pos holds, of every bucket, what the tree thread at its position at
  // needs to know.
  ghost predicate InStep(hash: seq<nat>, pos: nat, heads: seq<nat>, at: nat, size: nat) {
    && size > 0 && |hash| == |heads|
    && forall b :: 0 <= b < |hash| ==> hash[b] < pos && DeltaFor(size, at, heads[b], pos - hash[b])
  }

  // Both begin at the same position with nothing known.
  lemma StepBegins(hash: seq<nat>, heads: seq<nat>, pos: nat, size: nat)
    requires size > 0 && pos > 0 && |hash| == |heads|
    requires forall b :: 0 <= b < |hash| ==> hash[b] == heads[b] == 0
    ensures InStep(hash, pos, heads, pos, size)
  {
  }

  // A delta that is right stays right one position on.
  lemma DeltaLater(size: nat, at: nat, head: nat, delta: nat)
    requires size > 0 && DeltaFor(size, at, head, delta)
    ensures DeltaFor(size, at + 1, head, delta + 1)
  {
  }

  lemma StepOn(hash: seq<nat>, pos: nat, heads: seq<nat>, at: nat, size: nat, h: nat)
    requires InStep(hash, pos, heads, at, size) && h < |hash|
    ensures InStep(hash[h := pos], pos + 1, heads[h := at], at + 1, size)
  {
    hide DeltaFor;
    var hash', heads' := hash[h := pos], heads[h := at];
    forall b | 0 <= b < |hash|
      ensures hash'[b] < pos + 1 && DeltaFor(size, at + 1, heads'[b], pos + 1 - hash'[b])
    {
      if b != h {
        DeltaLater(size, at, heads[b], pos - hash[b]);
      } else {
        DeltaNew(size, at);
      }
    }
  }

  lemma DeltaNew(size: nat, at: nat)
    requires size > 0
    ensures DeltaFor(size, at + 1, at, 1)
  {
  }

  // The hash thread lowers its positions: what it forgets is outside the window.
  lemma HashLowered(hash: seq<nat>, pos: nat, heads: seq<nat>, at: nat, size: nat, sub: nat)
    requires InStep(hash, pos, heads, at, size) && sub + size == pos
    ensures InStep(SaturAll(hash, sub), size, heads, at, size)
  {
  }

  // The tree thread lowers its own.
  lemma DeltaLowered(size: nat, at: nat, head: nat, delta: nat, sub: nat)
    requires size > 0 && DeltaFor(size, at, head, delta) && sub <= Floor(at, size)
    ensures sub <= at && DeltaFor(size, at - sub, SaturSub(head, sub), delta)
  {
  }

  // ---------- GetHeads ----------

  // GetHeads_LOOP, for the values that its macro computes.
  method GetHeads(values: seq<nat>, pos0: nat, hash: array<nat>, size: nat, ghost heads: seq<nat>, ghost at: nat)
      returns (deltas: seq<nat>)
    requires InStep(hash[..], pos0, heads, at, size) && HeadsIn(values, hash.Length) && pos0 + |values| <= TWO_32
    modifies hash
    ensures Met(size, heads, values, at, deltas)
    ensures InStep(hash[..], pos0 + |values|, HeadsAfter(heads, values, at, |values|), at + |values|, size)
  {
    hide DeltaFor, W32, InStep, HeadsAfter;
    InStepSizes(hash[..], pos0, heads, at, size);
    AfterNone(heads, values, at);
    deltas := [];
    var pos := pos0;
    for k := 0 to |values|
      invariant pos == pos0 + k && |deltas| == k
      invariant InStep(hash[..], pos, HeadsAfter(heads, values, at, k), at + k, size)
      invariant forall i: nat :: i < k ==>
                                    DeltaFor(size, at + i, HeadsAfter(heads, values, at, i)[values[i]], deltas[i])
    {
      var value := values[k];
      ghost var was := hash[..];
      AfterOne(heads, values, at, k);
      StepOn(was, pos, HeadsAfter(heads, values, at, k), at + k, size, value);
      InStepAt(was, pos, HeadsAfter(heads, values, at, k), at + k, size, value);
      deltas := deltas + [W32(pos - hash[value])];
      hash[value] := pos;
      pos := pos + 1;
      assert hash[..] == was[value := pos - 1];
    }
  }

  lemma AfterNone(heads: seq<nat>, hs: seq<nat>, at: nat)
    requires HeadsIn(hs, |heads|)
    ensures HeadsAfter(heads, hs, at, 0) == heads
  {
  }

  lemma AfterOne(heads: seq<nat>, hs: seq<nat>, at: nat, k: nat)
    requires HeadsIn(hs, |heads|) && k < |hs|
    ensures HeadsAfter(heads, hs, at, k + 1) == HeadsAfter(heads, hs, at, k)[hs[k] := at + k]
  {
  }

  lemma InStepSizes(hash: seq<nat>, pos: nat, heads: seq<nat>, at: nat, size: nat)
    requires InStep(hash, pos, heads, at, size)
    ensures size > 0 && |hash| == |heads|
  {
  }

  lemma InStepAt(hash: seq<nat>, pos: nat, heads: seq<nat>, at: nat, size: nat, h: nat)
    requires InStep(hash, pos, heads, at, size) && h < |hash| && pos < TWO_32
    ensures hash[h] < pos && W32(pos - hash[h]) == pos - hash[h] && DeltaFor(size, at, heads[h], pos - hash[h])
  {
    hide DeltaFor;
  }

  // One block of HashThreadFunc: the positions are lowered before they would wrap.
  method FillBlock(values: seq<nat>, pos0: nat, hash: array<nat>, size: nat, ghost heads: seq<nat>, ghost at: nat)
      returns (deltas: seq<nat>, pos: nat)
    requires InStep(hash[..], pos0, heads, at, size) && HeadsIn(values, hash.Length)
    requires |values| <= MAX_BLOCK && size <= MAX_SIZE && pos0 <= MAX_NORMALIZE
    modifies hash
    ensures pos <= MAX_NORMALIZE && Met(size, heads, values, at, deltas)
    ensures InStep(hash[..], pos, HeadsAfter(heads, values, at, |values|), at + |values|, size)
  {
    hide InStep, Met, HeadsAfter;
    pos := pos0;
    if pos > MAX_NORMALIZE - |values| {
      var subValue := pos - size;
      HashLowered(hash[..], pos, heads, at, size, subValue);
      Normalize3(subValue, hash);
      pos := size;
    }
    deltas := GetHeads(values, pos, hash, size, heads, at);
    pos := pos + |values|;
  }

  // ---------- the tree thread's batches ----------

  lemma {:induction false} AfterSplit(heads: seq<nat>, hs: seq<nat>, at: nat, k: nat, i: nat)
    requires HeadsIn(hs, |heads|) && k + i <= |hs|
    ensures HeadsIn(hs[k..], |heads|)
    ensures HeadsAfter(heads, hs, at, k + i) == HeadsAfter(HeadsAfter(heads, hs, at, k), hs[k..], at + k, i)
    decreases i
  {
    if i > 0 {
      AfterSplit(heads, hs, at, k, i - 1);
    }
  }

  lemma {:induction false} AfterPart(heads: seq<nat>, hs: seq<nat>, at: nat, k: nat, i: nat)
    requires HeadsIn(hs, |heads|) && i <= k <= |hs|
    ensures HeadsIn(hs[..k], |heads|) && HeadsAfter(heads, hs, at, i) == HeadsAfter(heads, hs[..k], at, i)
    decreases i
  {
    if i > 0 {
      AfterPart(heads, hs, at, k, i - 1);
    }
  }

  // Some of a block for one batch, and the rest for the next.
  lemma MetCut(size: nat, heads: seq<nat>, hs: seq<nat>, at: nat, deltas: seq<nat>, k: nat)
    requires Met(size, heads, hs, at, deltas) && k <= |hs|
    ensures Met(size, heads, hs[..k], at, deltas[..k])
    ensures Met(size, HeadsAfter(heads, hs, at, k), hs[k..], at + k, deltas[k..])
  {
    hide DeltaFor, HeadsAfter;
    AfterSplit(heads, hs, at, k, 0);
    AfterPart(heads, hs, at, k, 0);
    forall i: nat | i < k
      ensures DeltaFor(size, at + i, HeadsAfter(heads, hs[..k], at, i)[hs[..k][i]], deltas[..k][i])
    {
      AfterPart(heads, hs, at, k, i);
    }
    var rest := HeadsAfter(heads, hs, at, k);
    forall i: nat | i < |hs| - k
      ensures DeltaFor(size, at + k + i, HeadsAfter(rest, hs[k..], at + k, i)[hs[k..][i]], deltas[k..][i])
    {
      AfterSplit(heads, hs, at, k, i);
      assert DeltaFor(size, at + (k + i), HeadsAfter(heads, hs, at, k + i)[hs[k + i]], deltas[k + i]);
    }
  }

  lemma {:induction false} AfterLowered(heads: seq<nat>, hs: seq<nat>, at: nat, sub: nat, k: nat)
    requires HeadsIn(hs, |heads|) && k <= |hs| && sub <= at
    ensures HeadsAfter(SaturAll(heads, sub), hs, at - sub, k) == SaturAll(HeadsAfter(heads, hs, at, k), sub)
    decreases k
  {
    if k > 0 {
      AfterLowered(heads, hs, at, sub, k - 1);
    }
  }

  // The deltas in hand stay right when the tree thread lowers its positions.
  lemma MetLowered(size: nat, heads: seq<nat>, hs: seq<nat>, at: nat, deltas: seq<nat>, sub: nat)
    requires Met(size, heads, hs, at, deltas) && sub <= Floor(at, size)
    ensures sub <= at && Met(size, SaturAll(heads, sub), hs, at - sub, deltas)
  {
    hide DeltaFor;
    forall i: nat | i < |hs|
      ensures DeltaFor(size, at - sub + i, HeadsAfter(SaturAll(heads, sub), hs, at - sub, i)[hs[i]], deltas[i])
    {
      AfterLowered(heads, hs, at, sub, i);
      DeltaLowered(size, at + i, HeadsAfter(heads, hs, at, i)[hs[i]], deltas[i], sub);
    }
  }

  lemma {:induction false} BatchHeads(b: Batch, g: Ring, t: seq<byte>, pos: nat, n: nat, cut: nat, best: nat,
      hs: seq<nat>, k: nat)
    requires Sound(b, g, t, pos, n) && k <= |hs| && pos + |hs| - 1 + n <= |t| && HeadsIn(hs, |b.heads|)
    ensures After(b, g, t, pos, n, cut, best, hs, k).heads == HeadsAfter(b.heads, hs, pos, k)
    decreases k
  {
    hide Sound, OneMore, After;
    AfterStarts(b, g, t, pos, n, cut, best, hs);
    if k > 0 {
      BatchHeads(b, g, t, pos, n, cut, best, hs, k - 1);
      AfterMore(b, g, t, pos, n, cut, best, hs, k - 1);
      OneMoreHeads(After(b, g, t, pos, n, cut, best, hs, k - 1), g, t, pos + k - 1, n, cut, best, hs[k - 1]);
    }
  }

  lemma AfterStarts(b: Batch, g: Ring, t: seq<byte>, pos: nat, n: nat, cut: nat, best: nat, hs: seq<nat>)
    requires Sound(b, g, t, pos, n) && pos + |hs| - 1 + n <= |t| && HeadsIn(hs, |b.heads|)
    ensures After(b, g, t, pos, n, cut, best, hs, 0) == b
  {
    hide Sound, OneMore;
  }

  lemma OneMoreHeads(b: Batch, g: Ring, t: seq<byte>, pos: nat, n: nat, cut: nat, best: nat, h: nat)
    requires Sound(b, g, t, pos, n) && pos + n <= |t| && h < |b.heads|
    ensures OneMore(b, g, t, pos, n, cut, best, h).heads == b.heads[h := pos]
  {
    hide Sound, Walk, Forest, Nodes, SplitAt, Matches, PruneAll;
  }

  // So a batch gets the deltas that both of its forms count on.
  lemma MetDeltas(deltas: seq<nat>, b: Batch, g: Ring, t: seq<byte>, pos: nat, n: nat, cut: nat, best: nat,
      hs: seq<nat>)
    requires Sound(b, g, t, pos, n) && pos + |hs| - 1 + n <= |t| && best < n && cut > 0
    requires Met(g.size, b.heads, hs, pos, deltas)
    ensures Deltas(deltas, b, g, t, pos, n, cut, best, hs)
  {
    hide Sound, After, DeltaFor, HeadsAfter;
    forall i | 0 <= i < |deltas|
      ensures DeltaFor(g.size, pos + i, After(b, g, t, pos, n, cut, best, hs, i).heads[hs[i]], deltas[i])
    {
      BatchHeads(b, g, t, pos, n, cut, best, hs, i);
    }
  }
}
