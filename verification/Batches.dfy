// How enc.c and comp.c share out a file: batches of so many workers, each with so many bytes, the last
// worker of the last batch with what is left.
module Batches {
  import opened Words

  // What a call on a file leaves: the file it wrote, -1, or an access outside one of its buffers.
  datatype Outcome = Written(bytes: seq<byte>) | Failed | Overrun

  // fwrite of the first len bytes of buf as one item; an item of no bytes counts as none written.
  function WriteOut(buf: seq<byte>, len: nat): Outcome {
    if len == 0 then Failed else if len > |buf| then Overrun else Written(buf[..len])
  }

  datatype Plan = Plan(mem: nat, threads: nat) {
    predicate Valid() {
      mem > 0 && threads > 0
    }

    // max_bytes_per_batch
    function Batch(): (n: nat)
      requires Valid()
      ensures n > 0
    {
      MulAtLeast(mem, threads);
      mem * threads
    }

    function NumBatches(size: nat): (n: nat)
      requires Valid()
      ensures n >= 1
    {
      if size > Batch() then size / Batch() + 1 else 1
    }

    function NumThreads(size: nat, b: nat): (n: nat)
      requires Valid() && b < NumBatches(size)
      ensures n >= 1
    {
      BatchStart(size);
      if b == NumBatches(size) - 1 then (size - b * Batch()) / mem + 1 else threads
    }

    function ReadFrom(b: nat, t: nat): nat
      requires Valid()
    {
      b * Batch() + t * mem
    }

    predicate Last(size: nat, b: nat, t: nat)
      requires Valid() && b < NumBatches(size)
    {
      b == NumBatches(size) - 1 && t == NumThreads(size, b) - 1
    }

    function ReadLen(size: nat, b: nat, t: nat): int
      requires Valid() && b < NumBatches(size) && t < NumThreads(size, b)
    {
      if Last(size, b, t) then size - ReadFrom(b, t) else mem
    }

    // The last batch starts inside the file.
    lemma BatchStart(size: nat)
      requires Valid()
      ensures (NumBatches(size) - 1) * Batch() <= size
      ensures size - (NumBatches(size) - 1) * Batch() <= Batch()
      ensures size != Batch() ==> size - (NumBatches(size) - 1) * Batch() < Batch()
    {
      var n := Batch();
      assert size == (size / n) * n + size % n;
    }

    // The plan tiles the file in order: the first piece starts at its beginning, each piece but the last
    // ends where the next one starts, and the last one, which is what the division leaves, ends the file.
    lemma Tiles(size: nat, b: nat, t: nat)
      requires Valid() && b < NumBatches(size) && t < NumThreads(size, b)
      ensures ReadFrom(0, 0) == 0
      ensures Last(size, b, t) ==> ReadLen(size, b, t) == size % mem
      ensures ReadFrom(b, t) + ReadLen(size, b, t) ==
        if Last(size, b, t) then size else if t + 1 < NumThreads(size, b)
                                           then ReadFrom(b, t + 1) else ReadFrom(b + 1, 0)
      ensures ReadFrom(b, t) + ReadLen(size, b, t) <= size
    {
      hide Batch;
      var n := Batch();
      BatchStart(size);
      Next(t, mem);
      Next(b, n);
      if b == NumBatches(size) - 1 {
        LastBatch(size - b * n, mem, t);
        BatchIs();
        LeftOver(b, threads, mem, size - b * n);
      } else {
        BatchIs();
        MulMono(t + 1, threads, mem);
        MulMono(b + 1, NumBatches(size) - 1, n);
      }
    }

    // The same for the plan as the file functions work it out, batch being max_bytes_per_batch.
    lemma Step(size: nat, b: nat, t: nat, batch: nat, numBatches: nat, numThreads: nat)
      requires Valid() && batch == Batch()
      requires b < numBatches == if size > batch then size / batch + 1 else 1
      requires b == numBatches - 1 ==> b * batch <= size
      requires t < numThreads == if b == numBatches - 1 then (size - b * batch) / mem + 1 else threads
      ensures var from, last := b * batch + t * mem, b == numBatches - 1 && t == numThreads - 1;
        && from + (if last then size - from else mem) <= size
        && (last ==> size - from == size % mem)
      ensures numThreads <= threads || size == batch
      ensures b == numBatches - 1 && size == batch ==> numThreads == threads + 1
    {
      hide Batch;
      Tiles(size, b, t);
      Fits(size);
      if size == batch {
        BatchIs();
        ModUnique(size, mem, threads, 0);
      }
    }

    lemma BatchIs()
      requires Valid()
      ensures Batch() == mem * threads
    {
    }

    // The plan keeps within the array of workers for every size but one: exactly one full batch.
    lemma Fits(size: nat)
      requires Valid()
      ensures (forall b :: 0 <= b < NumBatches(size) ==> NumThreads(size, b) <= threads) <==> size != Batch()
    {
      hide Batch;
      BatchStart(size);
      BatchIs();
      var last := NumBatches(size) - 1;
      var rem := size - last * Batch();
      if size == Batch() {
        ModUnique(size, mem, threads, 0);
        assert NumThreads(size, 0) == threads + 1;
      } else {
        Quotient(rem, mem, threads);
        assert NumThreads(size, last) <= threads;
      }
    }
  }

  lemma Next(t: nat, m: nat)
    ensures (t + 1) * m == t * m + m
  {
  }

  lemma LastBatch(rem: nat, mem: nat, t: nat)
    requires mem > 0 && t <= rem / mem
    ensures t * mem <= rem && (t == rem / mem ==> rem - t * mem == rem % mem)
    ensures t < rem / mem ==> (t + 1) * mem <= rem
  {
    var q := rem / mem;
    assert rem == mem * q + rem % mem;
    MulMono(t, q, mem);
    if t < q {
      MulMono(t + 1, q, mem);
    }
  }

  lemma LeftOver(b: nat, threads: nat, mem: nat, rem: nat)
    requires mem > 0
    ensures (b * (mem * threads) + rem) % mem == rem % mem
  {
    var q := rem / mem;
    assert rem == mem * q + rem % mem;
    assert b * (mem * threads) == mem * (b * threads);
    assert mem * (b * threads) + mem * q == mem * (b * threads + q);
    ModUnique(b * (mem * threads) + rem, mem, b * threads + q, rem % mem);
  }

  lemma Quotient(rem: nat, mem: nat, threads: nat)
    requires mem > 0 && rem < mem * threads
    ensures rem / mem + 1 <= threads
  {
    var q := rem / mem;
    assert rem == mem * q + rem % mem;
    if q >= threads {
      MulMono(threads, q, mem);
    }
  }
}
