// comp_file of comp.c: every eight million bytes become one framed chunk, eight chunks at a time.
module CompFile {
  import opened Words
  import opened Batches
  import opened EcFrame
  import opened LzmaSymbols
  import opened LzmaRun
  import opened LzmaEncode
  import opened LzmaLib

  const COMP_THREAD_MAX_MEM: nat := 8000000
  const BATCH: nat := 64000000                // max_bytes_per_batch
  const COMP_PLAN := Plan(COMP_THREAD_MAX_MEM, COMP_MAX_THREADS)
  const COMP_PROPS := Props(3, 0, 2, 0x100_0000)

  // A parser: the decisions it takes for each source. Parses says they are always sound.
  type Parser = seq<byte> -> seq<Decision>

  ghost predicate ParsesData(choose: Parser, data: seq<byte>) {
    data != [] ==> ParseOk(COMP_PROPS, Apply(LZ_INIT, Lit(data[0])), data, choose(data))
  }

  ghost predicate Parses(choose: Parser) {
    forall data :: ParsesData(choose, data)
  }

  // A source whose compressed form does not fit.
  ghost predicate TooLong(choose: Parser, data: seq<byte>) {
    exists props, packed ::
      PackedBy(COMP_PROPS, choose(data), props, packed, data) && |packed| > |data| + |data| / 3 + 128
  }

  // c is data and what compressing it under choose's decisions leaves.
  ghost predicate ChunkOf(c: Chunk, data: seq<byte>, choose: Parser) {
    c.data == data && PackedBy(COMP_PROPS, choose(data), c.props, c.packed, data)
  }

  // Whether a block fits is the same for all ways to flush it.
  lemma FitsIff(choose: Parser, data: seq<byte>, props: seq<byte>, packed: seq<byte>)
    requires PackedBy(COMP_PROPS, choose(data), props, packed, data)
    ensures TooLong(choose, data) <==> |packed| > |data| + |data| / 3 + 128
  {
    hide PackedBy;
    forall props', packed' | PackedBy(COMP_PROPS, choose(data), props', packed', data)
      ensures |packed'| == |packed|
    {
      PackedLength(COMP_PROPS, choose(data), data, props, packed, props', packed');
    }
  }

  // compress_chunk_of_file
  method CompressChunk(data: seq<byte>, choose: Parser) returns (ok: bool, c: Chunk)
    requires ParsesData(choose, data)
    ensures ok <==> !TooLong(choose, data)
    ensures ok ==> ChunkOf(c, data, choose)
  {
    hide PackedBy, Packs, ParseOk, TooLong;
    var dest, props, res;
    ghost var packed;
    dest, props, res, packed := LzmaCompress(COMP_PROPS, data, choose(data),
                                             |data| + |data| / 3 + 128);
    FitsIff(choose, data, props, packed);
    ok := res.SzOk?;
    c := Chunk(data, props, dest);
  }

  lemma PacksParts(p: Props, parse: seq<Decision>, props: seq<byte>, packed: seq<byte>, data: seq<byte>)
    requires PackedBy(p, parse, props, packed, data)
    ensures |props| == LZMA_PROPS_SIZE && |packed| > 0
  {
    hide ParseOk, BlockEvs, PropsDecode;
    BlockDecodes(p, PropsDecode(props).p, data, parse, packed);
  }

  // Where worker t of batch b starts to read, and what it reads.
  function From(b: nat, t: nat): nat {
    b * BATCH + t * COMP_THREAD_MAX_MEM
  }

  // The number of that worker over all batches.
  function Worker(b: nat, t: nat): nat {
    b * COMP_MAX_THREADS + t
  }

  function Piece(file: seq<byte>, from: nat): seq<byte>
    requires from <= |file|
  {
    file[from..if from + COMP_THREAD_MAX_MEM <= |file| then from + COMP_THREAD_MAX_MEM else |file|]
  }

  // What the k-th worker reads, counted over all batches.
  function PieceAt(file: seq<byte>, k: nat): seq<byte>
    requires k * COMP_THREAD_MAX_MEM <= |file|
  {
    Piece(file, k * COMP_THREAD_MAX_MEM)
  }

  // The blocks of the workers before the n-th fit their buffers.
  ghost predicate Fit(file: seq<byte>, choose: Parser, n: nat) {
    forall k: nat :: k < n && k * COMP_THREAD_MAX_MEM <= |file| ==> !TooLong(choose, PieceAt(file, k))
  }

  // Every worker's block fits.
  ghost predicate AllFit(file: seq<byte>, choose: Parser) {
    forall k: nat :: k * COMP_THREAD_MAX_MEM <= |file| ==> !TooLong(choose, PieceAt(file, k))
  }

  // Each chunk is that of its worker's piece.
  ghost predicate CutUp(file: seq<byte>, choose: Parser, cs: seq<Chunk>) {
    forall k: nat :: k < |cs| ==> k * COMP_THREAD_MAX_MEM <= |file| && ChunkOf(cs[k], PieceAt(file, k), choose)
  }

  // The k-th chunk's data is the k-th eight million bytes of the file, or what is left of them.
  ghost predicate DataOf(cs: seq<Chunk>, file: seq<byte>) {
    forall k: nat :: k < |cs| ==>
      var from, to := k * COMP_THREAD_MAX_MEM, Min((k + 1) * COMP_THREAD_MAX_MEM, |file|);
      from <= to && cs[k].data == file[from..to]
  }

  // Batch b of numBatches has numThreads workers.
  predicate Planned(size: nat, b: nat, numBatches: nat, numThreads: nat) {
    && b < numBatches && numBatches == (if size > BATCH then size / BATCH + 1 else 1)
    && (b == numBatches - 1 ==> b * BATCH <= size)
    && numThreads == if b == numBatches - 1 then (size - b * BATCH) / COMP_THREAD_MAX_MEM + 1 else COMP_MAX_THREADS
  }

  // The last worker has something to read.
  predicate Ragged(size: nat) {
    size % COMP_THREAD_MAX_MEM != 0
  }

  lemma PlanStep(size: nat, b: nat, t: nat, numBatches: nat, numThreads: nat)
    requires Planned(size, b, numBatches, numThreads) && t < numThreads
    ensures var last := b == numBatches - 1 && t == numThreads - 1;
      && From(b, t) + (if last then size - From(b, t) else COMP_THREAD_MAX_MEM) <= size
      && (last ==> size - From(b, t) == size % COMP_THREAD_MAX_MEM)
    ensures numThreads <= COMP_MAX_THREADS || size == BATCH
    ensures b == numBatches - 1 && size == BATCH ==> numThreads == COMP_MAX_THREADS + 1
  {
    hide Plan.NumBatches, Plan.NumThreads, Plan.ReadFrom;
    COMP_PLAN.Step(size, b, t, BATCH, numBatches, numThreads);
  }

  // write_ec_header, and then the properties and packed bytes, or the data itself.
  method WriteChunk(c: Chunk) returns (r: Outcome)
    requires |c.props| == LZMA_PROPS_SIZE && |c.packed| > 0
    ensures r == if c.data == [] then Failed else Written(c.Bytes())
    ensures r.Written? ==> FramedAt(r.bytes, 0, c, |r.bytes|)
  {
    hide DigitsAt, Le;
    var out := HeaderBytes(c.Head());
    if |c.props| + |c.packed| >= |c.data| {
      var w := WriteOut(c.data, |c.data|);
      r := if w.Written? then Written(out + w.bytes) else w;
    } else {
      var w := WriteOut(c.props, |c.props|);
      var v := WriteOut(c.packed, |c.packed|);
      assert w == Written(c.props) && v == Written(c.packed);
      r := Written(out + (w.bytes + v.bytes));
    }
    if r.Written? {
      assert r.bytes[0..|r.bytes|] == r.bytes == c.Bytes();
      BytesFramed(r.bytes, 0, c);
    }
  }

  // What has been written when the file has been read up to at, by the first n workers.
  ghost predicate CompSoFar(file: seq<byte>, choose: Parser, cs: seq<Chunk>, out: seq<byte>, at: nat, n: nat) {
    AllOk(cs) && out == FileOf(cs) && at <= |file| && ContentOf(cs) == file[..at] && |cs| == n
      && CutUp(file, choose, cs)
  }

  lemma {:induction false} CompNext(file: seq<byte>, choose: Parser, cs: seq<Chunk>, out: seq<byte>, n: nat, c: Chunk)
    requires var at := n * COMP_THREAD_MAX_MEM;
      CompSoFar(file, choose, cs, out, at, n) && at <= |file| && PieceAt(file, n) != []
      && ChunkOf(c, PieceAt(file, n), choose)
    ensures var at := n * COMP_THREAD_MAX_MEM;
      CompSoFar(file, choose, cs + [c], out + c.Bytes(), at + |PieceAt(file, n)|, n + 1)
  {
    hide PackedBy, FileOf, ContentOf;
    ChunkOk(c, PieceAt(file, n), choose);
    Snoc(cs, c);
    var at := n * COMP_THREAD_MAX_MEM;
    var to := at + |PieceAt(file, n)|;
    assert PieceAt(file, n) == file[at..to];
    assert file[..to] == file[..at] + file[at..to];
  }

  lemma ChunkOk(c: Chunk, data: seq<byte>, choose: Parser)
    requires ChunkOf(c, data, choose)
    ensures c.data == data && |c.props| == LZMA_PROPS_SIZE && |c.packed| > 0
    ensures data != [] && |data| < SIZE_T ==> c.Ok()
  {
    hide PackedBy;
    PacksParts(COMP_PROPS, choose(data), c.props, c.packed, data);
    assert Packs(c.props, c.packed, data);
  }

  method CompFile(file: seq<byte>, choose: Parser) returns (r: Outcome, ghost cs: seq<Chunk>)
    requires |file| < 0x100_0000_0000_0000 && Parses(choose)
    ensures r.Overrun? <==> |file| == BATCH
    ensures r.Written? <==> |file| % COMP_THREAD_MAX_MEM != 0 && AllFit(file, choose)
    ensures r.Written? ==> AllOk(cs) && r.bytes == FileOf(cs) && ContentOf(cs) == file
    ensures r.Written? ==> |cs| == |file| / COMP_THREAD_MAX_MEM + 1 && CutUp(file, choose, cs)
    ensures r.Written? ==> Frames(r.bytes, 0, cs)
    ensures r.Written? ==> DataOf(cs, file)
  {
    hide AllOk, FileOf, ContentOf, CompSoFar, Parses, TooLong, ChunkOf, Fit, AllFit, CutUp, Frames, DataOf;
    var size := |file|;
    var numBatches := 1;
    if size > BATCH {
      numBatches := size / BATCH + 1;
    }
    var out: seq<byte> := [];
    cs := [];
    CompNone(file, choose);
    for b := 0 to numBatches
      invariant if b < numBatches then CompSoFar(file, choose, cs, out, b * BATCH, b * COMP_MAX_THREADS)
        else CompSoFar(file, choose, cs, out, size, size / COMP_THREAD_MAX_MEM + 1)
      invariant Fit(file, choose, if b < numBatches then b * COMP_MAX_THREADS else size / COMP_THREAD_MAX_MEM + 1)
      invariant b == numBatches ==> Ragged(size)
    {
      var numThreads := COMP_MAX_THREADS;
      if b == numBatches - 1 {
        var batchLen := size - b * BATCH;
        numThreads := batchLen / COMP_THREAD_MAX_MEM + 1;
        Workers(size, b, numBatches, numThreads);
      }
      PlanStep(size, b, 0, numBatches, numThreads);
      if numThreads > COMP_MAX_THREADS {
        return Overrun, cs;
      }
      var ok, chunks := CompressBatch(file, choose, b, numBatches, numThreads);
      if !ok {
        return Failed, cs;
      }
      r, cs := WriteChunks(file, choose, chunks, b, numBatches, numThreads, out, cs);
      if !r.Written? {
        return;
      }
      out := r.bytes;
    }
    CompEnds(file, choose, cs, out);
    r := Written(out);
  }

  // All workers together are as many as there are pieces.
  lemma Workers(size: nat, b: nat, numBatches: nat, numThreads: nat)
    requires Planned(size, b, numBatches, numThreads) && b == numBatches - 1
    ensures b * COMP_MAX_THREADS + numThreads == size / COMP_THREAD_MAX_MEM + 1
  {
    var rem := size - b * BATCH;
    var q := rem / COMP_THREAD_MAX_MEM;
    ModUnique(size, COMP_THREAD_MAX_MEM, b * COMP_MAX_THREADS + q, rem % COMP_THREAD_MAX_MEM);
  }

  // The chunks of one batch, written after what is already out.
  method WriteChunks(file: seq<byte>, choose: Parser, chunks: seq<Chunk>, b: nat, numBatches: nat,
      numThreads: nat, out0: seq<byte>,
                     ghost cs0: seq<Chunk>)
      returns (r: Outcome, ghost cs: seq<Chunk>)
    requires Planned(|file|, b, numBatches, numThreads) && |chunks| == numThreads
    requires forall t: nat :: t < numThreads
               ==> From(b, t) <= |file| && ChunkOf(chunks[t], PieceAt(file, Worker(b, t)), choose)
    requires CompSoFar(file, choose, cs0, out0, b * BATCH, b * COMP_MAX_THREADS)
    ensures r.Failed? ==> b == numBatches - 1 && !Ragged(|file|)
    ensures r.Written? ==>
      CompSoFar(file, choose, cs, r.bytes, if b == numBatches - 1 then |file| else (b + 1) * BATCH,
                b * COMP_MAX_THREADS + numThreads)
    ensures r.Written? && b == numBatches - 1 ==> Ragged(|file|)
    ensures !r.Overrun?
  {
    hide CompSoFar, ChunkOf, Chunk.Bytes, Chunk.Ok, Piece, PieceAt, From, Worker, Planned, Ragged;
    LastBatch(|file|, b, numBatches, numThreads);
    BatchFrom(b);
    var out := out0;
    cs := cs0;
    ghost var at: nat, last := From(b, 0), b == numBatches - 1;
    for t := 0 to numThreads
      invariant CompSoFar(file, choose, cs, out, at, Worker(b, t))
        && at == if last && t == numThreads then |file| else From(b, t)
      invariant last && t == numThreads ==> Ragged(|file|)
    {
      PieceLen(file, b, t, numBatches, numThreads);
      ChunkOk(chunks[t], PieceAt(file, Worker(b, t)), choose);
      var w := WriteChunk(chunks[t]);
      if !w.Written? {
        return w, cs;
      }
      CompNext(file, choose, cs, out, Worker(b, t), chunks[t]);
      at := at + |PieceAt(file, Worker(b, t))|;
      out, cs := out + w.bytes, cs + [chunks[t]];
    }
    r := Written(out);
  }

  // A worker's piece ends where the next one's starts; the last one's is the only one that may be empty.
  lemma PieceLen(file: seq<byte>, b: nat, t: nat, numBatches: nat, numThreads: nat)
    requires Planned(|file|, b, numBatches, numThreads) && t < numThreads
    ensures var last, n := b == numBatches - 1 && t == numThreads - 1, Worker(b, t);
      && From(b, t) == n * COMP_THREAD_MAX_MEM <= |file| && Worker(b, t + 1) == n + 1
      && From(b, t) + |PieceAt(file, n)| == (if last then |file| else From(b, t + 1))
      && (PieceAt(file, n) == [] ==> last && !Ragged(|file|))
      && (last && PieceAt(file, n) != [] ==> Ragged(|file|))
    ensures b < numBatches - 1 && t == COMP_MAX_THREADS - 1 ==> From(b, t + 1) == (b + 1) * BATCH
  {
    PlanStep(|file|, b, t, numBatches, numThreads);
  }

  lemma BatchFrom(b: nat)
    ensures From(b, 0) == b * BATCH && Worker(b, 0) == b * COMP_MAX_THREADS
    ensures From(b, COMP_MAX_THREADS) == (b + 1) * BATCH
    ensures forall t: nat {:trigger Worker(b, t)} :: Worker(b, t) == b * COMP_MAX_THREADS + t
  {
  }

  lemma LastBatch(size: nat, b: nat, numBatches: nat, numThreads: nat)
    requires Planned(size, b, numBatches, numThreads)
    ensures b < numBatches && numThreads > 0 && (b < numBatches - 1 ==> numThreads == COMP_MAX_THREADS)
  {
  }

  // The workers of one batch.
  method CompressBatch(file: seq<byte>, choose: Parser, b: nat, numBatches: nat, numThreads: nat)
      returns (ok: bool, chunks: seq<Chunk>)
    requires Parses(choose) && Fit(file, choose, b * COMP_MAX_THREADS)
    requires Planned(|file|, b, numBatches, numThreads)
    ensures ok ==> |chunks| == numThreads && Fit(file, choose, b * COMP_MAX_THREADS + numThreads)
    ensures ok
      ==> forall t: nat :: t < numThreads
            ==> From(b, t) <= |file| && ChunkOf(chunks[t], PieceAt(file, Worker(b, t)), choose)
    ensures !ok ==> !AllFit(file, choose)
  {
    hide Parses, TooLong, ChunkOf, Fit, AllFit;
    chunks := [];
    for t := 0 to numThreads
      invariant |chunks| == t && Fit(file, choose, Worker(b, t))
      invariant forall i: nat :: i < t
                  ==> From(b, i) <= |file| && ChunkOf(chunks[i], PieceAt(file, Worker(b, i)), choose)
    {
      PlanStep(|file|, b, t, numBatches, numThreads);
      var last := b == numBatches - 1 && t == numThreads - 1;
      var from := From(b, t);
      var readlen := if last then |file| - b * BATCH - t * COMP_THREAD_MAX_MEM else COMP_THREAD_MAX_MEM;
      var inbuf := file[from..from + readlen];
      assert inbuf == PieceAt(file, Worker(b, t));
      ParsesAt(choose, inbuf);
      var c;
      ok, c := CompressChunk(inbuf, choose);
      FitNext(file, choose, Worker(b, t));
      if !ok {
        return;
      }
      chunks := chunks + [c];
    }
    ok := true;
  }

  lemma FitNext(file: seq<byte>, choose: Parser, n: nat)
    requires Fit(file, choose, n) && n * COMP_THREAD_MAX_MEM <= |file|
    ensures if TooLong(choose, PieceAt(file, n)) then !AllFit(file, choose) else Fit(file, choose, n + 1)
  {
    hide TooLong;
  }

  lemma ParsesAt(choose: Parser, data: seq<byte>)
    requires Parses(choose)
    ensures ParsesData(choose, data)
  {
  }

  lemma CompNone(file: seq<byte>, choose: Parser)
    ensures CompSoFar(file, choose, [], [], 0, 0) && Fit(file, choose, 0)
  {
  }

  lemma CompEnds(file: seq<byte>, choose: Parser, cs: seq<Chunk>, out: seq<byte>)
    requires CompSoFar(file, choose, cs, out, |file|, |file| / COMP_THREAD_MAX_MEM + 1)
    requires Fit(file, choose, |file| / COMP_THREAD_MAX_MEM + 1)
    ensures AllOk(cs) && out == FileOf(cs) && ContentOf(cs) == file
    ensures |cs| == |file| / COMP_THREAD_MAX_MEM + 1 && CutUp(file, choose, cs) && AllFit(file, choose)
    ensures Frames(out, 0, cs)
    ensures DataOf(cs, file)
  {
    hide TooLong, PackedBy, Frames;
    assert file[..|file|] == file && out[0..] == out;
    FileFrames(out, 0, cs);
  }
}
