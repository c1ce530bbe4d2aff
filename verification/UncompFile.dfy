// uncomp_file of comp.c: eight headers are read at a time, each leading to the next, then their workers
// run and what they leave is written in order.
module UncompFile {
  import opened Words
  import opened Batches
  import opened EcFrame
  import opened LzmaLib

  // A worker's arguments: its chunk's header, and where its reader starts.
  datatype Job = Job(h: EcHeader, from: nat) {
    function End(): nat {
      from + BodyLen(h)
    }
  }

  // A worker's buffer and how much of it is to be written.
  datatype Left = Left(outbuf: seq<byte>, outbufLen: nat) {
    predicate Good() {
      0 < outbufLen <= |outbuf|
    }
  }

  // ---------- what a worker leaves ----------

  // The bytes a worker reads, behind its properties if there are any.
  function Packed(f: seq<byte>, j: Job): seq<byte>
    requires j.End() <= |f|
  {
    f[j.from + (if j.h.compressed == EC_COMPRESSED then LZMA_PROPS_SIZE else 0)..j.End()]
  }

  // l is what the worker leaves: the decoder's answer, or the bytes themselves with the header's
  // count of what they stand for.
  ghost predicate LeftFor(f: seq<byte>, j: Job, l: Left) {
    && j.End() <= |f|
    && if j.h.compressed == EC_COMPRESSED then
         && l.outbufLen == |l.outbuf|
         && Undone(j.h.origSize, Packed(f, j), f[j.from..j.from + LZMA_PROPS_SIZE], l.outbuf)
       else l == Left(Packed(f, j), j.h.origSize)
  }

  // The job for chunk c of the file f.
  ghost predicate JobFor(f: seq<byte>, j: Job, c: Chunk) {
    j.h == c.Head() && c.Ok() && j.End() <= |f| && f[j.from..j.End()] == c.Body()
  }

  // uncompress_chunk_of_file: it succeeds exactly when there is something for the worker to leave.
  method UncompressChunk(f: seq<byte>, j: Job) returns (ok: bool, l: Left)
    ensures ok ==> LeftFor(f, j, l)
    ensures forall k :: LeftFor(f, j, k) ==> ok && k == l
    ensures j.h.compressed != EC_COMPRESSED ==> (ok <==> j.End() <= |f|)
  {
    hide Undone;
    ok, l := false, Left([], 0);
    var from := j.from;
    var props: seq<byte> := [];
    if j.h.compressed == EC_COMPRESSED {
      if from + LZMA_PROPS_SIZE > |f| {
        return;
      }
      props := f[from..from + LZMA_PROPS_SIZE];
      from := from + LZMA_PROPS_SIZE;
    }
    if from + j.h.procSize > |f| {
      return;
    }
    var inbuf := f[from..from + j.h.procSize];
    if j.h.compressed == EC_COMPRESSED {
      var outbuf, res := LzmaUncompress(j.h.origSize, inbuf, props);
      ok, l := res.SzOk?, Left(outbuf, |outbuf|);
    } else {
      ok, l := true, Left(inbuf, j.h.origSize);
    }
  }

  lemma LeftOnce(f: seq<byte>, j: Job, l: Left, l': Left)
    requires LeftFor(f, j, l) && LeftFor(f, j, l')
    ensures l == l'
  {
    hide Undone;
    if j.h.compressed == EC_COMPRESSED {
      UndoneOnce(j.h.origSize, Packed(f, j), f[j.from..j.from + LZMA_PROPS_SIZE], l.outbuf, l'.outbuf);
    }
  }

  // What comp_file left of a chunk, its worker gives back.
  lemma ChunkLeft(f: seq<byte>, j: Job, c: Chunk)
    requires JobFor(f, j, c)
    ensures LeftFor(f, j, Left(c.data, |c.data|)) && Left(c.data, |c.data|).Good()
  {
    hide Packs, Undone;
    var b := f[j.from..j.End()];
    if c.Compressed() {
      assert b == c.props + c.packed;
      assert f[j.from..j.from + LZMA_PROPS_SIZE] == b[..LZMA_PROPS_SIZE] == c.props;
      assert Packed(f, j) == b[LZMA_PROPS_SIZE..] == c.packed;
      PackedUndone(c.props, c.packed, c.data);
    }
  }

  // ---------- what has been read and written ----------

  // From a to b the headers lead, and ls is what their workers left, all of it fit to be written.
  ghost predicate Loads(f: seq<byte>, a: nat, b: nat, ls: seq<Left>)
    decreases |ls|
  {
    if ls == [] then a == b
    else match HeaderAt(f, a)
      case Eof => false
      case Header(h) =>
        var j := Job(h, a + EC_HEADER_SIZE);
        LeftFor(f, j, ls[0]) && ls[0].Good() && Loads(f, j.End(), b, ls[1..])
  }

  // Each of them can be written.
  predicate AllGood(ls: seq<Left>) {
    forall i: nat :: i < |ls| ==> ls[i].Good()
  }

  function Joined(ls: seq<Left>): seq<byte>
    requires AllGood(ls)
  {
    if ls == [] then [] else
      assert ls[0].Good();
      ls[0].outbuf[..ls[0].outbufLen] + Joined(ls[1..])
  }

  lemma {:induction false} LoadsMore(f: seq<byte>, a: nat, b: nat, ls: seq<Left>, h: EcHeader, l: Left)
    requires Loads(f, a, b, ls) && HeaderAt(f, b) == Header(h) && LeftFor(f, Job(h, b + EC_HEADER_SIZE), l) && l.Good()
    ensures Loads(f, a, Job(h, b + EC_HEADER_SIZE).End(), ls + [l])
    decreases |ls|
  {
    hide LeftFor, HeaderAt, BodyLen;
    if ls == [] {
      assert [l][1..] == [];
    } else {
      var j := Job(HeaderAt(f, a).h, a + EC_HEADER_SIZE);
      LoadsMore(f, j.End(), b, ls[1..], h, l);
      assert (ls + [l])[1..] == ls[1..] + [l];
    }
  }

  lemma {:induction false} JoinedMore(ls: seq<Left>, l: Left)
    requires AllGood(ls) && l.Good()
    ensures AllGood(ls + [l]) && Joined(ls + [l]) == Joined(ls) + l.outbuf[..l.outbufLen]
    decreases |ls|
  {
    if ls == [] {
      assert [l][1..] == [];
    } else {
      JoinedMore(ls[1..], l);
      assert (ls + [l])[1..] == ls[1..] + [l];
    }
  }

  // The header at a leads to bytes that can be written.
  ghost predicate Goes(f: seq<byte>, a: nat) {
    match HeaderAt(f, a)
    case Eof => false
    case Header(h) => exists l: Left :: LeftFor(f, Job(h, a + EC_HEADER_SIZE), l) && l.Good()
  }

  lemma LoadsGoes(f: seq<byte>, a: nat, b: nat, ls: seq<Left>)
    requires Loads(f, a, b, ls) && ls != []
    ensures Goes(f, a)
  {
    hide HeaderAt, LeftFor;
  }

  // Of two ways on from a, the shorter is the start of the longer.
  lemma {:induction false} LoadsAgree(f: seq<byte>, a: nat, b: nat, ls: seq<Left>, b': nat, ls': seq<Left>)
    requires Loads(f, a, b, ls) && Loads(f, a, b', ls') && |ls| <= |ls'|
    ensures ls'[..|ls|] == ls && Loads(f, b, b', ls'[|ls|..])
    decreases |ls|
  {
    hide HeaderAt, LeftFor, BodyLen;
    if ls == [] {
      assert ls'[0..] == ls';
    } else {
      var j := Job(HeaderAt(f, a).h, a + EC_HEADER_SIZE);
      LeftOnce(f, j, ls[0], ls'[0]);
      LoadsAgree(f, j.End(), b, ls[1..], b', ls'[1..]);
      assert ls'[..|ls|] == [ls'[0]] + ls'[1..][..|ls| - 1];
      assert ls'[|ls|..] == ls'[1..][|ls| - 1..];
    }
  }

  // So there is one place where it goes no further.
  lemma OneEnd(f: seq<byte>, a: nat, ls: seq<Left>, a': nat, ls': seq<Left>)
    requires Loads(f, 0, a, ls) && Loads(f, 0, a', ls') && !Goes(f, a')
    ensures |ls| <= |ls'| && ls'[..|ls|] == ls && Loads(f, a, a', ls'[|ls|..])
    ensures !Goes(f, a) ==> a == a' && ls == ls'
  {
    hide HeaderAt, LeftFor, Goes;
    if |ls| > |ls'| {
      LoadsAgree(f, 0, a', ls', a, ls);
      LoadsGoes(f, a', a, ls[|ls'|..]);
    } else {
      LoadsAgree(f, 0, a, ls, a', ls');
      if |ls| < |ls'| {
        LoadsGoes(f, a, a', ls'[|ls|..]);
      }
    }
  }

  // Where the i-th header of a round starts.
  function Start(pos: nat, jobs: seq<Job>, i: nat): nat
    requires i <= |jobs|
  {
    if i == 0 then pos else jobs[i - 1].End()
  }

  // The i-th job is for the header where the one before it ends.
  predicate JobAt(f: seq<byte>, pos: nat, jobs: seq<Job>, i: nat) {
    && i < |jobs|
    && var a := Start(pos, jobs, i); HeaderAt(f, a) == Header(jobs[i].h) && jobs[i].from == a + EC_HEADER_SIZE
  }

  // The headers of a round lead from pos to next.
  ghost predicate Round(f: seq<byte>, pos: nat, jobs: seq<Job>, next: nat) {
    (forall i: nat :: i < |jobs| ==> JobAt(f, pos, jobs, i)) && next == Start(pos, jobs, |jobs|)
  }

  // ---------- reading the headers of a round ----------

  lemma RoundNext(f: seq<byte>, pos: nat, jobs: seq<Job>, at: nat, h: EcHeader)
    requires Round(f, pos, jobs, at) && HeaderAt(f, at) == Header(h)
    ensures var j := Job(h, at + EC_HEADER_SIZE); Round(f, pos, jobs + [j], j.End())
  {
    hide HeaderAt, BodyLen;
    var jobs' := jobs + [Job(h, at + EC_HEADER_SIZE)];
    forall i: nat | i < |jobs'|
      ensures JobAt(f, pos, jobs', i)
    {
      if i < |jobs| {
        assert JobAt(f, pos, jobs, i);
      }
    }
  }

  // The first loop of a round: up to eight headers, and the reader left after the last body.
  method ReadJobs(f: seq<byte>, pos: nat) returns (jobs: seq<Job>, curPos: nat)
    requires pos <= |f|
    ensures |jobs| <= COMP_MAX_THREADS && Round(f, pos, jobs, curPos)
    ensures |jobs| < COMP_MAX_THREADS ==> HeaderAt(f, curPos).Eof?
    ensures if jobs == [] then curPos == pos else curPos >= pos + EC_HEADER_SIZE
  {
    hide Round, HeaderAt, BodyLen;
    jobs, curPos := [], pos;
    NoJobs(f, pos);
    var threadIndex := 0;
    while threadIndex < COMP_MAX_THREADS
      invariant |jobs| == threadIndex <= COMP_MAX_THREADS && Round(f, pos, jobs, curPos)
      invariant if jobs == [] then curPos == pos else curPos >= pos + EC_HEADER_SIZE
    {
      var r := HeaderAt(f, curPos);
      if r.Eof? {
        break;
      }
      RoundNext(f, pos, jobs, curPos, r.h);
      curPos := curPos + EC_HEADER_SIZE;
      jobs := jobs + [Job(r.h, curPos)];
      curPos := curPos + BodyLen(r.h);
      threadIndex := threadIndex + 1;
    }
  }

  lemma HeaderInside(f: seq<byte>, pos: nat)
    requires HeaderAt(f, pos).Header?
    ensures pos + EC_HEADER_SIZE <= |f|
  {
  }

  lemma NoJobs(f: seq<byte>, pos: nat)
    ensures Round(f, pos, [], pos)
  {
  }

  // ---------- the workers of a round ----------

  method RunJobs(f: seq<byte>, jobs: seq<Job>) returns (ok: bool, ls: seq<Left>, ghost bad: nat)
    ensures ok ==> |ls| == |jobs| && forall i: nat :: i < |ls| ==> LeftFor(f, jobs[i], ls[i])
    ensures !ok ==> bad < |jobs| && forall l :: !LeftFor(f, jobs[bad], l)
  {
    hide BodyLen, LeftFor, Job.End;
    ls, bad := [], 0;
    for t := 0 to |jobs|
      invariant |ls| == t && forall i: nat :: i < |ls| ==> LeftFor(f, jobs[i], ls[i])
    {
      var l;
      ok, l := UncompressChunk(f, jobs[t]);
      if !ok {
        bad := t;
        return;
      }
      ls := ls + [l];
    }
    ok := true;
  }

  // The workers for the next n headers succeed, or for as many as there are.
  ghost predicate AllWork(f: seq<byte>, pos: nat, n: nat)
    decreases n
  {
    n == 0 ||
    match HeaderAt(f, pos)
    case Eof => true
    case Header(h) =>
      var j := Job(h, pos + EC_HEADER_SIZE);
      (exists l :: LeftFor(f, j, l)) && AllWork(f, j.End(), n - 1)
  }

  lemma {:induction false} RoundWorks(f: seq<byte>, pos: nat, jobs: seq<Job>, next: nat, ls: seq<Left>, t: nat)
    requires Round(f, pos, jobs, next) && t <= |jobs| == |ls| <= COMP_MAX_THREADS
    requires |jobs| < COMP_MAX_THREADS ==> HeaderAt(f, next).Eof?
    requires forall i: nat :: i < |ls| ==> LeftFor(f, jobs[i], ls[i])
    ensures AllWork(f, Start(pos, jobs, t), COMP_MAX_THREADS - t)
    decreases |jobs| - t
  {
    hide HeaderAt, LeftFor, BodyLen;
    if t < |jobs| {
      RoundWorks(f, pos, jobs, next, ls, t + 1);
      assert JobAt(f, pos, jobs, t);
      assert jobs[t] == Job(jobs[t].h, Start(pos, jobs, t) + EC_HEADER_SIZE);
      assert LeftFor(f, jobs[t], ls[t]);
    }
  }

  lemma {:induction false} WorksCover(f: seq<byte>, pos: nat, jobs: seq<Job>, next: nat, t: nat, n: nat, i: nat)
    requires Round(f, pos, jobs, next) && t <= i < |jobs| && i < t + n && AllWork(f, Start(pos, jobs, t), n)
    ensures exists l :: LeftFor(f, jobs[i], l)
    decreases n
  {
    hide HeaderAt, LeftFor, BodyLen;
    assert JobAt(f, pos, jobs, t);
    assert jobs[t] == Job(jobs[t].h, Start(pos, jobs, t) + EC_HEADER_SIZE);
    if t < i {
      WorksCover(f, pos, jobs, next, t + 1, n - 1, i);
    }
  }

  // What is written follows the headers of the round.
  lemma {:induction false} LoadsRound(f: seq<byte>, pos: nat, jobs: seq<Job>, next: nat, b: nat, ls: seq<Left>, t: nat)
    requires Round(f, pos, jobs, next) && Loads(f, pos, b, ls) && t <= |jobs| && t <= |ls|
    ensures Loads(f, Start(pos, jobs, t), b, ls[t..])
    ensures forall i: nat :: i < t ==> LeftFor(f, jobs[i], ls[i])
    decreases t
  {
    hide HeaderAt, LeftFor, BodyLen;
    if t == 0 {
      assert ls[0..] == ls;
    } else {
      LoadsRound(f, pos, jobs, next, b, ls, t - 1);
      assert JobAt(f, pos, jobs, t - 1);
      assert jobs[t - 1] == Job(jobs[t - 1].h, Start(pos, jobs, t - 1) + EC_HEADER_SIZE);
      assert ls[t - 1..][1..] == ls[t..];
    }
  }

  // ---------- how it can end ----------

  // A header that says a raw chunk stands for more bytes than it holds.
  predicate ShortRaw(f: seq<byte>, pos: nat) {
    match HeaderAt(f, pos)
    case Eof => false
    case Header(h) => h.compressed != EC_COMPRESSED && h.origSize > h.procSize
                      && pos + EC_HEADER_SIZE + h.procSize <= |f|
  }

  // With n chunks written, what is left is too short for a header, or is a raw chunk that claims more
  // than it holds and the rest of its round of eight works.
  ghost predicate Overruns(f: seq<byte>, at: nat, n: nat) {
    && at < |f|
    && (HeaderAt(f, at).Eof? || (ShortRaw(f, at) && AllWork(f, at, COMP_MAX_THREADS - n % COMP_MAX_THREADS)))
  }

  lemma NoFurther(f: seq<byte>, at: nat, n: nat)
    requires at == |f| || Overruns(f, at, n)
    ensures !Goes(f, at)
  {
    hide Undone;
  }

  // Where nothing more can be written, every way of ending that the headers lead to ends there.
  lemma EndDecides(f: seq<byte>, at: nat, ls: seq<Left>)
    requires Loads(f, 0, at, ls) && !Goes(f, at)
    ensures forall b, ks :: Loads(f, 0, b, ks) && (b == |f| || Overruns(f, b, |ks|)) ==> b == at && ks == ls
  {
    hide Loads, Goes, Overruns;
    forall b, ks | Loads(f, 0, b, ks) && (b == |f| || Overruns(f, b, |ks|))
      ensures b == at && ks == ls
    {
      NoFurther(f, b, |ks|);
      OneEnd(f, at, ls, b, ks);
    }
  }

  // A worker without an answer keeps its whole round from being written.
  lemma WorkerDecides(f: seq<byte>, at: nat, ls: seq<Left>, jobs: seq<Job>, next: nat, bad: nat)
    requires Loads(f, 0, at, ls) && |ls| % COMP_MAX_THREADS == 0
    requires Round(f, at, jobs, next) && |jobs| <= COMP_MAX_THREADS
    requires bad < |jobs| && forall l :: !LeftFor(f, jobs[bad], l)
    ensures forall b, ks :: Loads(f, 0, b, ks) ==> b != |f| && !Overruns(f, b, |ks|)
  {
    hide Loads, Goes, LeftFor, Round, AllWork, HeaderAt, ShortRaw;
    forall b, ks | Loads(f, 0, b, ks)
      ensures b != |f| && !Overruns(f, b, |ks|)
    {
      if b == |f| || Overruns(f, b, |ks|) {
        NoFurther(f, b, |ks|);
        OneEnd(f, at, ls, b, ks);
        InRound(f, at, jobs, next, b, ks[|ls|..], bad);
        var m := |ks| - |ls|;
        assert |ks| % COMP_MAX_THREADS == m;
        WorksCover(f, at, jobs, next, m, COMP_MAX_THREADS - m, bad);
      }
    }
  }

  // The writing ends inside the round of the worker without an answer, at one of its headers.
  lemma InRound(f: seq<byte>, pos: nat, jobs: seq<Job>, next: nat, b: nat, ls: seq<Left>, bad: nat)
    requires Round(f, pos, jobs, next) && Loads(f, pos, b, ls)
    requires bad < |jobs| && forall l :: !LeftFor(f, jobs[bad], l)
    ensures |ls| <= bad && b == Start(pos, jobs, |ls|) && HeaderAt(f, b).Header? && b != |f|
  {
    hide LeftFor, HeaderAt;
    var m := if |ls| <= bad then |ls| else bad + 1;
    LoadsRound(f, pos, jobs, next, b, ls, m);
    assert JobAt(f, pos, jobs, |ls|);
    HeaderInside(f, b);
  }

  // The next worker's bytes are written, unless there are none or more are claimed than there are.
  lemma {:induction false} WriteNext(f: seq<byte>, at: nat, ls: seq<Left>, out: seq<byte>, h: EcHeader, l: Left)
    requires Loads(f, 0, at, ls) && AllGood(ls) && out == Joined(ls)
    requires HeaderAt(f, at) == Header(h) && LeftFor(f, Job(h, at + EC_HEADER_SIZE), l)
    ensures var w := WriteOut(l.outbuf, l.outbufLen);
      && (w.Overrun? <==> ShortRaw(f, at)) && (!w.Written? ==> at < |f| && !Goes(f, at))
      && (w.Written? ==> var b := Job(h, at + EC_HEADER_SIZE).End();
            Loads(f, 0, b, ls + [l]) && AllGood(ls + [l]) && out + w.bytes == Joined(ls + [l]))
  {
    hide Loads, Joined, HeaderAt, Undone;
    HeaderInside(f, at);
    if l.Good() {
      LoadsMore(f, 0, at, ls, h, l);
      JoinedMore(ls, l);
    } else {
      forall k | LeftFor(f, Job(h, at + EC_HEADER_SIZE), k)
        ensures !k.Good()
      {
        LeftOnce(f, Job(h, at + EC_HEADER_SIZE), k, l);
      }
    }
  }

  lemma RoundInside(f: seq<byte>, pos: nat, jobs: seq<Job>, next: nat, ls: seq<Left>)
    requires Round(f, pos, jobs, next) && pos <= |f| && |ls| == |jobs|
      && forall i: nat :: i < |ls| ==> LeftFor(f, jobs[i], ls[i])
    ensures next <= |f| && next == Start(pos, jobs, |jobs|)
  {
    hide HeaderAt, Undone;
    if jobs != [] {
      assert LeftFor(f, jobs[|jobs| - 1], ls[|jobs| - 1]);
    }
  }

  lemma JobHeader(f: seq<byte>, pos: nat, jobs: seq<Job>, next: nat, t: nat)
    requires Round(f, pos, jobs, next) && t < |jobs|
    ensures HeaderAt(f, Start(pos, jobs, t)) == Header(jobs[t].h)
      && jobs[t] == Job(jobs[t].h, Start(pos, jobs, t) + EC_HEADER_SIZE) && jobs[t].End() == Start(pos, jobs, t + 1)
  {
    hide HeaderAt, BodyLen;
    assert JobAt(f, pos, jobs, t);
  }

  // ---------- files of chunks ----------

  function LeftsOf(cs: seq<Chunk>): seq<Left> {
    if cs == [] then [] else [Left(cs[0].data, |cs[0].data|)] + LeftsOf(cs[1..])
  }

  // The file of the chunks cs leads to its end, and their data is what is written.
  lemma {:induction false} ChunksLoad(f: seq<byte>, pos: nat, cs: seq<Chunk>)
    requires pos <= |f| && f[pos..] == FileOf(cs) && AllOk(cs)
    ensures Loads(f, pos, |f|, LeftsOf(cs)) && AllGood(LeftsOf(cs)) && Joined(LeftsOf(cs)) == ContentOf(cs)
    decreases |cs|
  {
    hide FileOf, HeaderAt, Packs, LeftFor;
    FirstChunk(f, pos, cs);
    if cs != [] {
      var c := cs[0];
      assert c.Ok();
      var j := Job(c.Head(), pos + EC_HEADER_SIZE);
      assert JobFor(f, j, c);
      ChunkLeft(f, j, c);
      ChunksLoad(f, j.End(), cs[1..]);
      var l := Left(c.data, |c.data|);
      assert LeftsOf(cs)[1..] == LeftsOf(cs[1..]);
      assert l.outbuf[..l.outbufLen] == c.data;
    }
  }

  // Raw chunks only, each with something to write and no more than it holds, to the end of the file.
  predicate RawFile(f: seq<byte>, pos: nat)
    requires pos <= |f|
    decreases |f| - pos
  {
    pos == |f| ||
    match HeaderAt(f, pos)
    case Eof => false
    case Header(h) =>
      var next := pos + EC_HEADER_SIZE + BodyLen(h);
      h.compressed != EC_COMPRESSED && 0 < h.origSize <= h.procSize && next <= |f| && RawFile(f, next)
  }

  // The same, but after the last of them there may be bytes too few for a header.
  predicate RawPart(f: seq<byte>, pos: nat)
    requires pos <= |f|
    decreases |f| - pos
  {
    match HeaderAt(f, pos)
    case Eof => true
    case Header(h) =>
      var next := pos + EC_HEADER_SIZE + BodyLen(h);
      h.compressed != EC_COMPRESSED && 0 < h.origSize <= h.procSize && next <= |f| && RawPart(f, next)
  }

  lemma {:induction false} RawLoads(f: seq<byte>, pos: nat) returns (at: nat, ls: seq<Left>)
    requires pos <= |f| && RawPart(f, pos)
    ensures Loads(f, pos, at, ls) && at <= |f| && HeaderAt(f, at).Eof? && (RawFile(f, pos) <==> at == |f|)
    decreases |f| - pos
  {
    hide HeaderAt;
    if pos == |f| {
      at, ls := pos, [];
    } else {
      match HeaderAt(f, pos)
      case Eof => at, ls := pos, [];
      case Header(h) =>
        var j := Job(h, pos + EC_HEADER_SIZE);
        at, ls := RawLoads(f, j.End());
        var l := Left(Packed(f, j), h.origSize);
        assert LeftFor(f, j, l);
        var ks := ls;
        ls := [l] + ks;
        assert ls[1..] == ks;
    }
  }

  // The outcome, the bytes written and where the writing ended, as the headers decide them.
  ghost predicate Uncompressed(f: seq<byte>, r: Outcome, ls: seq<Left>, at: nat) {
    && Loads(f, 0, at, ls) && AllGood(ls)
    && (r.Written? ==> at == |f| && r.bytes == Joined(ls))
    && (r.Overrun? ==> Overruns(f, at, |ls|))
    && (forall b, ks :: Loads(f, 0, b, ks) && b == |f| ==> r.Written?)
    && (forall b, ks :: Loads(f, 0, b, ks) && Overruns(f, b, |ks|) ==> r.Overrun?)
  }

  // So comp_file's chunks give back exactly their content.
  lemma ChunksBack(f: seq<byte>, r: Outcome, ls: seq<Left>, at: nat, cs: seq<Chunk>)
    requires Uncompressed(f, r, ls, at) && AllOk(cs) && FileOf(cs) == f
    ensures r == Written(ContentOf(cs))
  {
    hide AllOk, FileOf, ContentOf, Loads, Joined, Overruns, AllGood;
    assert f[0..] == f;
    ChunksLoad(f, 0, cs);
    NoFurther(f, |f|, 0);
    OneEnd(f, at, ls, |f|, LeftsOf(cs));
  }

  // Raw chunks give back their bytes, unless bytes too few for a header follow them.
  lemma RawDecides(f: seq<byte>, r: Outcome, ls: seq<Left>, at: nat)
    requires Uncompressed(f, r, ls, at) && RawPart(f, 0)
    ensures r == if RawFile(f, 0) then Written(Joined(ls)) else Overrun
  {
    hide Loads, Joined, AllGood, RawFile, RawPart, ShortRaw, AllWork;
    var b, ks := RawLoads(f, 0);
    assert b < |f| ==> Overruns(f, b, |ks|);
  }


  // ---------- the file ----------

  // Everything before at has been written. It ends well exactly when the headers lead to the end of the
  // file and every chunk on the way can be written; it reaches outside a buffer exactly when they lead to
  // one of the two causes; every other file is refused.
  method UncompFile(f: seq<byte>) returns (r: Outcome, ghost ls: seq<Left>, ghost at: nat)
    ensures Loads(f, 0, at, ls) && AllGood(ls)
    ensures r.Written? ==> at == |f| && r.bytes == Joined(ls)
    ensures r.Overrun? <==> Overruns(f, at, |ls|)
    ensures Uncompressed(f, r, ls, at)
  {
    hide Round, HeaderAt, BodyLen, Loads, ShortRaw, LeftFor, Joined, Goes, AllWork, AllGood, Start, Job.End;
    var bytesLeft: int := |f|;
    var curPos: nat, out: seq<byte> := 0, [];
    ls, at := [], 0;
    AtStart(f);
    while bytesLeft > 0
      invariant curPos <= |f| && bytesLeft == |f| - curPos && at == curPos
      invariant Loads(f, 0, at, ls) && AllGood(ls) && out == Joined(ls)
      invariant |ls| % COMP_MAX_THREADS == 0 || HeaderAt(f, curPos).Eof?
      decreases bytesLeft
    {
      var jobs, next := ReadJobs(f, curPos);
      if jobs == [] {
        RoundInside(f, curPos, jobs, next, []);
        NoFurther(f, at, |ls|);
        EndDecides(f, at, ls);
        return Overrun, ls, at;
      }
      JobHeader(f, curPos, jobs, next, 0);
      FirstStart(curPos, jobs);
      var ok, lefts, bad := RunJobs(f, jobs);
      if !ok {
        WorkerDecides(f, at, ls, jobs, next, bad);
        return Failed, ls, at;
      }
      RoundInside(f, curPos, jobs, next, lefts);
      ghost var n := |ls|;
      for t := 0 to |lefts|
        invariant at == Start(curPos, jobs, t) && Loads(f, 0, at, ls) && |ls| == n + t
        invariant AllGood(ls) && out == Joined(ls)
      {
        JobHeader(f, curPos, jobs, next, t);
        WriteNext(f, at, ls, out, jobs[t].h, lefts[t]);
        var w := WriteOut(lefts[t].outbuf, lefts[t].outbufLen);
        if !w.Written? {
          RoundWorks(f, curPos, jobs, next, lefts, t);
          EndDecides(f, at, ls);
          return w, ls, at;
        }
        out, ls, at := out + w.bytes, ls + [lefts[t]], Start(curPos, jobs, t + 1);
      }
      bytesLeft := bytesLeft - (next - curPos);
      curPos := next;
    }
    NoFurther(f, at, |ls|);
    EndDecides(f, at, ls);
    r := Written(out);
  }

  lemma AtStart(f: seq<byte>)
    ensures Loads(f, 0, 0, []) && AllGood([]) && Joined([]) == []
  {
  }

  lemma FirstStart(pos: nat, jobs: seq<Job>)
    ensures Start(pos, jobs, 0) == pos
  {
  }
}
