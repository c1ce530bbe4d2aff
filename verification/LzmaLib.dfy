// One-call compression and decompression: the five property bytes, LzmaDecode, and the
// theorem that a block encoded from any valid parse decodes to the source.
module LzmaLib {
  import opened Words
  import opened Masks
  import opened LzmaContexts
  import opened LzmaLayout
  import opened RangeCoder
  import opened ProbArrays
  import opened LzmaSymbols
  import opened LzmaDryRun
  import opened LzmaRun
  import opened LzmaEncode
  import opened LzmaResume
  import opened LzmaDriver
  import opened LzmaDec

  const LZMA_PROPS_SIZE: nat := 5
  const DIC_MIN: nat := 0x1000

  // ---------- properties ----------

  // data[1] | data[2] << 8 | data[3] << 16 | data[4] << 24
  function GetUi32(s: seq<byte>): nat
    requires |s| == 4
  {
    var b0: nat := s[0]; var b1: nat := s[1]; var b2: nat := s[2]; var b3: nat := s[3];
    b0 + 0x100 * b1 + 0x1_0000 * b2 + 0x100_0000 * b3
  }

  function SetUi32(v: nat): (s: seq<byte>)
    ensures |s| == 4
  {
    [v % 0x100, (v / 0x100) % 0x100, (v / 0x1_0000) % 0x100, (v / 0x100_0000) % 0x100]
  }

  lemma Quarter(v: nat, q1: nat, q2: nat, q3: nat)
    requires v < TWO_32 && q1 == v / 0x100 && q2 == q1 / 0x100 && q3 == q2 / 0x100
    ensures v / 0x1_0000 == q2 && v / 0x100_0000 == q3 < 0x100
  {
    ModUnique(v, 0x1_0000, q2, v - 0x1_0000 * q2);
    ModUnique(v, 0x100_0000, q3, v - 0x100_0000 * q3);
  }

  lemma Ui32RoundTrip(v: nat)
    requires v < TWO_32
    ensures GetUi32(SetUi32(v)) == v
  {
    var q1 := v / 0x100;
    var q2 := q1 / 0x100;
    var q3 := q2 / 0x100;
    Quarter(v, q1, q2, q3);
    assert v == v % 0x100 + 0x100 * q1 && q1 == q1 % 0x100 + 0x100 * q2 && q2 == q2 % 0x100 + 0x100 * q3;
  }

  datatype PropsResult = Decoded(p: Props) | Unsupported

  // LzmaProps_Decode
  function PropsDecode(data: seq<byte>): PropsResult {
    if |data| < LZMA_PROPS_SIZE then Unsupported else
      var dicSize := GetUi32(data[1..5]);
      var d: nat := data[0];
      if d >= 9 * 5 * 5 then Unsupported else
        Decoded(Props(d % 9, (d / 9) % 5, d / 9 / 5, if dicSize < DIC_MIN then DIC_MIN else dicSize))
  }

  // The five bytes of p: the first holds the three numbers to the bases 5, 5 and 9, the others the size.
  ghost predicate PropsBytes(data: seq<byte>, lc: nat, lp: nat, pb: nat, size: nat) {
    && |data| >= LZMA_PROPS_SIZE && lc < 9 && lp < 5 && pb < 5
    && data[0] == 45 * pb + 9 * lp + lc
    && data[1] + 0x100 * (data[2] + 0x100 * (data[3] + 0x100 * (data[4] as nat))) == size
  }

  lemma PropsDecodeOk(data: seq<byte>)
    ensures PropsDecode(data).Unsupported? <==> |data| < LZMA_PROPS_SIZE || data[0] >= 225
    ensures PropsDecode(data).Decoded? ==> PropsOk(PropsDecode(data).p)
    ensures PropsDecode(data).Decoded? ==>
              var p := PropsDecode(data).p;
              exists size: nat ::
                PropsBytes(data, p.lc, p.lp, p.pb, size) && p.dicSize == if size < 0x1000 then 0x1000 else size
  {
    if PropsDecode(data).Decoded? {
      var d: nat, p := data[0], PropsDecode(data).p;
      assert d == 9 * (d / 9) + p.lc && d / 9 == 5 * p.pb + p.lp;
      assert PropsBytes(data, p.lc, p.lp, p.pb, GetUi32(data[1..5]));
    }
  }

  // 2^n and 3 * 2^n in turn.
  function DicStep(i: nat): nat {
    (2 + i % 2) * Pow2(i / 2)
  }

  // The dictionary size written for the decoder: the next multiple of 2^20 if there is one in
  // 32 bits, and below 2^21 the next of 2^n and 3 * 2^n, n at least 11.
  ghost predicate DicAligned(dictSize: nat, v: nat) {
    if dictSize > TWO_32 - 0x10_0000 then v == dictSize
    else if dictSize >= 0x20_0000 then v % 0x10_0000 == 0 && dictSize <= v < dictSize + 0x10_0000
    else exists i: nat :: i >= 22 && v == DicStep(i) && dictSize <= v && (i > 22 ==> DicStep(i - 1) < dictSize)
  }

  method AlignedDicSize(dictSize: nat) returns (v: nat)
    requires dictSize < TWO_32
    ensures dictSize <= v < TWO_32 && DicAligned(dictSize, v)
  {
    hide And, Pow2, W32;
    if dictSize >= 0x20_0000 {
      MegabyteUp(dictSize);
      v := And(W32(dictSize + 0xF_FFFF), TWO_32 - 0x10_0000);
      if v < dictSize {
        v := dictSize;
      }
    } else {
      var i := 22;
      v := (2 + i % 2) * Pow2(i / 2);
      i := i + 1;
      SizeStep(22);
      while v < dictSize
        invariant 23 <= i <= 41 && v == DicStep(i - 1) && v < TWO_32
        invariant i > 23 ==> DicStep(i - 2) < dictSize
        decreases 41 - i
      {
        SizeStep(i);
        SizeStep(i - 1);
        v := (2 + i % 2) * Pow2(i / 2);
        i := i + 1;
      }
      assert v == DicStep(i - 1);
    }
  }

  // The mask rounds up to whole mebibytes, or to 0 when the sum wraps.
  lemma MegabyteUp(dictSize: nat)
    requires 0x20_0000 <= dictSize < TWO_32
    ensures var v := And(W32(dictSize + 0xF_FFFF), TWO_32 - 0x10_0000);
      if dictSize > TWO_32 - 0x10_0000 then v < dictSize
      else v % 0x10_0000 == 0 && dictSize <= v < dictSize + 0x10_0000 && v < TWO_32
  {
    hide And;
    var x := W32(dictSize + 0xF_FFFF);
    MegabyteMask(x);
    ModUnique((x / 0x10_0000) * 0x10_0000, 0x10_0000, x / 0x10_0000, 0);
    if dictSize > TWO_32 - 0x10_0000 {
      ModUnique(dictSize + 0xF_FFFF, TWO_32, 1, dictSize + 0xF_FFFF - TWO_32);
    } else {
      ModUnique(dictSize + 0xF_FFFF, TWO_32, 0, dictSize + 0xF_FFFF);
    }
  }

  // Below i = 40 the size is still short of 2^21.
  lemma SizeStep(i: nat)
    requires 22 <= i <= 41
    ensures var v := (2 + i % 2) * Pow2(i / 2); v < TWO_32 && (i >= 40 ==> v >= 0x20_0000)
  {
    Pow2Mono(i / 2, 30);
    Pow2Consts();
    if i >= 40 {
      assert Pow2(20) == 0x10_0000 by { assert Pow2(10) == 0x400; Pow2Add(10, 10); }
    }
  }

  lemma MegabyteMask(x: nat)
    requires x < TWO_32
    ensures And(x, TWO_32 - 0x10_0000) == (x / 0x10_0000) * 0x10_0000 < TWO_32
  {
    hide And;
    assert Pow2(20) == 0x10_0000 by { assert Pow2(10) == 0x400; Pow2Add(10, 10); }
    assert Pow2(12) == 0x1000;
    AllOnes();
    AndRun(x, 20, 32);
  }

  ghost predicate PropsWritten(p: Props, props: seq<byte>) {
    exists size: nat :: DicAligned(p.dicSize, size) && PropsBytes(props, p.lc, p.lp, p.pb, size)
  }

  // LzmaEnc_WriteProperties
  method WriteProperties(p: Props) returns (props: seq<byte>)
    requires PropsOk(p)
    ensures |props| == LZMA_PROPS_SIZE
    ensures var r := PropsDecode(props);
      r.Decoded? && r.p.lc == p.lc && r.p.lp == p.lp && r.p.pb == p.pb && r.p.dicSize >= p.dicSize && PropsOk(r.p)
    ensures PropsWritten(p, props)
  {
    hide DicAligned;
    var v := AlignedDicSize(p.dicSize);
    PropsByte(p.lc, p.lp, p.pb);
    props := [(p.pb * 5 + p.lp) * 9 + p.lc] + SetUi32(v);
    Ui32RoundTrip(v);
    assert props[1..5] == SetUi32(v);
  }

  lemma PropsByte(lc: nat, lp: nat, pb: nat)
    requires lc <= 8 && lp <= 4 && pb <= 4
    ensures var d := (pb * 5 + lp) * 9 + lc; d < 225 && d % 9 == lc && (d / 9) % 5 == lp && d / 9 / 5 == pb
  {
  }

  // ---------- LzmaDecode ----------

  datatype SRes = SzOk | SzErrorData | SzErrorFail | SzErrorInputEof | SzErrorOutputEof | SzErrorUnsupported

  // The output of count symbols of a stream, less rem bytes of the last one.
  ghost predicate DecodedAs(p: Props, stream: seq<byte>, count: nat, rem: nat, dest: seq<byte>) {
    && PropsOk(p) && GoodStart(stream)
    && Steps(p, Start(p, stream), count).d.pos <= |stream|
    && dest == OutputOf(Steps(p, Start(p, stream), count), rem)
  }

  // What LzmaDecode's answer says, on values: count symbols of the first srcLen bytes read.
  ghost predicate Answer(p: Props, stream: seq<byte>, count: nat, rem: nat, destLen: nat, dest: seq<byte>,
      res: Res, status: Status) {
    && DecodedAs(p, stream, count, rem, dest)
    && (count != 0 ==> destLen > 0 && StartedBelow(p, stream, count, 0, destLen))
    && |dest| <= destLen
    && var h := Steps(p, Start(p, stream), count);
      match res
      case ErrorFail => false
      case ErrorData => h.Broken? || (h.Ended? && h.d.code != 0)
      case Ok =>
        match status
        case NotSpecified => false
        case FinishedWithMark => h.Ended? && h.d.code == 0
        case MaybeFinishedWithoutMark => h.Going? && |dest| == destLen && rem == 0 && h.d.code == 0
        case NotFinished => h.Going? && |dest| == destLen && (rem != 0 || h.d.code != 0)
        case NeedsMoreInput => h.Going? && rem == 0 && |dest| < destLen && Norm(SymDec(p, h.m, h.d).d).pos > |stream|
  }

  // LzmaDecode with LZMA_FINISH_ANY, as LzmaUncompress calls it. started says whether the
  // range coder's first bytes were accepted.
  method LzmaDecode(destLen: nat, src: seq<byte>, propData: seq<byte>)
      returns (dest: seq<byte>, srcLen: nat, res: SRes, ghost started: bool, ghost count: nat, ghost rem: nat,
               ghost inner: Res, ghost status: Status)
    ensures srcLen <= |src| && |dest| <= destLen && !res.SzErrorFail?
    ensures |src| < RC_INIT_SIZE ==> res.SzErrorInputEof?
    ensures |src| >= RC_INIT_SIZE ==> (res.SzErrorUnsupported? <==> PropsDecode(propData).Unsupported?)
    ensures |src| >= RC_INIT_SIZE && PropsDecode(propData).Decoded? && started ==>
      && Answer(PropsDecode(propData).p, src[..srcLen], count, rem, destLen, dest, inner, status)
      && res == (if inner.ErrorData? then SzErrorData else if status.NeedsMoreInput? then SzErrorInputEof else SzOk)
      && (status.NeedsMoreInput? && inner.Ok? ==> srcLen == |src|)
    ensures |src| >= RC_INIT_SIZE && PropsDecode(propData).Decoded? && !started
      ==> BadStart(src[..srcLen]) && res.SzErrorData?
  {
    dest, srcLen, started, count, rem, inner, status := [], 0, false, 0, 0, Ok, NotSpecified;
    res := SzErrorInputEof;
    if |src| < RC_INIT_SIZE {
      return;
    }
    PropsDecodeOk(propData);
    var r := PropsDecode(propData);
    if r.Unsupported? {
      res := SzErrorUnsupported;
      return;
    }
    var dec := new CLzmaDec(r.p, destLen);
    var sres: Res, stat: Status;
    srcLen, sres, stat := dec.DecodeToDic(destLen, src, false);
    dest := dec.dic[..dec.dicPos];
    Written(dec);
    assert dec.stream == src[..srcLen];
    inner, status, count, rem, started := sres, stat, dec.count, dec.remainLen, dec.remainLen != INIT_LEN;
    res := if sres.ErrorData? then SzErrorData else if sres.ErrorFail? then SzErrorFail
           else if stat.NeedsMoreInput? then SzErrorInputEof else SzOk;
    Answered(dec, sres, stat, destLen);
  }

  // From an empty object on, the dictionary's front is the whole output.
  lemma Written(dec: CLzmaDec)
    requires dec.Valid() && |dec.Output()| == dec.dicPos <= dec.dic.Length
    ensures dec.dic[..dec.dicPos] == dec.Output()
  {
    dec.DictionaryTail();
    NewBytes(dec.dic[..], dec.dicPos, 0, dec.Output(), []);
    assert dec.dic[..][0..dec.dicPos] == dec.dic[..dec.dicPos];
  }

  lemma Answered(dec: CLzmaDec, res: Res, status: Status, destLen: nat)
    requires dec.Valid() && dec.Verdict(res, status, dec.dicPos == destLen, false)
      && |dec.Output()| == dec.dicPos <= destLen
    requires dec.count != 0 ==> destLen > 0 && StartedBelow(dec.p, dec.stream, dec.count, 0, destLen)
    ensures dec.remainLen != INIT_LEN
      ==> Answer(dec.p, dec.stream, dec.count, dec.remainLen, destLen, dec.Output(), res, status)
    ensures dec.remainLen == INIT_LEN
      ==> (res.ErrorData? && BadStart(dec.stream)) || (res.Ok? && status.NeedsMoreInput? && |dec.stream| < RC_INIT_SIZE)
  {
    hide Steps, Start, SymDec, Norm, OutputOf, StartedBelow;
    if dec.remainLen != INIT_LEN {
      dec.MidParts(dec.stream, |dec.stream|);
    }
  }

  // ---------- encoding, then decoding ----------

  // The decoder's properties: the encoder's, with a dictionary at least as large.
  predicate Serves(q: Props, p: Props) {
    PropsOk(p) && PropsOk(q) && q.lc == p.lc && q.lp == p.lp && q.pb == p.pb && q.dicSize >= p.dicSize
  }

  lemma {:induction false} WiderDictionary(p: Props, q: Props, m: Lz, syms: seq<Sym>)
    requires Serves(q, p) && LegalAll(p, m, syms)
    ensures LegalAll(q, m, syms) && AllEvs(q, m, syms) == AllEvs(p, m, syms)
    decreases syms
  {
    hide Apply, LitEvs, LenEvs, DistEvs, RepEvs;
    if syms != [] {
      LegalWider(p, q, m, syms[0]);
      SymEvsSame(p, q, m, syms[0]);
      WiderDictionary(p, q, Apply(m, syms[0]), syms[1..]);
    }
  }

  lemma LegalWider(p: Props, q: Props, m: Lz, s: Sym)
    requires Serves(q, p) && Legal(p, m, s)
    ensures Legal(q, m, s)
  {
  }

  lemma SymEvsSame(p: Props, q: Props, m: Lz, s: Sym)
    requires Serves(q, p) && ValidSym(s)
    ensures SymEvs(q, m, s) == SymEvs(p, m, s)
  {
    assert PosState(q, m) == PosState(p, m) && LitState(q, m) == LitState(p, m);
  }

  // The symbols of a block: none for an empty source.
  ghost function Block(p: Props, data: seq<byte>, parse: seq<Decision>): seq<Sym>
    requires PropsOk(p) && (data != [] ==> ParseOk(p, Apply(LZ_INIT, Lit(data[0])), data, parse))
  {
    if data == [] then [] else BlockSyms(p, data, parse)
  }

  // Reading the block's symbols from its bytes gives the source, with every byte read and code 0.
  lemma BlockDecodes(p: Props, q: Props, data: seq<byte>, parse: seq<Decision>, src: seq<byte>)
    requires Serves(q, p) && (data != [] ==> ParseOk(p, Apply(LZ_INIT, Lit(data[0])), data, parse))
    requires Flushed(EncAll(InitEnc(InitialProbs(Lits(p))), BlockEvs(p, data, parse)), src)
    ensures |src| >= RC_INIT_SIZE && src[0] == 0 && Val(src[1..5]) < BAD_REP_CODE
    ensures var h := Steps(q, Start(q, src), |Block(p, data, parse)|);
      h.Going? && h.m.out == data && h.d.pos == |src| && h.d.code == 0
  {
    hide EncAll, Flushed, AllEvs, LegalAll, ApplyAll, Pending, Run, Steps, ParseOk;
    var syms, evs := Block(p, data, parse), BlockEvs(p, data, parse);
    BlockFacts(p, q, data, parse);
    RoundTrip(InitialProbs(Lits(p)), evs, src);
    StartReady(q, src);
    ReadsParse(q, LZ_INIT, InitDec(InitialProbs(Lits(q)), src), syms);
    FirstIsLiteral(p, q, data, parse, src);
  }

  lemma BlockFacts(p: Props, q: Props, data: seq<byte>, parse: seq<Decision>)
    requires Serves(q, p) && (data != [] ==> ParseOk(p, Apply(LZ_INIT, Lit(data[0])), data, parse))
    ensures var syms := Block(p, data, parse);
      && LegalAll(q, LZ_INIT, syms) && AllEvs(q, LZ_INIT, syms) == BlockEvs(p, data, parse)
      && ApplyAll(LZ_INIT, syms).out == data
    ensures ProbsOk(InitialProbs(Lits(p)))
  {
    if data != [] {
      BlockLegal(p, data, parse);
      WiderDictionary(p, q, LZ_INIT, BlockSyms(p, data, parse));
    }
  }

  // A block starts with a literal, or has a code of 0, so its code passes the first check.
  lemma FirstIsLiteral(p: Props, q: Props, data: seq<byte>, parse: seq<Decision>, src: seq<byte>)
    requires Serves(q, p) && (data != [] ==> ParseOk(p, Apply(LZ_INIT, Lit(data[0])), data, parse))
      && |src| >= RC_INIT_SIZE
    requires Pending(InitDec(InitialProbs(Lits(p)), src), BlockEvs(p, data, parse))
    requires data == [] ==> Flushed(EncAll(InitEnc(InitialProbs(Lits(p))), []), src)
    ensures Val(src[1..5]) < BAD_REP_CODE
  {
    hide LitEvs, AllEvs, Pow256;
    if data == [] {
      assert EncAll(InitEnc(InitialProbs(Lits(p))), []) == InitEnc(InitialProbs(Lits(p)));
      ZeroTail(src);
    } else {
      StartRange(p, src);
      FirstEvent(p, data, parse);
    }
  }

  lemma FirstEvent(p: Props, data: seq<byte>, parse: seq<Decision>)
    requires PropsOk(p) && data != [] && ParseOk(p, Apply(LZ_INIT, Lit(data[0])), data, parse)
    ensures BlockEvs(p, data, parse) != [] && BlockEvs(p, data, parse)[0] == Model(IsMatch(0, 0), 0)
  {
    hide LitEvs, ParseSyms;
    BlockLegal(p, data, parse);
    NothingBefore(p);
  }

  lemma ZeroTail(src: seq<byte>)
    requires |src| == 5 && Val(src) == 0
    ensures Val(src[1..5]) == 0
  {
    assert src == src[..1] + src[1..5];
    ValConcat(src[..1], src[1..5]);
  }

  // ---------- what the answer is ----------

  // An answer about the bytes taken is one about all there were, unless more were needed.
  lemma AnswerAll(p: Props, stream: seq<byte>, src: seq<byte>, count: nat, rem: nat, destLen: nat, dest: seq<byte>,
      res: Res, status: Status)
    requires Answer(p, stream, count, rem, destLen, dest, res, status) && stream <= src
    requires res.Ok? && status.NeedsMoreInput? ==> stream == src
    ensures Answer(p, src, count, rem, destLen, dest, res, status)
  {
    hide Steps, Start, SymDec, Norm;
    if stream != src {
      assert stream == src[..|stream|];
      var pos := Steps(p, Start(p, stream), count).d.pos;
      assert src[..|stream|][..pos] == src[..pos];
      Rebase(p, stream, src, count);
      if count > 0 {
        EarlierSame(p, stream, src, count, |stream|, count - 1);
      }
    }
  }

  // Decoding stops as soon as it can, so no answer comes before another.
  lemma NotBefore(p: Props, src: seq<byte>, destLen: nat, count: nat, rem: nat, dest: seq<byte>,
      res: Res, status: Status, count': nat, rem': nat, dest': seq<byte>, res': Res, status': Status)
    requires Answer(p, src, count, rem, destLen, dest, res, status)
      && Answer(p, src, count', rem', destLen, dest', res', status')
    ensures count >= count'
  {
    hide Steps, Start, SymDec, Norm;
    if count < count' {
      StartReady(p, src);
      OutputGrows(p, Start(p, src), count, count' - 1);
      OutputGrows(p, Start(p, src), count + 1, count');
      StepsNext(p, src, count);
    }
  }

  lemma StepsNext(p: Props, src: seq<byte>, count: nat)
    requires PropsOk(p) && |src| >= RC_INIT_SIZE
    ensures var h := Steps(p, Start(p, src), count);
      h.Going? ==> Steps(p, Start(p, src), count + 1).d.pos == Norm(SymDec(p, h.m, h.d).d).pos
  {
    hide Start, SymDec, Norm;
    assert Steps(p, Start(p, src), count + 1) == Step(p, Steps(p, Start(p, src), count));
  }

  // There is one answer for any bytes and room.
  lemma AnswersAgree(p: Props, src: seq<byte>, destLen: nat, count: nat, rem: nat, dest: seq<byte>,
      res: Res, status: Status, count': nat, rem': nat, dest': seq<byte>, res': Res, status': Status)
    requires Answer(p, src, count, rem, destLen, dest, res, status)
      && Answer(p, src, count', rem', destLen, dest', res', status')
    ensures count == count' && dest == dest' && res == res'
    ensures res.Ok? ==> (status.NeedsMoreInput? <==> status'.NeedsMoreInput?)
  {
    hide Steps, Start, SymDec, Norm;
    NotBefore(p, src, destLen, count, rem, dest, res, status, count', rem', dest', res', status');
    NotBefore(p, src, destLen, count', rem', dest', res', status', count, rem, dest, res, status);
  }

  // A block's bytes, asked for as many bytes as the source has, have the source for an answer.
  lemma BlockAnswer(q: Props, src: seq<byte>, syms: nat, data: seq<byte>)
    requires PropsOk(q) && GoodStart(src)
    requires var h := Steps(q, Start(q, src), syms); h.Going? && h.m.out == data && h.d.pos == |src| && h.d.code == 0
    ensures Answer(q, src, syms, 0, |data|, data, Ok, MaybeFinishedWithoutMark)
  {
    hide Steps, Start, SymDec, Norm, Ready;
    if syms > 0 {
      StartReady(q, src);
      OutputGrows(q, Start(q, src), syms - 1, syms);
      StepsReady(q, Start(q, src), syms - 1);
      StepReady(q, Steps(q, Start(q, src), syms - 1));
      StepsLast(q, Start(q, src), syms);
    }
  }

  // packed and props are what compressing data with some parser's decisions leaves.
  ghost predicate PackedBy(p: Props, parse: seq<Decision>, props: seq<byte>, packed: seq<byte>, data: seq<byte>) {
    && PropsOk(p) && (data != [] ==> ParseOk(p, Apply(LZ_INIT, Lit(data[0])), data, parse))
    && Flushed(EncAll(InitEnc(InitialProbs(Lits(p))), BlockEvs(p, data, parse)), packed)
    && |props| == LZMA_PROPS_SIZE && PropsDecode(props).Decoded? && Serves(PropsDecode(props).p, p)
    && PropsWritten(p, props)
  }

  ghost predicate Packs(props: seq<byte>, packed: seq<byte>, data: seq<byte>) {
    exists p, parse :: PackedBy(p, parse, props, packed, data)
  }

  // How long the block is does not depend on who flushes it.
  lemma PackedLength(p: Props, parse: seq<Decision>, data: seq<byte>, props: seq<byte>, packed: seq<byte>,
      props': seq<byte>, packed': seq<byte>)
    requires PackedBy(p, parse, props, packed, data) && PackedBy(p, parse, props', packed', data)
    ensures |packed| == |packed'|
  {
    hide EncAll, BlockEvs, ParseOk, PropsDecode;
  }

  // LzmaCompress, with the parser's decisions given: the block if it fits, else as much as does.
  method LzmaCompress(p: Props, data: seq<byte>, parse: seq<Decision>, destLen: nat)
      returns (dest: seq<byte>, props: seq<byte>, res: SRes, ghost packed: seq<byte>)
    requires PropsOk(p) && (data != [] ==> ParseOk(p, Apply(LZ_INIT, Lit(data[0])), data, parse))
    ensures PackedBy(p, parse, props, packed, data) && Packs(props, packed, data)
    ensures if |packed| <= destLen then res.SzOk? && dest == packed
            else res.SzErrorOutputEof? && dest == packed[..destLen]
  {
    hide EncAll, Flushed, BlockEvs, ParseOk, PropsDecode, PropsWritten;
    props := WriteProperties(p);
    dest := EncodeBlock(p, data, parse);
    packed := dest;
    assert PackedBy(p, parse, props, packed, data);
    res := SzOk;
    if |dest| > destLen {
      dest, res := dest[..destLen], SzErrorOutputEof;
    }
  }

  // A successful answer on any bytes: the symbols up to the end mark or the limit, all of them there.
  ghost predicate Undone(destLen: nat, src: seq<byte>, props: seq<byte>, dest: seq<byte>) {
    PropsDecode(props).Decoded? && exists count: nat, rem: nat, status ::
      Answer(PropsDecode(props).p, src, count, rem, destLen, dest, Ok, status) && !status.NeedsMoreInput?
  }

  // LzmaUncompress: it succeeds exactly when the bytes have a successful answer, and gives that one.
  method LzmaUncompress(destLen: nat, src: seq<byte>, props: seq<byte>) returns (dest: seq<byte>, res: SRes)
    ensures |dest| <= destLen && !res.SzErrorFail?
    ensures res.SzOk? ==> Undone(destLen, src, props, dest)
    ensures forall d :: Undone(destLen, src, props, d) ==> res.SzOk? && d == dest
  {
    hide PropsDecode, Answer, BadStart, Undone;
    var srcLen: nat;
    ghost var started, count, rem, inner, status;
    dest, srcLen, res, started, count, rem, inner, status := LzmaDecode(destLen, src, props);
    assert src[..srcLen] <= src;
    if |src| >= RC_INIT_SIZE && PropsDecode(props).Decoded? && started {
      AnswerAll(PropsDecode(props).p, src[..srcLen], src, count, rem, destLen, dest, inner, status);
      AnswerDecides(destLen, src, props, count, rem, dest, inner, status);
    } else {
      NoAnswer(destLen, src, props, src[..srcLen]);
    }
  }

  lemma AnswerDecides(destLen: nat, src: seq<byte>, props: seq<byte>, count: nat, rem: nat, dest: seq<byte>,
      res: Res, status: Status)
    requires PropsDecode(props).Decoded?
      && Answer(PropsDecode(props).p, src, count, rem, destLen, dest, res, status)
    ensures res.Ok? && !status.NeedsMoreInput? ==> Undone(destLen, src, props, dest)
    ensures forall d :: Undone(destLen, src, props, d) ==> res.Ok? && !status.NeedsMoreInput? && d == dest
    ensures !res.ErrorFail?
  {
    hide PropsDecode, Answer;
    var p := PropsDecode(props).p;
    AnswerNotFail(p, src, count, rem, destLen, dest, res, status);
    forall d | Undone(destLen, src, props, d)
      ensures res.Ok? && !status.NeedsMoreInput? && d == dest
    {
      var count': nat, rem': nat, status' :| Answer(p, src, count', rem', destLen, d, Ok, status')
        && !status'.NeedsMoreInput?;
      AnswersAgree(p, src, destLen, count, rem, dest, res, status, count', rem', d, Ok, status');
    }
  }

  lemma UndoneOnce(destLen: nat, src: seq<byte>, props: seq<byte>, d: seq<byte>, d': seq<byte>)
    requires Undone(destLen, src, props, d) && Undone(destLen, src, props, d')
    ensures d == d'
  {
    hide PropsDecode, Answer;
    var count: nat, rem: nat, status :| Answer(PropsDecode(props).p, src, count, rem, destLen, d, Ok, status)
      && !status.NeedsMoreInput?;
    AnswerDecides(destLen, src, props, count, rem, d, Ok, status);
  }

  lemma AnswerNotFail(p: Props, stream: seq<byte>, count: nat, rem: nat, destLen: nat, dest: seq<byte>,
      res: Res, status: Status)
    requires Answer(p, stream, count, rem, destLen, dest, res, status)
    ensures !res.ErrorFail?
  {
  }

  // Bytes too few, properties not decoded or a bad start leave nothing to answer.
  lemma NoAnswer(destLen: nat, src: seq<byte>, props: seq<byte>, stream: seq<byte>)
    requires |src| < RC_INIT_SIZE || PropsDecode(props).Unsupported? || (stream <= src && BadStart(stream))
    ensures forall d :: !Undone(destLen, src, props, d)
  {
    hide PropsDecode;
    if |src| >= RC_INIT_SIZE && |stream| == RC_INIT_SIZE && stream <= src {
      assert stream[1..5] == src[1..5];
    }
  }

  // What compression left of data, asked for as much as data has, has data for an answer.
  lemma PackedUndone(props: seq<byte>, src: seq<byte>, data: seq<byte>)
    requires Packs(props, src, data)
    ensures Undone(|data|, src, props, data)
  {
    hide Steps, Start, EncAll, Flushed, BlockEvs, ParseOk, PropsDecode, Answer;
    var p, parse :| PackedBy(p, parse, props, src, data);
    var q := PropsDecode(props).p;
    BlockDecodes(p, q, data, parse, src);
    BlockAnswer(q, src, |Block(p, data, parse)|, data);
    assert Answer(q, src, |Block(p, data, parse)|, 0, |data|, data, Ok, MaybeFinishedWithoutMark);
  }

  // Any source, through any valid parse, comes back once its block has room.
  method CompressThenUncompress(p: Props, data: seq<byte>, parse: seq<Decision>, destLen: nat)
      returns (dest: seq<byte>, props: seq<byte>, packRes: SRes, back: seq<byte>, res: SRes, ghost packed: seq<byte>)
    requires PropsOk(p) && (data != [] ==> ParseOk(p, Apply(LZ_INIT, Lit(data[0])), data, parse))
    ensures PackedBy(p, parse, props, packed, data) && |packed| >= RC_INIT_SIZE && packed[0] == 0
    ensures packRes.SzOk? <==> |packed| <= destLen
    ensures packRes.SzOk? ==> back == data && res.SzOk?
  {
    hide EncAll, Flushed, BlockEvs, ParseOk, PropsDecode, Packs, Undone;
    dest, props, packRes, packed := LzmaCompress(p, data, parse, destLen);
    BlockDecodes(p, PropsDecode(props).p, data, parse, packed);
    back, res := LzmaUncompress(|data|, dest, props);
    if packRes.SzOk? {
      PackedUndone(props, dest, data);
    }
  }
}
