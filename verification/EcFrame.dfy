// The framing of comp.c: every chunk of a compressed file has a header of seventeen bytes that says
// whether it is compressed, how many bytes it stands for and how many it holds.
module EcFrame {
  import opened Words
  import opened LzmaLib

  const EC_UNCOMPRESSED: byte := 0
  const EC_COMPRESSED: byte := 1
  const EC_HEADER_SIZE: nat := 17
  const COMP_MAX_THREADS: nat := 8
  const SIZE_T: nat := 0x1_0000_0000_0000_0000

  datatype EcHeader = EcHeader(compressed: byte, origSize: nat, procSize: nat)

  // A number in k bytes, least significant first, and back.
  function Le(n: nat, k: nat): (s: seq<byte>)
    ensures |s| == k
  {
    if k == 0 then [] else [n % 256] + Le(n / 256, k - 1)
  }

  function LeVal(s: seq<byte>): nat {
    if s == [] then 0 else s[0] + 256 * LeVal(s[1..])
  }

  lemma {:induction false} LeBack(n: nat, k: nat)
    requires n < Pow256(k)
    ensures LeVal(Le(n, k)) == n
  {
    if k > 0 {
      LeBack(n / 256, k - 1);
      assert Le(n, k)[1..] == Le(n / 256, k - 1);
    }
  }

  // write_ec_header, and read_ec_header on as many bytes as there are: none when the file ends first.
  function HeaderBytes(h: EcHeader): (s: seq<byte>)
    ensures |s| == EC_HEADER_SIZE
  {
    [h.compressed] + Le(h.origSize, 8) + Le(h.procSize, 8)
  }

  datatype ReadHeader = Header(h: EcHeader) | Eof

  function HeaderAt(f: seq<byte>, pos: nat): ReadHeader {
    if pos + EC_HEADER_SIZE > |f| then Eof
    else Header(EcHeader(f[pos], LeVal(f[pos + 1..pos + 9]), LeVal(f[pos + 9..pos + 17])))
  }

  lemma Pow256Twice(k: nat)
    ensures Pow256(k + 2) == 0x1_0000 * Pow256(k)
  {
    assert Pow256(k + 1) == 256 * Pow256(k);
  }

  lemma Pow256Eight()
    ensures Pow256(8) == SIZE_T
  {
    Pow256Twice(0);
    Pow256Twice(2);
    Pow256Twice(4);
    Pow256Twice(6);
  }

  lemma HeaderBack(h: EcHeader, f: seq<byte>, pos: nat)
    requires h.origSize < SIZE_T && h.procSize < SIZE_T
    requires pos + EC_HEADER_SIZE <= |f| && f[pos..pos + EC_HEADER_SIZE] == HeaderBytes(h)
    ensures HeaderAt(f, pos) == Header(h)
  {
    hide Le, LeVal, Pow256, HeaderBytes;
    Pow256Eight();
    LeBack(h.origSize, 8);
    LeBack(h.procSize, 8);
    HeaderParts(h);
    Within(f, pos, EC_HEADER_SIZE, 0, 1);
    Within(f, pos, EC_HEADER_SIZE, 1, 9);
    Within(f, pos, EC_HEADER_SIZE, 9, 17);
    assert f[pos] == f[pos..pos + 1][0];
  }

  // One chunk: the bytes it stands for and what compressing them left.
  datatype Chunk = Chunk(data: seq<byte>, props: seq<byte>, packed: seq<byte>) {
    // Compression is kept only when it and its properties are shorter than the data.
    predicate Compressed() {
      |props| + |packed| < |data|
    }

    function Head(): EcHeader {
      if Compressed() then EcHeader(EC_COMPRESSED, |data|, |packed|) else EcHeader(EC_UNCOMPRESSED, |data|, |data|)
    }

    function Body(): seq<byte> {
      if Compressed() then props + packed else data
    }

    function Bytes(): seq<byte> {
      HeaderBytes(Head()) + Body()
    }

    ghost predicate Ok() {
      data != [] && |data| < SIZE_T && |props| == LZMA_PROPS_SIZE && Packs(props, packed, data)
    }
  }

  function FileOf(cs: seq<Chunk>): seq<byte> {
    if cs == [] then [] else cs[0].Bytes() + FileOf(cs[1..])
  }

  function ContentOf(cs: seq<Chunk>): seq<byte> {
    if cs == [] then [] else cs[0].data + ContentOf(cs[1..])
  }

  ghost predicate AllOk(cs: seq<Chunk>) {
    forall i :: 0 <= i < |cs| ==> cs[i].Ok()
  }

  lemma {:induction false} Snoc(cs: seq<Chunk>, c: Chunk)
    ensures FileOf(cs + [c]) == FileOf(cs) + c.Bytes() && ContentOf(cs + [c]) == ContentOf(cs) + c.data
  {
    hide Chunk.Bytes;
    if cs == [] {
      assert [c][1..] == [];
      assert FileOf([c]) == c.Bytes() + FileOf([]) && ContentOf([c]) == c.data + ContentOf([]);
    } else {
      Snoc(cs[1..], c);
      assert (cs + [c])[1..] == cs[1..] + [c];
    }
  }

  // How far a chunk reaches past its header.
  function BodyLen(h: EcHeader): nat {
    (if h.compressed == EC_COMPRESSED then LZMA_PROPS_SIZE else 0) + h.procSize
  }

  // The header at the start of a file of chunks is the first chunk's, and its body follows.
  lemma {:induction false} FirstChunk(f: seq<byte>, pos: nat, cs: seq<Chunk>)
    requires pos <= |f| && f[pos..] == FileOf(cs) && AllOk(cs)
    ensures cs == [] <==> pos == |f|
    ensures cs != [] ==>
      && HeaderAt(f, pos) == Header(cs[0].Head()) && |cs[0].Body()| == BodyLen(cs[0].Head())
      && var body := pos + EC_HEADER_SIZE; var next := body + |cs[0].Body()|;
      next <= |f| && f[body..next] == cs[0].Body() && f[next..] == FileOf(cs[1..])
  {
    hide Packs, Le, LeVal;
    if cs != [] {
      var c := cs[0];
      assert c.Ok();
      var b := c.Bytes();
      assert f[pos..] == b + FileOf(cs[1..]);
      assert f[pos..pos + |b|] == f[pos..][..|b|] == b;
      assert f[pos + |b|..] == f[pos..][|b|..];
      assert f[pos..pos + EC_HEADER_SIZE] == b[..EC_HEADER_SIZE] == HeaderBytes(c.Head());
      assert f[pos + EC_HEADER_SIZE..pos + |b|] == b[EC_HEADER_SIZE..] == c.Body();
      HeaderBack(c.Head(), f, pos);
    }
  }

  // ---------- the format, from the bytes ----------

  // The eight digits of n, least significant first.
  ghost predicate DigitsAt(out: seq<byte>, at: nat, n: nat) {
    at + 8 <= |out| && forall i: nat :: i < 8 ==> out[at + i] == n / Pow256(i) % 256
  }

  // From at to end stand a flag, the size of the data, the size of what is kept, and that itself: the properties
  // and the packed bytes when they are shorter than the data, else the data.
  ghost predicate FramedAt(out: seq<byte>, at: nat, c: Chunk, end: nat) {
    var z := |c.props| + |c.packed|;
    && at + EC_HEADER_SIZE <= end <= |out|
    && end - at == EC_HEADER_SIZE + Min(|c.data|, z)
    && out[at] == (if z < |c.data| then 1 else 0)
    && DigitsAt(out, at + 1, |c.data|) && DigitsAt(out, at + 9, if z < |c.data| then |c.packed| else |c.data|)
    && out[at + EC_HEADER_SIZE..end] == if z < |c.data| then c.props + c.packed else c.data
  }

  // From at on there is one frame for each chunk, and nothing else.
  ghost predicate Frames(out: seq<byte>, at: nat, cs: seq<Chunk>)
    decreases |cs|
  {
    if cs == [] then at == |out|
    else exists end: nat :: FramedAt(out, at, cs[0], end) && Frames(out, end, cs[1..])
  }

  lemma {:induction false} LeDigit(n: nat, k: nat, i: nat)
    requires i < k
    ensures Le(n, k)[i] == n / Pow256(i) % 256
    decreases i
  {
    if i == 0 {
      assert Pow256(0) == 1;
    } else {
      LeDigit(n / 256, k - 1, i - 1);
      DivPow(n, i);
    }
  }

  lemma DivPow(n: nat, i: nat)
    requires i > 0
    ensures n / 256 / Pow256(i - 1) == n / Pow256(i)
  {
    hide Pow256;
    PowNext(i);
    var p := Pow256(i - 1);
    var q, r := n / 256 / p, n / 256 % p;
    DivStep(n, p, q, r);
  }

  lemma PowNext(i: nat)
    requires i > 0
    ensures Pow256(i) == 256 * Pow256(i - 1)
  {
  }

  lemma DivStep(n: nat, p: nat, q: nat, r: nat)
    requires p > 0 && q == n / 256 / p && r == n / 256 % p
    ensures n / (256 * p) == q
  {
    assert n / 256 == p * q + r;
    assert n == (256 * p) * q + (256 * r + n % 256) by {
      assert 256 * (p * q) == (256 * p) * q;
    }
    ModUnique(n, 256 * p, q, 256 * r + n % 256);
  }

  lemma DigitsLe(out: seq<byte>, at: nat, n: nat)
    requires at + 8 <= |out| && out[at..at + 8] == Le(n, 8)
    ensures DigitsAt(out, at, n)
  {
    hide Le, Pow256;
    forall i: nat | i < 8
      ensures out[at + i] == n / Pow256(i) % 256
    {
      LeDigit(n, 8, i);
      assert out[at + i] == out[at..at + 8][i];
    }
  }

  // A chunk's bytes are its frame.
  lemma BytesFramed(out: seq<byte>, at: nat, c: Chunk)
    requires at + |c.Bytes()| <= |out| && out[at..at + |c.Bytes()|] == c.Bytes()
    ensures FramedAt(out, at, c, at + |c.Bytes()|)
  {
    hide Le, DigitsAt, Chunk.Bytes;
    var b, h := c.Bytes(), c.Head();
    BytesParts(c);
    Within(out, at, |b|, 0, 1);
    Within(out, at, |b|, 1, 9);
    Within(out, at, |b|, 9, 17);
    Within(out, at, |b|, EC_HEADER_SIZE, |b|);
    assert out[at] == out[at..at + 1][0];
    DigitsLe(out, at + 1, h.origSize);
    DigitsLe(out, at + 9, h.procSize);
  }

  lemma BytesParts(c: Chunk)
    ensures var b, h := c.Bytes(), c.Head();
      && |b| == EC_HEADER_SIZE + |c.Body()| && b[0..1] == [h.compressed] && b[1..9] == Le(h.origSize, 8)
      && b[9..17] == Le(h.procSize, 8) && b[EC_HEADER_SIZE..|b|] == c.Body()
  {
    hide HeaderBytes;
    var b, h := c.Bytes(), HeaderBytes(c.Head());
    HeaderParts(c.Head());
    assert b[0..1] == h[0..1] && b[1..9] == h[1..9] && b[9..17] == h[9..17];
    assert b[EC_HEADER_SIZE..|b|] == c.Body();
  }

  lemma HeaderParts(h: EcHeader)
    ensures var b := HeaderBytes(h);
      b[0..1] == [h.compressed] && b[1..9] == Le(h.origSize, 8) && b[9..17] == Le(h.procSize, 8)
  {
    hide Le;
  }

  lemma Within(out: seq<byte>, at: nat, n: nat, i: nat, j: nat)
    requires i <= j <= n && at + n <= |out|
    ensures out[at + i..at + j] == out[at..at + n][i..j]
  {
    var a, b := out[at + i..at + j], out[at..at + n][i..j];
    forall k | 0 <= k < j - i
      ensures a[k] == b[k]
    {
      assert a[k] == out[at + i + k] == out[at..at + n][i + k];
    }
    assert a == b;
  }

  // A file of chunks is one frame after another.
  lemma {:induction false} FileFrames(out: seq<byte>, at: nat, cs: seq<Chunk>)
    requires at <= |out| && out[at..] == FileOf(cs)
    ensures Frames(out, at, cs)
    decreases |cs|
  {
    hide FramedAt, Chunk.Bytes;
    if cs != [] {
      var b := cs[0].Bytes();
      assert out[at..] == b + FileOf(cs[1..]);
      assert out[at..at + |b|] == out[at..][..|b|] == b;
      assert out[at + |b|..] == out[at..][|b|..] == FileOf(cs[1..]);
      BytesFramed(out, at, cs[0]);
      FileFrames(out, at + |b|, cs[1..]);
    }
  }
}
