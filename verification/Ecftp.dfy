// prepare_file and process_received_file of ecftp.c, as functions of the files' contents: compress then
// encrypt on one side, decrypt then uncompress on the other.
module Ecftp {
  import opened Words
  import opened Batches
  import opened AesKeys
  import opened EncChunk
  import opened EncFile
  import opened EcFrame
  import opened CompFile
  import opened UncompFile

  // Up to here the batches of the framed file are still counted in 32 bits.
  const MAX_FILE: nat := 0xFF_0000_0000_0000

  // Framing at most adds a header to every chunk.
  lemma {:induction false} FileSize(cs: seq<Chunk>)
    ensures |FileOf(cs)| <= |ContentOf(cs)| + 17 * |cs|
  {
    if cs != [] {
      FileSize(cs[1..]);
    }
  }

  // compress succeeds: no chunk is empty and none outgrows its buffer.
  ghost predicate Compresses(file: seq<byte>, choose: Parser) {
    |file| % COMP_THREAD_MAX_MEM != 0 && AllFit(file, choose)
  }

  // The chunks that compressing the file leaves.
  ghost predicate ChunksOf(cs: seq<Chunk>, file: seq<byte>, choose: Parser) {
    && AllOk(cs) && ContentOf(cs) == file
    && |cs| == |file| / COMP_THREAD_MAX_MEM + 1 && CutUp(file, choose, cs)
  }

  lemma FramedSize(cs: seq<Chunk>, file: seq<byte>, choose: Parser)
    requires ChunksOf(cs, file, choose) && |file| < MAX_FILE
    ensures |FileOf(cs)| < FIRST_LOST - 16
  {
    FileSize(cs);
  }

  // Preparation succeeds exactly when compression does and the framed file is not a whole number of
  // four mebibytes; what it leaves is the encryption of the framed chunks, down to its bytes.
  method PrepareFile(file: seq<byte>, key: Key, choose: Parser) returns (r: Outcome, ghost cs: seq<Chunk>)
    requires |file| < MAX_FILE && Parses(choose)
    ensures r.Written? <==> Compresses(file, choose) && |FileOf(cs)| % ENC_THREAD_MAX_MEM != 0
    ensures Compresses(file, choose) ==> ChunksOf(cs, file, choose) && r == Encrypted(FileOf(cs), key)
    ensures r.Written? ==> DataOf(cs, file) && Frames(FileOf(cs), 0, cs) && CipherOf(FileOf(cs), key, r.bytes)
  {
    hide DataOf, Frames, CipherOf, AllOk, FileOf, ContentOf, Parses, Encrypted, CutUp, AllFit;
    var c;
    c, cs := CompFile.CompFile(file, choose);
    if !c.Written? {
      return c, cs;
    }
    FramedSize(cs, file, choose);
    WrittenIff(FileOf(cs), key);
    r := EncFile.EncFile(c.bytes, key);
  }

  lemma WrittenIff(c: seq<byte>, key: Key)
    requires |c| < FIRST_LOST
    ensures Encrypted(c, key).Written? <==> |c| % ENC_THREAD_MAX_MEM != 0
  {
    hide Encipher, KeysOf, Usable;
  }

  method ProcessReceivedFile(recv: seq<byte>, key: Key)
      returns (r: Outcome, ghost d: Outcome, ghost ls: seq<Left>, ghost at: nat)
    requires |recv| < MAX_SIZE
    ensures DecryptedTo(recv, key, d)
    ensures if d.Written? then Uncompressed(d.bytes, r, ls, at) else r == d
    ensures forall cs :: AllOk(cs) && d == Written(FileOf(cs)) ==> r == Written(ContentOf(cs))
  {
    hide AllOk, FileOf, ContentOf, DecryptedTo, Uncompressed;
    var t := DecFile(recv, key);
    d, ls, at := t, [], 0;
    if !t.Written? {
      return t, d, ls, at;
    }
    r, ls, at := UncompFile.UncompFile(t.bytes);
    forall cs | AllOk(cs) && FileOf(cs) == t.bytes
      ensures r == Written(ContentOf(cs))
    {
      ChunksBack(t.bytes, r, ls, at, cs);
    }
  }

  // A file that could be prepared comes back from the other side, under the same key, exactly when what
  // was sent is not a whole number of four mebibytes.
  method SendThenReceive(file: seq<byte>, key: Key, choose: Parser) returns (sent: Outcome, received: Outcome)
    requires |file| < MAX_FILE && Parses(choose)
    ensures sent.Written? ==> (received == Written(file) <==> |sent.bytes| % ENC_THREAD_MAX_MEM != 0)
  {
    hide AllOk, FileOf, ContentOf, Parses, DecryptedTo, Encrypted, CutUp, AllFit, Uncompressed;
    ghost var cs, d, ls, at;
    sent, cs := PrepareFile(file, key, choose);
    received := Failed;
    if sent.Written? {
      FramedSize(cs, file, choose);
      SentSize(FileOf(cs), key);
      received, d, ls, at := ProcessReceivedFile(sent.bytes, key);
      RoundTrip(FileOf(cs), key, d);
      if |sent.bytes| % ENC_THREAD_MAX_MEM == 0 {
        NothingBack(sent.bytes, key, d);
      }
    }
  }

  lemma SentSize(c: seq<byte>, key: Key)
    requires Encrypted(c, key).Written? && |c| < FIRST_LOST - 16
    ensures |c| % ENC_THREAD_MAX_MEM != 0 && |Encrypted(c, key).bytes| == |Padded(c)| <= |c| + 16
  {
    hide Encipher, KeysOf, Usable;
  }

  lemma NothingBack(f: seq<byte>, key: Key, r: Outcome)
    requires DecryptedTo(f, key, r) && |f| % ENC_THREAD_MAX_MEM == 0 && |f| < FIRST_LOST
    ensures !r.Written?
  {
    hide StrandedTo, WholeTo, KeysOf, Usable;
  }
}
