// enc_file and dec_file of enc.c: a file is cut into batches of four workers with four mebibytes each,
// and the workers' outputs are written one after the other.
module EncFile {
  import opened Words
  import opened Aes
  import opened AesKeys
  import opened AesSbox
  import opened EncChunk
  import opened Batches

  const ENC_THREAD_MAX_MEM: nat := 4194304
  const ENC_MAX_THREADS: nat := 4
  const BATCH: nat := 16777216                // max_bytes_per_batch

  // From the first lost size on, the number of batches is 2^32 and its 32 bits are 0.
  const MAX_SIZE: nat := 0x100_0000_0000_0000
  const FIRST_LOST: nat := MAX_SIZE - BATCH

  const ENC_PLAN := Plan(ENC_THREAD_MAX_MEM, ENC_MAX_THREADS)

  // Where worker t of batch b starts to read.
  function From(b: nat, t: nat): nat {
    b * BATCH + t * ENC_THREAD_MAX_MEM
  }

  // The plan as the two file functions compute it.
  lemma PlanStep(size: nat, b: nat, t: nat, numBatches: nat, numThreads: nat)
    requires b < numBatches == if size > BATCH then size / BATCH + 1 else 1
    requires b == numBatches - 1 ==> b * BATCH <= size
    requires t < numThreads == if b == numBatches - 1
                               then (size - b * BATCH) / ENC_THREAD_MAX_MEM + 1 else ENC_MAX_THREADS
    ensures var last := b == numBatches - 1 && t == numThreads - 1;
      && From(b, t) + (if last then size - From(b, t) else ENC_THREAD_MAX_MEM) <= size
      && (last ==> size - From(b, t) == size % ENC_THREAD_MAX_MEM)
    ensures numThreads <= ENC_MAX_THREADS || size == BATCH
  {
    hide Plan.NumBatches, Plan.NumThreads, Plan.ReadFrom;
    ENC_PLAN.Step(size, b, t, BATCH, numBatches, numThreads);
  }

  lemma BatchCount(size: nat, numBatches: nat)
    requires size < MAX_SIZE && numBatches == if size > BATCH then W32(size / BATCH + 1) else 1
    ensures numBatches == if size >= FIRST_LOST then 0 else if size > BATCH then size / BATCH + 1 else 1
    ensures numBatches > 0 ==> (numBatches - 1) * BATCH <= size
  {
  }

  ghost function SboxTable(): Table {
    seq(256, i requires 0 <= i < 256 => SubByte(i as bv8))
  }

  ghost function InvTable(): Table {
    seq(256, i requires 0 <= i < 256 => SubByteInverse(i as bv8))
  }

  // What enc_aes_vars holds for a key.
  ghost function KeysOf(key: Key): Keys {
    Keys(RoundKeys(key, SboxTable()), SboxTable(), InvTable())
  }

  lemma TablesAre(sbox: Table, inv: Table)
    requires Tables(sbox, inv)
    ensures sbox == SboxTable() && inv == InvTable() && Undoes(inv, sbox)
  {
    hide SubByte, SubByteInverse;
    forall i | 0 <= i < 256
      ensures sbox[i] == SubByte(i as bv8) && inv[i] == SubByteInverse(i as bv8)
    {
      IntOfByte(i);
      assert sbox[(i as bv8) as int] == SubByte(i as bv8);
      assert inv[(i as bv8) as int] == SubByteInverse(i as bv8);
    }
    forall x: bv8
      ensures Look(inv, Look(sbox, x)) == x
    {
      SubByteBack(x);
      assert sbox[x as int] == SubByte(x);
      assert inv[SubByte(x) as int] == SubByteInverse(SubByte(x));
    }
  }

  lemma IntOfByte(i: int)
    requires 0 <= i < 256
    ensures (i as bv8) as int == i
  {
    BitsAndBack(i);
  }

  method InitKeys(key: Key) returns (k: Keys)
    ensures k == KeysOf(key) && Usable(k)
  {
    hide Tables, Undoes, SboxTable, InvTable, RoundKey;
    var sbox := new bv8[256];
    var sboxinv := new bv8[256];
    InitializeAesSbox(sbox, sboxinv);
    TablesAre(sbox[..], sboxinv[..]);
    var rkeys := ExpKey(key, sbox[..]);
    k := Keys(rkeys, sbox[..], sboxinv[..]);
  }

  // The block of sixteens that follows a last chunk which fills its blocks.
  method PaddingBlock(k: Keys) returns (r: seq<byte>)
    requires Usable(k)
    ensures r == EncipherBlock(k, Padding(0))
  {
    hide EncryptBlock, Undoes, ToBits;
    var text := new bv8[16];
    var sixteen: byte := 16;
    for j := 0 to 16
      invariant forall i :: 0 <= i < j ==> text[i] == ToBits(sixteen)
    {
      text[j] := ToBits(sixteen);
    }
    assert text[..] == Transposed(Bits(Padding(0)));
    Encrypt(text, k.rkeys, k.sbox);
    r := Nums(text[..]);
  }

  // One worker of enc_file, and what is written of its work.
  method EncPiece(file: seq<byte>, k: Keys, from: nat, readlen: nat, last: bool) returns (r: Outcome)
    requires Usable(k) && from + readlen <= |file|
    requires last ==> from + readlen == |file| && from % 16 == 0
    requires !last ==> readlen == ENC_THREAD_MAX_MEM
    ensures readlen == 0 ==> r == Failed
    ensures readlen > 0 && !last
      ==> Whole(file[from..from + readlen]) && r == Written(Encipher(k, file[from..from + readlen]))
    ensures readlen > 0 && last ==> Whole(Padded(file[from..])) && r == Written(Encipher(k, Padded(file[from..])))
  {
    hide Encipher, EncipherBlock, Usable, Padding;
    var stranded := readlen % 16;
    var t := new EncThread(from, readlen, readlen + (if stranded != 0 then 16 - stranded else 0), false);
    EncryptChunkOfFile(t, file, k);
    if t.returnVal != 0 {
      return Failed;
    }
    ghost var s := file[from..from + readlen];
    assert last ==> file[from..] == s;
    r := WriteOut(t.outbuf[..], t.outbufLen);
    if r.Written? && last && !t.padded {
      var block := PaddingBlock(k);
      r := Written(r.bytes + block);
      PaddingWhole(s);
      EncipherSnoc(k, s, Padding(0));
    }
  }

  lemma PaddingWhole(s: seq<byte>)
    requires |s| % 16 == 0
    ensures Padded(s) == s + Padding(0) && |Padding(0)| == 16 && Whole(s)
  {
  }

  // What enc_file comes to for any content and key.
  ghost function Encrypted(c: seq<byte>, key: Key): Outcome {
    if |c| >= FIRST_LOST then Written([])
    else if |c| == BATCH then Overrun
    else if |c| % ENC_THREAD_MAX_MEM == 0 then Failed
    else EncryptedWhole(c, key)
  }

  ghost function EncryptedWhole(c: seq<byte>, key: Key): (r: Outcome)
    ensures r.Written?
  {
    UsableKeys(key);
    PaddedWhole(c);
    Written(Encipher(KeysOf(key), Padded(c)))
  }

  lemma PaddedWhole(c: seq<byte>)
    ensures Whole(Padded(c))
  {
  }

  lemma UsableKeys(key: Key)
    ensures Usable(KeysOf(key))
  {
    hide SboxTable, InvTable, Undoes, RoundKey;
    TablesAre(SboxTable(), InvTable());
  }

  // p is c and behind it k bytes of the value k, so many that they make up whole blocks.
  ghost predicate PaddingOf(c: seq<byte>, p: seq<byte>) {
    && c <= p && |p| % 16 == 0 && 1 <= |p| - |c| <= 16
    && forall i :: |c| <= i < |p| ==> p[i] == |p| - |c|
  }

  ghost predicate BlockAt(p: seq<byte>, out: seq<byte>, b: nat, rkeys: seq<Block>, box: Table)
    requires 16 * b + 16 <= |p| == |out|
  {
    BlockCiphered(p[16 * b..16 * b + 16], out[16 * b..16 * b + 16], rkeys, box)
  }

  // Block for block, out is the cipher of p under a schedule of the key and a table of the standard.
  ghost predicate Enciphers(p: seq<byte>, key: Key, out: seq<byte>) {
    && |p| == |out|
    && exists rkeys: seq<Block>, box: Table, inv: Table ::
      && Scheduled(rkeys, key, box) && Standard(box, inv)
      && forall b: nat :: 16 * b + 16 <= |p| ==> BlockAt(p, out, b, rkeys, box)
  }

  // What a file encrypts to, without batches or workers.
  ghost predicate CipherOf(c: seq<byte>, key: Key, out: seq<byte>) {
    exists p: seq<byte> :: PaddingOf(c, p) && Enciphers(p, key, out)
  }

  lemma EncipherIs(p: seq<byte>, key: Key)
    requires Whole(p)
    ensures Usable(KeysOf(key)) && Enciphers(p, key, Encipher(KeysOf(key), p))
  {
    hide Encipher, BlockCiphered, EncipherBlock, SboxTable, InvTable, Scheduled, RoundKeys, Standard, Usable, Whole;
    UsableKeys(key);
    var k := KeysOf(key);
    var out := Encipher(k, p);
    RoundKeysScheduled(key, SboxTable());
    TablesHere();
    TablesStandard(SboxTable(), InvTable());
    forall b: nat | 16 * b + 16 <= |p|
      ensures BlockAt(p, out, b, k.rkeys, k.sbox)
    {
      EncipherAt(k, p, b);
      BlockIsCiphered(k, p[16 * b..16 * b + 16]);
    }
  }

  // The cipher is the only sequence of blocks of that kind.
  lemma EnciphersOnly(p: seq<byte>, key: Key, out: seq<byte>)
    requires Whole(p) && Enciphers(p, key, out)
    ensures Usable(KeysOf(key)) && out == Encipher(KeysOf(key), p)
  {
    hide Encipher, BlockCiphered, EncipherBlock, SboxTable, InvTable, Scheduled, RoundKeys, Standard, Usable;
    UsableKeys(key);
    var k := KeysOf(key);
    var rkeys: seq<Block>, box: Table, inv: Table :|
      && Scheduled(rkeys, key, box) && Standard(box, inv)
      && forall b: nat :: 16 * b + 16 <= |p| ==> BlockAt(p, out, b, rkeys, box);
    OneTable(box, inv);
    OneSchedule(rkeys, key, box);
    forall b: nat | 16 * b + 16 <= |p|
      ensures out[16 * b..16 * b + 16] == Encipher(k, p)[16 * b..16 * b + 16]
    {
      assert BlockAt(p, out, b, rkeys, box);
      EncipherAt(k, p, b);
      BlockCipheredOnly(k, p[16 * b..16 * b + 16], out[16 * b..16 * b + 16]);
    }
    SameBlocks(out, Encipher(k, p));
  }

  lemma OneTable(box: Table, inv: Table)
    requires Standard(box, inv)
    ensures box == SboxTable()
  {
    hide SubByte, Substitutes;
    forall i | 0 <= i < 256
      ensures box[i] == SubByte(i as bv8)
    {
      IntOfByte(i);
      assert StandardAt(box, inv, i as bv8);
      SubstitutesOnly(i as bv8, box[i]);
    }
  }

  lemma OneSchedule(rkeys: seq<Block>, key: Key, box: Table)
    requires Scheduled(rkeys, key, box)
    ensures rkeys == RoundKeys(key, box)
  {
    hide StartsWith, NextKey, RoundKey;
    forall r | 0 <= r < 11
      ensures rkeys[r] == RoundKey(key, box, r)
    {
      ScheduledOnly(rkeys, key, box, r);
    }
  }

  lemma SameBlocks(s: seq<byte>, t: seq<byte>)
    requires |s| == |t| && |s| % 16 == 0
    requires forall b: nat :: 16 * b + 16 <= |s| ==> s[16 * b..16 * b + 16] == t[16 * b..16 * b + 16]
    ensures s == t
  {
    forall i | 0 <= i < |s|
      ensures s[i] == t[i]
    {
      var b := i / 16;
      assert s[i] == s[16 * b..16 * b + 16][i % 16] && t[i] == t[16 * b..16 * b + 16][i % 16];
    }
  }

  lemma TablesHere()
    ensures Tables(SboxTable(), InvTable())
  {
    hide SubByte, SubByteInverse;
    forall x: bv8
      ensures SboxTable()[x as int] == SubByte(x) && InvTable()[x as int] == SubByteInverse(x)
    {
      ByteOfInt(x);
    }
  }

  lemma PaddedIs(c: seq<byte>)
    ensures PaddingOf(c, Padded(c)) && Whole(Padded(c))
  {
    hide Padding;
    var n := |c|;
    assert forall i :: 0 <= i < |Padding(n)| ==> Padded(c)[n + i] == Padding(n)[i];
    forall i | n <= i < |Padded(c)|
      ensures Padded(c)[i] == |Padded(c)| - n
    {
      assert Padded(c)[i] == Padding(n)[i - n];
    }
  }

  lemma EncryptedIs(c: seq<byte>, key: Key)
    requires |c| < FIRST_LOST && |c| != BATCH && |c| % ENC_THREAD_MAX_MEM != 0
    ensures Encrypted(c, key).Written? && CipherOf(c, key, Encrypted(c, key).bytes)
  {
    hide Encipher, KeysOf, Usable, Padded, PaddingOf, Enciphers, Whole;
    PaddedIs(c);
    EncipherIs(Padded(c), key);
  }

  // Cutting the padded content at a block boundary inside it is padding the rest.
  lemma PaddedRest(c: seq<byte>, from: nat)
    requires from % 16 == 0 && from <= |c|
    ensures Padded(c)[from..] == Padded(c[from..])
  {
    RestMod(|c|, from);
  }

  lemma EncipherNext(k: Keys, c: seq<byte>, from: nat, to: nat)
    requires Usable(k) && from <= to <= |c| && Whole(c[..from]) && Whole(c[from..to])
    ensures Whole(c[..to]) && Encipher(k, c[..to]) == Encipher(k, c[..from]) + Encipher(k, c[from..to])
  {
    hide Encipher, Usable, Whole;
    assert c[..to] == c[..from] + c[from..to];
    WholeSum(c[..from], c[from..to]);
    EncipherConcat(k, c[..from], c[from..to]);
  }

  lemma DecipherNext(k: Keys, c: seq<byte>, from: nat, to: nat)
    requires Usable(k) && from <= to <= |c| && Whole(c[..from]) && Whole(c[from..to])
    ensures Whole(c[..to]) && Decipher(k, c[..to]) == Decipher(k, c[..from]) + Decipher(k, c[from..to])
  {
    hide Decipher, Usable, Whole;
    assert c[..to] == c[..from] + c[from..to];
    WholeSum(c[..from], c[from..to]);
    DecipherConcat(k, c[..from], c[from..to]);
  }

  // The output when piece n of the plan is the next one to be written.
  ghost predicate EncSoFar(c: seq<byte>, k: Keys, out: seq<byte>, at: nat) {
    Usable(k) && at % 16 == 0 && at <= |c| && Whole(c[..at]) && out == Encipher(k, c[..at])
  }

  lemma EncSoFarNext(c: seq<byte>, k: Keys, out: seq<byte>, at: nat, piece: seq<byte>)
    requires EncSoFar(c, k, out, at) && at + ENC_THREAD_MAX_MEM <= |c|
    requires Whole(c[at..at + ENC_THREAD_MAX_MEM]) && piece == Encipher(k, c[at..at + ENC_THREAD_MAX_MEM])
    ensures EncSoFar(c, k, out + piece, at + ENC_THREAD_MAX_MEM)
  {
    hide Encipher, Usable, Whole;
    EncipherNext(k, c, at, at + ENC_THREAD_MAX_MEM);
  }

  lemma EncSoFarLast(c: seq<byte>, k: Keys, out: seq<byte>, at: nat, piece: seq<byte>)
    requires EncSoFar(c, k, out, at) && Whole(Padded(c[at..])) && piece == Encipher(k, Padded(c[at..]))
    requires |c| % ENC_THREAD_MAX_MEM != 0
    ensures EncDone(c, k, out + piece)
  {
    hide Encipher, Usable, Whole;
    var p := Padded(c);
    PaddedRest(c, at);
    assert p[..at] == c[..at] && p[at..|p|] == p[at..] && p[..|p|] == p;
    EncipherNext(k, p, at, |p|);
  }

  // All of the file has been written.
  ghost predicate EncDone(c: seq<byte>, k: Keys, out: seq<byte>) {
    Usable(k) && Whole(Padded(c)) && out == Encipher(k, Padded(c)) && |c| % ENC_THREAD_MAX_MEM != 0
  }

  method EncFile(file: seq<byte>, key: Key) returns (r: Outcome)
    requires |file| < MAX_SIZE
    ensures r == Encrypted(file, key)
    ensures |file| < FIRST_LOST && |file| != BATCH && |file| % ENC_THREAD_MAX_MEM != 0 ==>
              r.Written? && CipherOf(file, key, r.bytes)
  {
    hide CipherOf, EncSoFar, EncDone, Usable, Encipher, Whole, Padding, KeysOf;
    var size := |file|;
    var numBatches := 1;
    if size > BATCH {
      numBatches := W32(size / BATCH + 1);
    }
    BatchCount(size, numBatches);
    var k := InitKeys(key);
    var out := [];
    EncNothing(file, k);
    for b := 0 to numBatches
      invariant if size >= FIRST_LOST then out == [] else if b < numBatches then EncSoFar(file, k, out, b * BATCH)
                                                          else EncDone(file, k, out)
    {
      var numThreads := ENC_MAX_THREADS;
      if b == numBatches - 1 {
        var batchLen := size - b * BATCH;
        numThreads := batchLen / ENC_THREAD_MAX_MEM + 1;
      }
      for t := 0 to numThreads
        invariant t <= ENC_MAX_THREADS
        invariant if b == numBatches - 1 && t == numThreads then EncDone(file, k, out)
                  else EncSoFar(file, k, out, From(b, t))
      {
        if t == ENC_MAX_THREADS {
          return Overrun;
        }
        PlanStep(size, b, t, numBatches, numThreads);
        var last := b == numBatches - 1 && t == numThreads - 1;
        var readlen := if last then size - b * BATCH - t * ENC_THREAD_MAX_MEM else ENC_THREAD_MAX_MEM;
        EncFits(file, k, out, From(b, t));
        var piece := EncPiece(file, k, From(b, t), readlen, last);
        if !piece.Written? {
          return Failed;
        }
        if last {
          EncSoFarLast(file, k, out, From(b, t), piece.bytes);
        } else {
          EncSoFarNext(file, k, out, From(b, t), piece.bytes);
        }
        out := out + piece.bytes;
      }
    }
    if size < FIRST_LOST {
      EncEnds(file, k, out);
      if size != BATCH {
        EncryptedIs(file, key);
      }
    }
    r := Written(out);
  }

  lemma EncEnds(c: seq<byte>, k: Keys, out: seq<byte>)
    requires EncDone(c, k, out)
    ensures Usable(k) && Whole(Padded(c)) && out == Encipher(k, Padded(c)) && |c| % ENC_THREAD_MAX_MEM != 0
  {
  }

  lemma EncNothing(c: seq<byte>, k: Keys)
    requires Usable(k)
    ensures EncSoFar(c, k, [], 0)
  {
  }

  lemma EncFits(c: seq<byte>, k: Keys, out: seq<byte>, at: nat)
    requires EncSoFar(c, k, out, at)
    ensures Usable(k) && at % 16 == 0 && at <= |c|
  {
  }

  // One worker of dec_file, and what is written of its work.
  method DecPiece(file: seq<byte>, k: Keys, from: nat, readlen: nat, padded: bool) returns (r: Outcome)
    requires Usable(k) && from + readlen <= |file| < 0x100_0000_0000_0000
    requires !padded ==> readlen == ENC_THREAD_MAX_MEM
    ensures !padded ==> Whole(file[from..from + readlen]) && r == Written(Decipher(k, file[from..from + readlen]))
    ensures padded ==> TrimmedTo(file[from..from + readlen], k, r)
  {
    hide Decipher, Usable, Deciphered, Whole, TrimmedTo;
    var t := new EncThread(from, readlen, readlen, padded);
    DecryptChunkOfFile(t, file, k);
    ghost var s := file[from..from + readlen];
    ghost var stranded := readlen % 16;
    assert file[from..from + (readlen - stranded)] == s[..WholeLen(s)];
    if t.returnVal != 0 {
      return Failed;
    }
    r := WriteOut(t.outbuf[..], t.outbufLen);
    PieceTrimmed(s, k, t.outbuf[..], t.outbufLen, r, padded);
  }

  // What is written of the last piece s: its blocks deciphered, less what the last byte says to leave out.
  // A last byte that asks for more than there is sends fwrite past the buffer.
  ghost predicate TrimmedTo(s: seq<byte>, k: Keys, r: Outcome)
    requires Usable(k)
  {
    if s == [] then r == Failed
    else if |s| % 16 != 0 then StrandedTo(s, k, r)
    else WholeTo(s, k, |s|, r)
  }

  // Bytes after the last whole block are neither deciphered nor left out.
  ghost predicate StrandedTo(s: seq<byte>, k: Keys, r: Outcome)
    requires Usable(k)
  {
    WholePart(s);
    r.Written? && |r.bytes| == |s| && r.bytes[..WholeLen(s)] == Decipher(k, s[..WholeLen(s)])
  }

  ghost predicate WholeTo(s: seq<byte>, k: Keys, lastLen: nat, r: Outcome)
    requires Usable(k) && |s| % 16 == 0 && 0 < lastLen <= |s|
  {
    WholePart(s);
    r == Trim(Decipher(k, s), lastLen)
  }

  function WholeLen(s: seq<byte>): (n: nat)
    ensures n <= |s|
  {
    |s| - |s| % 16
  }

  // p less the bytes that its last byte counts; they must lie within the last piece.
  function Trim(p: seq<byte>, lastLen: nat): Outcome
    requires 0 < lastLen <= |p|
  {
    var n: nat := p[|p| - 1];
    if n > lastLen then Overrun else if n == lastLen then Failed else Written(p[..|p| - n])
  }

  lemma WholePart(s: seq<byte>)
    ensures Whole(s[..WholeLen(s)])
    ensures |s| % 16 == 0 ==> Whole(s) && WholeLen(s) == |s|
  {
  }

  lemma PieceTrimmed(s: seq<byte>, k: Keys, buf: seq<byte>, len: nat, r: Outcome, padded: bool)
    requires Usable(k) && |buf| == |s| < 0x100_0000_0000_0000 && Deciphered(k, buf, s[..WholeLen(s)])
    requires len == if padded && |s| % 16 == 0 && |s| > 0 then Trimmed(|s|, buf[|s| - 1]) else |s|
    requires r == if len == 0 then Failed else if len > |buf| then Overrun else Written(buf[..len])
    ensures padded ==> TrimmedTo(s, k, r)
    ensures !padded && |s| == ENC_THREAD_MAX_MEM ==> Whole(s) && r == Written(Decipher(k, s))
  {
    hide Decipher, Usable, Whole, Trimmed, Trim, WholeLen;
    WholePart(s);
    if |s| % 16 == 0 {
      assert s[..|s|] == s && buf[..|s|] == buf;
      if |s| > 0 && padded {
        TrimIs(buf, len);
      }
    }
  }

  lemma TrimIs(p: seq<byte>, len: nat)
    requires 0 < |p| < 0x100_0000_0000_0000 && len == Trimmed(|p|, p[|p| - 1])
    ensures Trim(p, |p|) == if len == 0 then Failed else if len > |p| then Overrun else Written(p[..len])
  {
  }

  // What dec_file leaves for any file and key.
  ghost predicate DecryptedTo(f: seq<byte>, key: Key, r: Outcome) {
    if |f| >= FIRST_LOST then r == Written([])
    else if |f| == BATCH then r == Overrun
    else if |f| % ENC_THREAD_MAX_MEM == 0 then r == Failed
    else
      UsableKeys(key);
      LastLen(|f|);
      if |f| % 16 != 0 then StrandedTo(f, KeysOf(key), r)
      else WholeTo(f, KeysOf(key), |f| % ENC_THREAD_MAX_MEM, r)
  }

  lemma LastLen(size: nat)
    ensures size % ENC_THREAD_MAX_MEM <= size
  {
  }

  ghost predicate DecSoFar(c: seq<byte>, k: Keys, out: seq<byte>, at: nat) {
    Usable(k) && at % 16 == 0 && at <= |c| && Whole(c[..at]) && out == Decipher(k, c[..at])
  }

  lemma DecSoFarNext(c: seq<byte>, k: Keys, out: seq<byte>, at: nat, piece: seq<byte>)
    requires DecSoFar(c, k, out, at) && at + ENC_THREAD_MAX_MEM <= |c|
    requires Whole(c[at..at + ENC_THREAD_MAX_MEM]) && piece == Decipher(k, c[at..at + ENC_THREAD_MAX_MEM])
    ensures DecSoFar(c, k, out + piece, at + ENC_THREAD_MAX_MEM)
  {
    hide Decipher, Usable, Whole;
    DecipherNext(k, c, at, at + ENC_THREAD_MAX_MEM);
  }

  function Appended(out: seq<byte>, r: Outcome): Outcome {
    if r.Written? then Written(out + r.bytes) else r
  }

  lemma RestMod(n: nat, at: nat)
    requires at % 16 == 0 && at <= n
    ensures (n - at) % 16 == n % 16
  {
  }

  lemma DecSoFarLast(c: seq<byte>, key: Key, out: seq<byte>, at: nat, r: Outcome)
    requires DecSoFar(c, KeysOf(key), out, at) && |c| != BATCH && |c| < FIRST_LOST
      && |c| - at == |c| % ENC_THREAD_MAX_MEM
    requires TrimmedTo(c[at..], KeysOf(key), r)
    ensures DecryptedTo(c, key, Appended(out, r))
  {
    hide Decipher, Usable, Whole, KeysOf;
    var k := KeysOf(key);
    var s := c[at..];
    if s != [] {
      RestMod(|c|, at);
      var n := WholeLen(c);
      WholePart(c);
      WholePart(s);
      assert c[at..n] == s[..WholeLen(s)];
      DecipherNext(k, c, at, n);
      if |s| % 16 == 0 {
        assert c[..n] == c && c[at..n] == s;
      }
    }
  }

  // What is left of the plain bytes p: their last byte says how many go, and they must all be in the last piece.
  ghost predicate Unpadded(p: seq<byte>, lastLen: nat, r: Outcome) {
    && p != []
    && var n: nat := p[|p| - 1];
    && (n < lastLen ==> n <= |p| && r == Written(p[..|p| - n]))
    && (n == lastLen ==> r == Failed)
    && (n > lastLen ==> r == Overrun)
  }

  // They need not come from enc_file.
  lemma DecryptedIs(f: seq<byte>, key: Key, r: Outcome, p: seq<byte>)
    requires DecryptedTo(f, key, r) && Enciphers(p, key, f)
    requires |f| < FIRST_LOST && |f| != BATCH && |f| % ENC_THREAD_MAX_MEM != 0 && |f| % 16 == 0
    ensures Unpadded(p, |f| % ENC_THREAD_MAX_MEM, r)
  {
    hide Enciphers, Encipher, Decipher, Usable, KeysOf;
    EnciphersLength(p, key, f);
    EnciphersOnly(p, key, f);
    CipherBack(KeysOf(key), p);
  }

  // Where dec_file can succeed and no byte is stranded, it takes the padding off the bytes that encipher to f.
  ghost predicate DecryptedRight(f: seq<byte>, key: Key, r: Outcome) {
    |f| < FIRST_LOST && |f| != BATCH && |f| % ENC_THREAD_MAX_MEM != 0 && |f| % 16 == 0 ==>
      forall p: seq<byte> :: Enciphers(p, key, f) ==> Unpadded(p, |f| % ENC_THREAD_MAX_MEM, r)
  }

  lemma DecryptedAll(f: seq<byte>, key: Key, r: Outcome)
    requires DecryptedTo(f, key, r)
    ensures DecryptedRight(f, key, r)
  {
    hide Enciphers, Unpadded, DecryptedTo;
    if |f| < FIRST_LOST && |f| != BATCH && |f| % ENC_THREAD_MAX_MEM != 0 && |f| % 16 == 0 {
      forall p: seq<byte> | Enciphers(p, key, f)
        ensures Unpadded(p, |f| % ENC_THREAD_MAX_MEM, r)
      {
        DecryptedIs(f, key, r, p);
      }
    }
  }

  lemma EnciphersLength(p: seq<byte>, key: Key, out: seq<byte>)
    requires Enciphers(p, key, out)
    ensures |p| == |out|
  {
  }

  method DecFile(file: seq<byte>, key: Key) returns (r: Outcome)
    requires |file| < MAX_SIZE
    ensures DecryptedTo(file, key, r) && DecryptedRight(file, key, r)
  {
    hide DecryptedRight, DecSoFar, Usable, Decipher, Whole, KeysOf, TrimmedTo, DecryptedTo;
    var size := |file|;
    var numBatches := 1;
    if size > BATCH {
      numBatches := W32(size / BATCH + 1);
    }
    BatchCount(size, numBatches);
    var k := InitKeys(key);
    var out := [];
    DecNothing(file, k);
    for b := 0 to numBatches
      invariant if size >= FIRST_LOST then out == [] else if b < numBatches then DecSoFar(file, k, out, b * BATCH)
                                                          else DecryptedTo(file, key, Written(out))
    {
      var numThreads := ENC_MAX_THREADS;
      if b == numBatches - 1 {
        var batchLen := size - b * BATCH;
        numThreads := batchLen / ENC_THREAD_MAX_MEM + 1;
      }
      for t := 0 to numThreads
        invariant t <= ENC_MAX_THREADS
        invariant if b == numBatches - 1 && t == numThreads then DecryptedTo(file, key, Written(out))
                  else DecSoFar(file, k, out, From(b, t))
      {
        if t == ENC_MAX_THREADS {
          DecOverrun(file, key);
          DecryptedAll(file, key, Overrun);
          return Overrun;
        }
        PlanStep(size, b, t, numBatches, numThreads);
        var last := b == numBatches - 1 && t == numThreads - 1;
        var readlen := if last then size - b * BATCH - t * ENC_THREAD_MAX_MEM else ENC_THREAD_MAX_MEM;
        DecFits(file, k, out, From(b, t));
        var piece := DecPiece(file, k, From(b, t), readlen, last);
        if last {
          assert file[From(b, t)..From(b, t) + readlen] == file[From(b, t)..];
          DecSoFarLast(file, key, out, From(b, t), piece);
        } else {
          DecSoFarNext(file, k, out, From(b, t), piece.bytes);
        }
        if !piece.Written? {
          DecryptedAll(file, key, piece);
          return piece;
        }
        out := out + piece.bytes;
      }
    }
    if size >= FIRST_LOST {
      DecLost(file, key);
    }
    r := Written(out);
    DecryptedAll(file, key, r);
  }

  lemma DecLost(f: seq<byte>, key: Key)
    requires |f| >= FIRST_LOST
    ensures DecryptedTo(f, key, Written([]))
  {
  }

  lemma DecOverrun(f: seq<byte>, key: Key)
    requires |f| == BATCH
    ensures DecryptedTo(f, key, Overrun)
  {
  }

  lemma DecNothing(c: seq<byte>, k: Keys)
    requires Usable(k)
    ensures DecSoFar(c, k, [], 0)
  {
  }

  lemma DecFits(c: seq<byte>, k: Keys, out: seq<byte>, at: nat)
    requires DecSoFar(c, k, out, at)
    ensures Usable(k) && at % 16 == 0 && at <= |c|
  {
  }

  // dec_file gives back what enc_file was given exactly when neither the content nor its padded cipher
  // is a whole number of four mebibytes: then, and only then, both last chunks have something in them.
  // Where the number of batches wraps to 0, an empty file is written instead.
  lemma RoundTrip(c: seq<byte>, key: Key, r: Outcome)
    requires Encrypted(c, key).Written? ==> DecryptedTo(Encrypted(c, key).bytes, key, r)
    ensures Encrypted(c, key).Written? && r == Written(c) <==>
              |c| < FIRST_LOST && |c| % ENC_THREAD_MAX_MEM != 0 && |Padded(c)| % ENC_THREAD_MAX_MEM != 0
  {
    hide Decipher, Encipher, KeysOf, Usable;
    PaddedSize(c);
    if |c| < FIRST_LOST && |c| % ENC_THREAD_MAX_MEM != 0 {
      UsableKeys(key);
      var k := KeysOf(key);
      PaddedWhole(c);
      CipherBack(k, Padded(c));
    }
  }

  // Padding stays below the first lost size, or makes whole four mebibytes.
  lemma PaddedSize(c: seq<byte>)
    ensures |Padded(c)| >= |c|
    ensures |c| < FIRST_LOST ==> |Padded(c)| < FIRST_LOST || |Padded(c)| % ENC_THREAD_MAX_MEM == 0
  {
  }

  // Five bytes short of four mebibytes: enc_file writes a file that no call of dec_file takes back.
  lemma RoundTripFails(c: seq<byte>, key: Key, r: Outcome)
    requires |c| == ENC_THREAD_MAX_MEM - 5
    requires Encrypted(c, key).Written? ==> DecryptedTo(Encrypted(c, key).bytes, key, r)
    ensures Encrypted(c, key).Written? && r == Failed
  {
    hide Encipher, KeysOf, Usable, StrandedTo, WholeTo, Padding;
    UsableKeys(key);
    PaddedWhole(c);
    FiveMore(c);
  }

  lemma FiveMore(c: seq<byte>)
    requires |c| == ENC_THREAD_MAX_MEM - 5
    ensures |Padded(c)| == ENC_THREAD_MAX_MEM
  {
    assert |c| % 16 == 11;
  }
}
