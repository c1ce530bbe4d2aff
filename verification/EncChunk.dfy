// One worker of enc.c: it reads its part of the file and enciphers or deciphers it block by block.
module EncChunk {
  import opened Words
  import opened Aes
  import AesSbox

  // The tables and round keys that all workers share (enc_aes_vars).
  datatype Keys = Keys(rkeys: seq<Block>, sbox: Table, inv: Table)

  ghost predicate Usable(k: Keys) {
    |k.rkeys| == 11 && Undoes(k.inv, k.sbox)
  }

  function ToBits(x: byte): bv8 {
    x as bv8
  }

  function OfBits(v: bv8): byte {
    v as int
  }

  lemma BitsAndBack(x: byte)
    ensures OfBits(ToBits(x)) == x
  {
    var v := AesSbox.ByteOf(x);
    assert (v as int) as bv8 == v;
  }

  lemma BackAndBits(v: bv8)
    ensures ToBits(OfBits(v)) == v
  {
  }

  function Bits(s: seq<byte>): Block
    requires |s| == 16
  {
    seq(16, i requires 0 <= i < 16 => ToBits(s[i]))
  }

  function Nums(b: Block): (s: seq<byte>)
    ensures |s| == 16
  {
    seq(16, i requires 0 <= i < 16 => OfBits(b[i]))
  }

  lemma NumsBits(s: seq<byte>)
    requires |s| == 16
    ensures Nums(Bits(s)) == s
  {
    forall i | 0 <= i < 16
      ensures Nums(Bits(s))[i] == s[i]
    {
      BitsAndBack(s[i]);
    }
  }

  lemma BitsNums(b: Block)
    ensures Bits(Nums(b)) == b
  {
    forall i | 0 <= i < 16
      ensures Bits(Nums(b))[i] == b[i]
    {
      BackAndBits(b[i]);
    }
  }

  // Rows become columns.
  function Transposed(s: Block): Block {
    [s[0], s[4], s[8], s[12], s[1], s[5], s[9], s[13], s[2], s[6], s[10], s[14], s[3], s[7], s[11], s[15]]
  }

  lemma TransposedAt(s: Block, i: nat, j: nat)
    requires i < 4 && j < 4
    ensures At(Transposed(s), i, j) == At(s, j, i)
  {
  }

  // In done, the columns before i and the first j bytes of column i are those of t.
  ghost predicate ColumnsDone(done: Block, t: Block, i: nat, j: nat) {
    forall a: nat, b: nat :: a < 4 && b < 4 && (b < i || (b == i && a < j)) ==> At(done, a, b) == At(t, a, b)
  }

  lemma ColumnsStep(done: Block, t: Block, i: nat, j: nat, v: bv8)
    requires i < 4 && j < 4 && ColumnsDone(done, t, i, j) && v == At(t, j, i)
    ensures ColumnsDone(done[4 * j + i := v], t, i, j + 1)
  {
    var next: Block := done[4 * j + i := v];
    forall a: nat, b: nat | a < 4 && b < 4 && (b < i || (b == i && a < j + 1))
      ensures At(next, a, b) == At(t, a, b)
    {
      if b == i && a == j {
      } else {
        assert At(done, a, b) == At(t, a, b);
      }
    }
  }

  lemma ColumnsAll(done: Block, t: Block)
    requires ColumnsDone(done, t, 4, 0)
    ensures done == t
  {
    forall k | 0 <= k < 16
      ensures done[k] == t[k]
    {
      assert At(done, k / 4, k % 4) == At(t, k / 4, k % 4);
    }
  }

  lemma ColumnsNext(done: Block, t: Block, i: nat)
    requires ColumnsDone(done, t, i, 4)
    ensures ColumnsDone(done, t, i + 1, 0)
  {
  }

  method ToColumnOrder(text: array<bv8>)
    requires text.Length == 16
    modifies text
    ensures text[..] == Transposed(old(text[..]))
  {
    hide Transposed, ColumnsDone;
    var temp: Block := text[..];
    ghost var t := Transposed(temp);
    ColumnsNone(temp, t);
    for i := 0 to 4
      invariant ColumnsDone(text[..], t, i, 0)
    {
      for j := 0 to 4
        invariant ColumnsDone(text[..], t, i, j)
      {
        TransposedAt(temp, j, i);
        ColumnsStep(text[..], t, i, j, temp[4 * i + j]);
        text[4 * j + i] := temp[4 * i + j];
      }
      ColumnsNext(text[..], t, i);
    }
    ColumnsAll(text[..], t);
  }

  lemma ColumnsNone(done: Block, t: Block)
    ensures ColumnsDone(done, t, 0, 0)
  {
  }

  method ToRowOrder(text: array<bv8>)
    requires text.Length == 16
    modifies text
    ensures text[..] == Transposed(old(text[..]))
  {
    hide Transposed;
    var temp: Block := text[..];
    ghost var t := Transposed(temp);
    for i := 0 to 4
      invariant text[..4 * i] == t[..4 * i]
    {
      for j := 0 to 4
        invariant text[..4 * i + j] == t[..4 * i + j]
      {
        TransposedAt(temp, i, j);
        text[4 * i + j] := temp[4 * j + i];
      }
    }
  }

  ghost function EncipherBlock(k: Keys, s: seq<byte>): (r: seq<byte>)
    requires Usable(k) && |s| == 16
    ensures |r| == 16
  {
    Nums(EncryptBlock(Transposed(Bits(s)), k.rkeys, k.sbox))
  }

  ghost function DecipherBlock(k: Keys, s: seq<byte>): (r: seq<byte>)
    requires Usable(k) && |s| == 16
    ensures |r| == 16
  {
    Nums(Transposed(DecryptBlock(Bits(s), k.rkeys, k.inv)))
  }

  lemma TransposedTwice(b: Block)
    ensures Transposed(Transposed(b)) == b
  {
  }

  lemma BlockBack(k: Keys, s: seq<byte>)
    requires Usable(k) && |s| == 16
    ensures DecipherBlock(k, EncipherBlock(k, s)) == s
  {
    hide EncryptBlock, DecryptBlock, Transposed, Bits, Nums, Undoes;
    var t := Transposed(Bits(s));
    BitsNums(EncryptBlock(t, k.rkeys, k.sbox));
    DecryptEncrypt(t, k.rkeys, k.sbox, k.inv);
    TransposedTwice(Bits(s));
    NumsBits(s);
  }

  // A whole number of blocks.
  predicate Whole(s: seq<byte>) {
    |s| % 16 == 0
  }

  lemma WholeSum(s: seq<byte>, t: seq<byte>)
    requires Whole(s) && (Whole(t) || |t| == 16)
    ensures Whole(s + t)
  {
  }

  lemma WholeBlock(s: seq<byte>)
    ensures |s| == 16 ==> Whole(s)
    ensures Whole(s) && s != [] ==> |s| >= 16 && Whole(s[16..])
  {
  }

  // A whole number of blocks, each enciphered on its own.
  ghost function Encipher(k: Keys, s: seq<byte>): (r: seq<byte>)
    requires Usable(k) && Whole(s)
    ensures |r| == |s|
  {
    if s == [] then [] else EncipherBlock(k, s[..16]) + Encipher(k, s[16..])
  }

  ghost function Decipher(k: Keys, s: seq<byte>): (r: seq<byte>)
    requires Usable(k) && Whole(s)
    ensures |r| == |s|
  {
    if s == [] then [] else DecipherBlock(k, s[..16]) + Decipher(k, s[16..])
  }

  lemma {:induction false} EncipherConcat(k: Keys, s: seq<byte>, t: seq<byte>)
    requires Usable(k) && Whole(s) && Whole(t)
    ensures Encipher(k, s + t) == Encipher(k, s) + Encipher(k, t)
  {
    hide EncipherBlock, Usable, Whole;
    WholeSum(s, t);
    WholeBlock(s);
    if s == [] {
      assert s + t == t;
    } else {
      WholeSum(s[16..], t);
      EncipherConcat(k, s[16..], t);
      assert (s + t)[..16] == s[..16] && (s + t)[16..] == s[16..] + t;
    }
  }

  lemma {:induction false} DecipherConcat(k: Keys, s: seq<byte>, t: seq<byte>)
    requires Usable(k) && Whole(s) && Whole(t)
    ensures Decipher(k, s + t) == Decipher(k, s) + Decipher(k, t)
  {
    hide DecipherBlock, Usable, Whole;
    WholeSum(s, t);
    WholeBlock(s);
    if s == [] {
      assert s + t == t;
    } else {
      WholeSum(s[16..], t);
      DecipherConcat(k, s[16..], t);
      assert (s + t)[..16] == s[..16] && (s + t)[16..] == s[16..] + t;
    }
  }

  lemma {:induction false} CipherBack(k: Keys, s: seq<byte>)
    requires Usable(k) && Whole(s)
    ensures Decipher(k, Encipher(k, s)) == s
  {
    hide EncipherBlock, DecipherBlock, Usable;
    if s != [] {
      BlockBack(k, s[..16]);
      CipherBack(k, s[16..]);
      var first, rest := EncipherBlock(k, s[..16]), Encipher(k, s[16..]);
      assert (first + rest)[..16] == first && (first + rest)[16..] == rest;
    }
  }

  // Block b of the cipher is block b enciphered.
  lemma {:induction false} EncipherAt(k: Keys, s: seq<byte>, b: nat)
    requires Usable(k) && Whole(s) && 16 * b + 16 <= |s|
    ensures Encipher(k, s)[16 * b..16 * b + 16] == EncipherBlock(k, s[16 * b..16 * b + 16])
    decreases b
  {
    hide EncipherBlock, Usable;
    var first, rest := EncipherBlock(k, s[..16]), Encipher(k, s[16..]);
    if b == 0 {
      assert (first + rest)[..16] == first;
    } else {
      EncipherAt(k, s[16..], b - 1);
      assert (first + rest)[16 * b..16 * b + 16] == rest[16 * (b - 1)..16 * (b - 1) + 16];
      assert s[16..][16 * (b - 1)..16 * (b - 1) + 16] == s[16 * b..16 * b + 16];
    }
  }

  // The bytes of s go down the columns of the text; those of the cipher come from its rows.
  ghost predicate BlockCiphered(s: seq<byte>, r: seq<byte>, rkeys: seq<Block>, box: Table)
    requires |s| == |r| == 16
  {
    exists text: Block, cipher: Block ::
      && (forall i: nat, j: nat :: i < 4 && j < 4 ==> At(text, i, j) == ToBits(s[i + 4 * j]))
      && EncryptsTo(text, cipher, rkeys, box)
      && (forall i: nat :: i < 16 ==> r[i] == OfBits(cipher[i]))
  }

  lemma BlockIsCiphered(k: Keys, s: seq<byte>)
    requires Usable(k) && |s| == 16
    ensures BlockCiphered(s, EncipherBlock(k, s), k.rkeys, k.sbox)
  {
    hide Undoes, EncryptBlock, EncryptsTo, ToBits, OfBits;
    var text := Transposed(Bits(s));
    var cipher := EncryptBlock(text, k.rkeys, k.sbox);
    EncryptStages(text, k.rkeys, k.sbox);
    forall i: nat, j: nat | i < 4 && j < 4
      ensures At(text, i, j) == ToBits(s[i + 4 * j])
    {
      TransposedAt(Bits(s), i, j);
    }
  }

  lemma BlockCipheredOnly(k: Keys, s: seq<byte>, r: seq<byte>)
    requires Usable(k) && |s| == |r| == 16 && BlockCiphered(s, r, k.rkeys, k.sbox)
    ensures r == EncipherBlock(k, s)
  {
    hide Undoes, EncryptBlock, EncryptsTo, ToBits, OfBits, Transposed;
    var text: Block, cipher: Block :|
      && (forall i: nat, j: nat :: i < 4 && j < 4 ==> At(text, i, j) == ToBits(s[i + 4 * j]))
      && EncryptsTo(text, cipher, k.rkeys, k.sbox)
      && (forall i: nat :: i < 16 ==> r[i] == OfBits(cipher[i]));
    EncryptsOnly(text, cipher, k.rkeys, k.sbox);
    forall i: nat, j: nat | i < 4 && j < 4
      ensures At(text, i, j) == At(Transposed(Bits(s)), i, j)
    {
      TransposedAt(Bits(s), i, j);
    }
    SameText(text, Transposed(Bits(s)));
  }

  // Section 6.3 of RFC 5652: one to sixteen bytes, each saying how many there are.
  function Padding(n: nat): (s: seq<byte>)
    ensures 1 <= |s| <= 16 && (n + |s|) % 16 == 0
    ensures forall i :: 0 <= i < |s| ==> s[i] == |s|
  {
    seq(16 - n % 16, _ => 16 - n % 16)
  }

  function Padded(s: seq<byte>): (r: seq<byte>)
    ensures |r| % 16 == 0
  {
    s + Padding(|s|)
  }

  // The arguments and results of one worker (enc_thread_args); its reader starts at from.
  class EncThread {
    const from: nat
    const readlen: nat
    const inbuf: array<byte>
    const outbuf: array<byte>
    var outbufLen: nat
    var padded: bool
    var returnVal: int

    constructor (from: nat, readlen: nat, allocLen: nat, padded: bool)
      ensures this.from == from && this.readlen == readlen && this.padded == padded
      ensures fresh(inbuf) && fresh(outbuf) && inbuf != outbuf
      ensures inbuf.Length == readlen && outbuf.Length == allocLen && outbufLen == readlen
    {
      this.from, this.readlen, this.padded := from, readlen, padded;
      inbuf, outbuf := new byte[readlen], new byte[allocLen];
      outbufLen, returnVal := readlen, 0;
    }
  }

  // read_bytes from an already positioned reader.
  method ReadBytes(inbuf: array<byte>, file: seq<byte>, from: nat) returns (ok: bool)
    modifies inbuf
    ensures ok <==> from + inbuf.Length <= |file|
    ensures ok ==> inbuf[..] == file[from..from + inbuf.Length]
  {
    ok := from + inbuf.Length <= |file|;
    if ok {
      forall i | 0 <= i < inbuf.Length {
        inbuf[i] := file[from + i];
      }
    }
  }

  // memcpy of sixteen bytes into and out of text.
  method TakeBlock(text: array<bv8>, buf: array<byte>, i: nat)
    requires text.Length == 16 && i + 16 <= buf.Length && (text as object) != (buf as object)
    modifies text
    ensures text[..] == Bits(buf[i..i + 16])
  {
    hide ToBits;
    for j := 0 to 16
      invariant forall k :: 0 <= k < j ==> text[k] == ToBits(buf[i + k])
    {
      text[j] := ToBits(buf[i + j]);
    }
  }

  method PutBlock(text: array<bv8>, buf: array<byte>, i: nat)
    requires text.Length == 16 && i + 16 <= buf.Length && (text as object) != (buf as object)
    modifies buf
    ensures buf[..] == old(buf[..i]) + Nums(text[..]) + old(buf[i + 16..])
  {
    hide OfBits;
    ghost var was := buf[..];
    for j := 0 to 16
      invariant buf[..i] == was[..i] && buf[i + 16..] == was[i + 16..]
      invariant buf[i..i + j] == Nums(text[..])[..j]
    {
      buf[i + j] := OfBits(text[j]);
    }
    assert buf[..] == buf[..i] + buf[i..i + 16] + buf[i + 16..];
  }

  // The bytes an encrypting worker takes in: padded only when they do not fill their last block.
  function FilledUp(s: seq<byte>): (r: seq<byte>)
    ensures |r| % 16 == 0 && s <= r && |r| < |s| + 16
    ensures forall i :: |s| <= i < |r| ==> r[i] == |r| - |s|
  {
    if |s| % 16 == 0 then s else Padded(s)
  }

  // buf starts with the cipher of s.
  ghost predicate Ciphered(k: Keys, buf: seq<byte>, s: seq<byte>) {
    Usable(k) && Whole(s) && |s| <= |buf| && buf[..|s|] == Encipher(k, s)
  }

  ghost predicate Deciphered(k: Keys, buf: seq<byte>, s: seq<byte>) {
    Usable(k) && Whole(s) && |s| <= |buf| && buf[..|s|] == Decipher(k, s)
  }

  lemma {:induction false} EncipherOne(k: Keys, s: seq<byte>)
    requires Usable(k) && |s| == 16
    ensures Encipher(k, s) == EncipherBlock(k, s) && Decipher(k, s) == DecipherBlock(k, s)
  {
    hide EncipherBlock, DecipherBlock, Usable;
    assert s[..16] == s && s[16..] == [];
    assert Encipher(k, s[16..]) == [] && Decipher(k, s[16..]) == [];
  }

  lemma Spliced(n: nat, b: seq<byte>, was: seq<byte>, buf: seq<byte>)
    requires n + 16 <= |was| && |b| == 16 && buf == was[..n] + b + was[n + 16..]
    ensures |buf| == |was| && buf[..n + 16] == was[..n] + b
  {
  }

  lemma EncipherSnoc(k: Keys, s: seq<byte>, b: seq<byte>)
    requires Usable(k) && Whole(s) && |b| == 16
    ensures Whole(s + b) && Encipher(k, s + b) == Encipher(k, s) + EncipherBlock(k, b)
  {
    hide EncipherBlock, Usable, Encipher, Whole;
    WholeSum(s, b);
    WholeBlock(b);
    EncipherOne(k, b);
    EncipherConcat(k, s, b);
  }

  lemma CipheredNext(k: Keys, was: seq<byte>, buf: seq<byte>, s: seq<byte>, b: seq<byte>)
    requires Ciphered(k, was, s) && |b| == 16 && |s| + 16 <= |was|
    requires buf == was[..|s|] + EncipherBlock(k, b) + was[|s| + 16..]
    ensures Ciphered(k, buf, s + b)
  {
    hide EncipherBlock, Usable, Encipher, Whole;
    EncipherSnoc(k, s, b);
    Spliced(|s|, EncipherBlock(k, b), was, buf);
  }

  lemma DecipherSnoc(k: Keys, s: seq<byte>, b: seq<byte>)
    requires Usable(k) && Whole(s) && |b| == 16
    ensures Whole(s + b) && Decipher(k, s + b) == Decipher(k, s) + DecipherBlock(k, b)
  {
    hide DecipherBlock, Usable, Decipher, Whole;
    WholeSum(s, b);
    WholeBlock(b);
    EncipherOne(k, b);
    DecipherConcat(k, s, b);
  }

  lemma DecipheredNext(k: Keys, was: seq<byte>, buf: seq<byte>, s: seq<byte>, b: seq<byte>)
    requires Deciphered(k, was, s) && |b| == 16 && |s| + 16 <= |was|
    requires buf == was[..|s|] + DecipherBlock(k, b) + was[|s| + 16..]
    ensures Deciphered(k, buf, s + b)
  {
    hide DecipherBlock, Usable, Decipher, Whole;
    DecipherSnoc(k, s, b);
    Spliced(|s|, DecipherBlock(k, b), was, buf);
  }

  // One turn of the loop over whole blocks.
  method EncryptOne(text: array<bv8>, inbuf: array<byte>, outbuf: array<byte>, i: nat, k: Keys)
    requires text.Length == 16 && i + 16 <= inbuf.Length && i + 16 <= outbuf.Length && inbuf != outbuf && Usable(k)
    requires (text as object) != (inbuf as object) && (text as object) != (outbuf as object)
    modifies text, outbuf
    ensures outbuf[..] == old(outbuf[..i]) + EncipherBlock(k, inbuf[i..i + 16]) + old(outbuf[i + 16..])
  {
    hide Bits, Nums, Transposed, EncryptBlock, Undoes;
    TakeBlock(text, inbuf, i);
    ToColumnOrder(text);
    Encrypt(text, k.rkeys, k.sbox);
    PutBlock(text, outbuf, i);
  }

  method DecryptOne(text: array<bv8>, inbuf: array<byte>, outbuf: array<byte>, i: nat, k: Keys)
    requires text.Length == 16 && i + 16 <= inbuf.Length && i + 16 <= outbuf.Length && inbuf != outbuf && Usable(k)
    requires (text as object) != (inbuf as object) && (text as object) != (outbuf as object)
    modifies text, outbuf
    ensures outbuf[..] == old(outbuf[..i]) + DecipherBlock(k, inbuf[i..i + 16]) + old(outbuf[i + 16..])
  {
    hide Bits, Nums, Transposed, DecryptBlock, Undoes;
    TakeBlock(text, inbuf, i);
    Decrypt(text, k.rkeys, k.inv);
    ToRowOrder(text);
    PutBlock(text, outbuf, i);
  }

  // The padded last block.
  method EncryptLast(text: array<bv8>, inbuf: array<byte>, outbuf: array<byte>, i: nat, stranded: nat, k: Keys)
    requires text.Length == 16 && i + 16 <= outbuf.Length && inbuf != outbuf && Usable(k)
    requires i % 16 == 0 && i + stranded == inbuf.Length && 0 < stranded < 16
    requires (text as object) != (inbuf as object) && (text as object) != (outbuf as object)
    modifies text, outbuf
    ensures outbuf[..] == old(outbuf[..i])
      + EncipherBlock(k, inbuf[i..] + Padding(inbuf.Length)) + old(outbuf[i + 16..])
  {
    hide Bits, Nums, Transposed, EncryptBlock, Undoes, Padding;
    TakeLast(text, inbuf, i, stranded);
    ToColumnOrder(text);
    Encrypt(text, k.rkeys, k.sbox);
    PutBlock(text, outbuf, i);
  }

  // encrypt_chunk_of_file.
  method EncryptChunkOfFile(t: EncThread, file: seq<byte>, k: Keys)
    requires Usable(k) && t.inbuf != t.outbuf && t.inbuf.Length == t.readlen && t.outbufLen == t.readlen
    requires t.outbuf.Length == t.readlen + (if t.readlen % 16 != 0 then 16 - t.readlen % 16 else 0)
    modifies t, t.inbuf, t.outbuf
    ensures t.returnVal == if t.from + t.readlen <= |file| then 0 else -1
    ensures t.returnVal == 0 ==> t.outbuf[..] == Encipher(k, FilledUp(file[t.from..t.from + t.readlen]))
    ensures t.returnVal == 0 ==> t.outbufLen == t.outbuf.Length && (t.padded <==> t.readlen % 16 != 0)
  {
    hide Ciphered, Encipher, EncipherBlock, Usable, Padding;
    var inbuf, outbuf := t.inbuf, t.outbuf;
    var ok := ReadBytes(inbuf, file, t.from);
    if !ok {
      t.returnVal := -1;
      return;
    }
    ghost var s := inbuf[..];
    var stranded := t.readlen % 16;
    var text := new bv8[16];
    var i := 0;
    CipheredNone(k, outbuf[..]);
    while i < t.readlen - stranded
      invariant 0 <= i <= t.readlen - stranded && i % 16 == 0
      invariant t.outbufLen == t.readlen && inbuf[..] == s && Ciphered(k, outbuf[..], s[..i])
    {
      ghost var was := outbuf[..];
      EncryptOne(text, inbuf, outbuf, i, k);
      CipheredNext(k, was, outbuf[..], s[..i], s[i..i + 16]);
      assert s[..i] + s[i..i + 16] == s[..i + 16];
      i := i + 16;
    }
    if stranded != 0 {
      ghost var was := outbuf[..];
      EncryptLast(text, inbuf, outbuf, i, stranded, k);
      t.outbufLen := t.outbufLen + (16 - stranded);
      CipheredNext(k, was, outbuf[..], s[..i], s[i..] + Padding(|s|));
      assert s[..i] + (s[i..] + Padding(|s|)) == FilledUp(s);
      t.padded := true;
    } else {
      assert s[..i] == s == FilledUp(s);
      t.padded := false;
    }
    CipheredAll(k, outbuf[..], FilledUp(s));
    t.returnVal := 0;
  }

  lemma CipheredAll(k: Keys, buf: seq<byte>, s: seq<byte>)
    requires Ciphered(k, buf, s) && |buf| == |s|
    ensures buf == Encipher(k, s)
  {
  }

  // memcpy of the last bytes, and the padding after them.
  method TakeLast(text: array<bv8>, buf: array<byte>, i: nat, stranded: nat)
    requires text.Length == 16 && i % 16 == 0 && i + stranded == buf.Length && 0 < stranded < 16
    requires (text as object) != (buf as object)
    modifies text
    ensures |buf[i..] + Padding(buf.Length)| == 16 && text[..] == Bits(buf[i..] + Padding(buf.Length))
  {
    hide ToBits;
    for j := 0 to stranded
      invariant forall k :: 0 <= k < j ==> text[k] == ToBits(buf[i + k])
    {
      text[j] := ToBits(buf[i + j]);
    }
    var padnum: byte := 16 - stranded;
    for j := stranded to 16
      invariant forall k :: 0 <= k < stranded ==> text[k] == ToBits(buf[i + k])
      invariant forall k :: stranded <= k < j ==> text[k] == ToBits(padnum)
    {
      text[j] := ToBits(padnum);
    }
  }

  lemma CipheredNone(k: Keys, buf: seq<byte>)
    requires Usable(k)
    ensures Ciphered(k, buf, []) && Deciphered(k, buf, [])
  {
  }

  // ir_readlen - num_pad_bytes as a size_t.
  function Trimmed(readlen: nat, pad: byte): nat {
    (readlen - pad) % 0x1_0000_0000_0000_0000
  }

  // decrypt_chunk_of_file. Bytes that do not fill a block are read but never deciphered.
  method DecryptChunkOfFile(t: EncThread, file: seq<byte>, k: Keys)
    requires Usable(k) && t.inbuf != t.outbuf && t.inbuf.Length == t.outbuf.Length == t.readlen == t.outbufLen
    modifies t, t.inbuf, t.outbuf
    ensures t.returnVal == (if t.from + t.readlen <= |file| then 0 else -1) && t.padded == old(t.padded)
    ensures t.returnVal == 0 ==> Deciphered(k, t.outbuf[..], file[t.from..t.from + (t.readlen - t.readlen % 16)])
    ensures t.returnVal == 0 ==> t.outbufLen == (if t.padded && t.readlen % 16 == 0 && t.readlen > 0
                                   then Trimmed(t.readlen, t.outbuf[t.readlen - 1]) else t.readlen)
  {
    hide Deciphered, DecipherBlock, Usable, Trimmed;
    var inbuf, outbuf := t.inbuf, t.outbuf;
    var ok := ReadBytes(inbuf, file, t.from);
    if !ok {
      t.returnVal := -1;
      return;
    }
    ghost var s := inbuf[..];
    var stranded := t.readlen % 16;
    var text := new bv8[16];
    var i := 0;
    CipheredNone(k, outbuf[..]);
    while i < t.readlen - stranded
      invariant 0 <= i <= t.readlen - stranded && i % 16 == 0 && t.padded == old(t.padded)
      invariant inbuf[..] == s && Deciphered(k, outbuf[..], s[..i])
      invariant t.outbufLen == (if t.padded && i == t.readlen && i > 0
                                then Trimmed(t.readlen, outbuf[t.readlen - 1]) else t.readlen)
    {
      ghost var was := outbuf[..];
      DecryptOne(text, inbuf, outbuf, i, k);
      DecipheredNext(k, was, outbuf[..], s[..i], s[i..i + 16]);
      assert s[..i] + s[i..i + 16] == s[..i + 16];
      if t.padded && i + 16 == t.readlen {
        var numPadBytes := outbuf[t.readlen - 1];
        t.outbufLen := Trimmed(t.readlen, numPadBytes);
      }
      i := i + 16;
    }
    assert s[..i] == file[t.from..t.from + i];
    t.returnVal := 0;
  }
}
