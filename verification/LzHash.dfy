// The hashes of LzFind.c: a hit in the two- or three-byte table, with the first byte equal,
// determines the next one or two bytes.
module LzHash {
  import opened Words
  import opened Masks

  const HASH2_SIZE: nat := 0x400
  const HASH3_SIZE: nat := 0x1_0000
  const FIX3: nat := 0x400                 // kFix3HashSize
  const FIX4: nat := 0x1_0400              // kFix4HashSize

  lemma HashMasks()
    ensures Pow2(8) == 0x100 && Pow2(10) == 0x400 && Pow2(16) == 0x1_0000
  {
    assert Pow2(8) == 0x100;
    assert Pow2(12) == 0x1000;
  }

  // crc[cur[0]] ^ cur[1]
  function Temp2(crc: seq<nat>, b0: byte, b1: byte): nat
    requires |crc| == 256
  {
    Xor(crc[b0], b1)
  }

  function Temp3(crc: seq<nat>, b0: byte, b1: byte, b2: byte): nat
    requires |crc| == 256
  {
    Xor(Temp2(crc, b0, b1), b2 * 0x100)
  }

  // h2, h3 and hv of HASH4_CALC
  function H2(crc: seq<nat>, b0: byte, b1: byte): nat
    requires |crc| == 256
  {
    And(Temp2(crc, b0, b1), HASH2_SIZE - 1)
  }

  function H3(crc: seq<nat>, b0: byte, b1: byte, b2: byte): nat
    requires |crc| == 256
  {
    And(Temp3(crc, b0, b1, b2), HASH3_SIZE - 1)
  }

  function H4(crc: seq<nat>, b0: byte, b1: byte, b2: byte, b3: byte, hashMask: nat): nat
    requires |crc| == 256
  {
    And(Xor(Temp3(crc, b0, b1, b2), W32(crc[b3] * 32)), hashMask)
  }

  // The bucket of the four bytes at pos.
  function HeadIx(crc: seq<nat>, t: seq<byte>, pos: nat, hashMask: nat): nat
    requires |crc| == 256 && pos + 4 <= |t|
  {
    H4(crc, t[pos], t[pos + 1], t[pos + 2], t[pos + 3], hashMask)
  }

  lemma {:induction false} AndAtMost(x: nat, y: nat)
    ensures And(x, y) <= y
    decreases x
  {
    if x != 0 && y != 0 {
      AndAtMost(x / 2, y / 2);
    }
  }

  // Xor with x can be undone on the low k bits.
  lemma {:induction false} XorCancel(x: nat, a: nat, b: nat, k: nat)
    requires Xor(x, a) % Pow2(k) == Xor(x, b) % Pow2(k)
    ensures a % Pow2(k) == b % Pow2(k)
    decreases k
  {
    hide Xor, Pow2;
    if k == 0 {
      Pow2Zero();
    } else {
      XorHalf(x, a);
      XorHalf(x, b);
      Pow2Twice(k);
      var p := Pow2(k - 1);
      ModDouble(Xor(x, a), p);
      ModDouble(Xor(x, b), p);
      ModDouble(a, p);
      ModDouble(b, p);
      XorCancel(x / 2, a / 2, b / 2, k - 1);
    }
  }

  lemma XorHalf(x: nat, a: nat)
    ensures Xor(x, a) / 2 == Xor(x / 2, a / 2)
    ensures Xor(x, a) % 2 == if x % 2 != a % 2 then 1 else 0
  {
  }

  // The low k bits of an exclusive or come from the low k bits.
  lemma {:induction false} XorLow(x: nat, a: nat, k: nat)
    requires a % Pow2(k) == 0
    ensures Xor(x, a) % Pow2(k) == x % Pow2(k)
    decreases k
  {
    hide Xor, Pow2;
    if k == 0 {
      Pow2Zero();
    } else {
      XorHalf(x, a);
      Pow2Twice(k);
      var p := Pow2(k - 1);
      ModDouble(Xor(x, a), p);
      ModDouble(x, p);
      ModDouble(a, p);
      XorLow(x / 2, a / 2, k - 1);
    }
  }

  // A two-byte hash hit and an equal first byte make the second byte equal.
  lemma H2Determines(crc: seq<nat>, b0: byte, b1: byte, c1: byte)
    requires |crc| == 256 && H2(crc, b0, b1) == H2(crc, b0, c1)
    ensures b1 == c1
  {
    hide Xor, And, Pow2;
    HashMasks();
    AndLow(Temp2(crc, b0, b1), 10);
    AndLow(Temp2(crc, b0, c1), 10);
    XorCancel(crc[b0], b1, c1, 10);
  }

  // A three-byte hash hit and an equal first byte make the next two bytes equal.
  lemma H3Determines(crc: seq<nat>, b0: byte, b1: byte, b2: byte, c1: byte, c2: byte)
    requires |crc| == 256 && H3(crc, b0, b1, b2) == H3(crc, b0, c1, c2)
    ensures b1 == c1 && b2 == c2
  {
    hide Xor, And, Pow2;
    HashMasks();
    var x, y := Temp3(crc, b0, b1, b2), Temp3(crc, b0, c1, c2);
    AndLow(x, 16);
    AndLow(y, 16);
    ModMod(x, 0x100, 0x100);
    ModMod(y, 0x100, 0x100);
    XorLow(Temp2(crc, b0, b1), b2 * 0x100, 8);
    XorLow(Temp2(crc, b0, c1), c2 * 0x100, 8);
    XorCancel(crc[b0], b1, c1, 8);
    XorCancel(Temp2(crc, b0, b1), b2 * 0x100, c2 * 0x100, 16);
  }

  // ---------- bit by bit ----------

  // Bit k of the sum of the two bytes and the third, eight places up.
  function Sum3(crc: seq<nat>, b0: byte, b1: byte, b2: byte, k: nat): nat
    requires |crc| == 256
  {
    Bit(crc[b0], k) + Bit(b1, k) + if k < 8 then 0 else Bit(b2, k - 8)
  }

  // Addition without carries of the first byte's table entry, the second byte, the third one eight places up and
  // the last one's entry five places up in 32 bits: ten bits of the first two for the small table, sixteen of
  // three for the next, and what the mask leaves of all four for the large one.
  lemma HashBits(crc: seq<nat>, b0: byte, b1: byte, b2: byte, b3: byte, hashMask: nat, k: nat)
    requires |crc| == 256
    ensures Bit(H2(crc, b0, b1), k) == if k < 10 then (Bit(crc[b0], k) + Bit(b1, k)) % 2 else 0
    ensures Bit(H3(crc, b0, b1, b2), k) == if k < 16 then Sum3(crc, b0, b1, b2, k) % 2 else 0
    ensures Bit(H4(crc, b0, b1, b2, b3, hashMask), k) ==
            Bit(hashMask, k) *
            ((Sum3(crc, b0, b1, b2, k) + if 5 <= k < 32 then Bit(crc[b3], k - 5) else 0) % 2)
  {
    hide Xor, And, Pow2, Bit;
    HashMasks();
    var x, y, z := Temp2(crc, b0, b1), Temp3(crc, b0, b1, b2), W32(crc[b3] * 32);
    XorBit(crc[b0], b1, k);
    ShiftedBits(b2, 8, k);
    XorBit(x, b2 * 0x100, k);
    AndLow(x, 10);
    LowBitsOf(x, 10, k);
    AndLow(y, 16);
    LowBitsOf(y, 16, k);
    LastBits(crc[b3], k);
    XorBit(y, z, k);
    AndBits(Xor(y, z), hashMask, k);
  }

  lemma LastBits(c: nat, k: nat)
    ensures Bit(W32(c * 32), k) == if 5 <= k < 32 then Bit(c, k - 5) else 0
  {
    hide Pow2, Bit;
    AllOnes();
    FiveUp();
    ShiftedBits(c, 5, k);
    LowBitsOf(c * 32, 32, k);
  }

  lemma FiveUp()
    ensures Pow2(5) == 32
  {
  }
}
