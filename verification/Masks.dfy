// The C operator & on non-negative operands, and the masks the codec builds with it.
module Masks {
  import opened Words

  const ONES_32: nat := 0xFFFF_FFFF

  function And(x: nat, y: nat): nat {
    if x == 0 || y == 0 then 0 else (if x % 2 == 1 && y % 2 == 1 then 1 else 0) + 2 * And(x / 2, y / 2)
  }

  // The Int32 with the same 32 bits.
  function S32(x: int): int {
    if W32(x) >= 0x8000_0000 then W32(x) - TWO_32 else W32(x)
  }

  lemma {:induction false} AndComm(x: nat, y: nat)
    ensures And(x, y) == And(y, x)
  {
    if x != 0 && y != 0 {
      AndComm(x / 2, y / 2);
    }
  }

  // & with 2^k - 1 keeps the low k bits.
  lemma {:induction false} AndLow(x: nat, k: nat)
    ensures And(x, Pow2(k) - 1) == x % Pow2(k)
    decreases k
  {
    if k > 0 {
      AndLow(x / 2, k - 1);
      assert (Pow2(k) - 1) / 2 == Pow2(k - 1) - 1;
      assert (Pow2(k) - 1) % 2 == 1;
      ModDouble(x, Pow2(k - 1));
    }
  }

  lemma ModDouble(x: nat, p: nat)
    requires p > 0
    ensures x % (2 * p) == x % 2 + 2 * ((x / 2) % p)
  {
    var q, r := (x / 2) / p, (x / 2) % p;
    assert x == 2 * p * q + (x % 2 + 2 * r);
    ModUnique(x, 2 * p, q, x % 2 + 2 * r);
  }

  lemma AndShift(x: nat, m: nat)
    ensures And(x, 2 * m) == 2 * And(x / 2, m)
  {
  }

  // & with a run of ones from bit j up to bit k.
  lemma {:induction false} AndRun(x: nat, j: nat, k: nat)
    requires j <= k
    ensures Pow2(k) >= Pow2(j)
    ensures And(x, Pow2(k) - Pow2(j)) == ((x / Pow2(j)) % Pow2(k - j)) * Pow2(j)
    decreases j
  {
    hide And, Pow2;
    if j == 0 {
      Pow2Zero();
      AndLow(x, k);
    } else {
      AndRun(x / 2, j - 1, k - 1);
      AndShift(x, Pow2(k - 1) - Pow2(j - 1));
      DivDiv(x, Pow2(j - 1));
      Pow2Twice(k);
      Pow2Twice(j);
      assert k - 1 - (j - 1) == k - j;
      TwiceProduct((x / Pow2(j)) % Pow2(k - j), Pow2(j - 1));
    }
  }

  lemma Pow2Zero()
    ensures Pow2(0) == 1
  {
  }

  lemma Pow2Twice(k: nat)
    requires k > 0
    ensures Pow2(k) == 2 * Pow2(k - 1)
  {
  }

  lemma TwiceProduct(y: nat, p: nat)
    ensures 2 * (y * p) == y * (2 * p)
  {
  }

  lemma DivDiv(x: nat, p: nat)
    requires p > 0
    ensures (x / 2) / p == x / (2 * p)
  {
    var q, r := (x / 2) / p, (x / 2) % p;
    assert x == 2 * p * q + (x % 2 + 2 * r);
    ModUnique(x, 2 * p, q, x % 2 + 2 * r);
  }

  lemma AllOnes()
    ensures Pow2(32) - 1 == ONES_32
  {
    assert Pow2(8) == 256;
    assert Pow2(16) == 0x1_0000;
    assert Pow2(24) == 0x100_0000;
  }

  // & with a mask of 32 ones, on either side.
  lemma AndOnes(x: nat)
    requires x <= ONES_32
    ensures And(x, ONES_32) == x && And(ONES_32, x) == x
  {
    AllOnes();
    AndLow(x, 32);
    AndComm(x, ONES_32);
  }

  lemma AndZero(x: nat)
    ensures And(x, 0) == 0 && And(0, x) == 0
  {
  }

  // ---------- one bit at a time ----------

  function Bit(x: nat, k: nat): bit {
    (x / Pow2(k)) % 2
  }

  function Xor(x: nat, y: nat): nat {
    if x == 0 && y == 0 then 0 else (if x % 2 != y % 2 then 1 else 0) + 2 * Xor(x / 2, y / 2)
  }

  function Not32(x: int): nat {
    W32(-1 - x)
  }

  // & with a single bit, on either side.
  lemma AndBit(x: nat, k: nat)
    ensures And(x, Pow2(k)) == Bit(x, k) * Pow2(k) && And(Pow2(k), x) == Bit(x, k) * Pow2(k)
  {
    assert Pow2(k + 1) - Pow2(k) == Pow2(k);
    AndRun(x, k, k + 1);
    assert Pow2(1) == 2;
    AndComm(x, Pow2(k));
  }

  lemma {:induction false} XorBit(x: nat, y: nat, k: nat)
    ensures Bit(Xor(x, y), k) == if Bit(x, k) != Bit(y, k) then 1 else 0
    decreases k
  {
    if k > 0 {
      XorBit(x / 2, y / 2, k - 1);
      assert Xor(x, y) / 2 == Xor(x / 2, y / 2);
      DivDiv(x, Pow2(k - 1));
      DivDiv(y, Pow2(k - 1));
      DivDiv(Xor(x, y), Pow2(k - 1));
    }
  }

  lemma {:induction false} XorBound(x: nat, y: nat, k: nat)
    requires x < Pow2(k) && y < Pow2(k)
    ensures Xor(x, y) < Pow2(k)
    decreases k
  {
    if k > 0 && (x != 0 || y != 0) {
      XorBound(x / 2, y / 2, k - 1);
    }
  }

  // offs & ~(x ^ y) with offs 0x100: the bit survives where x and y agree.
  lemma AgreeBit(x: nat, y: nat)
    requires x < 0x10_0000 && y < 0x10_0000
    ensures And(0x100, Not32(Xor(x, y))) == if Bit(x, 8) == Bit(y, 8) then 0x100 else 0
  {
    hide And, Xor, Pow2;
    Pow2Of8And20();
    XorBound(x, y, 20);
    XorBit(x, y, 8);
    NotBit(Xor(x, y));
    AndBit(Not32(Xor(x, y)), 8);
  }

  lemma Pow2Of8And20()
    ensures Pow2(8) == 0x100 && Pow2(20) == 0x10_0000
  {
    assert Pow2(10) == 0x400;
  }

  lemma NotBit(z: nat)
    requires z < 0x10_0000
    ensures (Not32(z) / 0x100) % 2 == 1 - (z / 0x100) % 2
  {
    assert Not32(z) == TWO_32 - 1 - z;
  }

  lemma BitHalf(x: nat, k: nat)
    ensures Bit(x, k) == if k == 0 then x % 2 else Bit(x / 2, k - 1)
  {
    if k > 0 {
      DivDiv(x, Pow2(k - 1));
    }
  }

  lemma {:induction false} AndBits(x: nat, y: nat, k: nat)
    ensures Bit(And(x, y), k) == Bit(x, k) * Bit(y, k)
    decreases k
  {
    hide Bit;
    BitHalf(x, k);
    BitHalf(y, k);
    BitHalf(And(x, y), k);
    if k > 0 {
      AndBits(x / 2, y / 2, k - 1);
      assert And(x, y) / 2 == And(x / 2, y / 2);
    }
  }

  // A remainder modulo 2^n has the n low bits.
  lemma {:induction false} LowBitsOf(x: nat, n: nat, k: nat)
    ensures Bit(x % Pow2(n), k) == if k < n then Bit(x, k) else 0
    decreases n
  {
    hide Bit, Pow2;
    if n == 0 {
      Pow2Zero();
      ZeroBits(k);
    } else {
      Pow2Twice(n);
      ModDouble(x, Pow2(n - 1));
      BitHalf(x, k);
      BitHalf(x % Pow2(n), k);
      if k > 0 {
        LowBitsOf(x / 2, n - 1, k - 1);
      }
    }
  }

  lemma {:induction false} ZeroBits(k: nat)
    ensures Bit(0, k) == 0
  {
    hide Bit;
    BitHalf(0, k);
    if k > 0 {
      ZeroBits(k - 1);
    }
  }

  // 2^n times x has x's bits n places up.
  lemma {:induction false} ShiftedBits(x: nat, n: nat, k: nat)
    ensures Bit(x * Pow2(n), k) == if k < n then 0 else Bit(x, k - n)
    decreases n
  {
    hide Bit, Pow2;
    if n == 0 {
      Pow2Zero();
    } else {
      Pow2Twice(n);
      TwiceProduct(x, Pow2(n - 1));
      BitHalf(x * Pow2(n), k);
      if k > 0 {
        ShiftedBits(x, n - 1, k - 1);
      }
    }
  }
}
