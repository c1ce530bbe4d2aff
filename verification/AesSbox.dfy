// g_mul and initialize_aes_sbox of aes.c: powers of X + 1 run through every non-zero byte, so the
// loop ends after 255 rounds with the substitution table of section 5.1.1 of FIPS 197 and its inverse.
module AesSbox {
  import opened AesField

  method GMul(a0: bv8, b0: bv8) returns (p: bv8)
    ensures p == Mul(a0, b0)
  {
    hide Mul, Add, Twice;
    var a, b := a0, b0;
    p := 0;
    MulStep(a, b);
    AddZero(Mul(a, b), 0);
    var counter := 0;
    while counter < 8
      invariant 0 <= counter <= 8
      invariant b <= Low(8 - counter)
      invariant Add(p, Mul(a, b)) == Mul(a0, b0)
    {
      MulStep(a, b);
      TwiceIs(a);
      GMulStep(p, a, b, Mul(Twice(a), Half(b)));
      if b & 1 != 0 {
        p := p ^ a;
      }
      var hiBitSet := a & 0x80 != 0;
      a := a << 1;
      if hiBitSet {
        a := a ^ 0x1B;
      }
      LowHalf(b, 8 - counter);
      b := b >> 1;
      counter := counter + 1;
    }
    MulStep(a, 0);
    AddZero(p, 0);
  }

  lemma TwiceIs(a: bv8)
    ensures Twice(a) == if a & 0x80 != 0 then (a << 1) ^ 0x1B else a << 1
  {
  }

  // The greatest byte of k bits.
  function Low(k: nat): bv8 {
    match k
    case 0 => 0x00
    case 1 => 0x01
    case 2 => 0x03
    case 3 => 0x07
    case 4 => 0x0F
    case 5 => 0x1F
    case 6 => 0x3F
    case 7 => 0x7F
    case _ => 0xFF
  }

  lemma LowHalf(b: bv8, k: nat)
    requires 0 < k <= 8 && b <= Low(k)
    ensures b >> 1 <= Low(k - 1)
  {
  }

  lemma GMulStep(p: bv8, a: bv8, b: bv8, rest: bv8)
    ensures Add(p, Add(Odd(a, b), rest)) == Add(if b & 1 != 0 then p ^ a else p, rest)
  {
  }

  // p multiplied by X + 1.
  function Triple(p: bv8): bv8 {
    Add(p, Twice(p))
  }

  // q divided by X + 1, as the loop does it.
  function Third(q: bv8): bv8 {
    var q1 := q ^ (q << 1);
    var q2 := q1 ^ (q1 << 2);
    var q3 := q2 ^ (q2 << 4);
    q3 ^ (if q3 & 0x80 != 0 then 0x09 else 0)
  }

  lemma ThirdTriple(q: bv8)
    ensures Triple(Third(q)) == q && Third(Triple(q)) == q
    ensures Triple(q) == 0 <==> q == 0
  {
  }

  lemma MulTriple(p: bv8, q: bv8)
    ensures Mul(Triple(p), q) == Triple(Mul(p, q)) == Mul(p, Triple(q))
  {
    hide Mul, Twice, Add;
    MulAddLeft(p, Twice(p), q);
    MulTwice(p, q);
    MulAddRight(p, q, Twice(q));
    TwiceRight(p, q);
  }

  // p * q == 1 is kept by tripling p and taking a third of q.
  lemma PairKept(p: bv8, q: bv8)
    requires Mul(p, q) == 1
    ensures Mul(Triple(p), Third(q)) == 1
  {
    hide Mul, Triple, Third;
    MulTriple(p, Third(q));
    ThirdTriple(q);
  }

  function Power(k: nat): bv8 {
    if k == 0 then 1 else Triple(Power(k - 1))
  }

  lemma {:induction false} PowerSum(a: nat, b: nat)
    ensures Power(a + b) == Mul(Power(a), Power(b))
  {
    hide Mul, Triple;
    if a == 0 {
      MulUnits(Power(b));
    } else {
      PowerSum(a - 1, b);
      MulTriple(Power(a - 1), Power(b));
    }
  }

  lemma {:induction false} PowerNonZero(k: nat)
    ensures Power(k) != 0
  {
    hide Triple, Third;
    if k > 0 {
      PowerNonZero(k - 1);
      ThirdTriple(Power(k - 1));
    }
  }

  // A product of constants, all eight steps of it.
  lemma MulBits(a: bv8, b: bv8)
    ensures Mul(a, b) == Eight(a, b)
  {
    hide Twice, Half, Odd, Add;
    var a1, b1 := Twice(a), Half(b);
    var a2, b2 := Twice(a1), Half(b1);
    var a3, b3 := Twice(a2), Half(b2);
    var a4, b4 := Twice(a3), Half(b3);
    MulStep(a, b);
    MulStep(a1, b1);
    MulStep(a2, b2);
    MulStep(a3, b3);
    HalfGone(b);
    MulFour(a4, b4);
  }

  function Eight(a: bv8, b: bv8): bv8 {
    var a4, b4 := Twice(Twice(Twice(Twice(a)))), Half(Half(Half(Half(b))));
    Four(a, b, Four(a4, b4, 0))
  }

  function Four(a: bv8, b: bv8, rest: bv8): bv8 {
    var a1, b1 := Twice(a), Half(b);
    var a2, b2 := Twice(a1), Half(b1);
    var a3, b3 := Twice(a2), Half(b2);
    Add(Odd(a, b), Add(Odd(a1, b1), Add(Odd(a2, b2), Add(Odd(a3, b3), rest))))
  }

  lemma MulFour(a: bv8, b: bv8)
    requires b < 0x10
    ensures Mul(a, b) == Four(a, b, 0)
  {
    hide Twice, Odd, Add;
    var a1, b1 := Twice(a), Half(b);
    var a2, b2 := Twice(a1), Half(b1);
    var a3, b3 := Twice(a2), Half(b2);
    MulStep(a, b);
    MulStep(a1, b1);
    MulStep(a2, b2);
    MulStep(a3, b3);
    MulStep(Twice(a3), 0);
  }

  lemma HalfGone(b: bv8)
    ensures Half(Half(Half(Half(b)))) < 0x10
  {
  }

  lemma SomePowers()
    ensures Power(15) != 1 && Power(51) != 1 && Power(85) != 1 && Power(255) == 1
  {
    hide Mul;
    assert Power(5) == 0x33 by {
      assert Power(2) == 0x05;
      assert Power(4) == 0x11;
    }
    PowerSum(5, 5);
    MulBits(0x33, 0x33);
    PowerSum(10, 5);
    MulBits(0x72, 0x33);
    assert Power(16) == 0x5F;
    assert Power(17) == 0xE1;
    PowerSum(17, 17);
    MulBits(0xE1, 0xE1);
    PowerSum(34, 17);
    MulBits(0x5C, 0xE1);
    PowerSum(51, 34);
    MulBits(0x0C, 0x5C);
    PowerSum(85, 85);
    MulBits(0xBD, 0xBD);
    PowerSum(170, 85);
    MulBits(0xBC, 0xBD);
  }

  lemma {:induction false} PowerCycles(k: nat, m: nat, r: nat)
    requires Power(k) == 1
    ensures Power(m * k + r) == Power(r)
  {
    hide Mul;
    if m > 0 {
      PowerCycles(k, m - 1, r);
      assert m * k + r == k + ((m - 1) * k + r);
      PowerSum(k, (m - 1) * k + r);
      MulUnits(Power(r));
    }
  }

  lemma SmallFactor(m: nat, j: nat)
    requires m * j == 255 && m <= 15
    ensures m == 1 || m == 3 || m == 5 || m == 15
  {
    assert m == 0 ==> m * j == 0;
    assert m == 2 ==> 2 * j == 255;
    assert m == 4 ==> 4 * j == 255;
    assert m == 6 ==> 6 * j == 255;
    assert m == 7 ==> 7 * j == 255;
    assert m == 8 ==> 8 * j == 255;
    assert m == 9 ==> 9 * j == 255;
    assert m == 10 ==> 10 * j == 255;
    assert m == 11 ==> 11 * j == 255;
    assert m == 12 ==> 12 * j == 255;
    assert m == 13 ==> 13 * j == 255;
    assert m == 14 ==> 14 * j == 255;
  }

  lemma MulGrows(m: nat, j: nat, k: nat)
    requires m >= k && j >= k
    ensures m * j >= k * k
  {
    assert m * j >= k * j;
    assert k * j >= k * k;
  }

  lemma Divisors(j: nat)
    requires 0 < j < 255 && 255 % j == 0
    ensures 15 % j == 0 || 51 % j == 0 || 85 % j == 0
  {
    var m := 255 / j;
    assert m * j == 255;
    if j <= 15 {
      SmallFactor(j, m);
    } else {
      if m >= 16 {
        MulGrows(m, j, 16);
      }
      SmallFactor(m, j);
    }
  }

  lemma PowerMod(j: nat, n: nat)
    requires 0 < j && Power(j) == 1
    ensures Power(n % j) == Power(n)
  {
    hide Power;
    PowerCycles(j, n / j, n % j);
    assert (n / j) * j + n % j == n;
  }

  // The powers of X + 1 come back to one only after 255 steps.
  lemma {:induction false} OrderIs255(j: nat)
    requires 0 < j < 255
    ensures Power(j) != 1
    decreases j
  {
    hide Power;
    if Power(j) == 1 {
      PowerZero();
      SomePowers();
      PowerMod(j, 255);
      if 255 % j != 0 {
        OrderIs255(255 % j);
      } else {
        Divisors(j);
        PowerMod(j, 15);
        PowerMod(j, 51);
        PowerMod(j, 85);
      }
    }
  }

  lemma PowerZero()
    ensures Power(0) == 1
  {
  }

  lemma {:induction false} PowerDistinct(i: nat, j: nat)
    requires 0 <= i < j < i + 255
    ensures Power(i) != Power(j)
  {
    hide Triple, Third;
    if i == 0 {
      OrderIs255(j);
    } else {
      PowerDistinct(i - 1, j - 1);
      ThirdTriple(Power(i - 1));
      ThirdTriple(Power(j - 1));
    }
  }

  // The bytes the loop has been through after k rounds, as numbers.
  ghost function Visited(k: nat): set<int> {
    if k == 0 then {} else Visited(k - 1) + {Power(k) as int}
  }

  lemma {:induction false} VisitedPower(k: nat, x: int)
    requires x in Visited(k)
    ensures exists j: nat :: 1 <= j <= k && Power(j) as int == x
  {
    hide Power;
    if x in Visited(k - 1) {
      VisitedPower(k - 1, x);
    }
  }

  lemma SameByte(x: bv8, y: bv8)
    requires x as int == y as int
    ensures x == y
  {
    ByteOfInt(x);
    ByteOfInt(y);
  }

  lemma ByteOfInt(x: bv8)
    ensures 0 <= x as int < 256 && (x as int) as bv8 == x
    ensures (0 as bv8) as int == 0
  {
  }

  lemma {:induction false} VisitedSize(k: nat)
    requires k <= 255
    ensures |Visited(k)| == k && 0 !in Visited(k)
    ensures forall x :: x in Visited(k) ==> 0 <= x < 256
  {
    hide Power;
    if k > 0 {
      VisitedSize(k - 1);
      PowerNonZero(k);
      ByteOfInt(Power(k));
      if Power(k) as int == 0 {
        SameByte(Power(k), 0);
      }
      if Power(k) as int in Visited(k - 1) {
        VisitedPower(k - 1, Power(k) as int);
        var j: nat :| 1 <= j <= k - 1 && Power(j) as int == Power(k) as int;
        SameByte(Power(j), Power(k));
        PowerDistinct(j, k);
      }
    }
  }

  lemma {:induction false} RangeSize(s: set<int>, n: nat)
    requires forall x :: x in s ==> 0 <= x < n
    ensures |s| <= n
  {
    if n == 0 {
      assert forall x :: x !in s;
      assert s == {};
    } else {
      RangeSize(s - {n - 1}, n - 1);
    }
  }

  // Every non-zero byte is a power of X + 1.
  lemma AllVisited(x: bv8)
    requires x != 0
    ensures x as int in Visited(255)
  {
    hide Visited, Power;
    VisitedSize(255);
    ByteOfInt(x);
    if x as int == 0 {
      SameByte(x, 0);
    }
    var t := Visited(255) + {0};
    assert |t| == 256;
    RangeSize(t + {x as int}, 256);
  }

  // Every number below 256 is the value of some byte.
  lemma ByteOf(x: int) returns (v: bv8)
    requires 0 <= x < 256
    ensures v as int == x
  {
    hide Visited, Power;
    VisitedSize(255);
    ByteOfInt(0);
    var t := Visited(255) + {0};
    assert |t| == 256;
    RangeSize(t + {x}, 256);
    if x == 0 {
      v := 0;
    } else {
      VisitedPower(255, x);
      var j: nat :| 1 <= j <= 255 && Power(j) as int == x;
      v := Power(j);
    }
  }

  // The multiplicative inverse: the other member of the loop's pair.
  ghost function Inverse(x: bv8): (q: bv8)
    ensures x != 0 ==> Mul(x, q) == 1
    ensures x == 0 ==> q == 0
  {
    if x == 0 then 0 else
      InverseExists(x);
      var q :| Mul(x, q) == 1;
      q
  }

  lemma InverseExists(x: bv8)
    requires x != 0
    ensures exists q :: Mul(x, q) == 1
  {
    hide Power, Mul;
    AllVisited(x);
    VisitedPower(255, x as int);
    var k: nat :| 1 <= k <= 255 && Power(k) as int == x as int;
    SameByte(Power(k), x);
    PowerSum(k, 255 - k);
    SomePowers();
    var q := Power(255 - k);
    assert Mul(x, q) == 1;
  }

  lemma InverseTwice(x: bv8)
    ensures Inverse(Inverse(x)) == x
  {
    hide Mul;
    var q := Inverse(x);
    MulUnits(x);
    MulUnits(q);
    MulComm(x, q);
    if x != 0 {
      InverseUnique(q, x, Inverse(q));
    }
  }

  // The affine transformation without its constant, and its inverse.
  function Affine(q: bv8): bv8 {
    q ^ ((q << 1) | (q >> 7)) ^ ((q << 2) | (q >> 6)) ^ ((q << 3) | (q >> 5)) ^ ((q << 4) | (q >> 4))
  }

  function AffineInverse(y: bv8): bv8 {
    ((y << 1) | (y >> 7)) ^ ((y << 3) | (y >> 5)) ^ ((y << 6) | (y >> 2))
  }

  lemma AffineBack(q: bv8)
    ensures AffineInverse(Affine(q)) == q
    ensures Affine(AffineInverse(q)) == q
  {
  }

  lemma ConstantBack(q: bv8)
    ensures (q ^ 0x63) ^ 0x63 == q
    ensures Affine(0) ^ 0x63 == 0x63
  {
  }

  // The substitution of section 5.1.1 of FIPS 197, and its inverse (section 5.3.2).
  ghost function SubByte(x: bv8): bv8 {
    Affine(Inverse(x)) ^ 0x63
  }

  ghost function SubByteInverse(y: bv8): bv8 {
    Inverse(AffineInverse(y ^ 0x63))
  }

  lemma SubByteBack(x: bv8)
    ensures SubByteInverse(SubByte(x)) == x
    ensures SubByte(SubByteInverse(x)) == x
  {
    hide Inverse, Affine, AffineInverse;
    ConstantBack(Affine(Inverse(x)));
    AffineBack(Inverse(x));
    InverseTwice(x);
    ConstantBack(x);
    AffineBack(x ^ 0x63);
    InverseTwice(AffineInverse(x ^ 0x63));
  }

  // The coefficient of X^i, i taken modulo 8.
  function Bit(v: bv8, i: bv8): bv8 {
    (v >> (i & 7)) & 1
  }

  // Bit i of y is the sum of five bits of q and one of 0x63 (section 5.1.1 of FIPS 197).
  predicate BitMixed(q: bv8, y: bv8, i: bv8) {
    Bit(y, i) == Bit(q, i) ^ Bit(q, i + 4) ^ Bit(q, i + 5) ^ Bit(q, i + 6) ^ Bit(q, i + 7) ^ Bit(0x63, i)
  }

  // Zero counts as its own inverse.
  predicate Inverts(x: bv8, q: bv8) {
    if x == 0 then q == 0 else Mul(x, q) == 1
  }

  // y is what the standard substitutes for x: the bits of x's inverse, mixed.
  ghost predicate Substitutes(x: bv8, y: bv8) {
    exists q: bv8 :: Inverts(x, q) && forall i: bv8 :: i < 8 ==> BitMixed(q, y, i)
  }

  lemma AffineBit(q: bv8, i: bv8)
    requires i < 8
    ensures BitMixed(q, Affine(q) ^ 0x63, i)
  {
  }

  lemma SubByteSubstitutes(x: bv8)
    ensures Substitutes(x, SubByte(x))
  {
    hide Mul, Affine, BitMixed;
    InverseMixed(x);
    assert Inverts(x, Inverse(x));
  }

  lemma SameBits(y: bv8, z: bv8)
    requires Bit(y, 0) == Bit(z, 0) && Bit(y, 1) == Bit(z, 1) && Bit(y, 2) == Bit(z, 2) && Bit(y, 3) == Bit(z, 3)
    requires Bit(y, 4) == Bit(z, 4) && Bit(y, 5) == Bit(z, 5) && Bit(y, 6) == Bit(z, 6) && Bit(y, 7) == Bit(z, 7)
    ensures y == z
  {
  }

  lemma BitOnly(q: bv8, y: bv8, z: bv8, i: bv8)
    requires BitMixed(q, y, i) && BitMixed(q, z, i)
    ensures Bit(y, i) == Bit(z, i)
  {
    hide Bit;
  }

  // And only that byte.
  lemma SubstitutesOnly(x: bv8, y: bv8)
    requires Substitutes(x, y)
    ensures y == SubByte(x)
  {
    hide Mul, SubByte, Bit, BitMixed;
    var q :| Inverts(x, q) && forall i: bv8 :: i < 8 ==> BitMixed(q, y, i);
    if x != 0 {
      InverseUnique(x, q, Inverse(x));
    }
    var z := SubByte(x);
    InverseMixed(x);
    assert q == Inverse(x);
    BitOnly(q, y, z, 0);
    BitOnly(q, y, z, 1);
    BitOnly(q, y, z, 2);
    BitOnly(q, y, z, 3);
    BitOnly(q, y, z, 4);
    BitOnly(q, y, z, 5);
    BitOnly(q, y, z, 6);
    BitOnly(q, y, z, 7);
    SameBits(y, z);
  }

  lemma InverseMixed(x: bv8)
    ensures forall i: bv8 :: i < 8 ==> BitMixed(Inverse(x), SubByte(x), i)
  {
    hide Inverse, Affine, BitMixed;
    forall i: bv8 | i < 8
      ensures BitMixed(Inverse(x), SubByte(x), i)
    {
      AffineBit(Inverse(x), i);
    }
  }

  // A table of the standard's substitution, and its inverse.
  ghost predicate Standard(sbox: seq<bv8>, inv: seq<bv8>) {
    |sbox| == |inv| == 256 && forall x: bv8 :: StandardAt(sbox, inv, x)
  }

  ghost predicate StandardAt(sbox: seq<bv8>, inv: seq<bv8>, x: bv8)
    requires |sbox| == |inv| == 256
  {
    Substitutes(x, sbox[x as int]) && inv[sbox[x as int] as int] == x
  }

  lemma TablesStandard(sbox: seq<bv8>, inv: seq<bv8>)
    requires Tables(sbox, inv)
    ensures Standard(sbox, inv)
  {
    hide SubByte, SubByteInverse, Substitutes;
    forall x: bv8
      ensures StandardAt(sbox, inv, x)
    {
      SubByteSubstitutes(x);
      SubByteBack(x);
      assert sbox[x as int] == SubByte(x) && inv[SubByte(x) as int] == SubByteInverse(SubByte(x));
    }
  }

  // Both tables hold what they should for every byte in s.
  ghost predicate TablesFor(s: set<int>, sbox: seq<bv8>, inv: seq<bv8>)
    requires |sbox| == |inv| == 256
  {
    forall x: bv8 :: x as int in s ==> sbox[x as int] == SubByte(x) && inv[SubByte(x) as int] == x
  }

  // The tables of a whole cipher.
  ghost predicate Tables(sbox: seq<bv8>, inv: seq<bv8>) {
    && |sbox| == |inv| == 256
    && (forall x: bv8 :: sbox[x as int] == SubByte(x))
    && (forall y: bv8 :: inv[y as int] == SubByteInverse(y))
  }

  lemma TablesUpdate(s: set<int>, sbox: seq<bv8>, inv: seq<bv8>, p: bv8)
    requires |sbox| == |inv| == 256 && TablesFor(s, sbox, inv)
    ensures TablesFor(s + {p as int}, sbox[p as int := SubByte(p)], inv[SubByte(p) as int := p])
  {
    hide SubByte, SubByteInverse;
    var sbox2 := sbox[p as int := SubByte(p)];
    var inv2 := inv[SubByte(p) as int := p];
    forall x: bv8 | x as int in s + {p as int}
      ensures sbox2[x as int] == SubByte(x) && inv2[SubByte(x) as int] == x
    {
      EntryUpdate(s, sbox, inv, p, x);
    }
  }

  lemma EntryUpdate(s: set<int>, sbox: seq<bv8>, inv: seq<bv8>, p: bv8, x: bv8)
    requires |sbox| == |inv| == 256 && TablesFor(s, sbox, inv) && x as int in s + {p as int}
    ensures sbox[p as int := SubByte(p)][x as int] == SubByte(x)
    ensures inv[SubByte(p) as int := p][SubByte(x) as int] == x
  {
    hide SubByte, SubByteInverse, TablesFor;
    SubByteApart(x, p);
    if x != p {
      TablesAt(s, sbox, inv, x);
    }
  }

  lemma SubByteApart(x: bv8, p: bv8)
    ensures x as int == p as int || SubByte(x) as int == SubByte(p) as int ==> x == p
  {
    hide SubByte, SubByteInverse;
    if x as int == p as int {
      SameByte(x, p);
    } else if SubByte(x) as int == SubByte(p) as int {
      SameByte(SubByte(x), SubByte(p));
      SubByteBack(x);
      SubByteBack(p);
    }
  }

  lemma TablesDone(sbox: seq<bv8>, inv: seq<bv8>)
    requires |sbox| == |inv| == 256 && TablesFor(Visited(255) + {0}, sbox, inv)
    ensures Tables(sbox, inv)
  {
    hide SubByte, SubByteInverse, Visited, TablesFor;
    forall x: bv8
      ensures sbox[x as int] == SubByte(x) && inv[SubByte(x) as int] == x
    {
      ByteOfInt(x);
      if x != 0 {
        AllVisited(x);
      }
      TablesAt(Visited(255) + {0}, sbox, inv, x);
    }
    forall y: bv8
      ensures inv[y as int] == SubByteInverse(y)
    {
      SubByteBack(y);
      var x := SubByteInverse(y);
      assert inv[SubByte(x) as int] == x;
    }
  }

  lemma TablesAt(s: set<int>, sbox: seq<bv8>, inv: seq<bv8>, x: bv8)
    requires |sbox| == |inv| == 256 && TablesFor(s, sbox, inv) && x as int in s
    ensures sbox[x as int] == SubByte(x) && inv[SubByte(x) as int] == x
  {
  }

  lemma ZeroByte()
    ensures SubByte(0) == 0x63
    ensures (0 as bv8) as int == 0 && (0x63 as bv8) as int == 0x63
  {
    hide Affine;
    ConstantBack(0);
  }

  // One round of the loop moves the pair (p, q) to the next power and its inverse.
  lemma NextPair(k: nat, p: bv8, q: bv8)
    requires p == Power(k) && Mul(p, q) == 1 && k < 255
    ensures Power(k + 1) == Triple(p) && Mul(Triple(p), Third(q)) == 1
    ensures SubByte(Triple(p)) == Affine(Third(q)) ^ 0x63
    ensures Triple(p) != 1 <==> k + 1 < 255
  {
    hide Triple, Third, Mul, Affine;
    PairKept(p, q);
    PowerNonZero(k + 1);
    InverseUnique(Triple(p), Third(q), Inverse(Triple(p)));
    SomePowers();
    if k + 1 < 255 {
      OrderIs255(k + 1);
    }
  }

  lemma TripleIs(p: bv8)
    ensures Triple(p) == p ^ (p << 1) ^ (if p & 0x80 != 0 then 0x1B else 0)
  {
  }

  method InitializeAesSbox(sbox: array<bv8>, invsbox: array<bv8>)
    requires sbox.Length == invsbox.Length == 256 && sbox != invsbox
    modifies sbox, invsbox
    ensures Tables(sbox[..], invsbox[..]) && Standard(sbox[..], invsbox[..])
  {
    hide Standard, SubByte, SubByteInverse, Mul, Visited, Tables, TablesFor, Power, Inverse, Triple;
    var p, q := 1 as bv8, 1 as bv8;
    ghost var k := 0;
    PowerZero();
    MulUnits(1);
    TablesNone(sbox[..], invsbox[..]);
    var more := true;
    while more
      invariant k <= 255 && p == Power(k) && Mul(p, q) == 1
      invariant more <==> k < 255
      invariant TablesFor(Visited(k), sbox[..], invsbox[..])
      decreases 255 - k
    {
      NextPair(k, p, q);
      TripleIs(p);
      p := p ^ (p << 1) ^ (if p & 0x80 != 0 then 0x1B else 0);
      q := q ^ (q << 1);
      q := q ^ (q << 2);
      q := q ^ (q << 4);
      q := q ^ (if q & 0x80 != 0 then 0x09 else 0);
      var xformed := q ^ ((q << 1) | (q >> 7)) ^ ((q << 2) | (q >> 6)) ^ ((q << 3) | (q >> 5)) ^ ((q << 4) | (q >> 4));
      TablesUpdate(Visited(k), sbox[..], invsbox[..], p);
      VisitedNext(k);
      k := k + 1;
      sbox[p as int] := xformed ^ 0x63;
      invsbox[(xformed ^ 0x63) as int] := p;
      more := p != 1;
    }
    ZeroByte();
    TablesUpdate(Visited(255), sbox[..], invsbox[..], 0);
    sbox[0] := 0x63;
    invsbox[0x63] := 0;
    TablesDone(sbox[..], invsbox[..]);
    TablesStandard(sbox[..], invsbox[..]);
  }

  lemma VisitedNext(k: nat)
    ensures Visited(k + 1) == Visited(k) + {Power(k + 1) as int}
  {
  }

  lemma TablesNone(sbox: seq<bv8>, inv: seq<bv8>)
    requires |sbox| == |inv| == 256
    ensures TablesFor(Visited(0), sbox, inv)
  {
  }
}
