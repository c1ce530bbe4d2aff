// The field of 256 elements the cipher computes in (section 4 of FIPS 197), and g_mul.
module AesField {
  // Addition of two field elements.
  function Add(a: bv8, b: bv8): bv8 {
    a ^ b
  }

  function Shl(a: bv8): bv8 {
    a << 1
  }

  predicate High(a: bv8) {
    a & 0x80 != 0
  }

  // What reduction by X^8 + X^4 + X^3 + X + 1 adds to the shifted a.
  function Carry(a: bv8): bv8 {
    if High(a) then 0x1B else 0
  }

  // X times a, reduced.
  function Twice(a: bv8): bv8 {
    Add(Shl(a), Carry(a))
  }

  function Half(b: bv8): bv8 {
    b >> 1
  }

  // a when the constant term of b is one.
  function Odd(a: bv8, b: bv8): bv8 {
    if b & 1 != 0 then a else 0
  }

  // The product in the field, by Horner's rule on the polynomial b.
  function Mul(a: bv8, b: bv8): bv8
    decreases b
  {
    if b == 0 then 0 else Add(Odd(a, b), Mul(Twice(a), Half(b)))
  }

  lemma MulStep(a: bv8, b: bv8)
    ensures Mul(a, b) == Add(Odd(a, b), Mul(Twice(a), Half(b)))
    ensures Mul(a, 0) == 0
    ensures b != 0 ==> Half(b) < b
  {
  }

  lemma AddAssoc(a: bv8, b: bv8, c: bv8)
    ensures Add(Add(a, b), c) == Add(a, Add(b, c))
  {
  }

  lemma AddComm(a: bv8, b: bv8)
    ensures Add(a, b) == Add(b, a)
  {
  }

  lemma AddSwap(a: bv8, b: bv8, c: bv8, d: bv8)
    ensures Add(Add(a, b), Add(c, d)) == Add(Add(a, c), Add(b, d))
  {
    hide Add;
    AddAssoc(a, b, Add(c, d));
    AddAssoc(b, c, d);
    AddComm(b, c);
    AddAssoc(c, b, d);
    AddAssoc(a, c, Add(b, d));
  }

  lemma AddZero(a: bv8, b: bv8)
    ensures Add(a, 0) == a && Add(0, a) == a && Add(a, a) == 0
    ensures Add(a, b) == Add(b, a)
  {
  }

  lemma ShlAdd(a: bv8, b: bv8)
    ensures Shl(Add(a, b)) == Add(Shl(a), Shl(b))
  {
  }

  lemma HighAdd(a: bv8, b: bv8)
    ensures High(Add(a, b)) <==> High(a) != High(b)
  {
  }

  lemma TwiceAdd(a: bv8, b: bv8)
    ensures Twice(Add(a, b)) == Add(Twice(a), Twice(b))
  {
    hide Add, Shl, High;
    ShlAdd(a, b);
    HighAdd(a, b);
    AddZero(0x1B, 0);
    AddZero(0, 0);
    AddSwap(Shl(a), Carry(a), Shl(b), Carry(b));
  }

  lemma HalfAdd(a: bv8, b: bv8)
    ensures Half(Add(a, b)) == Add(Half(a), Half(b))
    ensures Half(0) == 0
  {
  }

  // A byte is its constant term plus X times the rest.
  lemma FromHalf(b: bv8)
    ensures b == Add(Odd(1, b), Twice(Half(b)))
  {
  }

  lemma TwiceZero()
    ensures Twice(0) == 0
  {
  }

  lemma HalvesLess(b: bv8, c: bv8)
    requires b | c != 0
    ensures Half(b) | Half(c) < b | c
  {
  }

  lemma OddAdd(a: bv8, b: bv8, c: bv8)
    ensures Odd(Add(a, b), c) == Add(Odd(a, c), Odd(b, c))
    ensures Odd(a, Add(b, c)) == Add(Odd(a, b), Odd(a, c))
    ensures Twice(Odd(a, b)) == Odd(Twice(a), b)
  {
  }

  lemma {:induction false} MulAddLeft(a: bv8, b: bv8, c: bv8)
    ensures Mul(Add(a, b), c) == Add(Mul(a, c), Mul(b, c))
    decreases c
  {
    hide Mul, Twice, Odd, Add, Half;
    MulStep(a, c);
    MulStep(b, c);
    MulStep(Add(a, b), c);
    if c == 0 {
      AddZero(0, 0);
    } else {
      TwiceAdd(a, b);
      OddAdd(a, b, c);
      MulAddLeft(Twice(a), Twice(b), Half(c));
      AddSwap(Odd(a, c), Odd(b, c), Mul(Twice(a), Half(c)), Mul(Twice(b), Half(c)));
    }
  }

  lemma {:induction false} MulAddRight(a: bv8, b: bv8, c: bv8)
    ensures Mul(a, Add(b, c)) == Add(Mul(a, b), Mul(a, c))
    decreases b | c
  {
    hide Mul, Twice, Odd, Add, Half;
    MulStep(a, b);
    MulStep(a, c);
    MulStep(a, Add(b, c));
    if b | c == 0 {
      AddZero(0, 0);
      BothZero(b, c);
    } else {
      OddAdd(a, b, c);
      HalfAdd(b, c);
      HalvesLess(b, c);
      MulAddRight(Twice(a), Half(b), Half(c));
      AddSwap(Odd(a, b), Odd(a, c), Mul(Twice(a), Half(b)), Mul(Twice(a), Half(c)));
    }
  }

  lemma BothZero(b: bv8, c: bv8)
    requires b | c == 0
    ensures b == 0 && c == 0
  {
  }

  lemma {:induction false} MulTwice(a: bv8, b: bv8)
    ensures Mul(Twice(a), b) == Twice(Mul(a, b))
    decreases b
  {
    hide Mul, Twice, Odd, Add, Half;
    MulStep(a, b);
    MulStep(Twice(a), b);
    TwiceAdd(Odd(a, b), Mul(Twice(a), Half(b)));
    TwiceZero();
    if b != 0 {
      MulTwice(Twice(a), Half(b));
      OddAdd(a, b, 0);
    }
  }

  lemma {:induction false} MulUnits(b: bv8)
    ensures Mul(0, b) == 0 && Mul(1, b) == b
    decreases b
  {
    hide Mul, Twice, Odd, Add, Half;
    MulStep(0, b);
    MulStep(1, b);
    if b != 0 {
      MulUnits(Half(b));
      TwiceZero();
      MulTwice(1, Half(b));
      FromHalf(b);
      OddOfZero(b);
    }
  }

  lemma OddOfZero(b: bv8)
    ensures Odd(0, b) == 0 && Add(0, 0) == 0
  {
  }

  lemma {:induction false} MulComm(a: bv8, b: bv8)
    ensures Mul(a, b) == Mul(b, a)
    decreases b
  {
    hide Mul, Twice, Odd, Add, Half;
    MulUnits(a);
    MulStep(a, b);
    if b != 0 {
      MulComm(a, Half(b));
      MulTwice(a, Half(b));
      MulTwice(Half(b), a);
      FromHalf(b);
      MulAddLeft(Odd(1, b), Twice(Half(b)), a);
      MulOdd(a, b, a);
    }
  }

  lemma MulOdd(a: bv8, b: bv8, c: bv8)
    ensures Mul(Odd(1, b), a) == Odd(a, b)
    ensures Mul(a, Odd(b, c)) == Odd(Mul(a, b), c)
  {
    hide Mul;
    MulUnits(a);
    MulStep(a, b);
  }

  lemma {:induction false} MulAssoc(a: bv8, b: bv8, c: bv8)
    ensures Mul(Mul(a, b), c) == Mul(a, Mul(b, c))
    decreases c
  {
    hide Mul, Twice, Odd, Add, Half;
    MulStep(Mul(a, b), c);
    MulStep(b, c);
    MulStep(a, b);
    if c != 0 {
      MulAssoc(a, Twice(b), Half(c));
      TwiceRight(a, b);
      MulAddRight(a, Odd(b, c), Mul(Twice(b), Half(c)));
      MulOdd(a, b, c);
    }
  }

  lemma TwiceRight(a: bv8, b: bv8)
    ensures Mul(a, Twice(b)) == Twice(Mul(a, b))
  {
    hide Mul, Twice, Odd, Add, Half;
    MulComm(a, Twice(b));
    MulTwice(b, a);
    MulComm(a, b);
  }

  // Two inverses of one element are the same.
  lemma InverseUnique(p: bv8, q: bv8, r: bv8)
    requires Mul(p, q) == 1 && Mul(p, r) == 1
    ensures q == r
  {
    hide Mul, Twice, Odd, Add, Half;
    MulUnits(q);
    MulUnits(r);
    MulComm(q, 1);
    MulAssoc(q, p, r);
    MulComm(q, p);
  }

  // Addition of two polynomials, and whether x has the term top.
  function Sum(x: bv16, y: bv16): bv16 {
    x ^ y
  }

  predicate Has(x: bv16, top: bv16) {
    x & top != 0
  }

  // X times x.
  function Up(x: bv16): bv16 {
    x << 1
  }

  // a when the constant term of b is one.
  function OddTerm(a: bv16, b: bv8): bv16 {
    if b & 1 != 0 then a else 0
  }

  // The polynomial product of a and b, before reduction: the sum of a X^i over the terms of b.
  function Product(a: bv16, b: bv8): bv16
    decreases b
  {
    if b == 0 then 0 else Sum(OddTerm(a, b), Product(Up(a), Half(b)))
  }

  // X^8 + X^4 + X^3 + X + 1, multiplied up so that its leading term is top.
  function Modulus(top: bv16): bv16 {
    top ^ (top >> 4) ^ (top >> 5) ^ (top >> 7) ^ (top >> 8)
  }

  // One step of a long division: clear the term top of x.
  function Drop(x: bv16, top: bv16): bv16 {
    if Has(x, top) then Sum(x, Modulus(top)) else x
  }

  // The long division of a polynomial of degree at most 14: the steps for X^13 and below, then all.
  function LowSteps(x: bv16): bv16 {
    Drop(Drop(Drop(Drop(Drop(Drop(x, 0x2000), 0x1000), 0x0800), 0x0400), 0x0200), 0x0100)
  }

  function Remainder(x: bv16): bv16 {
    LowSteps(Drop(x, 0x4000))
  }

  // A single term X^k, k at least 8.
  predicate Term(top: bv16) {
    || top == 0x0100 || top == 0x0200 || top == 0x0400 || top == 0x0800
    || top == 0x1000 || top == 0x2000 || top == 0x4000 || top == 0x8000
  }

  lemma HasSum(x: bv16, y: bv16, top: bv16)
    requires Term(top)
    ensures Has(Sum(x, y), top) <==> Has(x, top) != Has(y, top)
  {
    assert x & top == 0 || x & top == top;
    assert y & top == 0 || y & top == top;
  }

  lemma SumComm(x: bv16, y: bv16)
    ensures Sum(x, y) == Sum(y, x)
    ensures Sum(x, x) == 0
  {
  }

  lemma SumBoth(x: bv16, y: bv16, m: bv16)
    ensures Sum(Sum(x, m), Sum(y, m)) == Sum(x, y)
  {
    hide Sum;
    SumAssoc(x, m, Sum(y, m));
    SumComm(y, m);
    SumAssoc(m, m, y);
    SumComm(m, m);
    SumZero(y);
  }

  lemma SumOne(x: bv16, y: bv16, m: bv16)
    ensures Sum(Sum(x, y), m) == Sum(Sum(x, m), y)
  {
  }

  lemma SumAssoc(x: bv16, y: bv16, m: bv16)
    ensures Sum(Sum(x, y), m) == Sum(x, Sum(y, m))
  {
  }

  lemma SumZero(x: bv16)
    ensures Sum(x, 0) == x && Sum(0, x) == x
  {
  }

  lemma DropSum(x: bv16, y: bv16, top: bv16)
    requires Term(top)
    ensures Drop(Sum(x, y), top) == Sum(Drop(x, top), Drop(y, top))
  {
    hide Modulus, Sum, Has;
    HasSum(x, y, top);
    SumBoth(x, y, Modulus(top));
    SumOne(x, y, Modulus(top));
    SumAssoc(x, y, Modulus(top));
  }

  lemma RemainderSum(x: bv16, y: bv16)
    ensures Remainder(Sum(x, y)) == Sum(Remainder(x), Remainder(y))
  {
    hide Drop, Sum;
    DropSum(x, y, 0x4000);
    var x0, y0 := Drop(x, 0x4000), Drop(y, 0x4000);
    DropSum(x0, y0, 0x2000);
    var x1, y1 := Drop(x0, 0x2000), Drop(y0, 0x2000);
    DropSum(x1, y1, 0x1000);
    var x2, y2 := Drop(x1, 0x1000), Drop(y1, 0x1000);
    DropSum(x2, y2, 0x0800);
    var x3, y3 := Drop(x2, 0x0800), Drop(y2, 0x0800);
    DropSum(x3, y3, 0x0400);
    var x4, y4 := Drop(x3, 0x0400), Drop(y3, 0x0400);
    DropSum(x4, y4, 0x0200);
    DropSum(Drop(x4, 0x0200), Drop(y4, 0x0200), 0x0100);
  }

  // top is the leading term of m.
  predicate Leads(m: bv16, top: bv16) {
    m & top == top && m < Up(top)
  }

  lemma ModulusShift(top: bv16)
    requires Term(top) && top != 0x8000
    ensures Modulus(Up(top)) == Up(Modulus(top))
    ensures Leads(Modulus(top), top)
  {
  }

  lemma SumShift(x: bv16, m: bv16)
    ensures Up(Sum(x, m)) == Sum(Up(x), Up(m))
  {
  }

  // x is smaller than top.
  predicate Under(x: bv16, top: bv16) {
    x < top
  }

  lemma HasShift(x: bv16, m: bv16, top: bv16)
    requires Term(top) && top != 0x8000 && Under(x, Up(top))
    ensures Has(Up(x), Up(top)) <==> Has(x, top)
    ensures !Has(x, top) ==> Under(x, top)
    ensures Has(x, top) && Leads(m, top) ==> Under(Sum(x, m), top)
  {
  }

  lemma DropShift(x: bv16, top: bv16)
    requires Term(top) && top != 0x8000 && Under(x, Up(top))
    ensures Drop(Up(x), Up(top)) == Up(Drop(x, top))
  {
    hide Modulus, Sum, Has, Term, Up, Leads, Under;
    ModulusShift(top);
    SumShift(x, Modulus(top));
    HasShift(x, Modulus(top), top);
  }

  lemma DropLess(x: bv16, top: bv16)
    requires Term(top) && top != 0x8000 && Under(x, Up(top))
    ensures Under(Drop(x, top), top)
  {
    hide Modulus, Sum, Has, Term, Up, Leads, Under;
    ModulusShift(top);
    HasShift(x, Modulus(top), top);
  }

  lemma UnderUp()
    ensures Up(0x0100) == 0x0200 && Up(0x0200) == 0x0400 && Up(0x0400) == 0x0800 && Up(0x0800) == 0x1000
    ensures Up(0x1000) == 0x2000 && Up(0x2000) == 0x4000 && Up(0x4000) == 0x8000
  {
  }

  lemma DropOver(x: bv16)
    requires Under(x, 0x4000)
    ensures Drop(x, 0x4000) == x
  {
  }

  lemma DropTwice(r: bv16)
    requires Under(r, 0x0100)
    ensures Drop(Up(r), 0x0100) == Wide(Twice(Narrow(r)))
  {
  }

  function Narrow(x: bv16): bv8 {
    (x & 0xff) as bv8
  }

  function Wide(b: bv8): bv16 {
    b as bv16
  }

  // The remainder of X times x is twice the remainder of x.
  lemma LowStepsUp(x: bv16)
    requires Under(x, 0x4000)
    ensures Under(LowSteps(x), 0x0100)
    ensures LowSteps(Drop(Up(x), 0x4000)) == Drop(Up(LowSteps(x)), 0x0100)
  {
    hide Drop, Up, Under;
    UnderUp();
    DropBoth(x, 0x2000);
    var x1 := Drop(x, 0x2000);
    DropBoth(x1, 0x1000);
    var x2 := Drop(x1, 0x1000);
    DropBoth(x2, 0x0800);
    var x3 := Drop(x2, 0x0800);
    DropBoth(x3, 0x0400);
    var x4 := Drop(x3, 0x0400);
    DropBoth(x4, 0x0200);
    DropBoth(Drop(x4, 0x0200), 0x0100);
  }

  lemma DropBoth(x: bv16, top: bv16)
    requires Term(top) && top != 0x8000 && Under(x, Up(top))
    ensures Drop(Up(x), Up(top)) == Up(Drop(x, top)) && Under(Drop(x, top), top)
  {
    hide Drop, Up, Under, Term;
    DropShift(x, top);
    DropLess(x, top);
  }

  lemma RemainderUp(x: bv16)
    requires Under(x, 0x8000)
    ensures Under(Remainder(x), 0x0100)
    ensures Under(x, 0x4000) ==> Remainder(Up(x)) == Wide(Twice(Narrow(Remainder(x))))
  {
    hide Drop, Up, Under, LowSteps, Twice, Wide, Narrow;
    UnderUp();
    DropBoth(x, 0x4000);
    LowStepsUp(Drop(x, 0x4000));
    if Under(x, 0x4000) {
      DropOver(x);
      DropTwice(LowSteps(x));
    }
  }

  // The degrees of a and b leave room for their product in fifteen bits.
  predicate Room(a: bv16, b: bv8) {
    && (b >= 0x01 ==> a < 0x8000)
    && (b >= 0x02 ==> a < 0x4000)
    && (b >= 0x04 ==> a < 0x2000)
    && (b >= 0x08 ==> a < 0x1000)
    && (b >= 0x10 ==> a < 0x0800)
    && (b >= 0x20 ==> a < 0x0400)
    && (b >= 0x40 ==> a < 0x0200)
    && (b >= 0x80 ==> a < 0x0100)
  }

  lemma RoomHalf(a: bv16, b: bv8)
    requires Room(a, b) && b != 0
    ensures Room(Up(a), Half(b)) && Under(a, 0x8000)
    ensures Half(b) != 0 ==> Under(a, 0x4000)
  {
  }

  lemma ProductStep(a: bv16, b: bv8)
    ensures Product(a, b) == Sum(OddTerm(a, b), Product(Up(a), Half(b)))
    ensures Product(a, 0) == 0
  {
    SumZero(0);
  }

  lemma WideAdd(x: bv8, y: bv8)
    ensures Wide(Add(x, y)) == Sum(Wide(x), Wide(y))
    ensures Wide(0) == 0
  {
  }

  lemma WideNarrow(r: bv16)
    requires Under(r, 0x0100)
    ensures Wide(Narrow(r)) == r
  {
  }

  lemma OddWide(a: bv16, b: bv8, c: bv8)
    requires Under(Remainder(a), 0x0100)
    ensures Wide(Add(Odd(Narrow(Remainder(a)), b), c)) == Sum(Remainder(OddTerm(a, b)), Wide(c))
    ensures Wide(0) == 0 && Remainder(0) == 0
  {
    hide Remainder, Add, Sum, Wide, Narrow, Under;
    WideAdd(Odd(Narrow(Remainder(a)), b), c);
    WideNarrow(Remainder(a));
    WideZero();
    RemainderSmall(0);
  }

  lemma {:induction false} RemainderProduct(a: bv16, b: bv8)
    requires Room(a, b)
    ensures b != 0 ==> Remainder(Product(a, b)) == Wide(Mul(Narrow(Remainder(a)), b))
    decreases b
  {
    hide Remainder, Product, Mul, Half, Twice, Add, Odd, Room, Sum, Under, Up, Wide, Narrow, OddTerm;
    if b != 0 {
      RoomHalf(a, b);
      RemainderUp(a);
      var r := Narrow(Remainder(a));
      MulStep(r, b);
      ProductStep(a, b);
      RemainderSum(OddTerm(a, b), Product(Up(a), Half(b)));
      OddWide(a, b, Mul(Twice(r), Half(b)));
      if Half(b) == 0 {
        ProductStep(Up(a), Half(b));
        MulStep(Twice(r), Half(b));
      } else {
        RemainderProduct(Up(a), Half(b));
        NarrowWide(Twice(r));
      }
    }
  }

  lemma NarrowWide(b: bv8)
    ensures Narrow(Wide(b)) == b && Under(Wide(b), 0x0100)
  {
  }

  // A polynomial of degree below eight is its own remainder.
  lemma RemainderSmall(x: bv16)
    requires Under(x, 0x0100)
    ensures Remainder(x) == x
  {
  }

  // Multiplication here is polynomial multiplication modulo X^8 + X^4 + X^3 + X + 1.
  lemma MulIsProduct(a: bv8, b: bv8)
    ensures Wide(Mul(a, b)) == Remainder(Product(Wide(a), b))
  {
    hide Remainder, Product, Mul, Wide, Narrow, Under;
    NarrowWide(a);
    RemainderSmall(Wide(a));
    if b == 0 {
      MulStep(a, 0);
      ProductStep(Wide(a), 0);
      RemainderSmall(0);
      WideZero();
    } else {
      RoomStart(a, b);
      RemainderProduct(Wide(a), b);
    }
  }

  lemma WideZero()
    ensures Wide(0) == 0 && Under(0, 0x0100)
  {
  }

  lemma RoomStart(a: bv8, b: bv8)
    ensures Room(Wide(a), b)
  {
  }
}
