// mix_columns and its inverse: columns of four bytes under two matrices over the field
// (sections 5.1.3 and 5.3.3 of FIPS 197), and why the second matrix undoes the first.
module AesColumns {
  import opened AesField
  import opened AesSbox

  datatype Column = Column(a: bv8, b: bv8, c: bv8, d: bv8)
  datatype Matrix = Matrix(a: Column, b: Column, c: Column, d: Column)

  const MIX := Matrix(Column(2, 3, 1, 1), Column(1, 2, 3, 1), Column(1, 1, 2, 3), Column(3, 1, 1, 2))
  const UNMIX := Matrix(Column(0x0e, 0x0b, 0x0d, 0x09), Column(0x09, 0x0e, 0x0b, 0x0d),
                        Column(0x0d, 0x09, 0x0e, 0x0b), Column(0x0b, 0x0d, 0x09, 0x0e))

  function Plus(u: Column, v: Column): Column {
    Column(Add(u.a, v.a), Add(u.b, v.b), Add(u.c, v.c), Add(u.d, v.d))
  }

  function Scale(k: bv8, u: Column): Column {
    Column(Mul(k, u.a), Mul(k, u.b), Mul(k, u.c), Mul(k, u.d))
  }

  function Sum4(x: bv8, y: bv8, z: bv8, w: bv8): bv8 {
    Add(Add(x, y), Add(z, w))
  }

  function Dot(r: Column, c: Column): bv8 {
    Sum4(Mul(r.a, c.a), Mul(r.b, c.b), Mul(r.c, c.c), Mul(r.d, c.d))
  }

  function Apply(m: Matrix, c: Column): Column {
    Column(Dot(m.a, c), Dot(m.b, c), Dot(m.c, c), Dot(m.d, c))
  }

  // The row r times the matrix m.
  function Times(r: Column, m: Matrix): Column {
    Plus(Plus(Scale(r.a, m.a), Scale(r.b, m.b)), Plus(Scale(r.c, m.c), Scale(r.d, m.d)))
  }

  lemma Sum4Add(x: bv8, y: bv8, z: bv8, w: bv8, x2: bv8, y2: bv8, z2: bv8, w2: bv8)
    ensures Sum4(Add(x, x2), Add(y, y2), Add(z, z2), Add(w, w2)) == Add(Sum4(x, y, z, w), Sum4(x2, y2, z2, w2))
  {
    hide Add;
    AddSwap(x, x2, y, y2);
    AddSwap(z, z2, w, w2);
    AddSwap(Add(x, y), Add(x2, y2), Add(z, w), Add(z2, w2));
  }

  lemma DotPlus(u: Column, v: Column, c: Column)
    ensures Dot(Plus(u, v), c) == Add(Dot(u, c), Dot(v, c))
  {
    hide Add, Mul, Sum4;
    MulAddLeft(u.a, v.a, c.a);
    MulAddLeft(u.b, v.b, c.b);
    MulAddLeft(u.c, v.c, c.c);
    MulAddLeft(u.d, v.d, c.d);
    Sum4Add(Mul(u.a, c.a), Mul(u.b, c.b), Mul(u.c, c.c), Mul(u.d, c.d),
            Mul(v.a, c.a), Mul(v.b, c.b), Mul(v.c, c.c), Mul(v.d, c.d));
  }

  lemma DotScale(k: bv8, u: Column, c: Column)
    ensures Dot(Scale(k, u), c) == Mul(k, Dot(u, c))
  {
    hide Add, Mul;
    MulAssoc(k, u.a, c.a);
    MulAssoc(k, u.b, c.b);
    MulAssoc(k, u.c, c.c);
    MulAssoc(k, u.d, c.d);
    MulAddRight(k, Mul(u.a, c.a), Mul(u.b, c.b));
    MulAddRight(k, Mul(u.c, c.c), Mul(u.d, c.d));
    MulAddRight(k, Add(Mul(u.a, c.a), Mul(u.b, c.b)), Add(Mul(u.c, c.c), Mul(u.d, c.d)));
  }

  // A row applied to m applied to c is the row times m, applied to c.
  lemma DotThrough(r: Column, m: Matrix, c: Column)
    ensures Dot(r, Apply(m, c)) == Dot(Times(r, m), c)
  {
    hide Add, Mul, Dot, Plus, Scale;
    DotPlus(Plus(Scale(r.a, m.a), Scale(r.b, m.b)), Plus(Scale(r.c, m.c), Scale(r.d, m.d)), c);
    DotPlus(Scale(r.a, m.a), Scale(r.b, m.b), c);
    DotPlus(Scale(r.c, m.c), Scale(r.d, m.d), c);
    DotScale(r.a, m.a, c);
    DotScale(r.b, m.b, c);
    DotScale(r.c, m.c, c);
    DotScale(r.d, m.d, c);
    DotIs(r, Apply(m, c));
  }

  lemma DotIs(r: Column, c: Column)
    ensures Dot(r, c) == Sum4(Mul(r.a, c.a), Mul(r.b, c.b), Mul(r.c, c.c), Mul(r.d, c.d))
  {
  }

  lemma Products()
    ensures Mul(0x0e, 2) == 0x1c && Mul(0x0e, 3) == 0x12 && Mul(0x0e, 1) == 0x0e
    ensures Mul(0x0b, 2) == 0x16 && Mul(0x0b, 3) == 0x1d && Mul(0x0b, 1) == 0x0b
    ensures Mul(0x0d, 2) == 0x1a && Mul(0x0d, 3) == 0x17 && Mul(0x0d, 1) == 0x0d
    ensures Mul(0x09, 2) == 0x12 && Mul(0x09, 3) == 0x1b && Mul(0x09, 1) == 0x09
  {
    hide Mul;
    MulBits(0x0e, 2);
    MulBits(0x0e, 3);
    MulBits(0x0e, 1);
    MulBits(0x0b, 2);
    MulBits(0x0b, 3);
    MulBits(0x0b, 1);
    MulBits(0x0d, 2);
    MulBits(0x0d, 3);
    MulBits(0x0d, 1);
    MulBits(0x09, 2);
    MulBits(0x09, 3);
    MulBits(0x09, 1);
  }

  // The product of the two matrices is the identity.
  lemma UnmixTimesMix()
    ensures Times(UNMIX.a, MIX) == Column(1, 0, 0, 0) && Times(UNMIX.b, MIX) == Column(0, 1, 0, 0)
    ensures Times(UNMIX.c, MIX) == Column(0, 0, 1, 0) && Times(UNMIX.d, MIX) == Column(0, 0, 0, 1)
  {
    hide Mul;
    Products();
  }

  lemma DotUnit(c: Column)
    ensures Dot(Column(1, 0, 0, 0), c) == c.a && Dot(Column(0, 1, 0, 0), c) == c.b
    ensures Dot(Column(0, 0, 1, 0), c) == c.c && Dot(Column(0, 0, 0, 1), c) == c.d
  {
    hide Mul, Add;
    MulUnits(c.a);
    MulUnits(c.b);
    MulUnits(c.c);
    MulUnits(c.d);
    AddZero(0, 0);
    AddZero(c.a, 0);
    AddZero(c.b, 0);
    AddZero(c.c, 0);
    AddZero(c.d, 0);
  }

  lemma UnmixMixed(c: Column)
    ensures Apply(UNMIX, Apply(MIX, c)) == c
  {
    hide Dot, Times;
    DotThrough(UNMIX.a, MIX, c);
    DotThrough(UNMIX.b, MIX, c);
    DotThrough(UNMIX.c, MIX, c);
    DotThrough(UNMIX.d, MIX, c);
    UnmixTimesMix();
    DotUnit(c);
  }

  function ColumnOf(s: seq<bv8>): Column
    requires |s| == 4
  {
    Column(s[0], s[1], s[2], s[3])
  }

  function Bytes4(c: Column): (s: seq<bv8>)
    ensures |s| == 4
  {
    [c.a, c.b, c.c, c.d]
  }

  method GmixColumn(column: array<bv8>)
    requires column.Length == 4
    modifies column
    ensures column[..] == Bytes4(Apply(MIX, ColumnOf(old(column[..]))))
  {
    hide Mul, Add;
    var t := new bv8[4];
    for i := 0 to 4
      invariant t[..i] == column[..i] && column[..] == old(column[..])
    {
      t[i] := column[i];
    }
    assert t[..] == column[..];
    column[0], column[1], column[2], column[3] := MixLines(t[0], t[1], t[2], t[3]);
  }

  // The four right-hand sides of gmix_column.
  method MixLines(t0: bv8, t1: bv8, t2: bv8, t3: bv8) returns (a: bv8, b: bv8, c: bv8, d: bv8)
    ensures Column(a, b, c, d) == Apply(MIX, Column(t0, t1, t2, t3))
  {
    hide Mul, Sum4;
    UnitFactors(t0, t1, t2, t3);
    var x := GMul(0x02, t0);
    var y := GMul(0x03, t1);
    Xor4(x, y, t2, t3);
    a := x ^ y ^ t2 ^ t3;
    x := GMul(0x02, t1);
    y := GMul(0x03, t2);
    Xor4(t0, x, y, t3);
    b := t0 ^ x ^ y ^ t3;
    x := GMul(0x02, t2);
    y := GMul(0x03, t3);
    Xor4(t0, t1, x, y);
    c := t0 ^ t1 ^ x ^ y;
    x := GMul(0x03, t0);
    y := GMul(0x02, t3);
    Xor4(x, t1, t2, y);
    d := x ^ t1 ^ t2 ^ y;
  }

  lemma UnitFactors(x: bv8, y: bv8, z: bv8, w: bv8)
    ensures Mul(1, x) == x && Mul(1, y) == y && Mul(1, z) == z && Mul(1, w) == w
  {
    hide Mul;
    MulUnits(x);
    MulUnits(y);
    MulUnits(z);
    MulUnits(w);
  }

  lemma Xor4(x: bv8, y: bv8, z: bv8, w: bv8)
    ensures x ^ y ^ z ^ w == Sum4(x, y, z, w)
  {
  }

  method GmixColumnInv(column: array<bv8>)
    requires column.Length == 4
    modifies column
    ensures column[..] == Bytes4(Apply(UNMIX, ColumnOf(old(column[..]))))
  {
    hide Mul, Add;
    var t := new bv8[4];
    for i := 0 to 4
      invariant t[..i] == column[..i] && column[..] == old(column[..])
    {
      t[i] := column[i];
    }
    assert t[..] == column[..];
    column[0] := Combine(0x0e, 0x0b, 0x0d, 0x09, t);
    column[1] := Combine(0x09, 0x0e, 0x0b, 0x0d, t);
    column[2] := Combine(0x0d, 0x09, 0x0e, 0x0b, t);
    column[3] := Combine(0x0b, 0x0d, 0x09, 0x0e, t);
  }

  // The right-hand side of one line of gmix_column_inv.
  method Combine(a: bv8, b: bv8, c: bv8, d: bv8, t: array<bv8>) returns (r: bv8)
    requires t.Length == 4
    ensures r == Dot(Column(a, b, c, d), ColumnOf(t[..]))
  {
    hide Mul, Add;
    var x := GMul(a, t[0]);
    var y := GMul(b, t[1]);
    var z := GMul(c, t[2]);
    var w := GMul(d, t[3]);
    Xor4(x, y, z, w);
    r := x ^ y ^ z ^ w;
  }
}
