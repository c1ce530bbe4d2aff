// The block cipher of aes.c: the transformations that change text[16] in place, the key schedule,
// and why decrypt undoes encrypt. The cipher is the source's own: rows 1 to 3 all rotate by one place
// and the round constant goes into all four bytes of a word, unlike FIPS 197.
module Aes {
  import opened AesField
  import opened AesColumns

  type Block = s: seq<bv8> | |s| == 16 witness [0, 0, 0, 0, 0, 0, 0, 0, 0, 0, 0, 0, 0, 0, 0, 0]
  type Table = s: seq<bv8> | |s| == 256 witness seq(256, _ => 0)

  function Look(box: Table, x: bv8): bv8 {
    box[x as int]
  }

  function Xored(s: Block, k: Block): Block {
    seq(16, i requires 0 <= i < 16 => s[i] ^ k[i])
  }

  function Substituted(s: Block, box: Table): Block {
    seq(16, i requires 0 <= i < 16 => Look(box, s[i]))
  }

  // Row i holds the bytes 4 * i to 4 * i + 3; rows 1 to 3 move one place to the left.
  function Shifted(s: Block): Block {
    [s[0], s[1], s[2], s[3],
     s[5], s[6], s[7], s[4],
     s[9], s[10], s[11], s[8],
     s[13], s[14], s[15], s[12]]
  }

  function Unshifted(s: Block): Block {
    [s[0], s[1], s[2], s[3],
     s[7], s[4], s[5], s[6],
     s[11], s[8], s[9], s[10],
     s[15], s[12], s[13], s[14]]
  }

  function ColumnAt(s: Block, j: nat): Column
    requires j < 4
  {
    Column(s[j], s[4 + j], s[8 + j], s[12 + j])
  }

  function OfColumns(p: Column, q: Column, r: Column, s: Column): Block {
    [p.a, q.a, r.a, s.a, p.b, q.b, r.b, s.b, p.c, q.c, r.c, s.c, p.d, q.d, r.d, s.d]
  }

  function Mixed(m: Matrix, s: Block): Block {
    OfColumns(Apply(m, ColumnAt(s, 0)), Apply(m, ColumnAt(s, 1)), Apply(m, ColumnAt(s, 2)), Apply(m, ColumnAt(s, 3)))
  }

  lemma XoredTwice(s: Block, k: Block)
    ensures Xored(Xored(s, k), k) == s
  {
    forall i | 0 <= i < 16
      ensures (s[i] ^ k[i]) ^ k[i] == s[i]
    {
    }
  }

  lemma UnshiftShifted(s: Block)
    ensures Unshifted(Shifted(s)) == s
  {
  }

  // inv is the inverse of the table box.
  ghost predicate Undoes(inv: Table, box: Table) {
    forall x: bv8 :: Look(inv, Look(box, x)) == x
  }

  lemma SubstituteBack(s: Block, box: Table, inv: Table)
    requires Undoes(inv, box)
    ensures Substituted(Substituted(s, box), inv) == s
  {
  }

  lemma UnmixMixedBlock(s: Block)
    ensures Mixed(UNMIX, Mixed(MIX, s)) == s
  {
    hide Apply, OfColumns, ColumnAt;
    var p, q, r, t := ColumnAt(s, 0), ColumnAt(s, 1), ColumnAt(s, 2), ColumnAt(s, 3);
    ColumnsOf(s);
    ColumnsBack(Apply(MIX, p), Apply(MIX, q), Apply(MIX, r), Apply(MIX, t));
    UnmixMixed(p);
    UnmixMixed(q);
    UnmixMixed(r);
    UnmixMixed(t);
  }

  // The text after the first key and i rounds of encrypt's loop.
  function EncryptRounds(s: Block, rkeys: seq<Block>, box: Table, i: nat): Block
    requires i < |rkeys|
  {
    if i == 0 then Xored(s, rkeys[0])
    else Xored(Mixed(MIX, Shifted(Substituted(EncryptRounds(s, rkeys, box, i - 1), box))), rkeys[i])
  }

  function EncryptBlock(s: Block, rkeys: seq<Block>, box: Table): Block
    requires |rkeys| == 11
  {
    Xored(Shifted(Substituted(EncryptRounds(s, rkeys, box, 9), box)), rkeys[10])
  }

  // The text after the last key and i rounds of decrypt's loop.
  function DecryptRounds(s: Block, rkeys: seq<Block>, inv: Table, i: nat): Block
    requires |rkeys| == 11 && i <= 10
  {
    if i == 0 then Xored(s, rkeys[10])
    else Mixed(UNMIX, Xored(Substituted(Unshifted(DecryptRounds(s, rkeys, inv, i - 1)), inv), rkeys[10 - i]))
  }

  function DecryptBlock(s: Block, rkeys: seq<Block>, inv: Table): Block
    requires |rkeys| == 11
  {
    Xored(Substituted(Unshifted(DecryptRounds(s, rkeys, inv, 9)), inv), rkeys[0])
  }

  // Round i of decrypt stands where encrypt stood before mixing its round 10 - i.
  lemma {:induction false} RoundsMirror(s: Block, rkeys: seq<Block>, box: Table, inv: Table, i: nat)
    requires |rkeys| == 11 && i <= 9 && Undoes(inv, box)
    ensures DecryptRounds(EncryptBlock(s, rkeys, box), rkeys, inv, i)
         == Shifted(Substituted(EncryptRounds(s, rkeys, box, 9 - i), box))
  {
    hide Xored, Substituted, Shifted, Unshifted, Mixed, Undoes, EncryptRounds, DecryptRounds;
    var now := EncryptRounds(s, rkeys, box, 9 - i);
    DecryptRoundIs(EncryptBlock(s, rkeys, box), rkeys, inv, i);
    if i == 0 {
      XoredTwice(Shifted(Substituted(now, box)), rkeys[10]);
    } else {
      RoundsMirror(s, rkeys, box, inv, i - 1);
      EncryptRoundIs(s, rkeys, box, 10 - i);
      UnshiftShifted(Substituted(EncryptRounds(s, rkeys, box, 10 - i), box));
      SubstituteBack(EncryptRounds(s, rkeys, box, 10 - i), box, inv);
      XoredTwice(Mixed(MIX, Shifted(Substituted(now, box))), rkeys[10 - i]);
      UnmixMixedBlock(Shifted(Substituted(now, box)));
    }
  }

  lemma EncryptRoundIs(s: Block, rkeys: seq<Block>, box: Table, i: nat)
    requires i < |rkeys|
    ensures EncryptRounds(s, rkeys, box, i) == if i == 0 then Xored(s, rkeys[0]) else
              Xored(Mixed(MIX, Shifted(Substituted(EncryptRounds(s, rkeys, box, i - 1), box))), rkeys[i])
  {
  }

  lemma DecryptRoundIs(s: Block, rkeys: seq<Block>, inv: Table, i: nat)
    requires |rkeys| == 11 && i <= 10
    ensures DecryptRounds(s, rkeys, inv, i) == if i == 0 then Xored(s, rkeys[10]) else
              Mixed(UNMIX, Xored(Substituted(Unshifted(DecryptRounds(s, rkeys, inv, i - 1)), inv), rkeys[10 - i]))
  {
  }

  // The byte in row i and column j.
  function At(s: Block, i: nat, j: nat): bv8
    requires i < 4 && j < 4
  {
    s[4 * i + j]
  }

  // ---------- the cipher, byte by byte ----------

  // What a round puts in row i and column j before it mixes: rows 1 to 3 have moved one place to the left.
  function Moved(s: Block, box: Table, i: nat, j: nat): bv8
    requires i < 4 && j < 4
  {
    Look(box, At(s, i, if i == 0 then j else (j + 1) % 4))
  }

  // t is s plus the key.
  ghost predicate KeyAdded(s: Block, t: Block, key: Block) {
    forall i: nat, j: nat :: i < 4 && j < 4 ==> At(t, i, j) == Add(At(s, i, j), At(key, i, j))
  }

  // One whole round: twice the byte of its own row, three times the one of the next row, and those of the other two.
  ghost predicate RoundOf(s: Block, t: Block, key: Block, box: Table) {
    forall i: nat, j: nat :: i < 4 && j < 4 ==>
      At(t, i, j) == Add(Sum4(Mul(2, Moved(s, box, i, j)), Mul(3, Moved(s, box, (i + 1) % 4, j)),
                              Moved(s, box, (i + 2) % 4, j), Moved(s, box, (i + 3) % 4, j)), At(key, i, j))
  }

  // The last round does not mix.
  ghost predicate LastRoundOf(s: Block, t: Block, key: Block, box: Table) {
    forall i: nat, j: nat :: i < 4 && j < 4 ==> At(t, i, j) == Add(Moved(s, box, i, j), At(key, i, j))
  }

  // The text before each of the ten rounds.
  ghost predicate Stages(st: seq<Block>, s: Block, t: Block, rkeys: seq<Block>, box: Table) {
    && |rkeys| == 11 && |st| == 10
    && KeyAdded(s, st[0], rkeys[0])
    && (forall r: nat :: 1 <= r < 10 ==> RoundOf(st[r - 1], st[r], rkeys[r], box))
    && LastRoundOf(st[9], t, rkeys[10], box)
  }

  ghost predicate EncryptsTo(s: Block, t: Block, rkeys: seq<Block>, box: Table) {
    exists st: seq<Block> :: Stages(st, s, t, rkeys, box)
  }

  lemma XoredAt(s: Block, k: Block, i: nat, j: nat)
    requires i < 4 && j < 4
    ensures At(Xored(s, k), i, j) == Add(At(s, i, j), At(k, i, j))
  {
  }

  lemma ShiftedAt(s: Block, box: Table, i: nat, j: nat)
    requires i < 4 && j < 4
    ensures At(Shifted(Substituted(s, box)), i, j) == Moved(s, box, i, j)
  {
    hide Look, Shifted, Substituted, At;
    RowShifted(Substituted(s, box), i, j);
    SubstitutedAt(s, box, i, if i == 0 then j else (j + 1) % 4);
  }

  lemma SubstitutedAt(s: Block, box: Table, i: nat, j: nat)
    requires i < 4 && j < 4
    ensures At(Substituted(s, box), i, j) == Look(box, At(s, i, j))
  {
    hide Look;
  }

  lemma RowShifted(s: Block, i: nat, j: nat)
    requires i < 4 && j < 4
    ensures At(Shifted(s), i, j) == At(s, i, if i == 0 then j else (j + 1) % 4)
  {
    if j == 3 {
      RowEnds(s, i);
    }
  }

  lemma RowEnds(s: Block, i: nat)
    requires i < 4
    ensures At(Shifted(s), i, 3) == At(s, i, if i == 0 then 3 else 0)
  {
  }

  lemma MixedAt(s: Block, i: nat, j: nat)
    requires i < 4 && j < 4
    ensures At(Mixed(MIX, s), i, j) == Sum4(Mul(2, At(s, i, j)), Mul(3, At(s, (i + 1) % 4, j)),
                                            At(s, (i + 2) % 4, j), At(s, (i + 3) % 4, j))
  {
    hide Mul, Sum4, Mixed, At, Apply, ColumnAt;
    var c := ColumnAt(s, j);
    MixedColumn(s, j);
    ByRow(Mixed(MIX, s), j);
    ByRow(s, j);
    MixLine(c);
  }

  // A column through the matrix, each line written from its own row on.
  lemma MixLine(c: Column)
    ensures Apply(MIX, c) == Column(Sum4(Mul(2, c.a), Mul(3, c.b), c.c, c.d), Sum4(Mul(2, c.b), Mul(3, c.c), c.d, c.a),
                                    Sum4(Mul(2, c.c), Mul(3, c.d), c.a, c.b), Sum4(Mul(2, c.d), Mul(3, c.a), c.b, c.c))
  {
    hide Mul, Sum4;
    UnitFactors(c.a, c.b, c.c, c.d);
    Sum4Turn(Mul(2, c.a), Mul(3, c.b), c.c, c.d);
    Sum4Turn(Mul(2, c.b), Mul(3, c.c), c.d, c.a);
    Sum4Turn(Mul(2, c.c), Mul(3, c.d), c.a, c.b);
    Sum4Turn(Mul(2, c.d), Mul(3, c.a), c.b, c.c);
  }

  lemma ByRow(s: Block, j: nat)
    requires j < 4
    ensures ColumnAt(s, j) == Column(At(s, 0, j), At(s, 1, j), At(s, 2, j), At(s, 3, j))
  {
  }

  lemma MixedColumn(s: Block, j: nat)
    requires j < 4
    ensures ColumnAt(Mixed(MIX, s), j) == Apply(MIX, ColumnAt(s, j))
  {
    hide Apply, ColumnAt, OfColumns;
    ColumnsBack(Apply(MIX, ColumnAt(s, 0)), Apply(MIX, ColumnAt(s, 1)),
                Apply(MIX, ColumnAt(s, 2)), Apply(MIX, ColumnAt(s, 3)));
  }

  lemma Sum4Turn(x: bv8, y: bv8, z: bv8, w: bv8)
    ensures Sum4(x, y, z, w) == Sum4(y, z, w, x) == Sum4(z, w, x, y) == Sum4(w, x, y, z)
  {
    hide Sum4;
    Sum4Next(x, y, z, w);
    Sum4Next(y, z, w, x);
    Sum4Next(z, w, x, y);
  }

  lemma Sum4Next(x: bv8, y: bv8, z: bv8, w: bv8)
    ensures Sum4(x, y, z, w) == Sum4(y, z, w, x)
  {
    hide Add;
    AddComm(x, y);
    AddSwap(y, x, z, w);
    AddComm(x, w);
  }

  lemma RoundIs(s: Block, key: Block, box: Table)
    ensures RoundOf(s, Xored(Mixed(MIX, Shifted(Substituted(s, box))), key), key, box)
    ensures LastRoundOf(s, Xored(Shifted(Substituted(s, box)), key), key, box)
    ensures KeyAdded(s, Xored(s, key), key)
  {
    hide At, Xored, Mixed, Shifted, Substituted, Moved, Mul, Sum4, Add;
    var u := Shifted(Substituted(s, box));
    forall i: nat, j: nat | i < 4 && j < 4
      ensures At(u, i, j) == Moved(s, box, i, j) && At(Xored(s, key), i, j) == Add(At(s, i, j), At(key, i, j))
    {
      ShiftedAt(s, box, i, j);
      XoredAt(s, key, i, j);
    }
    forall i: nat, j: nat | i < 4 && j < 4
      ensures At(Xored(Mixed(MIX, u), key), i, j)
           == Add(Sum4(Mul(2, At(u, i, j)), Mul(3, At(u, (i + 1) % 4, j)),
                       At(u, (i + 2) % 4, j), At(u, (i + 3) % 4, j)), At(key, i, j))
      ensures At(Xored(u, key), i, j) == Add(At(u, i, j), At(key, i, j))
    {
      MixedAt(u, i, j);
      XoredAt(Mixed(MIX, u), key, i, j);
      XoredAt(u, key, i, j);
    }
  }

  // The cipher is the first key, nine rounds that mix and one that does not.
  lemma EncryptStages(s: Block, rkeys: seq<Block>, box: Table)
    requires |rkeys| == 11
    ensures EncryptsTo(s, EncryptBlock(s, rkeys, box), rkeys, box)
  {
    hide EncryptRounds, Xored, Mixed, Shifted, Substituted, RoundOf, LastRoundOf, KeyAdded;
    var st: seq<Block> := seq(10, r requires 0 <= r < 10 => EncryptRounds(s, rkeys, box, r));
    EncryptRoundIs(s, rkeys, box, 0);
    RoundIs(s, rkeys[0], box);
    forall r: nat | 1 <= r < 10
      ensures RoundOf(st[r - 1], st[r], rkeys[r], box)
    {
      EncryptRoundIs(s, rkeys, box, r);
      RoundIs(st[r - 1], rkeys[r], box);
    }
    RoundIs(st[9], rkeys[10], box);
    assert Stages(st, s, EncryptBlock(s, rkeys, box), rkeys, box);
  }

  lemma SameText(t: Block, u: Block)
    requires forall i: nat, j: nat :: i < 4 && j < 4 ==> At(t, i, j) == At(u, i, j)
    ensures t == u
  {
    forall k | 0 <= k < 16
      ensures t[k] == u[k]
    {
      assert At(t, k / 4, k % 4) == At(u, k / 4, k % 4);
    }
  }

  lemma RoundOnly(s: Block, t: Block, u: Block, key: Block, box: Table)
    ensures KeyAdded(s, t, key) && KeyAdded(s, u, key) ==> t == u
    ensures RoundOf(s, t, key, box) && RoundOf(s, u, key, box) ==> t == u
    ensures LastRoundOf(s, t, key, box) && LastRoundOf(s, u, key, box) ==> t == u
  {
    hide At, Moved, Mul, Sum4, Add;
    if forall i: nat, j: nat :: i < 4 && j < 4 ==> At(t, i, j) == At(u, i, j) {
      SameText(t, u);
    }
  }

  lemma {:induction false} StageOnly(st: seq<Block>, s: Block, t: Block, rkeys: seq<Block>, box: Table, r: nat)
    requires Stages(st, s, t, rkeys, box) && r < 10
    ensures st[r] == EncryptRounds(s, rkeys, box, r)
  {
    hide EncryptRounds, Xored, Mixed, Shifted, Substituted, RoundOf, LastRoundOf, KeyAdded;
    EncryptRoundIs(s, rkeys, box, r);
    if r == 0 {
      RoundIs(s, rkeys[0], box);
      RoundOnly(s, st[0], Xored(s, rkeys[0]), rkeys[0], box);
    } else {
      StageOnly(st, s, t, rkeys, box, r - 1);
      RoundIs(st[r - 1], rkeys[r], box);
      RoundOnly(st[r - 1], st[r], EncryptRounds(s, rkeys, box, r), rkeys[r], box);
    }
  }

  // And that determines the cipher.
  lemma EncryptsOnly(s: Block, t: Block, rkeys: seq<Block>, box: Table)
    requires EncryptsTo(s, t, rkeys, box)
    ensures |rkeys| == 11 && t == EncryptBlock(s, rkeys, box)
  {
    hide EncryptRounds, Xored, Mixed, Shifted, Substituted, RoundOf, LastRoundOf, KeyAdded;
    var st: seq<Block> :| Stages(st, s, t, rkeys, box);
    StageOnly(st, s, t, rkeys, box, 9);
    RoundIs(st[9], rkeys[10], box);
    RoundOnly(st[9], t, EncryptBlock(s, rkeys, box), rkeys[10], box);
  }

  // Whatever the eleven round keys, decrypt undoes encrypt.
  lemma DecryptEncrypt(s: Block, rkeys: seq<Block>, box: Table, inv: Table)
    requires |rkeys| == 11 && Undoes(inv, box)
    ensures DecryptBlock(EncryptBlock(s, rkeys, box), rkeys, inv) == s
  {
    hide Xored, Substituted, Shifted, Unshifted, Mixed, Undoes, EncryptRounds, DecryptRounds, EncryptBlock;
    RoundsMirror(s, rkeys, box, inv, 9);
    var first := EncryptRounds(s, rkeys, box, 0);
    EncryptRoundIs(s, rkeys, box, 0);
    UnshiftShifted(Substituted(first, box));
    SubstituteBack(first, box, inv);
    XoredTwice(s, rkeys[0]);
  }

  method AddRoundKey(text: array<bv8>, key: Block)
    requires text.Length == 16
    modifies text
    ensures text[..] == Xored(old(text[..]), key)
  {
    for i := 0 to 16
      invariant forall k :: 0 <= k < i ==> text[k] == old(text[k]) ^ key[k]
      invariant forall k :: i <= k < 16 ==> text[k] == old(text[k])
    {
      text[i] := text[i] ^ key[i];
    }
  }

  method SubText(text: array<bv8>, box: Table)
    requires text.Length == 16
    modifies text
    ensures text[..] == Substituted(old(text[..]), box)
  {
    for j := 0 to 16
      invariant forall k :: 0 <= k < j ==> text[k] == Look(box, old(text[k]))
      invariant forall k :: j <= k < 16 ==> text[k] == old(text[k])
    {
      text[j] := Look(box, text[j]);
    }
  }

  // The text when the rows from 1 up to row have moved.
  function ShiftedTo(s: Block, t: Block, row: nat): Block {
    s[..4] + (if row > 1 then t[4..8] else s[4..8]) + (if row > 2 then t[8..12] else s[8..12])
      + (if row > 3 then t[12..] else s[12..])
  }

  // t is s with one row replaced.
  predicate RowMoved(s: Block, t: Block, row: nat, moved: seq<bv8>)
    requires row < 4 && |moved| == 4
  {
    && (forall k :: 0 <= k < 4 * row ==> t[k] == s[k])
    && (forall k :: 4 * row + 4 <= k < 16 ==> t[k] == s[k])
    && t[4 * row] == moved[0] && t[4 * row + 1] == moved[1]
    && t[4 * row + 2] == moved[2] && t[4 * row + 3] == moved[3]
  }

  lemma RowStep(s: Block, t: Block, now: Block, next: Block, row: nat)
    requires 1 <= row < 4 && now == ShiftedTo(s, t, row) && RowMoved(now, next, row, t[4 * row..4 * row + 4])
    ensures next == ShiftedTo(s, t, row + 1)
  {
  }

  lemma RowsDone(s: Block, t: Block)
    requires t[..4] == s[..4]
    ensures ShiftedTo(s, t, 1) == s && ShiftedTo(s, t, 4) == t
  {
  }

  method ShiftRows(text: array<bv8>)
    requires text.Length == 16
    modifies text
    ensures text[..] == Shifted(old(text[..]))
  {
    hide ShiftedTo, RowMoved;
    ghost var s: Block := text[..];
    ghost var t := Shifted(s);
    RowsDone(s, t);
    for i := 1 to 4
      invariant text[..] == ShiftedTo(s, t, i)
    {
      ghost var now: Block := text[..];
      RowOf(s, t, i);
      RowLeft(s, now, i);
      RotateRow(text, i);
      RowStep(s, t, now, text[..], i);
    }
  }

  lemma RowOf(s: Block, t: Block, row: nat)
    requires 1 <= row < 4
    ensures ShiftedTo(s, t, row)[4 * row..4 * row + 4] == s[4 * row..4 * row + 4]
  {
  }

  lemma RowLeft(s: Block, u: Block, row: nat)
    requires 1 <= row < 4 && u[4 * row..4 * row + 4] == s[4 * row..4 * row + 4]
    ensures Shifted(s)[4 * row..4 * row + 4] == Left(u, row)
  {
    var r := s[4 * row..4 * row + 4];
    assert Left(u, row) == [r[1], r[2], r[3], r[0]];
  }

  lemma RowRight(s: Block, u: Block, row: nat)
    requires 1 <= row < 4 && u[4 * row..4 * row + 4] == s[4 * row..4 * row + 4]
    ensures Unshifted(s)[4 * row..4 * row + 4] == Right(u, row)
  {
    var r := s[4 * row..4 * row + 4];
    assert Right(u, row) == [r[3], r[0], r[1], r[2]];
  }

  function Left(s: Block, i: nat): seq<bv8>
    requires i < 4
  {
    [s[4 * i + 1], s[4 * i + 2], s[4 * i + 3], s[4 * i]]
  }

  function Right(s: Block, i: nat): seq<bv8>
    requires i < 4
  {
    [s[4 * i + 3], s[4 * i], s[4 * i + 1], s[4 * i + 2]]
  }

  // The body of shift_rows's outer loop.
  method RotateRow(text: array<bv8>, i: nat)
    requires text.Length == 16 && i < 4
    modifies text
    ensures RowMoved(old(text[..]), text[..], i, Left(old(text[..]), i))
  {
    var temp := text[4 * i];
    for j := 0 to 3
      invariant forall k :: 0 <= k < 4 * i || 4 * i + j <= k < 16 ==> text[k] == old(text[k])
      invariant j > 0 ==> text[4 * i] == old(text[4 * i + 1])
      invariant j > 1 ==> text[4 * i + 1] == old(text[4 * i + 2])
      invariant j > 2 ==> text[4 * i + 2] == old(text[4 * i + 3])
    {
      text[4 * i + j] := text[4 * i + j + 1];
    }
    text[4 * i + 3] := temp;
  }

  method ShiftRowsInv(text: array<bv8>)
    requires text.Length == 16
    modifies text
    ensures text[..] == Unshifted(old(text[..]))
  {
    hide ShiftedTo, RowMoved;
    ghost var s: Block := text[..];
    ghost var t := Unshifted(s);
    RowsDone(s, t);
    for i := 1 to 4
      invariant text[..] == ShiftedTo(s, t, i)
    {
      ghost var now: Block := text[..];
      RowOf(s, t, i);
      RowRight(s, now, i);
      RotateRowInv(text, i);
      RowStep(s, t, now, text[..], i);
    }
  }

  // The body of shift_rows_inv's outer loop.
  method RotateRowInv(text: array<bv8>, i: nat)
    requires text.Length == 16 && i < 4
    modifies text
    ensures RowMoved(old(text[..]), text[..], i, Right(old(text[..]), i))
  {
    var temp := text[4 * i + 3];
    for j := 4 downto 1
      invariant forall k :: 0 <= k < 4 * i + j || 4 * i + 4 <= k < 16 ==> text[k] == old(text[k])
      invariant j <= 3 ==> text[4 * i + 3] == old(text[4 * i + 2])
      invariant j <= 2 ==> text[4 * i + 2] == old(text[4 * i + 1])
      invariant j <= 1 ==> text[4 * i + 1] == old(text[4 * i])
    {
      text[4 * i + j] := text[4 * i + j - 1];
    }
    text[4 * i] := temp;
  }

  // The text once its first n columns have gone through m.
  function MixedTo(m: Matrix, s: Block, n: nat): Block {
    OfColumns(if n > 0 then Apply(m, ColumnAt(s, 0)) else ColumnAt(s, 0),
              if n > 1 then Apply(m, ColumnAt(s, 1)) else ColumnAt(s, 1),
              if n > 2 then Apply(m, ColumnAt(s, 2)) else ColumnAt(s, 2),
              if n > 3 then Apply(m, ColumnAt(s, 3)) else ColumnAt(s, 3))
  }

  // t is s with column i replaced by c.
  predicate ColumnSet(s: Block, t: Block, i: nat, c: Column)
    requires i < 4
  {
    && ColumnAt(t, i) == c
    && (forall j: nat :: j < 4 && j != i ==> ColumnAt(t, j) == ColumnAt(s, j))
  }

  lemma ColumnStep(m: Matrix, s: Block, now: Block, next: Block, i: nat)
    requires i < 4 && now == MixedTo(m, s, i) && ColumnSet(now, next, i, Apply(m, ColumnAt(now, i)))
    ensures next == MixedTo(m, s, i + 1)
  {
    hide Apply, OfColumns, ColumnAt;
    ColumnsOf(next);
    ColumnsBack(if i > 0 then Apply(m, ColumnAt(s, 0)) else ColumnAt(s, 0),
                if i > 1 then Apply(m, ColumnAt(s, 1)) else ColumnAt(s, 1),
                if i > 2 then Apply(m, ColumnAt(s, 2)) else ColumnAt(s, 2),
                ColumnAt(s, 3));
  }

  lemma ColumnsOf(s: Block)
    ensures s == OfColumns(ColumnAt(s, 0), ColumnAt(s, 1), ColumnAt(s, 2), ColumnAt(s, 3))
  {
  }

  lemma ColumnsBack(p: Column, q: Column, r: Column, s: Column)
    ensures ColumnAt(OfColumns(p, q, r, s), 0) == p && ColumnAt(OfColumns(p, q, r, s), 1) == q
    ensures ColumnAt(OfColumns(p, q, r, s), 2) == r && ColumnAt(OfColumns(p, q, r, s), 3) == s
  {
  }

  lemma ColumnsDone(m: Matrix, s: Block)
    ensures MixedTo(m, s, 0) == s && MixedTo(m, s, 4) == Mixed(m, s)
  {
    hide Apply;
  }

  method MixColumns(text: array<bv8>)
    requires text.Length == 16
    modifies text
    ensures text[..] == Mixed(MIX, old(text[..]))
  {
    hide Apply, MixedTo, ColumnSet, Mixed, ColumnAt;
    var column := new bv8[4];
    ColumnsDone(MIX, text[..]);
    for i := 0 to 4
      invariant text[..] == MixedTo(MIX, old(text[..]), i)
    {
      ghost var now: Block := text[..];
      TakeColumn(text, column, i);
      GmixColumn(column);
      PutColumn(text, column, i);
      ColumnStep(MIX, old(text[..]), now, text[..], i);
    }
  }

  method MixColumnsInv(text: array<bv8>)
    requires text.Length == 16
    modifies text
    ensures text[..] == Mixed(UNMIX, old(text[..]))
  {
    hide Apply, MixedTo, ColumnSet, Mixed, ColumnAt;
    var column := new bv8[4];
    ColumnsDone(UNMIX, text[..]);
    for i := 0 to 4
      invariant text[..] == MixedTo(UNMIX, old(text[..]), i)
    {
      ghost var now: Block := text[..];
      TakeColumn(text, column, i);
      GmixColumnInv(column);
      PutColumn(text, column, i);
      ColumnStep(UNMIX, old(text[..]), now, text[..], i);
    }
  }

  // The inner loop that copies column i out of the text.
  method TakeColumn(text: array<bv8>, column: array<bv8>, i: nat)
    requires text.Length == 16 && column.Length == 4 && text != column && i < 4
    modifies column
    ensures ColumnOf(column[..]) == ColumnAt(text[..], i)
  {
    for j := 0 to 4
      invariant forall k :: 0 <= k < j ==> column[k] == text[4 * k + i]
    {
      column[j] := text[4 * j + i];
    }
  }

  // The inner loop that copies it back.
  method PutColumn(text: array<bv8>, column: array<bv8>, i: nat)
    requires text.Length == 16 && column.Length == 4 && text != column && i < 4
    modifies text
    ensures ColumnSet(old(text[..]), text[..], i, ColumnOf(column[..]))
  {
    for j := 0 to 4
      invariant forall k :: 0 <= k < 16 && (k % 4 != i || k / 4 >= j) ==> text[k] == old(text[k])
      invariant forall k :: 0 <= k < j ==> text[4 * k + i] == column[k]
    {
      text[4 * j + i] := column[j];
    }
    assert text[i] == text[4 * 0 + i] && text[8 + i] == text[4 * 2 + i];
    forall j: nat | j < 4 && j != i
      ensures ColumnAt(text[..], j) == ColumnAt(old(text[..]), j)
    {
    }
  }

  method Encrypt(text: array<bv8>, rkeys: seq<Block>, box: Table)
    requires text.Length == 16 && |rkeys| == 11
    modifies text
    ensures text[..] == EncryptBlock(old(text[..]), rkeys, box)
    ensures EncryptsTo(old(text[..]), text[..], rkeys, box)
  {
    hide Xored, Substituted, Shifted, Mixed, EncryptsTo;
    EncryptStages(text[..], rkeys, box);
    var rounds := 10;
    AddRoundKey(text, rkeys[0]);
    for i := 0 to rounds - 1
      invariant text[..] == EncryptRounds(old(text[..]), rkeys, box, i)
    {
      SubText(text, box);
      ShiftRows(text);
      MixColumns(text);
      AddRoundKey(text, rkeys[i + 1]);
    }
    SubText(text, box);
    ShiftRows(text);
    AddRoundKey(text, rkeys[10]);
  }

  method Decrypt(text: array<bv8>, rkeys: seq<Block>, inv: Table)
    requires text.Length == 16 && |rkeys| == 11
    modifies text
    ensures text[..] == DecryptBlock(old(text[..]), rkeys, inv)
  {
    hide Xored, Substituted, Unshifted, Mixed;
    var rounds := 10;
    AddRoundKey(text, rkeys[10]);
    for i := 0 to rounds - 1
      invariant text[..] == DecryptRounds(old(text[..]), rkeys, inv, i)
    {
      ShiftRowsInv(text);
      SubText(text, inv);
      AddRoundKey(text, rkeys[10 - i - 1]);
      MixColumnsInv(text);
    }
    ShiftRowsInv(text);
    SubText(text, inv);
    AddRoundKey(text, rkeys[0]);
  }
}
