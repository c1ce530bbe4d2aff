// The key schedule of aes.c: 44 words of four bytes, each the word four places back plus a function of
// the one before. The round constant is added to all four bytes of a word. Any one round key determines
// the cipher key, so the schedule loses nothing.
module AesKeys {
  import opened AesField
  import opened AesSbox
  import opened AesColumns
  import opened Aes

  type Key = s: seq<bv32> | |s| == 4 witness [0, 0, 0, 0]

  const RC: seq<bv8> := [0x01, 0x02, 0x04, 0x08, 0x10, 0x20, 0x40, 0x80, 0x1B, 0x36]

  // The bytes of a word, least significant first.
  function Split(w: bv32): Column {
    Column((w & 0xff) as bv8, ((w >> 8) & 0xff) as bv8, ((w >> 16) & 0xff) as bv8, ((w >> 24) & 0xff) as bv8)
  }

  function RotSub(w: Column, box: Table): Column {
    Column(Look(box, w.b), Look(box, w.c), Look(box, w.d), Look(box, w.a))
  }

  function All(k: bv8): Column {
    Column(k, k, k, k)
  }

  // What is added to the word four places back to make word i.
  function Turn(w: Column, box: Table, i: nat): Column
    requires 4 <= i < 44
  {
    if i % 4 == 0 then Plus(RotSub(w, box), All(RC[i / 4 - 1])) else w
  }

  function Word(key: Key, box: Table, i: nat): Column
    requires i < 44
  {
    if i < 4 then Split(key[i]) else Plus(Word(key, box, i - 4), Turn(Word(key, box, i - 1), box, i))
  }

  // The four words of a round key, as expkey lays them out.
  function RoundKey(key: Key, box: Table, r: nat): Block
    requires r < 11
  {
    Bytes4(Word(key, box, 4 * r)) + Bytes4(Word(key, box, 4 * r + 1))
      + Bytes4(Word(key, box, 4 * r + 2)) + Bytes4(Word(key, box, 4 * r + 3))
  }

  ghost function RoundKeys(key: Key, box: Table): seq<Block> {
    seq(11, r requires 0 <= r < 11 => RoundKey(key, box, r))
  }

  lemma SplitInjective(v: bv32, w: bv32)
    requires Split(v) == Split(w)
    ensures v == w
  {
  }

  lemma PlusCancels(u: Column, v: Column, t: Column)
    requires Plus(u, t) == Plus(v, t)
    ensures u == v
  {
  }

  // Four words in a row, the same under both keys.
  predicate Agree(k1: Key, k2: Key, box: Table, i: nat)
    requires i <= 40
  {
    && Word(k1, box, i) == Word(k2, box, i) && Word(k1, box, i + 1) == Word(k2, box, i + 1)
    && Word(k1, box, i + 2) == Word(k2, box, i + 2) && Word(k1, box, i + 3) == Word(k2, box, i + 3)
  }

  lemma {:induction false} AgreeDown(k1: Key, k2: Key, box: Table, i: nat)
    requires i <= 40 && Agree(k1, k2, box, i)
    ensures Agree(k1, k2, box, 0)
  {
    hide Word, Plus, Turn;
    if i > 0 {
      WordStep(k1, box, i + 3);
      WordStep(k2, box, i + 3);
      PlusCancels(Word(k1, box, i - 1), Word(k2, box, i - 1), Turn(Word(k1, box, i + 2), box, i + 3));
      AgreeDown(k1, k2, box, i - 1);
    }
  }

  lemma WordStep(key: Key, box: Table, i: nat)
    requires 4 <= i < 44
    ensures Word(key, box, i) == Plus(Word(key, box, i - 4), Turn(Word(key, box, i - 1), box, i))
  {
  }

  // The word at place i of the flat array of round keys.
  ghost function WordAt(t: seq<bv8>, i: nat): Column
    requires 4 * i + 4 <= |t|
  {
    Column(t[4 * i], t[4 * i + 1], t[4 * i + 2], t[4 * i + 3])
  }

  lemma RoundKeyWords(key: Key, box: Table, r: nat)
    requires r < 11
    ensures WordAt(RoundKey(key, box, r), 0) == Word(key, box, 4 * r)
    ensures WordAt(RoundKey(key, box, r), 1) == Word(key, box, 4 * r + 1)
    ensures WordAt(RoundKey(key, box, r), 2) == Word(key, box, 4 * r + 2)
    ensures WordAt(RoundKey(key, box, r), 3) == Word(key, box, 4 * r + 3)
  {
    hide Word;
  }

  // Two keys that share any one round key are the same key.
  lemma RoundKeyDetermines(k1: Key, k2: Key, box: Table, r: nat)
    requires r < 11 && RoundKey(k1, box, r) == RoundKey(k2, box, r)
    ensures k1 == k2
  {
    hide Word, Split, RoundKey;
    RoundKeyWords(k1, box, r);
    RoundKeyWords(k2, box, r);
    AgreeDown(k1, k2, box, 4 * r);
    forall j | 0 <= j < 4
      ensures k1[j] == k2[j]
    {
      FirstWord(k1, box, j);
      FirstWord(k2, box, j);
      SplitInjective(k1[j], k2[j]);
    }
  }

  lemma FirstWord(key: Key, box: Table, i: nat)
    requires i < 4
    ensures Word(key, box, i) == Split(key[i])
  {
  }

  ghost predicate Filled(t: seq<bv8>, key: Key, box: Table, n: nat)
    requires |t| == 176 && n <= 44
  {
    forall i: nat :: i < n ==> WordAt(t, i) == Word(key, box, i)
  }

  // t2 is t with word i written.
  ghost predicate WordSet(t: seq<bv8>, t2: seq<bv8>, i: nat, w: Column)
    requires |t| == |t2| == 176 && i < 44
  {
    WordAt(t2, i) == w && t2[..4 * i] == t[..4 * i]
  }

  lemma FilledStep(t: seq<bv8>, t2: seq<bv8>, key: Key, box: Table, i: nat)
    requires |t| == |t2| == 176 && i < 44 && Filled(t, key, box, i) && WordSet(t, t2, i, Word(key, box, i))
    ensures Filled(t2, key, box, i + 1)
  {
    hide Word;
    forall j: nat | j < i
      ensures WordAt(t2, j) == WordAt(t, j)
    {
      assert t2[..4 * i][4 * j] == t[..4 * i][4 * j] && t2[..4 * i][4 * j + 1] == t[..4 * i][4 * j + 1];
      assert t2[..4 * i][4 * j + 2] == t[..4 * i][4 * j + 2] && t2[..4 * i][4 * j + 3] == t[..4 * i][4 * j + 3];
    }
  }

  method SplitWord(to: array<bv8>, at: nat, from: bv32)
    requires to.Length == 176 && at < 44
    modifies to
    ensures WordSet(old(to[..]), to[..], at, Split(from))
  {
    var i := 0;
    while i < 4
      invariant 0 <= i <= 4
      invariant to[..4 * at] == old(to[..4 * at])
      invariant i > 0 ==> to[4 * at] == Split(from).a
      invariant i > 1 ==> to[4 * at + 1] == Split(from).b
      invariant i > 2 ==> to[4 * at + 2] == Split(from).c
      invariant i > 3 ==> to[4 * at + 3] == Split(from).d
    {
      to[4 * at + i] := ((from >> (8 * i)) & 0xff) as bv8;
      i := i + 1;
    }
  }

  method RotWord(key: array<bv8>)
    requires key.Length == 4
    modifies key
    ensures key[..] == [old(key[1]), old(key[2]), old(key[3]), old(key[0])]
  {
    var temp := key[0];
    for i := 0 to 3
      invariant forall k :: 0 <= k < i ==> key[k] == old(key[k + 1])
      invariant forall k :: i <= k < 4 ==> key[k] == old(key[k])
    {
      key[i] := key[i + 1];
    }
    key[3] := temp;
  }

  // The word before word i, rotated into temp.
  method TakeRotated(t: array<bv8>, temp: array<bv8>, i: nat)
    requires t.Length == 176 && temp.Length == 4 && t != temp && 4 <= i < 44
    modifies temp
    ensures temp[..] == [t[4 * (i - 1) + 1], t[4 * (i - 1) + 2], t[4 * (i - 1) + 3], t[4 * (i - 1)]]
  {
    var prev := 4 * (i - 1);
    for j := 0 to 4
      invariant temp[..j] == t[prev..prev + j]
    {
      temp[j] := t[prev + j];
    }
    RotWord(temp);
  }

  // Word i from the word four places back, the table and the round constant.
  method AddTurned(t: array<bv8>, temp: array<bv8>, box: Table, i: nat, rc: bv8)
    requires t.Length == 176 && temp.Length == 4 && t != temp && 4 <= i < 44
    modifies t
    ensures WordSet(old(t[..]), t[..], i, Xor3(WordAt(old(t[..]), i - 4), Looked(temp[..], box), All(rc)))
  {
    hide Look, Xor3Of;
    var prevN := 4 * (i - 4);
    for j := 0 to 4
      invariant t[..4 * i] == old(t[..4 * i])
      invariant j > 0 ==> t[4 * i] == Xor3Of(old(t[prevN]), Look(box, temp[0]), rc)
      invariant j > 1 ==> t[4 * i + 1] == Xor3Of(old(t[prevN + 1]), Look(box, temp[1]), rc)
      invariant j > 2 ==> t[4 * i + 2] == Xor3Of(old(t[prevN + 2]), Look(box, temp[2]), rc)
      invariant j > 3 ==> t[4 * i + 3] == Xor3Of(old(t[prevN + 3]), Look(box, temp[3]), rc)
    {
      t[4 * i + j] := Xor3Of(t[prevN + j], Look(box, temp[j]), rc);
    }
  }

  function Looked(s: seq<bv8>, box: Table): Column
    requires |s| == 4
  {
    Column(Look(box, s[0]), Look(box, s[1]), Look(box, s[2]), Look(box, s[3]))
  }

  function Xor3Of(x: bv8, y: bv8, z: bv8): bv8 {
    x ^ y ^ z
  }

  function Xor3(u: Column, v: Column, w: Column): Column {
    Column(Xor3Of(u.a, v.a, w.a), Xor3Of(u.b, v.b, w.b), Xor3Of(u.c, v.c, w.c), Xor3Of(u.d, v.d, w.d))
  }

  lemma Xor3Plus(u: Column, v: Column, w: Column)
    ensures Xor3(u, v, w) == Plus(u, Plus(v, w))
  {
  }

  // The word i of expkey's loop inside a round key.
  method RestOfKey(t: array<bv8>, i: nat)
    requires t.Length == 176 && 4 <= i < 44
    modifies t
    ensures WordSet(old(t[..]), t[..], i, Plus(WordAt(old(t[..]), i - 4), WordAt(old(t[..]), i - 1)))
  {
    var prev := 4 * (i - 1);
    var prevN := 4 * (i - 4);
    for j := 0 to 4
      invariant t[..4 * i] == old(t[..4 * i])
      invariant j > 0 ==> t[4 * i] == old(t[prevN]) ^ old(t[prev])
      invariant j > 1 ==> t[4 * i + 1] == old(t[prevN + 1]) ^ old(t[prev + 1])
      invariant j > 2 ==> t[4 * i + 2] == old(t[prevN + 2]) ^ old(t[prev + 2])
      invariant j > 3 ==> t[4 * i + 3] == old(t[prevN + 3]) ^ old(t[prev + 3])
    {
      t[4 * i + j] := t[prevN + j] ^ t[prev + j];
    }
  }

  // The body of expkey's loop over the words.
  method NextWord(t: array<bv8>, temp: array<bv8>, box: Table, i: nat)
    requires t.Length == 176 && temp.Length == 4 && t != temp && 4 <= i < 44
    modifies t, temp
    ensures WordSet(old(t[..]), t[..], i, Plus(WordAt(old(t[..]), i - 4), Turn(WordAt(old(t[..]), i - 1), box, i)))
  {
    hide Look, WordSet, Plus, Xor3;
    if i % 4 == 0 {
      Xor3Plus(WordAt(t[..], i - 4), RotSub(WordAt(t[..], i - 1), box), All(RC[i / 4 - 1]));
      TakeRotated(t, temp, i);
      AddTurned(t, temp, box, i, RC[i / 4 - 1]);
    } else {
      RestOfKey(t, i);
    }
  }

  lemma FilledAt(t: seq<bv8>, key: Key, box: Table, n: nat, i: nat)
    requires |t| == 176 && i < n <= 44 && Filled(t, key, box, n)
    ensures WordAt(t, i) == Word(key, box, i)
  {
  }

  lemma FilledNone(t: seq<bv8>, key: Key, box: Table)
    requires |t| == 176
    ensures Filled(t, key, box, 0)
  {
  }

  method ExpKey(key: Key, box: Table) returns (rkeys: seq<Block>)
    ensures rkeys == RoundKeys(key, box) && Scheduled(rkeys, key, box)
  {
    hide Word, Turn, Plus, Split, RoundKey, Filled, WordSet, Scheduled;
    RoundKeysScheduled(key, box);
    var t := new bv8[176];
    var temp := new bv8[4];
    FilledNone(t[..], key, box);
    for i := 0 to 4
      invariant Filled(t[..], key, box, i)
    {
      ghost var was := t[..];
      SplitWord(t, i, key[i]);
      FirstWord(key, box, i);
      FilledStep(was, t[..], key, box, i);
    }
    for i := 4 to 44
      invariant Filled(t[..], key, box, i)
    {
      ghost var was := t[..];
      FilledAt(was, key, box, i, i - 4);
      FilledAt(was, key, box, i, i - 1);
      NextWord(t, temp, box, i);
      WordStep(key, box, i);
      FilledStep(was, t[..], key, box, i);
    }
    assert Filled(t[..], key, box, 44);
    rkeys := [];
    for i := 0 to 11
      invariant |rkeys| == i && Filled(t[..], key, box, 44)
      invariant forall r :: 0 <= r < i ==> rkeys[r] == RoundKey(key, box, r)
    {
      RoundKeyFilled(t[..], key, box, i);
      rkeys := rkeys + [t[16 * i..16 * i + 16]];
    }
  }

  lemma SameWords(s: Block, t: Block)
    requires WordAt(s, 0) == WordAt(t, 0) && WordAt(s, 1) == WordAt(t, 1)
    requires WordAt(s, 2) == WordAt(t, 2) && WordAt(s, 3) == WordAt(t, 3)
    ensures s == t
  {
    forall k | 0 <= k < 16
      ensures s[k] == t[k]
    {
    }
  }

  lemma SliceWord(t: seq<bv8>, r: nat, j: nat)
    requires |t| == 176 && r < 11 && j < 4
    ensures WordAt(t[16 * r..16 * r + 16], j) == WordAt(t, 4 * r + j)
  {
  }

  lemma RoundKeyFilled(t: seq<bv8>, key: Key, box: Table, r: nat)
    requires |t| == 176 && Filled(t, key, box, 44) && r < 11
    ensures t[16 * r..16 * r + 16] == RoundKey(key, box, r)
  {
    hide Word, RoundKey, WordAt;
    var k: Block := t[16 * r..16 * r + 16];
    RoundKeyWords(key, box, r);
    SliceWord(t, r, 0);
    SliceWord(t, r, 1);
    SliceWord(t, r, 2);
    SliceWord(t, r, 3);
    SameWords(k, RoundKey(key, box, r));
  }

  // ---------- the schedule, byte by byte ----------

  // X to the i, by multiplications.
  function XTimes(i: nat): bv8 {
    if i == 0 then 1 else Mul(XTimes(i - 1), 2)
  }

  // The first round key is the cipher key, each word's bytes from the least significant one.
  ghost predicate StartsWith(rk: Block, key: Key) {
    forall w: nat :: w < 4 ==>
      rk[4 * w..4 * w + 4] == [(key[w] & 0xff) as bv8, ((key[w] >> 8) & 0xff) as bv8,
                               ((key[w] >> 16) & 0xff) as bv8, ((key[w] >> 24) & 0xff) as bv8]
  }

  // A round key from the one before: its first word adds the last one, turned by one place and looked up, and the
  // same power of X to each of the four bytes; every other word adds the word beside it.
  ghost predicate NextKey(prev: Block, next: Block, box: Table, x: bv8) {
    && (forall j: nat :: j < 4 ==> next[j] == Add(Add(prev[j], Look(box, prev[12 + (j + 1) % 4])), x))
    && (forall j: nat :: 4 <= j < 16 ==> next[j] == Add(prev[j], next[j - 4]))
  }

  ghost predicate Scheduled(rkeys: seq<Block>, key: Key, box: Table) {
    && |rkeys| == 11
    && StartsWith(rkeys[0], key)
    && (forall r: nat :: 1 <= r < 11 ==> NextKey(rkeys[r - 1], rkeys[r], box, XTimes(r - 1)))
  }

  lemma XTimesNext(i: nat)
    ensures XTimes(i + 1) == Mul(XTimes(i), 2) == Eight(XTimes(i), 2)
    ensures XTimes(0) == 1
  {
    MulBits(XTimes(i), 2);
  }

  // The table rc holds the first ten powers.
  lemma PowersOfX(i: nat)
    requires i < 10
    ensures RC[i] == XTimes(i)
  {
    hide XTimes, Mul;
    XTimesNext(0);
    XTimesNext(1);
    XTimesNext(2);
    XTimesNext(3);
    XTimesNext(4);
    XTimesNext(5);
    XTimesNext(6);
    XTimesNext(7);
    XTimesNext(8);
  }

  lemma FirstKey(key: Key, box: Table)
    ensures StartsWith(RoundKey(key, box, 0), key)
  {
    hide RoundKey, Word;
    RoundKeyWords(key, box, 0);
    FirstWord(key, box, 0);
    FirstWord(key, box, 1);
    FirstWord(key, box, 2);
    FirstWord(key, box, 3);
    var rk := RoundKey(key, box, 0);
    forall w: nat | w < 4
      ensures rk[4 * w..4 * w + 4] == Bytes4(Split(key[w]))
    {
      WordBytes(rk, w);
    }
  }

  lemma WordBytes(rk: Block, w: nat)
    requires w < 4
    ensures rk[4 * w..4 * w + 4] == Bytes4(WordAt(rk, w))
  {
  }

  lemma LaterKey(key: Key, box: Table, r: nat)
    requires 1 <= r < 11
    ensures NextKey(RoundKey(key, box, r - 1), RoundKey(key, box, r), box, XTimes(r - 1))
  {
    hide RoundKey, Word, XTimes, WordAt, NextKey, TurnedBy, Plus;
    RoundKeyWords(key, box, r - 1);
    RoundKeyWords(key, box, r);
    FirstOfKey(key, box, r);
    RestOfWords(key, box, 4 * r + 1);
    RestOfWords(key, box, 4 * r + 2);
    RestOfWords(key, box, 4 * r + 3);
    BytesNext(RoundKey(key, box, r - 1), RoundKey(key, box, r), box, XTimes(r - 1));
  }

  lemma FirstOfKey(key: Key, box: Table, r: nat)
    requires 1 <= r < 11
    ensures Word(key, box, 4 * r) == TurnedBy(Word(key, box, 4 * r - 4), Word(key, box, 4 * r - 1), box, XTimes(r - 1))
  {
    hide Word, XTimes, Plus, Turn, TurnedBy;
    WordStep(key, box, 4 * r);
    PowersOfX(r - 1);
    TurnFirst(Word(key, box, 4 * r - 4), Word(key, box, 4 * r - 1), box, r);
  }

  lemma RestOfWords(key: Key, box: Table, i: nat)
    requires 4 <= i < 44 && i % 4 != 0
    ensures Word(key, box, i) == Plus(Word(key, box, i - 4), Word(key, box, i - 1))
  {
    hide Word, Plus;
    WordStep(key, box, i);
  }

  lemma TurnFirst(u: Column, w: Column, box: Table, r: nat)
    requires 1 <= r < 11
    ensures Plus(u, Turn(w, box, 4 * r)) == TurnedBy(u, w, box, RC[r - 1])
  {
    hide Look, Add;
    var x := RC[r - 1];
    AddAssoc(u.a, Look(box, w.b), x);
    AddAssoc(u.b, Look(box, w.c), x);
    AddAssoc(u.c, Look(box, w.d), x);
    AddAssoc(u.d, Look(box, w.a), x);
  }

  // The first word of a round key from the first and the last one of the key before.
  function TurnedBy(u: Column, w: Column, box: Table, x: bv8): Column {
    Column(Add(Add(u.a, Look(box, w.b)), x), Add(Add(u.b, Look(box, w.c)), x),
           Add(Add(u.c, Look(box, w.d)), x), Add(Add(u.d, Look(box, w.a)), x))
  }

  lemma BytesNext(prev: Block, next: Block, box: Table, x: bv8)
    requires WordAt(next, 0) == TurnedBy(WordAt(prev, 0), WordAt(prev, 3), box, x)
    requires WordAt(next, 1) == Plus(WordAt(prev, 1), WordAt(next, 0))
    requires WordAt(next, 2) == Plus(WordAt(prev, 2), WordAt(next, 1))
    requires WordAt(next, 3) == Plus(WordAt(prev, 3), WordAt(next, 2))
    ensures NextKey(prev, next, box, x)
  {
    hide Look, Add, WordAt, Plus, TurnedBy;
    forall j: nat | j < 4
      ensures next[j] == Add(Add(prev[j], Look(box, prev[12 + (j + 1) % 4])), x)
    {
      TurnedByte(prev, next, box, x, j);
    }
    forall j: nat | 4 <= j < 16
      ensures next[j] == Add(prev[j], next[j - 4])
    {
      PlusByte(prev, next, j / 4, j % 4);
    }
  }

  lemma TurnedByte(prev: Block, next: Block, box: Table, x: bv8, j: nat)
    requires j < 4 && WordAt(next, 0) == TurnedBy(WordAt(prev, 0), WordAt(prev, 3), box, x)
    ensures next[j] == Add(Add(prev[j], Look(box, prev[12 + (j + 1) % 4])), x)
  {
    hide Look, Add;
  }

  lemma PlusByte(prev: Block, next: Block, w: nat, j: nat)
    requires 1 <= w < 4 && j < 4 && WordAt(next, w) == Plus(WordAt(prev, w), WordAt(next, w - 1))
    ensures next[4 * w + j] == Add(prev[4 * w + j], next[4 * w + j - 4])
  {
    hide Add;
  }

  lemma RoundKeysScheduled(key: Key, box: Table)
    ensures Scheduled(RoundKeys(key, box), key, box)
  {
    hide RoundKey, StartsWith, NextKey, XTimes;
    FirstKey(key, box);
    forall r: nat | 1 <= r < 11
      ensures NextKey(RoundKeys(key, box)[r - 1], RoundKeys(key, box)[r], box, XTimes(r - 1))
    {
      LaterKey(key, box, r);
    }
  }

  lemma NextKeyOnly(prev: Block, n1: Block, n2: Block, box: Table, x: bv8)
    requires NextKey(prev, n1, box, x) && NextKey(prev, n2, box, x)
    ensures n1 == n2
  {
    hide Look, Add;
    forall j | 0 <= j < 16
      ensures n1[j] == n2[j]
    {
      NextByteOnly(prev, n1, n2, box, x, j);
    }
  }

  lemma {:induction false} NextByteOnly(prev: Block, n1: Block, n2: Block, box: Table, x: bv8, j: nat)
    requires j < 16 && NextKey(prev, n1, box, x) && NextKey(prev, n2, box, x)
    ensures n1[j] == n2[j]
  {
    hide Look, Add;
    if j < 4 {
      assert n1[j] == Add(Add(prev[j], Look(box, prev[12 + (j + 1) % 4])), x);
      assert n2[j] == Add(Add(prev[j], Look(box, prev[12 + (j + 1) % 4])), x);
    } else {
      NextByteOnly(prev, n1, n2, box, x, j - 4);
      assert n1[j] == Add(prev[j], n1[j - 4]);
      assert n2[j] == Add(prev[j], n2[j - 4]);
    }
  }

  lemma FirstKeyOnly(r1: Block, r2: Block, key: Key)
    requires StartsWith(r1, key) && StartsWith(r2, key)
    ensures r1 == r2
  {
    forall j | 0 <= j < 16
      ensures r1[j] == r2[j]
    {
      var w := j / 4;
      assert r1[4 * w..4 * w + 4] == Bytes4(Split(key[w])) == r2[4 * w..4 * w + 4];
      assert r1[j] == r1[4 * w..4 * w + 4][j % 4] && r2[j] == r2[4 * w..4 * w + 4][j % 4];
    }
  }

  // There is one schedule of a key.
  lemma {:induction false} ScheduledOnly(rkeys: seq<Block>, key: Key, box: Table, r: nat)
    requires Scheduled(rkeys, key, box) && r < 11
    ensures rkeys[r] == RoundKey(key, box, r)
  {
    hide StartsWith, NextKey, RoundKey, XTimes;
    if r == 0 {
      FirstKey(key, box);
      FirstKeyOnly(rkeys[0], RoundKey(key, box, 0), key);
    } else {
      ScheduledOnly(rkeys, key, box, r - 1);
      LaterKey(key, box, r);
      NextKeyOnly(rkeys[r - 1], rkeys[r], RoundKey(key, box, r), box, XTimes(r - 1));
    }
  }
}
