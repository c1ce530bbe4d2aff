// The short matches of LzFind.c: the two- and three-byte hash tables, and the pairs that
// Bt4_MatchFinder_GetMatches and Hc4_MatchFinder_GetMatches report before their own search.
module LzShort {
  import opened Words
  import opened Masks
  import opened LzTree
  import opened LzFind
  import opened LzHash
  import opened LzForest

  // The newest position below hi with two-byte hash i, or 0. The last three bytes have no hash.
  function Newest2(crc: seq<nat>, t: seq<byte>, hi: nat, i: nat): (q: nat)
    requires |crc| == 256 && hi > 0
    ensures q < hi && (q != 0 ==> q + 4 <= |t| && H2(crc, t[q], t[q + 1]) == i)
  {
    if hi == 1 then 0
    else if hi + 3 <= |t| && H2(crc, t[hi - 1], t[hi]) == i then hi - 1
    else Newest2(crc, t, hi - 1, i)
  }

  function Newest3(crc: seq<nat>, t: seq<byte>, hi: nat, i: nat): (q: nat)
    requires |crc| == 256 && hi > 0
    ensures q < hi && (q != 0 ==> q + 4 <= |t| && H3(crc, t[q], t[q + 1], t[q + 2]) == i)
  {
    if hi == 1 then 0
    else if hi + 3 <= |t| && H3(crc, t[hi - 1], t[hi], t[hi + 1]) == i then hi - 1
    else Newest3(crc, t, hi - 1, i)
  }

  // The two short tables hold exactly the newest positions below pos.
  ghost predicate Tables(crc: seq<nat>, t: seq<byte>, pos: nat, hash: seq<nat>) {
    && |crc| == 256 && |hash| >= FIX4 && pos > 0
    && (forall i :: 0 <= i < HASH2_SIZE ==> hash[i] == Newest2(crc, t, pos, i))
    && (forall i :: FIX3 <= i < FIX4 ==> hash[i] == Newest3(crc, t, pos, i - FIX3))
  }

  // The first n bytes dist back are those at pos.
  ghost predicate SameFor(t: seq<byte>, pos: nat, dist: nat, n: nat) {
    dist <= pos && forall i :: 0 <= i < n ==> At(t, pos - dist, i) == At(t, pos, i)
  }

  lemma SameMore(t: seq<byte>, pos: nat, dist: nat, n: nat)
    requires SameFor(t, pos, dist, n) && pos + n < |t| && t[pos - dist + n] == t[pos + n]
    ensures SameFor(t, pos, dist, n + 1)
  {
    forall i | 0 <= i < n + 1
      ensures At(t, pos - dist, i) == At(t, pos, i)
    {
    }
  }

  // A hit in the two-byte table that passes the check on one byte is a two-byte match.
  lemma Hit2(crc: seq<nat>, t: seq<byte>, pos: nat)
    requires |crc| == 256 && 0 < pos && pos + 4 <= |t|
    ensures var q := Newest2(crc, t, pos, H2(crc, t[pos], t[pos + 1]));
      q != 0 && t[q] == t[pos] ==> SameFor(t, pos, pos - q, 2)
  {
    hide H2;
    var q := Newest2(crc, t, pos, H2(crc, t[pos], t[pos + 1]));
    if q != 0 && t[q] == t[pos] {
      H2Determines(crc, t[pos], t[pos + 1], t[q + 1]);
      assert At(t, q, 0) == At(t, pos, 0) && At(t, q, 1) == At(t, pos, 1);
    }
  }

  lemma Hit3(crc: seq<nat>, t: seq<byte>, pos: nat)
    requires |crc| == 256 && 0 < pos && pos + 4 <= |t|
    ensures var q := Newest3(crc, t, pos, H3(crc, t[pos], t[pos + 1], t[pos + 2]));
      q != 0 && t[q] == t[pos] ==> SameFor(t, pos, pos - q, 3)
  {
    hide H3;
    var q := Newest3(crc, t, pos, H3(crc, t[pos], t[pos + 1], t[pos + 2]));
    if q != 0 && t[q] == t[pos] {
      H3Determines(crc, t[pos], t[pos + 1], t[pos + 2], t[q + 1], t[q + 2]);
      assert At(t, q, 0) == At(t, pos, 0) && At(t, q, 1) == At(t, pos, 1) && At(t, q, 2) == At(t, pos, 2);
    }
  }

  // UPDATE_maxLen
  method UpdateMaxLen(t: seq<byte>, pos: nat, d2: nat, lenLimit: nat, maxLen0: nat) returns (maxLen: nat)
    requires 0 < d2 <= pos && pos + lenLimit <= |t| && maxLen0 <= lenLimit && SameFor(t, pos, d2, maxLen0)
    ensures maxLen0 <= maxLen <= lenLimit && SameFor(t, pos, d2, maxLen)
    ensures maxLen < lenLimit ==> t[pos - d2 + maxLen] != t[pos + maxLen]
  {
    maxLen := maxLen0;
    while maxLen != lenLimit
      invariant maxLen0 <= maxLen <= lenLimit && SameFor(t, pos, d2, maxLen)
    {
      if t[pos - d2 + maxLen] != t[pos + maxLen] {
        break;
      }
      SameMore(t, pos, d2, maxLen);
      maxLen := maxLen + 1;
    }
  }

  lemma OneTrue(t: seq<byte>, pos: nat, n: nat, lo: nat, d: nat, len: nat)
    requires 0 < d < pos && lo < pos - d && len <= n && SameFor(t, pos, d, len)
    requires len < n ==> At(t, pos - d, len) != At(t, pos, len)
    ensures TrueMatch(t, pos, n, lo, Found(len, d - 1))
  {
  }

  datatype Short = Short(maxLen: nat, found: seq<Found>)

  // What the two tables' hits, at distances d2 and d3, amount to: a three-byte hit of the first
  // carried on, or a hit of the second carried on, after a two-byte hit of the first if there is one.
  function Shorts(t: seq<byte>, pos: nat, n: nat, size: nat, d2: nat, d3: nat): Short
    requires 4 <= n && pos + n <= |t| && 0 < d2 <= pos && 0 < d3 <= pos
  {
    var mmm := if pos < size then pos else size;
    var hit2 := d2 < mmm && t[pos - d2] == t[pos];
    var hit3 := d3 < mmm && t[pos - d3] == t[pos];
    var l2, l3 := Lcp(t, pos - d2, pos, n), Lcp(t, pos - d3, pos, n);
    if hit2 && t[pos - d2 + 2] == t[pos + 2] then Short(l2, [Found(l2, d2 - 1)])
    else
      var two := if hit2 then [Found(2, d2 - 1)] else [];
      if hit3 then Short(l3, two + [Found(l3, d3 - 1)]) else Short(3, two)
  }

  lemma SameLcp(t: seq<byte>, pos: nat, d: nat, n: nat, len: nat)
    requires 0 < d <= pos && pos + n <= |t| && len <= n && SameFor(t, pos, d, len)
      && (len < n ==> t[pos - d + len] != t[pos + len])
    ensures len == Lcp(t, pos - d, pos, n)
  {
    assert IsLcp(t, pos - d, pos, n, len);
    LcpUnique(t, pos - d, pos, n, len);
  }

  // The part of Bt4_MatchFinder_GetMatches before the tree.
  method ShortMatches(t: seq<byte>, pos: nat, lenLimit: nat, size: nat, d2: nat, d3: nat)
      returns (maxLen: nat, found: seq<Found>)
    requires size > 0 && 4 <= lenLimit && pos + lenLimit <= |t| && 0 < d2 <= pos && 0 < d3 <= pos
    requires d2 < pos && t[pos - d2] == t[pos] ==> SameFor(t, pos, d2, 2)
    requires d3 < pos && t[pos - d3] == t[pos] ==> SameFor(t, pos, d3, 3)
    ensures Short(maxLen, found) == Shorts(t, pos, lenLimit, size, d2, d3)
    ensures 3 <= maxLen <= lenLimit && GoodMatches(found, 1, t, pos, lenLimit, Floor(pos, size))
    ensures forall i :: 0 <= i < |found| ==> found[i].len <= maxLen
    ensures d2 < size && d2 < pos && t[pos - d2] == t[pos] ==>
      found != [] && found[0].dist == d2 - 1 && found[0].len >= 2
    ensures d3 < size && d3 < pos && t[pos - d3] == t[pos] ==>
      && found != [] && found[|found| - 1].len == maxLen
      && (found[|found| - 1].dist == d3 - 1
          || (found[|found| - 1].dist == d2 - 1 && d2 < size && d2 < pos && t[pos - d2] == t[pos]
              && t[pos - d2 + 2] == t[pos + 2]))
  {
    hide SameFor, Lcp;
    var mmm := if pos < size then pos else size;
    maxLen, found := 3, [];
    var d := d2;
    if d2 < mmm && t[pos - d2] == t[pos] {
      if t[pos - d2 + 2] == t[pos + 2] {
        SameMore(t, pos, d2, 2);
      } else {
        OneTrue(t, pos, lenLimit, Floor(pos, size), d2, 2);
        found := [Found(2, d2 - 1)];
        if d3 < mmm && t[pos - d3] == t[pos] {
          d := d3;
        } else {
          return;
        }
      }
    } else if d3 < mmm && t[pos - d3] == t[pos] {
      d := d3;
    } else {
      return;
    }
    maxLen := UpdateMaxLen(t, pos, d, lenLimit, 3);
    SameLcp(t, pos, d, lenLimit, maxLen);
    OneTrue(t, pos, lenLimit, Floor(pos, size), d, maxLen);
    found := found + [Found(maxLen, d - 1)];
  }

  // ---------- what must be reported ----------

  function HashAt2(crc: seq<nat>, t: seq<byte>, x: nat): nat
    requires |crc| == 256 && x + 2 <= |t|
  {
    H2(crc, t[x], t[x + 1])
  }

  function HashAt3(crc: seq<nat>, t: seq<byte>, x: nat): nat
    requires |crc| == 256 && x + 3 <= |t|
  {
    H3(crc, t[x], t[x + 1], t[x + 2])
  }

  // q is the newest position with the two-byte hash of pos that is in the tables, in the window and starts
  // with the same byte.
  ghost predicate Hits2(crc: seq<nat>, t: seq<byte>, pos: nat, size: nat, q: nat) {
    && |crc| == 256 && pos + 4 <= |t| && 0 < q < pos && pos - q < size && t[q] == t[pos]
    && HashAt2(crc, t, q) == HashAt2(crc, t, pos)
    && forall x :: q < x < pos ==> HashAt2(crc, t, x) != HashAt2(crc, t, pos)
  }

  ghost predicate Hits3(crc: seq<nat>, t: seq<byte>, pos: nat, size: nat, q: nat) {
    && |crc| == 256 && pos + 4 <= |t| && 0 < q < pos && pos - q < size && t[q] == t[pos]
    && HashAt3(crc, t, q) == HashAt3(crc, t, pos)
    && forall x :: q < x < pos ==> HashAt3(crc, t, x) != HashAt3(crc, t, pos)
  }

  // A two-byte hit is the first pair. A three-byte hit makes the first or the second pair one of three bytes
  // at least, at the distance of the hit unless the two-byte hit goes on that far itself.
  ghost predicate HitsReported(crc: seq<nat>, t: seq<byte>, pos: nat, size: nat, found: seq<Found>) {
    && (forall q: nat :: Hits2(crc, t, pos, size, q) ==>
      found != [] && found[0].len >= 2 && found[0].dist == pos - q - 1)
    && (forall q: nat :: Hits3(crc, t, pos, size, q) ==>
      && found != []
      && var i := if found[0].len >= 3 then 0 else 1;
        && i < |found| && found[i].len >= 3
        && ((forall p: nat :: Hits2(crc, t, pos, size, p) ==> At(t, p, 2) != At(t, pos, 2))
            ==> found[i].dist == pos - q - 1))
  }

  lemma {:induction false} NewestIs2(crc: seq<nat>, t: seq<byte>, hi: nat, i: nat, q: nat)
    requires |crc| == 256 && 0 < q < hi && hi + 3 <= |t| && HashAt2(crc, t, q) == i
    requires forall x :: q < x < hi ==> HashAt2(crc, t, x) != i
    ensures Newest2(crc, t, hi, i) == q
    decreases hi
  {
    hide HashAt2, Newest2;
    NewestStep(crc, t, hi, i);
    if q < hi - 1 {
      NewestIs2(crc, t, hi - 1, i, q);
    }
  }

  lemma {:induction false} NewestIs3(crc: seq<nat>, t: seq<byte>, hi: nat, i: nat, q: nat)
    requires |crc| == 256 && 0 < q < hi && hi + 3 <= |t| && HashAt3(crc, t, q) == i
    requires forall x :: q < x < hi ==> HashAt3(crc, t, x) != i
    ensures Newest3(crc, t, hi, i) == q
    decreases hi
  {
    hide HashAt3, Newest3;
    NewestStep(crc, t, hi, i);
    if q < hi - 1 {
      NewestIs3(crc, t, hi - 1, i, q);
    }
  }

  lemma NewestStep(crc: seq<nat>, t: seq<byte>, hi: nat, i: nat)
    requires |crc| == 256 && 1 < hi && hi + 3 <= |t|
    ensures Newest2(crc, t, hi, i) == if HashAt2(crc, t, hi - 1) == i then hi - 1 else Newest2(crc, t, hi - 1, i)
    ensures Newest3(crc, t, hi, i) == if HashAt3(crc, t, hi - 1) == i then hi - 1 else Newest3(crc, t, hi - 1, i)
  {
    hide H2, H3;
  }

  lemma HitsAt(crc: seq<nat>, t: seq<byte>, pos: nat, size: nat, q: nat)
    requires |crc| == 256 && 0 < pos && pos + 4 <= |t|
    ensures Hits2(crc, t, pos, size, q) ==> Dist2(crc, t, pos) == pos - q
    ensures Hits3(crc, t, pos, size, q) ==> Dist3(crc, t, pos) == pos - q
  {
    hide H2, H3, Newest2, Newest3;
    if Hits2(crc, t, pos, size, q) {
      NewestIs2(crc, t, pos, H2(crc, t[pos], t[pos + 1]), q);
    }
    if Hits3(crc, t, pos, size, q) {
      NewestIs3(crc, t, pos, H3(crc, t[pos], t[pos + 1], t[pos + 2]), q);
    }
  }

  // What the two tables' hits call for is there, whatever is reported behind it.
  lemma HitsThere(crc: seq<nat>, t: seq<byte>, pos: nat, n: nat, size: nat, more: seq<Found>)
    requires |crc| == 256 && 4 <= n && 0 < pos && pos + n <= |t|
    ensures HitsReported(crc, t, pos, size,
                         Shorts(t, pos, n, size, Dist2(crc, t, pos), Dist3(crc, t, pos)).found + more)
  {
    hide Lcp, Dist2, Dist3, Hits2, Hits3, SameFor;
    HitsHold(crc, t, pos);
    var d2, d3 := Dist2(crc, t, pos), Dist3(crc, t, pos);
    var found := Shorts(t, pos, n, size, d2, d3).found + more;
    HitsLong(t, pos, n, d2, d3);
    forall q: nat | Hits2(crc, t, pos, size, q)
      ensures found != [] && found[0].len >= 2 && found[0].dist == pos - q - 1
    {
      HitsAt(crc, t, pos, size, q);
      HitsNear(crc, t, pos, size, q);
    }
    forall q: nat | Hits3(crc, t, pos, size, q)
      ensures found != [] && var i := if found[0].len >= 3 then 0 else 1;
        && i < |found| && found[i].len >= 3
        && ((forall p: nat :: Hits2(crc, t, pos, size, p) ==> At(t, p, 2) != At(t, pos, 2))
            ==> found[i].dist == pos - q - 1)
    {
      HitsAt(crc, t, pos, size, q);
      HitsNear(crc, t, pos, size, q);
      if d2 < pos && d2 < size && t[pos - d2] == t[pos] {
        HitOf(crc, t, pos, size);
      }
    }
  }

  lemma HitsHold(crc: seq<nat>, t: seq<byte>, pos: nat)
    requires |crc| == 256 && 0 < pos && pos + 4 <= |t|
    ensures ShortHits(crc, t, pos)
  {
    hide H2, H3, Newest2, Newest3, SameFor;
    Hit2(crc, t, pos);
    Hit3(crc, t, pos);
  }

  lemma HitsNear(crc: seq<nat>, t: seq<byte>, pos: nat, size: nat, q: nat)
    requires Hits2(crc, t, pos, size, q) || Hits3(crc, t, pos, size, q)
    ensures 0 < q < pos && pos - q < size && q + 4 <= |t| && t[q] == t[pos]
  {
    hide H2, H3;
  }

  // The distance of the two-byte table is a hit if it passes the checks.
  lemma {:induction false} HitOf(crc: seq<nat>, t: seq<byte>, pos: nat, size: nat)
    requires |crc| == 256 && 0 < pos && pos + 4 <= |t|
    requires var d2 := Dist2(crc, t, pos); d2 < pos && d2 < size && t[pos - d2] == t[pos]
    ensures Hits2(crc, t, pos, size, pos - Dist2(crc, t, pos))
  {
    hide H2;
    NewestLast2(crc, t, pos, H2(crc, t[pos], t[pos + 1]));
  }

  lemma {:induction false} NewestLast2(crc: seq<nat>, t: seq<byte>, hi: nat, i: nat)
    requires |crc| == 256 && 0 < hi && hi + 3 <= |t|
    ensures forall x :: Newest2(crc, t, hi, i) < x < hi ==> HashAt2(crc, t, x) != i
    decreases hi
  {
    hide HashAt2, Newest2;
    if hi > 1 {
      NewestStep(crc, t, hi, i);
      NewestLast2(crc, t, hi - 1, i);
    }
  }

  // A hit goes on for the two or three bytes its hash stands for.
  lemma HitsLong(t: seq<byte>, pos: nat, n: nat, d2: nat, d3: nat)
    requires 4 <= n && pos + n <= |t| && 0 < d2 <= pos && 0 < d3 <= pos
    requires d2 < pos && t[pos - d2] == t[pos] ==> SameFor(t, pos, d2, 2)
    requires d3 < pos && t[pos - d3] == t[pos] ==> SameFor(t, pos, d3, 3)
    ensures d2 < pos && t[pos - d2] == t[pos] && t[pos - d2 + 2] == t[pos + 2] ==> Lcp(t, pos - d2, pos, n) >= 3
    ensures d3 < pos && t[pos - d3] == t[pos] ==> Lcp(t, pos - d3, pos, n) >= 3
  {
    if d2 < pos && t[pos - d2] == t[pos] && t[pos - d2 + 2] == t[pos + 2] {
      SameMore(t, pos, d2, 2);
      SameLong(t, pos, d2, n);
    }
    if d3 < pos && t[pos - d3] == t[pos] {
      SameLong(t, pos, d3, n);
    }
  }

  lemma SameLong(t: seq<byte>, pos: nat, d: nat, n: nat)
    requires 3 <= n && 0 < d <= pos && pos + n <= |t| && SameFor(t, pos, d, 3)
    ensures Lcp(t, pos - d, pos, n) >= 3
  {
    hide Lcp;
    LcpIs(t, pos - d, pos, n);
    var k := Lcp(t, pos - d, pos, n);
    forall i | 0 <= i < 3
      ensures At(t, pos - d, i) == At(t, pos, i)
    {
    }
  }

  lemma JoinMatches(a: seq<Found>, b: seq<Found>, maxLen: nat, t: seq<byte>, pos: nat, n: nat, lo: nat)
    requires GoodMatches(a, 1, t, pos, n, lo) && GoodMatches(b, maxLen, t, pos, n, lo) && maxLen >= 1
    requires forall i :: 0 <= i < |a| ==> a[i].len <= maxLen
    ensures GoodMatches(a + b, 1, t, pos, n, lo)
  {
    hide TrueMatch;
  }

  // What the entries of the two tables say about the position at hand.
  lemma TableFacts(crc: seq<nat>, t: seq<byte>, pos: nat, hash: seq<nat>, h2: nat, h3: nat)
    requires Tables(crc, t, pos, hash) && pos + 4 <= |t|
    requires h2 == H2(crc, t[pos], t[pos + 1]) < HASH2_SIZE
      && h3 == H3(crc, t[pos], t[pos + 1], t[pos + 2]) < HASH3_SIZE
    ensures hash[h2] == Newest2(crc, t, pos, h2) && hash[FIX3 + h3] == Newest3(crc, t, pos, h3)
    ensures ShortHits(crc, t, pos)
  {
    HitsHold(crc, t, pos);
  }

  // How far back the newest positions with the same short hashes are.
  function Dist2(crc: seq<nat>, t: seq<byte>, pos: nat): (d: nat)
    requires |crc| == 256 && 0 < pos && pos + 4 <= |t|
    ensures 0 < d <= pos
  {
    pos - Newest2(crc, t, pos, H2(crc, t[pos], t[pos + 1]))
  }

  function Dist3(crc: seq<nat>, t: seq<byte>, pos: nat): (d: nat)
    requires |crc| == 256 && 0 < pos && pos + 4 <= |t|
    ensures 0 < d <= pos
  {
    pos - Newest3(crc, t, pos, H3(crc, t[pos], t[pos + 1], t[pos + 2]))
  }

  // The one-byte check of a hit suffices.
  ghost predicate ShortHits(crc: seq<nat>, t: seq<byte>, pos: nat) {
    && |crc| == 256 && 0 < pos && pos + 4 <= |t|
    && var d2, d3 := Dist2(crc, t, pos), Dist3(crc, t, pos);
      (d2 < pos && t[pos - d2] == t[pos] ==> SameFor(t, pos, d2, 2))
        && (d3 < pos && t[pos - d3] == t[pos] ==> SameFor(t, pos, d3, 3))
  }

  lemma {:induction false} TablesStore(crc: seq<nat>, t: seq<byte>, pos: nat, hash: seq<nat>, h2: nat, h3: nat, hv: nat)
    requires Tables(crc, t, pos, hash) && pos + 4 <= |t| && FIX4 + hv < |hash|
    requires h2 == H2(crc, t[pos], t[pos + 1]) < HASH2_SIZE
      && h3 == H3(crc, t[pos], t[pos + 1], t[pos + 2]) < HASH3_SIZE
    ensures var hash' := hash[h2 := pos][FIX3 + h3 := pos][FIX4 + hv := pos];
      Tables(crc, t, pos + 1, hash') && hash'[FIX4..] == hash[FIX4..][hv := pos]
  {
    hide H2, H3;
    var hash' := hash[h2 := pos][FIX3 + h3 := pos][FIX4 + hv := pos];
    forall i | 0 <= i < HASH2_SIZE
      ensures hash'[i] == Newest2(crc, t, pos + 1, i)
    {
      assert hash[i] == Newest2(crc, t, pos, i);
    }
    forall i | FIX3 <= i < FIX4
      ensures hash'[i] == Newest3(crc, t, pos + 1, i - FIX3)
    {
      assert hash[i] == Newest3(crc, t, pos, i - FIX3);
    }
  }

  // The last bytes have no hash.
  lemma TablesLater(crc: seq<nat>, t: seq<byte>, pos: nat, hash: seq<nat>)
    requires Tables(crc, t, pos, hash) && |t| < pos + 4
    ensures Tables(crc, t, pos + 1, hash)
  {
    hide H2, H3;
    forall i | 0 <= i < HASH2_SIZE
      ensures hash[i] == Newest2(crc, t, pos + 1, i)
    {
      assert hash[i] == Newest2(crc, t, pos, i);
    }
    forall i | FIX3 <= i < FIX4
      ensures hash[i] == Newest3(crc, t, pos + 1, i - FIX3)
    {
      assert hash[i] == Newest3(crc, t, pos, i - FIX3);
    }
  }

  // Renumbered, the newest position is the newest still there.
  lemma {:induction false} NewestShift(crc: seq<nat>, t: seq<byte>, hi: nat, i: nat, sub: nat)
    requires |crc| == 256 && sub < hi && sub <= |t|
    ensures Newest2(crc, t[sub..], hi - sub, i) == SaturSub(Newest2(crc, t, hi, i), sub)
    ensures Newest3(crc, t[sub..], hi - sub, i) == SaturSub(Newest3(crc, t, hi, i), sub)
    decreases hi
  {
    hide H2, H3;
    if hi - sub > 1 {
      if hi + 3 <= |t| {
        assert t[sub..][hi - sub - 1] == t[hi - 1] && t[sub..][hi - sub] == t[hi]
          && t[sub..][hi - sub + 1] == t[hi + 1];
      }
      NewestShift(crc, t, hi - 1, i, sub);
    }
  }

  lemma TablesLowered(crc: seq<nat>, t: seq<byte>, pos: nat, hash: seq<nat>, sub: nat)
    requires Tables(crc, t, pos, hash) && sub < pos && sub <= |t|
    ensures Tables(crc, t[sub..], pos - sub, SaturAll(hash, sub))
  {
    hide Newest2, Newest3, SaturSub;
    var hash' := SaturAll(hash, sub);
    forall i | 0 <= i < HASH2_SIZE
      ensures hash'[i] == Newest2(crc, t[sub..], pos - sub, i)
    {
      NewestShift(crc, t, pos, i, sub);
    }
    forall i | FIX3 <= i < FIX4
      ensures hash'[i] == Newest3(crc, t[sub..], pos - sub, i - FIX3)
    {
      NewestShift(crc, t, pos, i - FIX3, sub);
    }
  }

  lemma HashRange(crc: seq<nat>, b0: byte, b1: byte, b2: byte, b3: byte, hashMask: nat)
    requires |crc| == 256
    ensures H2(crc, b0, b1) < HASH2_SIZE && H3(crc, b0, b1, b2) < HASH3_SIZE
      && H4(crc, b0, b1, b2, b3, hashMask) <= hashMask
  {
    hide And;
    AndAtMost(Temp2(crc, b0, b1), HASH2_SIZE - 1);
    AndAtMost(Temp3(crc, b0, b1, b2), HASH3_SIZE - 1);
    AndAtMost(Xor(Temp3(crc, b0, b1, b2), W32(crc[b3] * 32)), hashMask);
  }
}
