// The hash chains of LzFind.c, its other way to keep positions: one cell of the son array for
// each position of the window, which holds the position before it in its bucket.
module LzChain {
  import opened Words
  import opened LzTree
  import opened LzSon
  import opened LzFind
  import opened LzHash
  import opened LzForest

  // ---------- chains ----------

  // The positions in (lo, hi) of bucket b, newest first.
  function Members(crc: seq<nat>, mask: nat, t: seq<byte>, lo: nat, hi: nat, b: nat): seq<nat>
    requires |crc| == 256
    decreases hi
  {
    if hi <= lo + 1 then [] else
      var older := Members(crc, mask, t, lo, hi - 1, b);
      if hi - 1 + 4 <= |t| && HeadIx(crc, t, hi - 1, mask) == b then [hi - 1] + older else older
  }

  // In (lo, hi), each older than the one before.
  ghost predicate Falling(chain: seq<nat>, lo: nat, hi: nat)
    decreases |chain|
  {
    chain != [] ==> lo < chain[0] < hi && Falling(chain[1..], lo, chain[0])
  }

  // ref is the newest of the chain, as son has it.
  ghost predicate Linked(son: seq<nat>, g: Ring, lo: nat, ref: nat, chain: seq<nat>)
    requires g.size > 0 && |son| == g.size
    decreases |chain|
  {
    if chain == [] then ref <= lo else
      ref == chain[0] && lo < ref && Linked(son, g, lo, son[Slot(g, ref)], chain[1..])
  }

  lemma {:induction false} MembersExactly(crc: seq<nat>, mask: nat, t: seq<byte>, lo: nat, hi: nat, b: nat, x: nat)
    requires |crc| == 256
    ensures x in Members(crc, mask, t, lo, hi, b) <==> lo < x < hi && x + 4 <= |t| && HeadIx(crc, t, x, mask) == b
    decreases hi
  {
    hide HeadIx;
    if hi > lo + 1 {
      MembersExactly(crc, mask, t, lo, hi - 1, b, x);
    }
  }

  lemma {:induction false} MembersFall(crc: seq<nat>, mask: nat, t: seq<byte>, lo: nat, hi: nat, b: nat)
    requires |crc| == 256
    ensures Falling(Members(crc, mask, t, lo, hi, b), lo, hi)
    decreases hi
  {
    hide HeadIx;
    if hi > lo + 1 {
      var older := Members(crc, mask, t, lo, hi - 1, b);
      MembersFall(crc, mask, t, lo, hi - 1, b);
      assert ([hi - 1] + older)[1..] == older;
    }
  }

  // ---------- what the search of a chain reports ----------

  ghost predicate Before(chain: seq<nat>, pos: nat) {
    forall i :: 0 <= i < |chain| ==> chain[i] < pos
  }

  ghost predicate After(chain: seq<nat>, lo: nat) {
    forall i :: 0 <= i < |chain| ==> lo < chain[i]
  }

  // Of the newest cut members of the chain, each that matches longer than the newer ones.
  function Records(chain: seq<nat>, t: seq<byte>, pos: nat, n: nat, cut: nat, best: nat): seq<Found>
    requires pos + n <= |t| && Before(chain, pos)
    decreases |chain|
  {
    if chain == [] || cut == 0 then [] else
      var q := chain[0];
      var k := Lcp(t, q, pos, n);
      if k == n then Here(k, pos - q - 1, best)
      else Here(k, pos - q - 1, best) + Records(chain[1..], t, pos, n, cut - 1, if best < k then k else best)
  }

  lemma {:induction false} FallingBelow(chain: seq<nat>, lo: nat, hi: nat)
    requires Falling(chain, lo, hi)
    ensures After(chain, lo) && Before(chain, hi)
    decreases |chain|
  {
    if chain != [] {
      FallingBelow(chain[1..], lo, chain[0]);
      assert chain == [chain[0]] + chain[1..];
    }
  }

  // Every pair is a true match in the window, and each is longer than the last.
  lemma {:induction false} RecordsTrue(chain: seq<nat>, t: seq<byte>, pos: nat, n: nat, cut: nat, best: nat, lo: nat)
    requires pos + n <= |t| && After(chain, lo) && Before(chain, pos)
    ensures GoodMatches(Records(chain, t, pos, n, cut, best), best, t, pos, n, lo)
    decreases |chain|
  {
    hide Lcp, GoodMatches, Here;
    if chain == [] || cut == 0 {
      NoMatches(best, t, pos, n, lo);
    } else {
      var q := chain[0];
      var k := Lcp(t, q, pos, n);
      var best' := if best < k then k else best;
      if k == n {
        NoMatches(best', t, pos, n, lo);
        MatchesCons(best, [], t, q, pos, n, lo);
      } else {
        RecordsTrue(chain[1..], t, pos, n, cut - 1, best', lo);
        MatchesCons(best, Records(chain[1..], t, pos, n, cut - 1, best'), t, q, pos, n, lo);
      }
    }
  }

  // None of the newest cut members matches longer than the last reported.
  lemma {:induction false} RecordsBest(chain: seq<nat>, t: seq<byte>, pos: nat, n: nat, cut: nat, best: nat, i: nat)
    requires pos + n <= |t| && Before(chain, pos) && i < cut && i < |chain|
    ensures Lcp(t, chain[i], pos, n) <= Best(Records(chain, t, pos, n, cut, best), best)
    ensures best <= Best(Records(chain, t, pos, n, cut, best), best)
    decreases |chain|
  {
    hide Lcp, Best, Here;
    var q := chain[0];
    var k := Lcp(t, q, pos, n);
    var best' := if best < k then k else best;
    BestCons(best, k, pos - q - 1, []);
    BestNone(best');
    if k < n {
      var older := Records(chain[1..], t, pos, n, cut - 1, best');
      BestCons(best, k, pos - q - 1, older);
      if i > 0 {
        RecordsBest(chain[1..], t, pos, n, cut - 1, best', i - 1);
      } else if |chain| > 1 && cut > 1 {
        RecordsBest(chain[1..], t, pos, n, cut - 1, best', 0);
      }
    }
  }

  // None of them is left uncovered that beats the best so far.
  lemma {:induction false} RecordsCover(chain: seq<nat>, t: seq<byte>, pos: nat, n: nat, cut: nat, best: nat,
      lo: nat, hi: nat, i: nat)
    requires pos + n <= |t| && Before(chain, pos) && Falling(chain, lo, hi) && i < cut && i < |chain|
    requires best < Lcp(t, chain[i], pos, n)
    ensures Covered(Records(chain, t, pos, n, cut, best), t, pos, n, chain[i])
    decreases |chain|
  {
    hide Lcp, Here, Records, Covered;
    var q, x := chain[0], chain[i];
    var k := Lcp(t, q, pos, n);
    var best' := if best < k then k else best;
    var here := Here(k, pos - q - 1, best);
    RecordsStep(chain, t, pos, n, cut, best);
    FallingBelow(chain[1..], lo, q);
    LcpAtMost(t, x, pos, n);
    var rest := if k == n then [] else Records(chain[1..], t, pos, n, cut - 1, best');
    if Lcp(t, x, pos, n) <= k {
      assert i > 0 ==> x == chain[1..][i - 1] < q;
      HereCovers(t, pos, n, q, best, x);
    } else {
      assert x == chain[1..][i - 1];
      RecordsCover(chain[1..], t, pos, n, cut - 1, best', lo, q, i - 1);
    }
    CoveredMore(here, rest, t, pos, n, x);
  }

  // The search looks at no more than cut members.
  lemma {:induction false} RecordsFew(chain: seq<nat>, t: seq<byte>, pos: nat, n: nat, cut: nat, best: nat)
    requires pos + n <= |t| && Before(chain, pos)
    ensures |Records(chain, t, pos, n, cut, best)| <= cut
    decreases |chain|
  {
    hide Lcp, Records;
    RecordsStep(chain, t, pos, n, cut, best);
    if chain != [] && cut > 0 {
      var k := Lcp(t, chain[0], pos, n);
      RecordsFew(chain[1..], t, pos, n, cut - 1, if best < k then k else best);
    }
  }

  // Hc_GetMatchesSpec
  method HcGetMatchesSpec(t: seq<byte>, lenLimit: nat, curMatch0: nat, pos: nat, son: array<nat>,
      cyclicBufferPos: nat, cyclicBufferSize: nat,
                          cutValue0: nat, maxLen0: nat, ghost g: Ring, ghost chain: seq<nat>)
      returns (d: seq<Found>)
    requires g.size == cyclicBufferSize == son.Length > 0 && cyclicBufferPos == Slot(g, pos) && 0 < pos
      && pos + lenLimit <= |t|
    requires Linked(son[..], g, Floor(pos, g.size), curMatch0, chain) && Falling(chain, Floor(pos, g.size), pos)
    requires 0 < cutValue0 && maxLen0 < lenLimit
    modifies son
    ensures son[..] == old(son[..])[Slot(g, pos) := curMatch0]
    ensures Before(chain, pos) && d == Records(chain, t, pos, lenLimit, cutValue0, maxLen0)
  {
    hide Lcp, Slot, Linked, Records;
    ghost var lo, older, was := Floor(pos, g.size), chain, son[..];
    FallingBelow(chain, lo, pos);
    SlotInside(g, pos);
    son[cyclicBufferPos] := curMatch0;
    LinkedFrame(was, g, lo, curMatch0, chain, pos, pos, curMatch0);
    ghost var cells := son[..];
    assert cells == was[Slot(g, pos) := curMatch0];
    var curMatch, cutValue, maxLen := curMatch0, cutValue0, maxLen0;
    d := [];
    while cutValue != 0
      invariant 0 <= maxLen < lenLimit && son[..] == cells && Linked(cells, g, lo, curMatch, older)
        && After(older, lo) && Before(older, pos)
      invariant d + Records(older, t, pos, lenLimit, cutValue, maxLen)
        == Records(chain, t, pos, lenLimit, cutValue0, maxLen0)
    {
      LinkedStep(cells, g, lo, curMatch, older);
      RecordsStep(older, t, pos, lenLimit, cutValue, maxLen);
      if curMatch == 0 {
        break;
      }
      var delta := pos - curMatch;
      if delta >= cyclicBufferSize {
        break;
      }
      SlotBack(g, pos, delta);
      NotBeyond(t, curMatch, pos, lenLimit, maxLen);
      curMatch := son[cyclicBufferPos - delta + if delta > cyclicBufferPos then cyclicBufferSize else 0];
      if t[pos + maxLen] == t[pos + maxLen - delta] {
        var len := CommonLength(t, pos - delta, pos, lenLimit, 0);
        if len == lenLimit {
          d := d + [Found(len, delta - 1)];
          return;
        }
        if maxLen < len {
          maxLen := len;
          d := d + [Found(len, delta - 1)];
        }
      }
      older := older[1..];
      cutValue := cutValue - 1;
    }
    RecordsStep(older, t, pos, lenLimit, cutValue, maxLen);
    assert older == [] || cutValue == 0;
    assert d + [] == d;
  }

  lemma LinkedStep(son: seq<nat>, g: Ring, lo: nat, ref: nat, chain: seq<nat>)
    requires g.size > 0 && |son| == g.size && Linked(son, g, lo, ref, chain)
    ensures if chain == [] then ref <= lo else
      ref == chain[0] && lo < ref && Slot(g, ref) < |son| && Linked(son, g, lo, son[Slot(g, ref)], chain[1..])
  {
    hide Slot;
    SlotInside(g, ref);
  }

  lemma RecordsStep(chain: seq<nat>, t: seq<byte>, pos: nat, n: nat, cut: nat, best: nat)
    requires pos + n <= |t| && Before(chain, pos)
    ensures chain == [] || cut == 0 ==> Records(chain, t, pos, n, cut, best) == []
    ensures chain != [] && cut != 0 ==>
      var k := Lcp(t, chain[0], pos, n);
      Before(chain[1..], pos) && Records(chain, t, pos, n, cut, best) == Here(k, pos - chain[0] - 1, best) +
        if k == n then [] else Records(chain[1..], t, pos, n, cut - 1, if best < k then k else best)
  {
    hide Lcp;
  }

  // A byte that differs behind the best length so far rules a longer match out.
  lemma NotBeyond(t: seq<byte>, q: nat, pos: nat, n: nat, best: nat)
    requires q < pos && pos + n <= |t| && best < n
    ensures t[pos + best] != t[q + best] ==> Lcp(t, q, pos, n) <= best
  {
    hide Lcp;
    LcpIs(t, q, pos, n);
    if t[pos + best] != t[q + best] && best < Lcp(t, q, pos, n) {
      SameBefore(t, q, pos, n, Lcp(t, q, pos, n), best);
    }
  }

  lemma SlotInside(g: Ring, q: nat)
    requires g.size > 0
    ensures Slot(g, q) < g.size
  {
  }

  // ---------- all chains together ----------

  // Every bucket's chain is exactly the positions below hi that are in the window and in the bucket.
  ghost predicate Chains(son: seq<nat>, g: Ring, lo: nat, hi: nat, crc: seq<nat>, mask: nat,
      t: seq<byte>, heads: seq<nat>) {
    && |crc| == 256 && g.size > 0 && |son| == g.size
    && forall b :: 0 <= b < |heads| ==> Linked(son, g, lo, heads[b], Members(crc, mask, t, lo, hi, b))
  }

  lemma {:induction false} LinkedFrame(son: seq<nat>, g: Ring, lo: nat, ref: nat, chain: seq<nat>,
      hi: nat, p: nat, v: nat)
    requires g.size > 0 && |son| == g.size && Linked(son, g, lo, ref, chain) && Falling(chain, lo, hi)
    requires hi <= p <= lo + g.size
    ensures Slot(g, p) < |son| && Linked(son[Slot(g, p) := v], g, lo, ref, chain)
    decreases |chain|
  {
    hide Slot;
    SlotInside(g, p);
    if chain != [] {
      SlotInside(g, ref);
      SlotsApart(g, ref, p);
      LinkedFrame(son, g, lo, son[Slot(g, ref)], chain[1..], ref, p, v);
    }
  }

  // A position enters: its cell takes what was its bucket's head, and it becomes the head.
  lemma ChainsEnter(son: seq<nat>, g: Ring, crc: seq<nat>, mask: nat, t: seq<byte>, pos: nat, heads: seq<nat>, h: nat)
    requires Chains(son, g, Floor(pos, g.size), pos, crc, mask, t, heads) && 0 < pos && pos + 4 <= |t|
    requires h == HeadIx(crc, t, pos, mask) < |heads|
    ensures Slot(g, pos) < |son|
      && Chains(son[Slot(g, pos) := heads[h]], g, Floor(pos, g.size), pos + 1, crc, mask, t, heads[h := pos])
  {
    hide Slot, HeadIx, Linked;
    SlotInside(g, pos);
    var lo, son', heads' := Floor(pos, g.size), son[Slot(g, pos) := heads[h]], heads[h := pos];
    forall b | 0 <= b < |heads|
      ensures Linked(son', g, lo, heads'[b], Members(crc, mask, t, lo, pos + 1, b))
    {
      var chain := Members(crc, mask, t, lo, pos, b);
      MembersFall(crc, mask, t, lo, pos, b);
      LinkedFrame(son, g, lo, heads[b], chain, pos, pos, heads[h]);
      if b == h {
        LinkedCons(son', g, lo, pos, chain);
      }
    }
  }

  lemma LinkedCons(son: seq<nat>, g: Ring, lo: nat, p: nat, chain: seq<nat>)
    requires g.size > 0 && |son| == g.size && lo < p && Slot(g, p) < |son| && Linked(son, g, lo, son[Slot(g, p)], chain)
    ensures Linked(son, g, lo, p, [p] + chain)
  {
    hide Slot;
    assert ([p] + chain)[1..] == chain;
  }

  // The last bytes of the source have no four-byte hash and enter no chain.
  lemma ChainsLater(son: seq<nat>, g: Ring, lo: nat, hi: nat, crc: seq<nat>, mask: nat, t: seq<byte>, heads: seq<nat>)
    requires Chains(son, g, lo, hi, crc, mask, t, heads) && |t| < hi + 4
    ensures Chains(son, g, lo, hi + 1, crc, mask, t, heads)
  {
    hide Linked;
    forall b | 0 <= b < |heads|
      ensures Linked(son, g, lo, heads[b], Members(crc, mask, t, lo, hi + 1, b))
    {
      assert Members(crc, mask, t, lo, hi + 1, b) == Members(crc, mask, t, lo, hi, b);
    }
  }

  // The window moves on: the chains end where it now begins, and nothing is written.
  lemma {:induction false} LinkedMoves(son: seq<nat>, g: Ring, lo: nat, hi: nat, crc: seq<nat>, mask: nat, t: seq<byte>,
      ref: nat, b: nat, lo': nat)
    requires |crc| == 256 && g.size > 0 && |son| == g.size && lo <= lo'
    requires Linked(son, g, lo, ref, Members(crc, mask, t, lo, hi, b))
    ensures Linked(son, g, lo', ref, Members(crc, mask, t, lo', hi, b))
    decreases hi
  {
    hide Slot, HeadIx;
    MembersFall(crc, mask, t, lo, hi, b);
    if hi > lo' + 1 {
      var older := Members(crc, mask, t, lo, hi - 1, b);
      if hi - 1 + 4 <= |t| && HeadIx(crc, t, hi - 1, mask) == b {
        SlotInside(g, ref);
        assert ([hi - 1] + older)[1..] == older;
        LinkedMoves(son, g, lo, hi - 1, crc, mask, t, son[Slot(g, ref)], b, lo');
        LinkedCons(son, g, lo', ref, Members(crc, mask, t, lo', hi - 1, b));
      } else {
        LinkedMoves(son, g, lo, hi - 1, crc, mask, t, ref, b, lo');
      }
    }
  }

  lemma ChainsMove(son: seq<nat>, g: Ring, lo: nat, hi: nat, crc: seq<nat>, mask: nat, t: seq<byte>,
      heads: seq<nat>, lo': nat)
    requires Chains(son, g, lo, hi, crc, mask, t, heads) && lo <= lo'
    ensures Chains(son, g, lo', hi, crc, mask, t, heads)
  {
    hide Linked;
    forall b | 0 <= b < |heads|
      ensures Linked(son, g, lo', heads[b], Members(crc, mask, t, lo', hi, b))
    {
      LinkedMoves(son, g, lo, hi, crc, mask, t, heads[b], b, lo');
    }
  }

  // ---------- normalisation ----------

  lemma HeadShift(crc: seq<nat>, mask: nat, t: seq<byte>, x: nat, sub: nat)
    requires |crc| == 256 && sub <= x && x + 4 <= |t|
    ensures HeadIx(crc, t[sub..], x - sub, mask) == HeadIx(crc, t, x, mask)
  {
    hide H4;
  }

  lemma SlotStays(g: Ring, q: nat, sub: nat)
    requires g.size > 0 && sub <= q
    ensures Slot(Turned(g, sub), q - sub) == Slot(g, q)
  {
  }

  lemma {:induction false} LinkedShift(son: seq<nat>, g: Ring, lo: nat, hi: nat, crc: seq<nat>, mask: nat,
      t: seq<byte>, ref: nat, b: nat)
    requires |crc| == 256 && g.size > 0 && |son| == g.size && lo <= hi && lo <= |t|
    requires Linked(son, g, lo, ref, Members(crc, mask, t, lo, hi, b))
    ensures Linked(SaturAll(son, lo), Turned(g, lo), 0, SaturSub(ref, lo), Members(crc, mask, t[lo..], 0, hi - lo, b))
    decreases hi
  {
    hide Slot, HeadIx;
    if hi > lo + 1 {
      var older := Members(crc, mask, t, lo, hi - 1, b);
      if hi - 1 + 4 <= |t| {
        HeadShift(crc, mask, t, hi - 1, lo);
      }
      if hi - 1 + 4 <= |t| && HeadIx(crc, t, hi - 1, mask) == b {
        SlotInside(g, ref);
        SlotStays(g, ref, lo);
        assert ([hi - 1] + older)[1..] == older;
        LinkedShift(son, g, lo, hi - 1, crc, mask, t, son[Slot(g, ref)], b);
        LinkedCons(SaturAll(son, lo), Turned(g, lo), 0, ref - lo, Members(crc, mask, t[lo..], 0, hi - 1 - lo, b));
      } else {
        LinkedShift(son, g, lo, hi - 1, crc, mask, t, ref, b);
      }
    }
  }

  // Normalising by the window's edge: the chains are those of the renumbered positions.
  lemma ChainsNormalised(son: seq<nat>, g: Ring, lo: nat, hi: nat, crc: seq<nat>, mask: nat,
      t: seq<byte>, heads: seq<nat>)
    requires Chains(son, g, lo, hi, crc, mask, t, heads) && lo <= hi && lo <= |t|
    ensures Chains(SaturAll(son, lo), Turned(g, lo), 0, hi - lo, crc, mask, t[lo..], SaturAll(heads, lo))
  {
    hide Linked, Members, SaturSub;
    var heads' := SaturAll(heads, lo);
    forall b | 0 <= b < |heads|
      ensures Linked(SaturAll(son, lo), Turned(g, lo), 0, heads'[b], Members(crc, mask, t[lo..], 0, hi - lo, b))
    {
      LinkedShift(son, g, lo, hi, crc, mask, t, heads[b], b);
    }
  }

  // The chain of the renumbered positions is the renumbered chain.
  lemma {:induction false} MembersShift(crc: seq<nat>, mask: nat, t: seq<byte>, lo: nat, hi: nat, b: nat, sub: nat)
    requires |crc| == 256 && sub <= lo && sub <= hi && sub <= |t|
    ensures Members(crc, mask, t[sub..], lo - sub, hi - sub, b) == SaturAll(Members(crc, mask, t, lo, hi, b), sub)
    decreases hi
  {
    hide HeadIx;
    if hi > lo + 1 {
      MembersShift(crc, mask, t, lo, hi - 1, b, sub);
      if hi - 1 + 4 <= |t| {
        HeadShift(crc, mask, t, hi - 1, sub);
      }
    }
  }

  lemma {:induction false} RecordsShift(chain: seq<nat>, t: seq<byte>, pos: nat, n: nat, cut: nat, best: nat,
      lo: nat, sub: nat)
    requires Before(chain, pos) && After(chain, lo) && sub <= lo && sub <= pos && pos + n <= |t|
    ensures Before(SaturAll(chain, sub), pos - sub)
    ensures Records(SaturAll(chain, sub), t[sub..], pos - sub, n, cut, best) == Records(chain, t, pos, n, cut, best)
    decreases |chain|
  {
    hide Lcp, Here, Records;
    var chain' := SaturAll(chain, sub);
    RecordsStep(chain, t, pos, n, cut, best);
    RecordsStep(chain', t[sub..], pos - sub, n, cut, best);
    if chain != [] && cut > 0 {
      var k := Lcp(t, chain[0], pos, n);
      LcpShift(t, chain[0], pos, n, sub);
      assert chain'[1..] == SaturAll(chain[1..], sub);
      RecordsShift(chain[1..], t, pos, n, cut - 1, if best < k then k else best, lo, sub);
    }
  }

  // So it gives the same answers, distances and lengths alike.
  lemma ShiftRecords(crc: seq<nat>, mask: nat, t: seq<byte>, lo: nat, hi: nat, b: nat, pos: nat,
      n: nat, cut: nat, best: nat, sub: nat)
    requires |crc| == 256 && sub <= lo && sub <= hi <= pos && pos + n <= |t|
    ensures Before(Members(crc, mask, t, lo, hi, b), pos)
      && Before(Members(crc, mask, t[sub..], lo - sub, hi - sub, b), pos - sub)
    ensures Records(Members(crc, mask, t[sub..], lo - sub, hi - sub, b), t[sub..], pos - sub, n, cut, best)
      == Records(Members(crc, mask, t, lo, hi, b), t, pos, n, cut, best)
  {
    hide Members, Records;
    var chain := Members(crc, mask, t, lo, hi, b);
    MembersFall(crc, mask, t, lo, hi, b);
    FallingBelow(chain, lo, hi);
    MembersShift(crc, mask, t, lo, hi, b, sub);
    RecordsShift(chain, t, pos, n, cut, best, lo, sub);
  }
}
