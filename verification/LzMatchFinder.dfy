// CMatchFinder with the GetMatches and Skip functions of Bt4 and Hc4: hash heads, trees or
// chains, the position limits and normalisation, over any run of calls.
module LzMatchFinder {
  import opened Words
  import opened LzTree
  import opened LzSon
  import opened LzFind
  import opened LzHash
  import opened LzForest
  import opened LzShort
  import opened LzChain
  import opened LzReports
  import opened LzLongest

  // What the son array and the heads keep: a tree for each bucket, or a chain.
  ghost predicate Sons(btMode: bool, son: seq<nat>, g: Ring, lo: nat, hi: nat, crc: seq<nat>, hashMask: nat,
      t: seq<byte>, n: nat, heads: seq<nat>, trees: seq<Tree>) {
    if btMode then Forest(son, g, lo, hi, t, n, heads, trees) else Chains(son, g, lo, hi, crc, hashMask, t, heads)
  }

  // text is whole without its first off bytes.
  predicate CutFront(whole: seq<byte>, off: nat, text: seq<byte>) {
    off <= |whole| && text == whole[off..]
  }

  lemma CutMore(whole: seq<byte>, off: nat, text: seq<byte>, n: nat)
    requires CutFront(whole, off, text) && n <= |text|
    ensures CutFront(whole, off + n, text[n..])
  {
    assert whole[off..][n..] == whole[off + n..];
  }

  // pos (mod 2^32) and cyclicBufferPos advance with the buffer. text[q] is the byte at position q,
  // so that p->buffer is text from pos on; of the input, which is one block in memory (directInput),
  // the bytes before streamPos have been taken, and directInputRem are left.
  class MatchFinder {
    const btMode: bool
    const crc: seq<nat>
    const cyclicBufferSize: nat
    const matchMaxLen: nat
    const cutValue: nat
    const keepSizeAfter: nat
    const hashMask: nat
    const hash: array<nat>
    const son: array<nat>
    var text: seq<byte>
    var pos: nat
    var streamPos: nat
    var directInputRem: nat
    var cyclicBufferPos: nat
    var lenLimit: nat
    var posLimit: nat
    ghost const whole: seq<byte>   // the text before any position was lowered
    ghost var off: nat             // by how much the positions have been lowered
    ghost var trees: seq<Tree>

    ghost predicate Shape()
      reads this
    {
      && |crc| == 256 && cyclicBufferSize > 0 && matchMaxLen >= 4 && cutValue > 0
        && matchMaxLen <= keepSizeAfter < TWO_32 - 1
      && cyclicBufferSize < TWO_32
      && hash != son && hash.Length == FIX4 + hashMask + 1
        && son.Length == if btMode then 2 * cyclicBufferSize else cyclicBufferSize
    }

    ghost function Wheel(): Ring
      reads this
    {
      Ring(off, cyclicBufferSize)
    }

    ghost predicate Stream()
      reads this
    {
      && 0 < pos <= streamPos && streamPos + directInputRem == |text| && streamPos - pos < TWO_32
      && CutFront(whole, off, text) && (off > 0 ==> pos >= cyclicBufferSize)
    }

    // Between posLimit's updates the length limit is right, nothing wraps, and input is taken before
    // it runs short.
    ghost predicate Limits()
      reads this
    {
      && Stream() && lenLimit == Min(matchMaxLen, streamPos - pos)
      && pos <= posLimit && (pos < streamPos ==> pos < posLimit)
      && (pos + 1 < posLimit ==> lenLimit == matchMaxLen && posLimit - 1 + matchMaxLen <= streamPos)
      && (pos < posLimit ==> cyclicBufferPos + (posLimit - pos) <= cyclicBufferSize)
      && (pos < TWO_32 ==> posLimit <= TWO_32)
      && (directInputRem > 0 ==> posLimit + keepSizeAfter <= streamPos)
    }

    ghost function Par(): Params
      reads this
    {
      Params(crc, hashMask, cyclicBufferSize, matchMaxLen, cutValue)
    }

    ghost function Now(): Scene
      reads this
    {
      Scene(text, pos, trees)
    }

    // Where the finder began.
    ghost function First(): Scene
      reads this
    {
      Scene(whole, 1, NoTrees(hashMask + 1))
    }

    // The trees are those of a finder that dealt with every position so far.
    ghost predicate Reached()
      reads this
    {
      pos + off > 0 && Ran(Par(), First(), pos + off - 1, Now())
    }

    // The trees or chains and the tables know the positions below hi.
    ghost predicate Knows(hi: nat)
      reads this, hash, son
    {
      && Shape() && 0 < hi <= |text| + 1
      && Sons(btMode, son[..], Wheel(), Floor(pos, cyclicBufferSize), hi, crc, hashMask, text,
              lenLimit, hash[FIX4..], trees)
      && Tables(crc, text, hi, hash[..])
    }

    ghost predicate Valid()
      reads this, hash, son
    {
      && Shape() && Limits() && Knows(pos) && cyclicBufferPos == Slot(Wheel(), pos)
      && (pos < TWO_32 || lenLimit < 4)
    }

    // MatchFinder_Init: no position is known, and the first one is 1.
    constructor (btMode: bool, crc: seq<nat>, historySize: nat, matchMaxLen: nat, cutValue: nat, keepSizeAfter: nat,
        hashMask: nat, data: seq<byte>)
      requires |crc| == 256 && 1 <= historySize < TWO_32 - 1 && matchMaxLen >= 4 && cutValue > 0
        && matchMaxLen <= keepSizeAfter < TWO_32 - 1
      ensures Valid() && pos == 1 && text == [0] + data && this.btMode == btMode && trees == NoTrees(hashMask + 1)
      ensures Par() == Params(crc, hashMask, historySize + 1, matchMaxLen, cutValue)
        && this.keepSizeAfter == keepSizeAfter
      ensures whole == text && off == 0 && Reached()
    {
      this.btMode := btMode;
      this.crc, this.matchMaxLen, this.cutValue := crc, matchMaxLen, cutValue;
      this.keepSizeAfter, this.hashMask := keepSizeAfter, hashMask;
      cyclicBufferSize := historySize + 1;
      hash := new nat[FIX4 + hashMask + 1](_ => 0);
      son := new nat[if btMode then 2 * (historySize + 1) else historySize + 1](_ => 0);
      text, whole := [0] + data, [0] + data;
      pos, streamPos, directInputRem, cyclicBufferPos, lenLimit, posLimit := 1, 1, |data|, 1, 0, 1;
      off, trees := 0, NoTrees(hashMask + 1);
      new;
      hide Sons, Tables, Slot, CutFront, Ran, Fresh;
      ReadBlock();
      SetLimits();
      NothingKnown(btMode, son[..], Wheel(), crc, hashMask, text, lenLimit, hash[..]);
      NothingReached(Par(), text);
    }

    // MatchFinder_ReadBlock: as much input as 32 bits can count.
    method ReadBlock()
      requires Shape() && Stream()
      modifies this`streamPos, this`directInputRem
      ensures Stream() && streamPos == Min(|text|, pos + (TWO_32 - 1))
    {
      var curSize := TWO_32 - 1 - (streamPos - pos);
      if curSize > directInputRem {
        curSize := directInputRem;
      }
      directInputRem := directInputRem - curSize;
      streamPos := streamPos + curSize;
    }

    // MatchFinder_SetLimits
    method SetLimits()
      requires Shape() && Stream() && cyclicBufferPos < cyclicBufferSize
      requires directInputRem > 0 ==> streamPos - pos > keepSizeAfter
      modifies this`lenLimit, this`posLimit
      ensures Limits()
    {
      hide CutFront, W32;
      BeforeWrap(pos);
      var n := W32(0 - pos);
      if n == 0 {
        n := TWO_32 - 1;
      }
      var k: int := cyclicBufferSize - cyclicBufferPos;
      if k < n {
        n := k;
      }
      k := streamPos - pos;
      var mm := matchMaxLen;
      if k > keepSizeAfter {
        k := k - keepSizeAfter;
      } else if k >= mm {
        k := k - mm;
        k := k + 1;
      } else {
        mm := k;
        if k != 0 {
          k := 1;
        }
      }
      lenLimit := mm;
      if k < n {
        n := k;
      }
      posLimit := pos + n;
    }

    // Every stored position is lowered so that the window starts at 0; pos was 2^32.
    method Normalize()
      requires Shape() && Stream() && cyclicBufferSize < pos && Knows(pos)
      modifies this`text, this`pos, this`streamPos, this`off, this`trees, hash, son
      ensures Shape() && Stream() && Knows(pos) && pos == cyclicBufferSize
        && Slot(Wheel(), pos) == old(Slot(Wheel(), pos))
      ensures streamPos - pos == old(streamPos - pos)
      ensures text == old(text)[old(pos) - pos..] && trees == Renumbered(old(trees), old(pos) - pos)
      ensures off == old(off) + (old(pos) - pos)
    {
      hide Sons, Slot, Tables;
      var subValue := pos - cyclicBufferSize;
      Lowered(btMode, son[..], Wheel(), hash[..], crc, hashMask, text, pos, lenLimit, trees, subValue);
      CutMore(whole, off, text, subValue);
      text := text[subValue..];
      Normalize3(subValue, hash);
      Normalize3(subValue, son);
      off, trees := off + subValue, ShiftAll(trees, subValue);
      pos, streamPos := pos - subValue, streamPos - subValue;
    }

    // The first half of MatchFinder_CheckLimits: more input, and lower positions, when they are due.
    method Replenish()
      requires Shape() && Stream() && Knows(pos) && (pos <= TWO_32 || |text| < pos + NEED)
      requires lenLimit >= Min(matchMaxLen, streamPos - pos)
      requires directInputRem > 0 ==> streamPos - pos >= keepSizeAfter
      modifies this`text, this`pos, this`streamPos, this`directInputRem, this`off, this`trees, hash, son
      ensures Shape() && Stream() && Knows(pos) && (pos < TWO_32 || |text| < pos + NEED)
      ensures lenLimit >= Min(matchMaxLen, streamPos - pos) && Slot(Wheel(), pos) == old(Slot(Wheel(), pos))
      ensures directInputRem > 0 ==> streamPos - pos > keepSizeAfter
      ensures var sub := Lowering(Par(), old(pos), |old(text)| - old(pos));
        && pos == old(pos) - sub && off == old(off) + sub
        && text == old(text)[sub..] && trees == Renumbered(old(trees), sub)
    {
      hide Sons, Slot, Tables;
      if keepSizeAfter == streamPos - pos {
        ReadBlock();
      }
      if pos == TWO_32 && streamPos - pos >= NEED {
        Normalize();
      }
    }

    // MatchFinder_CheckLimits
    method CheckLimits()
      requires Shape() && Stream() && Knows(pos)
      requires cyclicBufferPos <= cyclicBufferSize && cyclicBufferPos % cyclicBufferSize == Slot(Wheel(), pos)
      requires pos <= TWO_32 || |text| < pos + NEED
      requires lenLimit >= Min(matchMaxLen, streamPos - pos)
      requires directInputRem > 0 ==> streamPos - pos >= keepSizeAfter
      modifies this`text, this`pos, this`streamPos, this`directInputRem, this`cyclicBufferPos,
        this`lenLimit, this`posLimit
      modifies this`off, this`trees, hash, son
      ensures Valid()
      ensures var sub := Lowering(Par(), old(pos), |old(text)| - old(pos));
        && pos == old(pos) - sub && off == old(off) + sub
        && text == old(text)[sub..] && trees == Renumbered(old(trees), sub)
    {
      hide Sons, Slot, Tables, Lowering, Renumbered, CutFront;
      Replenish();
      ModSmall(cyclicBufferPos, cyclicBufferSize);
      if cyclicBufferPos == cyclicBufferSize {
        cyclicBufferPos := 0;
      }
      ghost var n := lenLimit;
      SetLimits();
      SonsShorter(btMode, son[..], Wheel(), Floor(pos, cyclicBufferSize), pos, crc, hashMask, text, n,
                  hash[FIX4..], trees, lenLimit);
    }

    // MOVE_POS, once the position has been dealt with.
    method MovePos()
      requires Shape() && Limits() && Knows(pos + 1) && cyclicBufferPos == Slot(Wheel(), pos)
        && (pos < TWO_32 || lenLimit < 4)
      requires pos < |text|
      modifies this`text, this`pos, this`streamPos, this`directInputRem, this`cyclicBufferPos,
        this`lenLimit, this`posLimit
      modifies this`off, this`trees, hash, son
      ensures Valid() && text[pos..] == old(text)[old(pos) + 1..]
      ensures var sub := Lowering(Par(), old(pos) + 1, |old(text)| - old(pos) - 1);
        && pos == old(pos) + 1 - sub && off == old(off) + sub && text == old(text)[sub..]
        && trees == Renumbered(PruneAll(old(trees), Floor(old(pos) + 1, cyclicBufferSize)), sub)
    {
      hide Sons, Slot, Tables, W32, ShiftAll, SaturAll, PruneAll, CutFront;
      ghost var lo := Floor(pos + 1, cyclicBufferSize);
      SonsMove(btMode, son[..], Wheel(), Floor(pos, cyclicBufferSize), pos + 1, crc, hashMask, text, lenLimit,
               hash[FIX4..], trees, lo);
      trees := PruneAll(trees, lo);
      SlotNext(Wheel(), pos);
      ModSmall(cyclicBufferPos + 1, cyclicBufferSize);
      cyclicBufferPos := cyclicBufferPos + 1;
      pos := pos + 1;
      if pos == posLimit {
        CheckLimits();
      }
    }

    // HASH4_CALC at a position and the updates of the three tables; curMatch and the distances
    // are what they held before.
    method EnterHashes(at: nat) returns (d2: nat, d3: nat, curMatch: nat, h: nat)
      requires Shape() && 0 < at < TWO_32 && at + 4 <= |text| && Tables(crc, text, at, hash[..])
      modifies hash
      ensures h == HeadIx(crc, text, at, hashMask) < |hash[FIX4..]| == |old(hash[FIX4..])|
      ensures d2 == Dist2(crc, text, at) && d3 == Dist3(crc, text, at) && ShortHits(crc, text, at)
      ensures curMatch == old(hash[FIX4..])[h] && hash[FIX4..] == old(hash[FIX4..])[h := at]
      ensures Tables(crc, text, at + 1, hash[..])
    {
      hide SameFor, H2, H3, H4, Newest2, Newest3, Tables, ShortHits;
      var b0, b1, b2, b3 := text[at], text[at + 1], text[at + 2], text[at + 3];
      var h2, h3, hv := H2(crc, b0, b1), H3(crc, b0, b1, b2), H4(crc, b0, b1, b2, b3, hashMask);
      HashRange(crc, b0, b1, b2, b3, hashMask);
      ghost var was: seq<nat> := hash[..];
      TableFacts(crc, text, at, was, h2, h3);
      d2, d3 := W32(at - hash[h2]), W32(at - hash[FIX3 + h3]);
      curMatch := hash[FIX4 + hv];
      h := hv;
      hash[h2] := at;
      hash[FIX3 + h3] := at;
      hash[FIX4 + hv] := at;
      TablesStore(crc, text, at, was, h2, h3, hv);
      assert hash[..] == was[h2 := at][FIX3 + h3 := at][FIX4 + hv := at];
    }

    // The trees after a new position went into one of them.
    lemma Grown(was: seq<nat>, heads: seq<nat>, h: nat, curMatch: nat)
      requires Shape() && btMode
        && Sons(btMode, was, Wheel(), Floor(pos, cyclicBufferSize), pos, crc, hashMask, text, lenLimit, heads, trees)
      requires h < |heads| && curMatch == heads[h] && lenLimit > 0 && 0 < pos && pos + lenLimit <= |text|
      ensures |trees| == |heads| && Searchable(was, Wheel(), text, pos, lenLimit, curMatch, trees[h])
    {
    }

    // The end of Bt4_MatchFinder_GetMatches: the short matches and the search of the bucket's tree.
    method Search(d2: nat, d3: nat, curMatch: nat, ghost h: nat) returns (found: seq<Found>)
      requires Shape() && btMode && lenLimit >= 4 && pos + lenLimit <= |text|
        && h == HeadIx(crc, text, pos, hashMask) < |trees|
      requires Searchable(son[..], Wheel(), text, pos, lenLimit, curMatch, trees[h])
      requires cyclicBufferPos == Slot(Wheel(), pos) && ShortHits(crc, text, pos)
      requires d2 == Dist2(crc, text, pos) && d3 == Dist3(crc, text, pos)
      modifies son
      ensures GoodMatches(found, 1, text, pos, lenLimit, Floor(pos, cyclicBufferSize))
      ensures Reported(crc, hashMask, text, pos, lenLimit, cyclicBufferSize, cutValue, trees, found)
      ensures Inserted(old(son[..]), son[..], Wheel(), text, pos, lenLimit, cutValue, trees[h])
    {
      hide Slot, SameFor, Searchable, Inserted, Matches, SplitAt, Nodes, Walk, GoodMatches, Lcp, Heap, Sorted, Shorts,
        Holds, Dist2, Dist3, HeadIx;
      SearchableParts(son[..], Wheel(), text, pos, lenLimit, curMatch, trees[h]);
      var maxLen;
      maxLen, found := ShortMatches(text, pos, lenLimit, cyclicBufferSize, d2, d3);
      if maxLen == lenLimit {
        SkipMatchesSpec(text, lenLimit, curMatch, pos, son, cyclicBufferPos, cyclicBufferSize,
                        cutValue, Wheel(), trees[h]);
      } else {
        TreeMatches(son[..], Wheel(), text, pos, lenLimit, curMatch, trees[h], cutValue, maxLen);
        var d := GetMatchesSpec1(text, lenLimit, curMatch, pos, son, cyclicBufferPos, cyclicBufferSize, cutValue,
                                 maxLen, Wheel(), trees[h]);
        JoinMatches(found, d, maxLen, text, pos, lenLimit, Floor(pos, cyclicBufferSize));
        found := found + d;
      }
    }

    // The end of a search or a skip: the position is in its bucket's tree, and the finder moves on.
    method MoveOn(ghost was: seq<nat>, ghost heads: seq<nat>, ghost h: nat)
      requires Shape() && btMode && Limits() && 4 <= lenLimit && pos < TWO_32 && cyclicBufferPos == Slot(Wheel(), pos)
      requires Forest(was, Wheel(), Floor(pos, cyclicBufferSize), pos, text, lenLimit, heads, trees)
      requires pos + 4 <= |text| && h == HeadIx(crc, text, pos, hashMask) < |heads|
      requires Inserted(was, son[..], Wheel(), text, pos, lenLimit, cutValue, trees[h])
      requires hash[FIX4..] == heads[h := pos] && Tables(crc, text, pos + 1, hash[..]) && Fresh(Par(), Now())
      modifies this`text, this`pos, this`streamPos, this`directInputRem, this`cyclicBufferPos,
        this`lenLimit, this`posLimit
      modifies this`off, this`trees, hash, son
      ensures Valid() && text[pos..] == old(text)[old(pos) + 1..] && Ran(Par(), old(Now()), 1, Now())
      ensures pos + off == old(pos) + old(off) + 1
    {
      hide Forest, Slot, Tables, Inserted, SplitAt, Nodes, HeadIx, PruneAll, Heap, Fresh, Ran, Renumbered, Lowering;
      ghost var k := Now();
      ForestInsert(was, son[..], Wheel(), text, pos, lenLimit, cutValue, heads, trees, h);
      PlantedAt(Par(), k, h);
      ghost var s := SplitAt(trees[h], text, pos, lenLimit, cutValue);
      trees := trees[h := Node(pos, s.less, s.greater)];
      MovePos();
    }

    // Bt4_MatchFinder_GetMatches: every pair is a true match in the window, each longer than
    // the one before.
    method Bt4GetMatches() returns (found: seq<Found>)
      requires Valid() && btMode && pos < |text|
      modifies this`text, this`pos, this`streamPos, this`directInputRem, this`cyclicBufferPos,
        this`lenLimit, this`posLimit
      modifies this`off, this`trees, hash, son
      ensures Valid() && text[pos..] == old(text)[old(pos) + 1..] && Ran(Par(), old(Now()), 1, Now())
      ensures GoodMatches(found, 1, old(text), old(pos), old(lenLimit), Floor(old(pos), cyclicBufferSize))
      ensures old(lenLimit) < 4 ==> found == []
      ensures old(lenLimit) >= 4 ==>
        Reported(crc, hashMask, old(text), old(pos), old(lenLimit), cyclicBufferSize, cutValue, old(trees), found)
      ensures old(lenLimit) >= 4 ==> HitsReported(crc, old(text), old(pos), cyclicBufferSize, found)
      ensures old(Reached()) ==> Reached() && (old(lenLimit) >= 4 ==> old(PlainReports(found)))
      ensures old(Reached()) && old(lenLimit) >= 4 && cutValue >= cyclicBufferSize ==>
        var at := old(pos) + old(off);
        at + old(lenLimit) <= |whole| && NothingBetter(whole, at, old(lenLimit), cyclicBufferSize, found)
    {
      hide Forest, Slot, Tables, SameFor, Searchable, Inserted, SplitAt, Nodes, GoodMatches, Lcp, Reported, HeadIx,
        PruneAll, ShortHits, Dist2, Dist3, Heap, Fresh, Ran, Renumbered, Lowering, PlainReports, NothingBetter,
        HitsReported;
      found := [];
      NoMatches(1, text, pos, lenLimit, Floor(pos, cyclicBufferSize));
      ghost var k, n := Now(), pos + off;
      TreesFresh();
      if lenLimit < 4 {
        Passed(Par(), k);
        KnowsLater();
        MovePos();
        ReachedOn(k, n);
        return;
      }
      ghost var was, heads := son[..], hash[FIX4..];
      var d2, d3, curMatch, h := EnterHashes(pos);
      Grown(was, heads, h, curMatch);
      found := Search(d2, d3, curMatch, h);
      ReportedHits(crc, hashMask, text, pos, lenLimit, cyclicBufferSize, cutValue, trees, found);
      if Reached() {
        AsPlain(found);
        Longest(found);
      }
      MoveOn(was, heads, h);
      ReachedOn(k, n);
    }

    // With cutValue no smaller than the window nothing in it is better than what is reported.
    lemma Longest(found: seq<Found>)
      requires Reached() && 4 <= lenLimit <= matchMaxLen && PlainReports(found)
      ensures pos + off + lenLimit <= |whole|
      ensures cutValue >= cyclicBufferSize ==>
        NothingBetter(whole, pos + off, lenLimit, cyclicBufferSize, found)
    {
      hide Run, RunPlain, NothingBetter, Reported, Fresh, Ran;
      RanFresh(Par(), First(), pos + off - 1, Now());
      ReportedRoom(crc, hashMask, whole, pos + off, lenLimit, cyclicBufferSize, cutValue,
                   RunPlain(Par(), First(), pos + off - 1).trees, found);
      if cutValue >= cyclicBufferSize {
        BtLongest(Par(), whole, First().trees, pos + off - 1, lenLimit, found);
      }
    }

    // Where the finder is, on the text before any position was lowered.
    lemma ReachedNow()
      requires Stream() && pos < |text|
      ensures 0 < pos + off < |whole|
      ensures Reached() ==> Ran(Par(), First(), pos + off - 1, Now())
    {
      hide Ran;
    }

    lemma ReachedOn(k: Scene, n: nat)
      requires Ran(Par(), k, 1, Now()) && 0 < n < |whole| && pos + off == n + 1
      ensures Ran(Par(), First(), n - 1, k) ==> Reached()
    {
      hide Ran;
      if Ran(Par(), First(), n - 1, k) {
        RanOn(Par(), First(), n - 1, k, Now());
      }
    }

    // What a finder with positions of any size reports here.
    ghost predicate PlainReports(found: seq<Found>)
      requires Reached()
      reads this
    {
      RanFresh(Par(), First(), pos + off - 1, Now());
      Reported(crc, hashMask, whole, pos + off, lenLimit, cyclicBufferSize, cutValue,
               RunPlain(Par(), First(), pos + off - 1).trees, found)
    }

    // Lowering the positions does not show in what is reported.
    lemma AsPlain(found: seq<Found>)
      requires Reached() && Reported(crc, hashMask, text, pos, lenLimit, cyclicBufferSize, cutValue, trees, found)
      ensures PlainReports(found)
    {
      hide Reported, Run, RunPlain, Fresh;
      NormalisationInvisible(Par(), First(), pos + off - 1, lenLimit, found);
    }

    lemma TreesFresh()
      requires Valid() && btMode
      ensures Fresh(Par(), Now())
    {
      hide H2, H3, H4, Nodes, Sorted, Heap, Holds, Tables;
    }

    // The end of Hc4_MatchFinder_GetMatches: the short matches and the search of the bucket's chain.
    method ChainSearch(d2: nat, d3: nat, curMatch: nat) returns (found: seq<Found>)
      requires Shape() && !btMode && 4 <= lenLimit && ShortHits(crc, text, pos) && pos + lenLimit <= |text|
      requires d2 == Dist2(crc, text, pos) && d3 == Dist3(crc, text, pos) && cyclicBufferPos == Slot(Wheel(), pos)
      requires Linked(son[..], Wheel(), Floor(pos, cyclicBufferSize), curMatch,
                      Members(crc, hashMask, text, Floor(pos, cyclicBufferSize), pos, HeadIx(crc, text, pos, hashMask)))
      modifies son
      ensures cyclicBufferPos < son.Length && son[..] == old(son[..])[cyclicBufferPos := curMatch]
      ensures GoodMatches(found, 1, text, pos, lenLimit, Floor(pos, cyclicBufferSize))
      ensures ChainReported(crc, hashMask, text, pos, lenLimit, cyclicBufferSize, cutValue, found)
    {
      hide Slot, SameFor, GoodMatches, Lcp, Shorts, Dist2, Dist3, Members, Linked, Records, HeadIx, ShortHits;
      ShortHitsParts(crc, text, pos);
      SlotInside(Wheel(), pos);
      ghost var lo := Floor(pos, cyclicBufferSize);
      ghost var chain := Members(crc, hashMask, text, lo, pos, HeadIx(crc, text, pos, hashMask));
      MembersFall(crc, hashMask, text, lo, pos, HeadIx(crc, text, pos, hashMask));
      FallingBelow(chain, lo, pos);
      var maxLen;
      maxLen, found := ShortMatches(text, pos, lenLimit, cyclicBufferSize, d2, d3);
      if maxLen == lenLimit {
        son[cyclicBufferPos] := curMatch;
      } else {
        RecordsTrue(chain, text, pos, lenLimit, cutValue, maxLen, lo);
        var d := HcGetMatchesSpec(text, lenLimit, curMatch, pos, son, cyclicBufferPos, cyclicBufferSize, cutValue,
                                  maxLen, Wheel(), chain);
        JoinMatches(found, d, maxLen, text, pos, lenLimit, lo);
        found := found + d;
      }
    }

    // Hc4_MatchFinder_GetMatches
    method Hc4GetMatches() returns (found: seq<Found>)
      requires Valid() && !btMode && pos < |text|
      modifies this`text, this`pos, this`streamPos, this`directInputRem, this`cyclicBufferPos,
        this`lenLimit, this`posLimit
      modifies this`off, this`trees, hash, son
      ensures Valid() && text[pos..] == old(text)[old(pos) + 1..] && pos <= old(pos) + 1
      ensures GoodMatches(found, 1, old(text), old(pos), old(lenLimit), Floor(old(pos), cyclicBufferSize))
      ensures old(lenLimit) < 4 ==> found == []
      ensures old(lenLimit) >= 4
        ==> ChainReported(crc, hashMask, old(text), old(pos), old(lenLimit), cyclicBufferSize, cutValue, found)
      ensures old(lenLimit) >= 4 ==>
        ChainReported(crc, hashMask, whole, old(pos) + old(off), old(lenLimit), cyclicBufferSize, cutValue, found)
      ensures old(lenLimit) >= 4 ==> HitsReported(crc, old(text), old(pos), cyclicBufferSize, found)
      ensures old(lenLimit) >= 4 && cutValue >= cyclicBufferSize ==>
        var at := old(pos) + old(off);
        at + old(lenLimit) <= |whole| && NothingBetter(whole, at, old(lenLimit), cyclicBufferSize, found)
    {
      hide Chains, Slot, Tables, GoodMatches, Lcp, ChainReported, HeadIx, ShortHits, Dist2, Dist3, Members, Linked,
        CutFront, NothingBetter, HitsReported;
      found := [];
      NoMatches(1, text, pos, lenLimit, Floor(pos, cyclicBufferSize));
      if lenLimit < 4 {
        KnowsLater();
        MovePos();
        return;
      }
      ghost var was, heads := son[..], hash[FIX4..];
      var d2, d3, curMatch, h := EnterHashes(pos);
      BucketChain(was, Wheel(), Floor(pos, cyclicBufferSize), pos, crc, hashMask, text, heads, h);
      found := ChainSearch(d2, d3, curMatch);
      ReportedHits(crc, hashMask, text, pos, lenLimit, cyclicBufferSize, cutValue, trees, found);
      AsPlainChain(found);
      ChainsEnter(was, Wheel(), crc, hashMask, text, pos, heads, h);
      MovePos();
    }

    // Nor does it in what Hc4 reports.
    lemma AsPlainChain(found: seq<Found>)
      requires Shape() && Stream()
        && ChainReported(crc, hashMask, text, pos, lenLimit, cyclicBufferSize, cutValue, found)
      ensures ChainReported(crc, hashMask, whole, pos + off, lenLimit, cyclicBufferSize, cutValue, found)
      ensures pos + off + lenLimit <= |whole|
      ensures cutValue >= cyclicBufferSize ==>
        NothingBetter(whole, pos + off, lenLimit, cyclicBufferSize, found)
    {
      hide ChainReported, NothingBetter;
      ChainReportedLowered(crc, hashMask, whole, pos + off, lenLimit, cyclicBufferSize, cutValue, found, off);
      ChainRoom(crc, hashMask, whole, pos + off, lenLimit, cyclicBufferSize, cutValue, found);
      if cutValue >= cyclicBufferSize {
        HcLongest(crc, hashMask, whole, pos + off, lenLimit, cyclicBufferSize, cutValue, found);
      }
    }

    lemma KnowsLater()
      requires Shape() && Knows(pos) && |text| < pos + 4 && pos <= |text|
      ensures Knows(pos + 1)
    {
      hide Forest, Chains, Tables, PruneAll;
      var lo := Floor(pos, cyclicBufferSize);
      TablesLater(crc, text, pos, hash[..]);
      if btMode {
        ForestLater(son[..], Wheel(), lo, pos, text, lenLimit, hash[FIX4..], trees, pos + 1);
      } else {
        ChainsLater(son[..], Wheel(), lo, pos, crc, hashMask, text, hash[FIX4..]);
      }
    }

    // One turn of Bt4_MatchFinder_Skip: the trees are left as a search would leave them.
    method SkipOne()
      requires Valid() && btMode && pos < |text|
      modifies this`text, this`pos, this`streamPos, this`directInputRem, this`cyclicBufferPos,
        this`lenLimit, this`posLimit
      modifies this`off, this`trees, hash, son
      ensures Valid() && text[pos..] == old(text)[old(pos) + 1..] && Ran(Par(), old(Now()), 1, Now())
      ensures old(Reached()) ==> Reached()
    {
      hide Forest, Slot, Tables, SameFor, Searchable, Inserted, Matches, SplitAt, Nodes, Walk, Lcp, Heap, Sorted,
        HeadIx, ShortHits, Dist2, Dist3, PruneAll, Fresh, Ran, Renumbered, Lowering, CutFront, Reached;
      ghost var k, n := Now(), pos + off;
      ReachedNow();
      TreesFresh();
      if lenLimit < 4 {
        Passed(Par(), k);
        KnowsLater();
        MovePos();
        ReachedOn(k, n);
        return;
      }
      ghost var was, heads := son[..], hash[FIX4..];
      var d2, d3, curMatch, h := EnterHashes(pos);
      Grown(was, heads, h, curMatch);
      SearchableParts(was, Wheel(), text, pos, lenLimit, curMatch, trees[h]);
      SkipMatchesSpec(text, lenLimit, curMatch, pos, son, cyclicBufferPos, cyclicBufferSize,
                      cutValue, Wheel(), trees[h]);
      MoveOn(was, heads, h);
      ReachedOn(k, n);
    }

    // Bt4_MatchFinder_Skip: the trees are left as that many searches would leave them.
    method Bt4Skip(num0: nat)
      requires Valid() && btMode && 0 < num0 && pos + num0 <= |text|
      modifies this`text, this`pos, this`streamPos, this`directInputRem, this`cyclicBufferPos,
        this`lenLimit, this`posLimit
      modifies this`off, this`trees, hash, son
      ensures Valid() && text[pos..] == old(text)[old(pos) + num0..] && Ran(Par(), old(Now()), num0, Now())
      ensures old(Reached()) ==> Reached()
    {
      hide Sons, Slot, Tables, Knows, Ran, Fresh, Reached, CutFront;
      var num := num0;
      ghost var rest, k := text[pos..], Now();
      TreesFresh();
      RanNone(Par(), k);
      while num != 0
        invariant Valid() && num <= num0 && pos + num <= |text| && text[pos..] == rest[num0 - num..]
        invariant Ran(Par(), k, num0 - num, Now())
        invariant old(Reached()) ==> Reached()
      {
        ghost var before, last := text[pos..], Now();
        SkipOne();
        assert before[1..] == text[pos..];
        RanOn(Par(), k, num0 - num, last, Now());
        num := num - 1;
        assert rest[num0 - num - 1..][1..] == rest[num0 - num..];
      }
    }

    // One turn of the inner loop of Hc4_MatchFinder_Skip.
    method EnterChain(at: nat, cell: nat)
      requires Shape() && !btMode && 0 < at < TWO_32 && at + 4 <= |text| && cell == Slot(Wheel(), at)
      requires Chains(son[..], Wheel(), Floor(at, cyclicBufferSize), at, crc, hashMask, text, hash[FIX4..])
        && Tables(crc, text, at, hash[..])
      modifies hash, son
      ensures Chains(son[..], Wheel(), Floor(at + 1, cyclicBufferSize), at + 1, crc, hashMask, text, hash[FIX4..])
        && Tables(crc, text, at + 1, hash[..])
    {
      hide Chains, Slot, Tables, ShortHits, Dist2, Dist3, HeadIx;
      ghost var cells, heads := son[..], hash[FIX4..];
      var d2, d3, curMatch, h := EnterHashes(at);
      ChainsEnter(cells, Wheel(), crc, hashMask, text, at, heads, h);
      son[cell] := curMatch;
      assert son[..] == cells[cell := curMatch];
      ChainsMove(son[..], Wheel(), Floor(at, cyclicBufferSize), at + 1, crc, hashMask, text, hash[FIX4..],
                 Floor(at + 1, cyclicBufferSize));
    }

    // The inner loop of Hc4_MatchFinder_Skip: up to posLimit nothing wraps, so the positions go
    // into their chains without a look at the limits.
    method SkipRun(num2: nat)
      requires Valid() && !btMode && 4 <= lenLimit && 0 < num2 <= posLimit - pos
      modifies this`pos, this`cyclicBufferPos, hash, son
      ensures Shape() && Knows(pos) && pos == old(pos) + num2 <= |text|
        && cyclicBufferPos == old(cyclicBufferPos) + num2 <= cyclicBufferSize
      ensures cyclicBufferPos % cyclicBufferSize == Slot(Wheel(), pos)
    {
      hide Chains, Slot, Tables;
      var at, cell := pos, cyclicBufferPos;
      ghost var g, size := Wheel(), cyclicBufferSize;
      assert cell < size by {
        SlotNext(g, pos);
      }
      ModSmall(cell, size);
      ghost var end := pos + num2;
      assert end <= TWO_32 && end + 3 <= |text| && cell + num2 <= size;
      cyclicBufferPos := cyclicBufferPos + num2;
      var left := num2;
      while left != 0
        invariant 0 <= left <= num2 && at == end - left && cell == cyclicBufferPos - left
        invariant pos == old(pos) && cyclicBufferPos == old(cyclicBufferPos) + num2
        invariant Chains(son[..], g, Floor(at, size), at, crc, hashMask, text, hash[FIX4..])
          && Tables(crc, text, at, hash[..])
        invariant cell % size == Slot(g, at)
      {
        ModSmall(cell, size);
        EnterChain(at, cell);
        SlotNext(g, at);
        ModSmall(cell + 1, size);
        at, cell := at + 1, cell + 1;
        left := left - 1;
      }
      pos := at;
    }

    // A run up to posLimit at most, and the look at the limits if it gets there.
    method SkipTo(num2: nat)
      requires Valid() && !btMode && 4 <= lenLimit && 0 < num2 <= posLimit - pos
      modifies this`text, this`pos, this`streamPos, this`directInputRem, this`cyclicBufferPos,
        this`lenLimit, this`posLimit
      modifies this`off, this`trees, hash, son
      ensures Valid() && old(pos) + num2 <= |old(text)| && text[pos..] == old(text)[old(pos) + num2..]
    {
      hide Sons, Slot, Tables, Knows, CutFront, Lowering, Renumbered;
      ghost var t, at := text, pos + num2;
      SkipRun(num2);
      if pos == posLimit {
        CheckLimits();
        SliceTwice(t, at - pos, pos);
        assert text[pos..] == t[at..];
      } else {
        ModSmall(cyclicBufferPos, cyclicBufferSize);
      }
    }

    // One turn of the outer loop of Hc4_MatchFinder_Skip; left positions are still to be skipped.
    method SkipSome(num: nat) returns (left: nat)
      requires Valid() && !btMode && 0 < num && pos + num <= |text|
      modifies this`text, this`pos, this`streamPos, this`directInputRem, this`cyclicBufferPos,
        this`lenLimit, this`posLimit
      modifies this`off, this`trees, hash, son
      ensures Valid() && left < num && text[pos..] == old(text)[old(pos) + (num - left)..]
    {
      hide Sons, Slot, Tables, Knows, CutFront, Lowering, Renumbered;
      if lenLimit < 4 {
        KnowsLater();
        MovePos();
        left := num - 1;
      } else {
        var num2 := num;
        if num2 > posLimit - pos {
          num2 := posLimit - pos;
        }
        left := num - num2;
        SkipTo(num2);
      }
    }

    // Hc4_MatchFinder_Skip
    method Hc4Skip(num0: nat)
      requires Valid() && !btMode && 0 < num0 && pos + num0 <= |text|
      modifies this`text, this`pos, this`streamPos, this`directInputRem, this`cyclicBufferPos,
        this`lenLimit, this`posLimit
      modifies this`off, this`trees, hash, son
      ensures Valid() && text[pos..] == old(text)[old(pos) + num0..]
    {
      hide Sons, Slot, Tables, Knows;
      var num := num0;
      ghost var rest := text[pos..];
      while num != 0
        invariant Valid() && 0 <= num <= num0 && pos + num <= |text| && text[pos..] == rest[num0 - num..]
        decreases num
      {
        ghost var before, was := text[pos..], num;
        num := SkipSome(num);
        assert before[was - num..] == text[pos..];
        assert rest[num0 - was..][was - num..] == rest[num0 - num..];
      }
    }
  }

  // What the tree search reports, as GetMatchesSpec1's result.
  lemma TreeMatches(son: seq<nat>, g: Ring, t: seq<byte>, pos: nat, n: nat, curMatch: nat,
      tree: Tree, cut: nat, best: nat)
    requires Searchable(son, g, t, pos, n, curMatch, tree)
    ensures pos + n <= |t| && forall x <- Nodes(tree) :: x + n <= |t| && x < pos
    ensures GoodMatches(Matches(tree, t, pos, n, cut, best), best, t, pos, n, Floor(pos, g.size))
  {
    hide Lcp, GoodMatches, Matches, Holds;
    SearchableParts(son, g, t, pos, n, curMatch, tree);
    MatchesTrue(tree, t, pos, n, cut, best, Floor(pos, g.size));
  }

  lemma SlotNext(g: Ring, pos: nat)
    requires g.size > 0
    ensures Slot(g, pos) < g.size && Slot(g, pos + 1) == (Slot(g, pos) + 1) % g.size
  {
    var x := pos + g.off;
    ModUnique(x, g.size, x / g.size, x % g.size);
    if x % g.size + 1 == g.size {
      ModUnique(x + 1, g.size, x / g.size + 1, 0);
      ModUnique(g.size, g.size, 1, 0);
    } else {
      ModUnique(x + 1, g.size, x / g.size, x % g.size + 1);
      ModUnique(x % g.size + 1, g.size, 0, x % g.size + 1);
    }
  }

  // UInt32 0 - pos is how far it is to 2^32.
  lemma BeforeWrap(pos: nat)
    ensures 0 <= W32(0 - pos) < TWO_32 && (0 < pos < TWO_32 ==> W32(0 - pos) == TWO_32 - pos)
    ensures pos == TWO_32 ==> W32(0 - pos) == 0
  {
  }

  lemma ChainRoom(crc: seq<nat>, hashMask: nat, t: seq<byte>, pos: nat, n: nat, size: nat, cut: nat,
      found: seq<Found>)
    requires ChainReported(crc, hashMask, t, pos, n, size, cut, found)
    ensures pos + n <= |t|
  {
  }

  lemma ReportedRoom(crc: seq<nat>, hashMask: nat, t: seq<byte>, pos: nat, n: nat, size: nat, cut: nat,
      trees: seq<Tree>, found: seq<Found>)
    requires Reported(crc, hashMask, t, pos, n, size, cut, trees, found)
    ensures pos + n <= |t|
  {
  }

  lemma RanFresh(p: Params, k: Scene, num: nat, k': Scene)
    requires Ran(p, k, num, k')
    ensures Fresh(p, k) && k.pos + num <= |k.text|
  {
  }

  lemma SliceTwice(t: seq<byte>, a: nat, b: nat)
    requires a + b <= |t|
    ensures t[a..][b..] == t[a + b..]
  {
  }

  lemma ModSmall(x: nat, n: nat)
    requires n > 0 && x <= n
    ensures x % n == if x == n then 0 else x
  {
  }

  function NoTrees(n: nat): (r: seq<Tree>)
    ensures |r| == n && forall b :: 0 <= b < n ==> r[b] == Nil
  {
    seq(n, _ => Nil)
  }

  lemma NothingReached(p: Params, t: seq<byte>)
    requires p.Ok() && |t| > 0
    ensures var k := Scene(t, 1, NoTrees(p.hashMask + 1)); Ran(p, k, 0, k)
  {
    RanNone(p, Scene(t, 1, NoTrees(p.hashMask + 1)));
  }

  // With empty arrays the first position knows nothing.
  lemma NothingKnown(btMode: bool, son: seq<nat>, g: Ring, crc: seq<nat>, hashMask: nat,
      t: seq<byte>, n: nat, hash: seq<nat>)
    requires |crc| == 256 && g.off == 0 && g.size > 1 && |son| == (if btMode then 2 * g.size else g.size)
      && |hash| == FIX4 + hashMask + 1
    requires (forall i :: 0 <= i < |son| ==> son[i] == 0) && forall i :: 0 <= i < |hash| ==> hash[i] == 0
    ensures Sons(btMode, son, g, Floor(1, g.size), 1, crc, hashMask, t, n, hash[FIX4..], NoTrees(hashMask + 1))
    ensures Tables(crc, t, 1, hash) && Slot(g, 1) == 1
  {
    hide H2, H3, H4;
    ModSmall(1, g.size);
    var heads, trees := hash[FIX4..], NoTrees(hashMask + 1);
    if btMode {
      forall b | 0 <= b < |heads|
        ensures Bucket(son, g, 0, 1, t, n, heads[b], trees[b])
      {
      }
    } else {
      forall b | 0 <= b < |heads|
        ensures Linked(son, g, 0, heads[b], Members(crc, hashMask, t, 0, 1, b))
      {
      }
    }
  }

  lemma SonsShorter(btMode: bool, son: seq<nat>, g: Ring, lo: nat, hi: nat, crc: seq<nat>, hashMask: nat, t: seq<byte>,
      n: nat, heads: seq<nat>, trees: seq<Tree>, m: nat)
    requires Sons(btMode, son, g, lo, hi, crc, hashMask, t, n, heads, trees) && m <= n
    ensures Sons(btMode, son, g, lo, hi, crc, hashMask, t, m, heads, trees)
  {
    hide Forest;
    if btMode {
      ForestShorter(son, g, lo, hi, t, n, heads, trees, m);
    }
  }

  lemma SonsMove(btMode: bool, son: seq<nat>, g: Ring, lo: nat, hi: nat, crc: seq<nat>, hashMask: nat, t: seq<byte>,
      n: nat, heads: seq<nat>, trees: seq<Tree>, lo': nat)
    requires Sons(btMode, son, g, lo, hi, crc, hashMask, t, n, heads, trees) && lo <= lo'
    ensures Sons(btMode, son, g, lo', hi, crc, hashMask, t, n, heads, PruneAll(trees, lo'))
  {
    hide Forest, Chains, PruneAll;
    if btMode {
      ForestMoves(son, g, lo, hi, t, n, heads, trees, lo', hi, n);
    } else {
      ChainsMove(son, g, lo, hi, crc, hashMask, t, heads, lo');
    }
  }

  // The chain of a position's bucket.
  lemma BucketChain(son: seq<nat>, g: Ring, lo: nat, hi: nat, crc: seq<nat>, hashMask: nat, t: seq<byte>,
      heads: seq<nat>, h: nat)
    requires Chains(son, g, lo, hi, crc, hashMask, t, heads) && h < |heads|
    ensures Linked(son, g, lo, heads[h], Members(crc, hashMask, t, lo, hi, h))
  {
  }

  lemma ShortHitsParts(crc: seq<nat>, t: seq<byte>, pos: nat)
    requires ShortHits(crc, t, pos)
    ensures |crc| == 256 && 0 < pos && pos + 4 <= |t|
    ensures var d2, d3 := Dist2(crc, t, pos), Dist3(crc, t, pos);
      (d2 < pos && t[pos - d2] == t[pos] ==> SameFor(t, pos, d2, 2))
        && (d3 < pos && t[pos - d3] == t[pos] ==> SameFor(t, pos, d3, 3))
  {
  }

  // All that normalisation keeps: trees or chains, renumbered, the two tables, and the slots.
  lemma Lowered(btMode: bool, son: seq<nat>, g: Ring, hash: seq<nat>, crc: seq<nat>, hashMask: nat, t: seq<byte>,
      pos: nat, n: nat, trees: seq<Tree>, sub: nat)
    requires |hash| >= FIX4 && g.size > 0 && 0 < pos <= |t| && sub == pos - g.size && g.size < pos
    requires Sons(btMode, son, g, Floor(pos, g.size), pos, crc, hashMask, t, n, hash[FIX4..], trees)
      && Tables(crc, t, pos, hash)
    ensures Sons(btMode, SaturAll(son, sub), Turned(g, sub), Floor(pos - sub, g.size), pos - sub, crc, hashMask,
                 t[sub..], n, SaturAll(hash, sub)[FIX4..], ShiftAll(trees, sub))
    ensures Tables(crc, t[sub..], pos - sub, SaturAll(hash, sub))
    ensures Slot(Turned(g, sub), pos - sub) == Slot(g, pos)
  {
    hide Forest, Chains, Tables;
    TablesLowered(crc, t, pos, hash, sub);
    assert SaturAll(hash, sub)[FIX4..] == SaturAll(hash[FIX4..], sub);
    if btMode {
      ForestNormalised(son, g, sub, pos, t, n, hash[FIX4..], trees);
    } else {
      ChainsNormalised(son, g, sub, pos, crc, hashMask, t, hash[FIX4..]);
    }
  }
}
