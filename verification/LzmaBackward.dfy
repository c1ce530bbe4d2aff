// Backward of LzmaEnc.c: the chain of best steps, linked from its end, turned around in the
// array it is read from.
module LzmaBackward {
  import opened LzmaEncode

  // What Backward reads and writes of a COptimal: the last step's length and distance, and
  // whether it is short for two or three steps.
  datatype Opt = Opt(len: nat, dist: nat, extra: nat)

  // The steps an entry stands for, in forward order: itself, LIT : MATCH, or
  // MATCH (extra - 1) : LIT : REP0.
  function Expanded(o: Opt): seq<Decision> {
    if o.extra == 0 then [Decision(o.len, o.dist)]
    else if o.extra == 1 then [Decision(1, MARK_LIT), Decision(o.len, o.dist)]
    else [Decision(o.extra - 1, o.dist), Decision(1, MARK_LIT), Decision(o.len, 0)]
  }

  // Every entry on the way back from cur covers at least a byte and does not reach before 0.
  ghost predicate ChainOk(opt: seq<Opt>, cur: nat)
    decreases cur
  {
    cur == 0 || (cur < |opt| && opt[cur].len >= 1 && opt[cur].len + opt[cur].extra <= cur
                 && ChainOk(opt, cur - opt[cur].len - opt[cur].extra))
  }

  // The whole parse from 0 to cur, in forward order.
  ghost function Chain(opt: seq<Opt>, cur: nat): seq<Decision>
    requires ChainOk(opt, cur)
    decreases cur
  {
    if cur == 0 then [] else Chain(opt, cur - opt[cur].len - opt[cur].extra) + Expanded(opt[cur])
  }

  function Covered(parse: seq<Decision>): nat {
    if parse == [] then 0 else parse[0].len + Covered(parse[1..])
  }

  lemma {:induction false} CoveredJoin(a: seq<Decision>, b: seq<Decision>)
    ensures Covered(a + b) == Covered(a) + Covered(b)
  {
    if a == [] {
      assert a + b == b;
    } else {
      assert (a + b)[1..] == a[1..] + b;
      CoveredJoin(a[1..], b);
    }
  }

  // The parse covers exactly the bytes up to where it ends, and no step of it is empty.
  lemma {:induction false} ChainCovers(opt: seq<Opt>, cur: nat)
    requires ChainOk(opt, cur)
    ensures Covered(Chain(opt, cur)) == cur
    ensures forall i :: 0 <= i < |Chain(opt, cur)| ==> Chain(opt, cur)[i].len >= 1
    ensures cur > 0 ==> Chain(opt, cur) != []
    decreases cur
  {
    if cur > 0 {
      var o := opt[cur];
      ChainCovers(opt, cur - o.len - o.extra);
      CoveredJoin(Chain(opt, cur - o.len - o.extra), Expanded(o));
      ExpandedCovers(o);
    }
  }

  lemma ExpandedCovers(o: Opt)
    ensures Covered(Expanded(o)) == o.len + o.extra
  {
    var e := Expanded(o);
    CoveredJoin(e[..1], e[1..]);
    assert e == e[..1] + e[1..];
    if o.extra == 1 {
      assert e[1..][1..] == [];
    } else if o.extra > 1 {
      assert e[1..][1..][1..] == [];
    }
  }

  // The entries of a stretch of the array, read as steps.
  ghost function Stored(opt: seq<Opt>, from: nat, to: nat): (r: seq<Decision>)
    requires from <= to <= |opt|
    ensures |r| == to - from
  {
    seq(to - from, i requires 0 <= i < to - from => Decision(opt[from + i].len, opt[from + i].dist))
  }

  lemma StoredCons(opt: seq<Opt>, from: nat, to: nat, len: nat, dist: nat)
    requires 0 < from <= to <= |opt|
    ensures var opt' := opt[from - 1 := opt[from - 1].(len := len, dist := dist)];
      Stored(opt', from - 1, to) == [Decision(len, dist)] + Stored(opt, from, to)
  {
  }

  // One entry written, as the code does it field by field.
  method Put(opt: array<Opt>, wr: nat, len: nat, dist: nat, ghost end: nat)
    requires 0 <= wr < end <= opt.Length
    modifies opt
    ensures opt[..] == old(opt[..])[wr := old(opt[wr]).(len := len, dist := dist)]
    ensures Stored(opt[..], wr, end) == [Decision(len, dist)] + Stored(old(opt[..]), wr + 1, end)
  {
    StoredCons(opt[..], wr + 1, end, len, dist);
    opt[wr] := opt[wr].(dist := dist);
    opt[wr] := opt[wr].(len := len);
    assert opt[..] == old(opt[..])[wr := old(opt[wr]).(len := len, dist := dist)];
  }

  // An entry that is short for two steps or three: all but the first of them are written.
  method PutExtra(opt: array<Opt>, wr0: nat, len0: nat, dist0: nat, extra: nat, ghost end: nat)
      returns (wr: nat, len: nat, dist: nat)
    requires extra > 0 && (if extra == 1 then 1 else 2) <= wr0 <= end <= opt.Length
    modifies opt
    ensures wr == wr0 - (if extra == 1 then 1 else 2)
    ensures forall i :: 0 <= i < opt.Length && !(wr <= i < wr0) ==> opt[i] == old(opt[i])
    ensures forall i :: 0 <= i < opt.Length ==> opt[i].extra == old(opt[i]).extra
    ensures len == (if extra == 1 then 1 else extra - 1) && dist == (if extra == 1 then MARK_LIT else dist0)
    ensures Stored(opt[..], wr, end) == (if extra == 1 then [Decision(len0, dist0)] + Stored(old(opt[..]), wr0, end)
      else [Decision(1, MARK_LIT)] + ([Decision(len0, 0)] + Stored(old(opt[..]), wr0, end)))
  {
    hide Stored;
    wr := wr0 - 1;
    if extra == 1 {
      Put(opt, wr, len0, dist0, end);
      dist, len := MARK_LIT, extra;
    } else {
      Put(opt, wr, len0, 0, end);
      len, dist := extra - 1, dist0;
      wr := wr - 1;
      Put(opt, wr, 1, MARK_LIT, end);
    }
  }

  // The steps of the parse come out in forward order: the first is returned, the others are
  // in opt[optCur..optEnd]; no entry is overwritten before it has been read.
  method Backward(opt: array<Opt>, cur0: nat) returns (len: nat, backRes: nat, optCur: nat, optEnd: nat)
    requires 0 < cur0 < opt.Length && ChainOk(opt[..], cur0)
    modifies opt
    ensures 0 < optCur <= optEnd == cur0 + 1
    ensures [Decision(len, backRes)] + Stored(opt[..], optCur, optEnd) == Chain(old(opt[..]), cur0)
    ensures len + Covered(Stored(opt[..], optCur, optEnd)) == cur0
    ensures forall i :: 0 <= i < opt.Length && !(optCur <= i < optEnd) ==> opt[i] == old(opt[i])
    ensures forall i :: 0 <= i < opt.Length ==> opt[i].extra == old(opt[i]).extra
  {
    hide Stored, Chain, Covered;
    ghost var was := opt[..];
    var cur, wr: nat := cur0, cur0 + 1;
    optEnd := wr;
    NothingStored(was, wr);
    while true
      invariant 0 < cur < wr <= optEnd && ChainOk(was, cur)
      invariant forall i :: 0 <= i < opt.Length && !(wr <= i < optEnd) ==> opt[i] == was[i]
      invariant forall i :: 0 <= i < opt.Length ==> opt[i].extra == was[i].extra
      invariant Chain(was, cur) + Stored(opt[..], wr, optEnd) == Chain(was, cur0)
      decreases cur
    {
      ChainStep(was, cur, Stored(opt[..], wr, optEnd));
      var dist, extra := opt[cur].dist, opt[cur].extra;
      len := opt[cur].len;
      cur := cur - len;
      if extra != 0 {
        cur := cur - extra;
        wr, len, dist := PutExtra(opt, wr, len, dist, extra, optEnd);
      }
      if cur == 0 {
        backRes, optCur := dist, wr;
        Whole(was, cur0, len, dist, Stored(opt[..], wr, optEnd));
        return;
      }
      wr := wr - 1;
      Put(opt, wr, len, dist, optEnd);
    }
  }

  lemma NothingStored(opt: seq<Opt>, i: nat)
    requires i <= |opt|
    ensures Stored(opt, i, i) == []
  {
  }

  // What an entry adds in front of the steps already stored.
  lemma ChainStep(opt: seq<Opt>, cur: nat, rest: seq<Decision>)
    requires cur > 0 && ChainOk(opt, cur)
    ensures var o := opt[cur]; var before := Chain(opt, cur - o.len - o.extra);
      Chain(opt, cur) + rest == before + (if o.extra == 0 then [Decision(o.len, o.dist)] + rest
        else if o.extra == 1 then [Decision(1, MARK_LIT)] + ([Decision(o.len, o.dist)] + rest)
        else [Decision(o.extra - 1, o.dist)] + ([Decision(1, MARK_LIT)] + ([Decision(o.len, 0)] + rest)))
    ensures cur == opt[cur].len + opt[cur].extra ==> Chain(opt, 0) == []
  {
  }

  lemma Whole(opt: seq<Opt>, cur: nat, len: nat, dist: nat, rest: seq<Decision>)
    requires ChainOk(opt, cur) && Chain(opt, cur) == [Decision(len, dist)] + rest
    ensures len + Covered(rest) == cur
  {
    ChainCovers(opt, cur);
    assert ([Decision(len, dist)] + rest)[1..] == rest;
  }
}
