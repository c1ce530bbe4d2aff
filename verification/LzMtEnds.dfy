// Every call of the three threads of LzFindMt.c ends: what is left to do after a call has begun is a
// number, bounded by the sizes of the rings, that every further step of any thread lowers.
module LzMtEnds {
  import opened MtSync
  import opened LzFindMt

  // ---------- what is left to do ----------

  const PER_FREE_HASH: nat := 11                    // the steps for one block of heads, and one move
  const PER_FREE_BT: nat := 16 * BT_BLOCK + 22      // the steps for one block of matches

  // The hash thread, before it waits for a free block or for its start.
  function HashPhase(s: Sync): nat {
    match s.producer
    case WaitStart => if s.canStart then 1 else 0
    case WaitFree => 0
    case Check => 10
    case Filling => 2
    case Posting => 1
    case Leaving => 1
  }

  // The mover, and the move that may still become necessary in this block.
  function MovePhase(s: Mt): nat {
    match s.move
    case Still => if s.crowded || s.hash.producer.Filling? then 7 else 0
    case HasBt => 6
    case HasBoth => 5
    case Moved(_) => 4
    case LzAdjusted(_) => 3
    case BothAdjusted => 2
    case LeftHash => 1
  }

  // The tree thread inside its call of GetNextBlock for a block of heads.
  function TakePhase(c: Consumer): nat {
    match c
    case Off => 7
    case Starting => 6
    case WaitFilled => 3
    case Locking => 2
    case Using => 1
    case Idle => 2
    case Freeing => 16
    case _ => 0
  }

  // The tree thread inside StopWriting.
  function StopPhase(c: Consumer): nat {
    match c
    case Off => 2
    case StopDone => 3
    case StopWait => 4
    case StopRelease => 16
    case Stopping => 17
    case _ => 18
  }

  // The tree thread, before it waits for a free block or for its start.
  function TreePhase(s: Mt): nat {
    match s.bt.producer
    case WaitStart => if s.bt.canStart then 1 else 0
    case WaitFree => 0
    case Check => 16 * BT_BLOCK + 21
    case Filling => 16 * s.room + TakePhase(s.hash.consumer) + 4
    case Posting => if s.hash.consumer.Using? then 3 else 2
    case Leaving => StopPhase(s.hash.consumer)
  }

  // The encoder inside its call.
  function CallPhase(c: Consumer): nat {
    match c
    case Off => 0
    case Starting => 4
    case WaitFilled => 2
    case Locking => 1
    case Using => 0
    case Idle => 0
    case Freeing => PER_FREE_BT + 3
    case Stopping => PER_FREE_BT + 4
    case StopRelease => PER_FREE_BT + 3
    case StopWait => 2
    case StopDone => 1
  }

  function Left(s: Mt): nat {
    CallPhase(s.bt.consumer) + PER_FREE_BT * s.bt.free + TreePhase(s)
    + PER_FREE_HASH * s.hash.free + HashPhase(s.hash) + MovePhase(s)
  }

  // Never more than this, whatever has happened.
  function Bound(btBlocks: nat, hashBlocks: nat): nat {
    PER_FREE_BT * (btBlocks + 2) + PER_FREE_HASH * hashBlocks + 24
  }

  lemma LeftBounded(s: Mt)
    requires MtInv(s)
    ensures Left(s) <= Bound(s.bt.numBlocks, s.hash.numBlocks)
  {
    hide Inv, Pointers, Renewed, Locks, Coupled;
    FreeBounded(s.bt);
    FreeBounded(s.hash);
  }

  lemma FreeBounded(s: Sync)
    requires Inv(s)
    ensures s.free <= s.numBlocks
  {
  }

  // ---------- every step pays ----------

  lemma LzPays(s: Mt, a: Act)
    requires MtInv(s) && May(s, Lz(a)) && !Calls(Lz(a))
    ensures Left(After(s, Lz(a))) < Left(s)
  {
    hide MtInv, Inv;
  }

  lemma BtOutPays(s: Mt, a: Act)
    requires MtInv(s) && May(s, BtOut(a))
    ensures Left(After(s, BtOut(a))) < Left(s)
  {
    hide MtInv, Inv;
  }

  lemma BtTakes(s: Mt, a: Act)
    requires Sized(s.bt) && Sized(s.hash) && May(s, BtIn(a)) && !s.bt.producer.Leaving?
    ensures Left(After(s, BtIn(a))) < Left(s)
  {
    hide CallPhase, StopPhase, MovePhase;
    MoveWaits(s, a);
  }

  lemma BtStops(s: Mt, a: Act)
    requires Sized(s.bt) && Sized(s.hash) && May(s, BtIn(a)) && s.bt.producer.Leaving?
    ensures Left(After(s, BtIn(a))) < Left(s)
  {
    hide CallPhase, TakePhase, MovePhase;
    MoveWaits(s, a);
  }

  lemma MoveWaits(s: Mt, a: Act)
    requires Sized(s.bt) && Sized(s.hash) && May(s, BtIn(a))
    ensures MovePhase(After(s, BtIn(a))) == MovePhase(s)
  {
    hide Do, Can;
    ProducerStays(s.hash, a);
  }

  lemma ProducerStays(s: Sync, a: Act)
    requires Sized(s) && Can(s, a)
    requires a.Begin? || a.SetCanStart? || a.Unlock? || a.ReleaseFree? || a.TakeFilled? || a.Lock? || a.Pause?
      || a.StopUnlock? || a.SetStop? || a.StopFree? || a.SeeStopped? || a.SetNeedStart?
    ensures Do(s, a).producer == s.producer
  {
  }

  lemma BtInPays(s: Mt, a: Act)
    requires MtInv(s) && May(s, BtIn(a))
    ensures Left(After(s, BtIn(a))) < Left(s)
  {
    hide Inv, Left, May;
    RingSized(s.bt);
    RingSized(s.hash);
    if s.bt.producer.Leaving? {
      BtStops(s, a);
    } else {
      BtTakes(s, a);
    }
  }

  lemma HashPays(s: Mt, a: Act)
    requires MtInv(s) && May(s, Hash(a))
    ensures Left(After(s, Hash(a))) < Left(s)
  {
  }

  lemma MoverPays(s: Mt, p: Step)
    requires MtInv(s) && May(s, p)
    requires p.EnterBt? || p.EnterHash? || p.MoveBlock? || p.AdjustLz? || p.AdjustBt? || p.LeaveHash? || p.LeaveBt?
    ensures Left(After(s, p)) < Left(s)
  {
  }

  // Whoever takes it, a step that does not begin a call of the encoder's lowers what is left to do.
  lemma StepPays(s: Mt, p: Step)
    requires MtInv(s) && May(s, p) && !Calls(p)
    ensures Sized(s.bt) && Sized(s.hash)
    ensures if Inside(p) then Left(After(s, p)) <= Left(s) else Left(After(s, p)) < Left(s)
  {
    hide Left, Inv, Can;
    MtStepKeeps(s, p);
    match p
    case Lz(a) => LzPays(s, a);
    case BtOut(a) => BtOutPays(s, a);
    case BtIn(a) => BtInPays(s, a);
    case Hash(a) => HashPays(s, a);
    case LzAdvance(_) => InsidePays(s, p);
    case BtAdvance(_) => InsidePays(s, p);
    case HashAdvance(_, _) => InsidePays(s, p);
    case InitMt =>
    case _ => MoverPays(s, p);
  }

  lemma InsidePays(s: Mt, p: Step)
    requires MtInv(s) && May(s, p) && Inside(p)
    ensures Left(After(s, p)) <= Left(s)
  {
    hide MtInv, Inv;
  }

  // ---------- every call ends ----------

  // steps lead from s to s', and none of them begins a call of the encoder's.
  ghost predicate Leads(s: Mt, steps: seq<Step>, s': Mt)
    decreases |steps|
  {
    if steps == [] then s == s'
    else Sized(s.bt) && Sized(s.hash) && May(s, steps[0]) && !Calls(steps[0])
         && Leads(After(s, steps[0]), steps[1..], s')
  }

  // The steps that are not just work inside a block.
  function Shared(steps: seq<Step>): nat {
    if steps == [] then 0 else (if Inside(steps[0]) then 0 else 1) + Shared(steps[1..])
  }

  lemma {:induction false} LeadsPays(s: Mt, steps: seq<Step>, s': Mt)
    requires MtInv(s) && Leads(s, steps, s')
    ensures MtInv(s') && Shared(steps) + Left(s') <= Left(s)
    ensures s'.bt.numBlocks == s.bt.numBlocks && s'.hash.numBlocks == s.hash.numBlocks
    decreases |steps|
  {
    hide MtInv, Left, May;
    if steps != [] {
      MtStepKeeps(s, steps[0]);
      StepPays(s, steps[0]);
      SizesStay(s, steps[0]);
      LeadsPays(After(s, steps[0]), steps[1..], s');
    }
  }

  lemma SizesStay(s: Mt, p: Step)
    requires Sized(s.bt) && Sized(s.hash) && May(s, p)
    ensures var s' := After(s, p); s'.bt.numBlocks == s.bt.numBlocks && s'.hash.numBlocks == s.hash.numBlocks
  {
    hide Do, Can;
    match p
    case InitMt => SizeStays(s.bt, DoInit); SizeStays(s.hash, DoInit);
    case Lz(a) => SizeStays(s.bt, a);
    case BtOut(a) => SizeStays(s.bt, a);
    case BtIn(a) => SizeStays(s.hash, a);
    case Hash(a) => SizeStays(s.hash, a);
    case EnterBt => SizeStays(s.bt, MoverEnter);
    case EnterHash => SizeStays(s.hash, MoverEnter);
    case LeaveHash => SizeStays(s.hash, MoverLeave);
    case LeaveBt => SizeStays(s.bt, MoverLeave);
    case _ =>
  }

  lemma SizeStays(s: Sync, a: Act)
    requires Sized(s) && Can(s, a)
    ensures Do(s, a).numBlocks == s.numBlocks
  {
    match a
    case DoInit | Begin | SetCanStart | Unlock | ReleaseFree | TakeFilled =>
    case Lock | Pause | StopUnlock =>
    case SetStop | StopFree | SeeStopped | SetNeedStart =>
    case SeeStart | TakeFree | SeeStop | GoFill | Write | PostFilled | SetStopped =>
    case MoverEnter | MoverLeave =>
  }

  // Nobody can take a step but inside a block, or to begin another call.
  ghost predicate Quiet(s: Mt) {
    forall p :: May(s, p) ==> Inside(p) || Calls(p)
  }

  lemma QuietOutside(s: Mt)
    requires MtInv(s) && Quiet(s)
    ensures s.bt.consumer.Off? || s.bt.consumer.Using?
    ensures !s.bt.producer.Filling? && !s.bt.producer.Leaving?
  {
    hide MtInv, May;
    if !s.bt.consumer.Off? && !s.bt.consumer.Using? {
      var p := EncoderGoes(s);
    } else if s.bt.producer.Filling? {
      var p := FillGoes(s);
    } else if s.bt.producer.Leaving? {
      var p := LeaveGoes(s);
    }
  }

  // Once the encoder has begun a call, no order of the threads' steps is longer than the bound, and none
  // ends before the call has returned and the tree thread is out of its block.
  lemma EveryCallEnds(s0: Mt, btBlocks: nat, hashBlocks: nat, before: seq<Step>, steps: seq<Step>, s: Mt)
    requires btBlocks > 0 && hashBlocks > 0 && Reached(s0, btBlocks, hashBlocks, before) && Leads(s0, steps, s)
    ensures Shared(steps) <= Bound(btBlocks, hashBlocks)
    ensures Quiet(s) ==>
      && (s.bt.consumer.Off? || s.bt.consumer.Using?) && !s.bt.producer.Filling? && !s.bt.producer.Leaving?
  {
    hide MtInv, Reached, Left, Quiet, Leads, Bound;
    ReachedInv(s0, btBlocks, hashBlocks, before);
    ReachedSizes(s0, btBlocks, hashBlocks, before);
    LeadsPays(s0, steps, s);
    LeftBounded(s0);
    if Quiet(s) {
      QuietOutside(s);
    }
  }

  lemma {:induction false} ReachedSizes(s: Mt, btBlocks: nat, hashBlocks: nat, steps: seq<Step>)
    requires Reached(s, btBlocks, hashBlocks, steps)
    ensures s.bt.numBlocks == btBlocks && s.hash.numBlocks == hashBlocks
    decreases steps
  {
    hide Next, May;
    if steps != [] {
      var last, before := steps[|steps| - 1], steps[..|steps| - 1];
      var s0: Mt :| Next(s0, last, s) && Reached(s0, btBlocks, hashBlocks, before);
      ReachedSizes(s0, btBlocks, hashBlocks, before);
      NextSizes(s0, last, s);
    }
  }

  lemma NextSizes(s: Mt, p: Step, s': Mt)
    requires Next(s, p, s')
    ensures s'.bt.numBlocks == s.bt.numBlocks && s'.hash.numBlocks == s.hash.numBlocks
  {
    SizesStay(s, p);
  }
}
