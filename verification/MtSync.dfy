// One CMtSync of LzFindMt.c as a state machine: a ring of blocks, two counting semaphores,
// two auto-reset events and a critical section, with the consumer's calls
// (MtSync_GetNextBlock, MtSync_StopWriting) and the producer's loop taken one shared access
// at a time.
module MtSync {
  import opened Words

  // Where the consumer is. Off: stopped, no block.
  datatype Consumer =
    | Off              // needStart is set
    | Starting         // GetNextBlock has set the flags, canStart is next
    | WaitFilled       // Semaphore_Wait(filledSemaphore)
    | Locking          // LOCK_BUFFER
    | Using            // GetNextBlock has returned: the block may be read
    | Idle             // a block is held, but the buffer is unlocked
    | Freeing          // unlocked inside GetNextBlock, the current block is to be released
    | Stopping         // StopWriting: stopWriting is to be set
    | StopRelease      // StopWriting: freeSemaphore is to be released
    | StopWait         // StopWriting: Event_Wait(wasStopped)
    | StopDone         // StopWriting: needStart is to be set

  // Where the producer is.
  datatype Producer =
    | WaitStart        // Event_Wait(canStart)
    | WaitFree         // Semaphore_Wait(freeSemaphore)
    | Check            // looks at stopWriting
    | Filling          // writes its block
    | Posting          // Semaphore_Release1(filledSemaphore)
    | Leaving          // has left the loop, wasStopped is to be set

  datatype Owner = Nobody | Consumer_ | Mover

  // A ring slot: which block it holds, or nothing whole.
  datatype Block = Torn | Whole(index: nat)

  datatype Sync = Sync(
    numBlocks: nat,
    free: nat, filled: nat,                 // semaphore counts, both with maximum numBlocks
    canStart: bool, wasStopped: bool,       // events
    cs: Owner, csWasEntered: bool,
    needStart: bool, stopWriting: bool,
    numProcessedBlocks: nat,                // the consumer's counter
    blockIndex: nat,                        // the producer's
    renewed: bool,                          // MtSync_Init has been called since the last stop
    ring: seq<Block>,
    delivered: seq<Block>,                  // what GetNextBlock has returned since the start
    consumer: Consumer, producer: Producer)

  // MtSync_Create
  function Created(n: nat): Sync {
    Sync(n, 0, 0, false, false, Nobody, false, true, false, 0, 0, false, seq(n, _ => Torn), [], Off, WaitStart)
  }

  // ---------- steps ----------

  datatype Act =
    | DoInit           // MtSync_Init, by whoever starts a stream
    | Begin            // GetNextBlock after a stop: the flags
    | SetCanStart
    | Unlock           // GetNextBlock otherwise: UNLOCK_BUFFER
    | ReleaseFree
    | TakeFilled
    | Lock             // the LOCK_BUFFER that ends GetNextBlock, or that starts BtFillBlock
    | Pause            // the UNLOCK_BUFFER that ends BtFillBlock
    | StopUnlock       // StopWriting: UNLOCK_BUFFER if it is locked
    | SetStop
    | StopFree
    | SeeStopped
    | SetNeedStart
    | SeeStart         // the producer's steps
    | TakeFree
    | SeeStop          // stopWriting is set: break
    | GoFill           // it is not
    | Write
    | PostFilled
    | SetStopped
    | MoverEnter       // the hash thread takes and leaves the critical section to move the buffer
    | MoverLeave

  // The step can be taken: the thread is there and what it waits for has come.
  predicate Can(s: Sync, a: Act) {
    match a
    case DoInit => s.consumer.Off?
    case Begin => s.consumer.Off? && s.renewed
    case SetCanStart => s.consumer.Starting?
    case Unlock => s.consumer.Using?
    case ReleaseFree => s.consumer.Freeing?
    case TakeFilled => s.consumer.WaitFilled? && s.filled > 0
    case Lock => (s.consumer.Locking? || s.consumer.Idle?) && s.cs.Nobody?
    case Pause => s.consumer.Using?
    case StopUnlock => s.consumer.Using? || s.consumer.Idle?
    case SetStop => s.consumer.Stopping?
    case StopFree => s.consumer.StopRelease?
    case SeeStopped => s.consumer.StopWait? && s.wasStopped
    case SetNeedStart => s.consumer.StopDone?
    case SeeStart => s.producer.WaitStart? && s.canStart
    case TakeFree => s.producer.WaitFree? && s.free > 0
    case SeeStop => s.producer.Check? && s.stopWriting
    case GoFill => s.producer.Check? && !s.stopWriting
    case Write => s.producer.Filling?
    case PostFilled => s.producer.Posting?
    case SetStopped => s.producer.Leaving?
    case MoverEnter => s.cs.Nobody?
    case MoverLeave => s.cs.Mover?
  }

  // The block GetNextBlock points its caller at.
  function SlotOf(s: Sync): Block {
    if s.numBlocks > 0 && s.numProcessedBlocks > 0 && |s.ring| == s.numBlocks
    then s.ring[(s.numProcessedBlocks - 1) % s.numBlocks] else Torn
  }

  function Do(s: Sync, a: Act): Sync
    requires Can(s, a) && (a.GoFill? || a.Write? ==> s.numBlocks > 0 && |s.ring| == s.numBlocks)
  {
    match a
    case DoInit => s.(free := s.numBlocks, filled := 0, renewed := true)
    case Begin => s.(numProcessedBlocks := 1, delivered := [], needStart := false, stopWriting := false,
                     wasStopped := false, consumer := Starting)
    case SetCanStart => s.(canStart := true, consumer := WaitFilled)
    case Unlock => s.(cs := Nobody, csWasEntered := false, consumer := Freeing)
    case ReleaseFree => s.(numProcessedBlocks := s.numProcessedBlocks + 1, free := s.free + 1, consumer := WaitFilled)
    case TakeFilled => s.(filled := s.filled - 1, consumer := Locking)
    case Lock =>
      var got := if s.consumer.Locking? then s.delivered + [SlotOf(s)] else s.delivered;
      s.(cs := Consumer_, csWasEntered := true, delivered := got, consumer := Using)
    case Pause => s.(cs := Nobody, csWasEntered := false, consumer := Idle)
    case StopUnlock => if s.csWasEntered then s.(cs := Nobody, csWasEntered := false, consumer := Stopping)
                       else s.(consumer := Stopping)
    case SetStop => s.(stopWriting := true, consumer := StopRelease)
    case StopFree => s.(free := s.free + 1, consumer := StopWait)
    case SeeStopped => s.(wasStopped := false, consumer := StopDone)
    case SetNeedStart => s.(needStart := true, renewed := false, consumer := Off)
    case SeeStart => s.(canStart := false, producer := WaitFree)
    case TakeFree => s.(free := s.free - 1, producer := Check)
    case SeeStop => s.(producer := Leaving)
    case GoFill => s.(ring := s.ring[s.blockIndex % s.numBlocks := Torn], producer := Filling)
    case Write => s.(ring := s.ring[s.blockIndex % s.numBlocks := Whole(s.blockIndex)], producer := Posting)
    case PostFilled => s.(blockIndex := s.blockIndex + 1, filled := s.filled + 1, producer := WaitFree)
    case SetStopped => s.(wasStopped := true, blockIndex := 0, producer := WaitStart)
    case MoverEnter => s.(cs := Mover)
    case MoverLeave => s.(cs := Nobody)
  }

  // ---------- the invariant ----------

  // The consumer is between a start and a stop that has been seen.
  predicate Running(s: Sync) {
    !s.consumer.Off? && !s.consumer.Starting? && !s.consumer.StopDone?
  }

  // The block GetNextBlock has returned, or is about to, is number numProcessedBlocks - 1;
  // all before it have been given back, and with StopWriting it too.
  function Released(s: Sync): int {
    if s.consumer.StopWait? then s.numProcessedBlocks else s.numProcessedBlocks - 1
  }

  // How many blocks the consumer has taken from the filled ones.
  function Taken(s: Sync): int {
    if s.consumer.WaitFilled? then s.numProcessedBlocks - 1 else s.numProcessedBlocks
  }

  // The free block the producer has taken for the block it is working on.
  function Claimed(s: Sync): nat {
    if s.producer.WaitStart? || s.producer.WaitFree? then 0 else 1
  }

  // How many blocks GetNextBlock has returned.
  function Handed(s: Sync): int {
    if s.consumer.Starting? || s.consumer.WaitFilled? || s.consumer.Locking? then s.numProcessedBlocks - 1
    else s.numProcessedBlocks
  }

  ghost predicate Inv(s: Sync) {
    && s.numBlocks > 0 && |s.ring| == s.numBlocks && s.free <= s.numBlocks
    // the flags
    && (s.needStart <==> s.consumer.Off?) && (!s.consumer.Off? ==> s.renewed)
    && (s.csWasEntered <==> s.cs == Consumer_) && (s.cs == Consumer_ <==> s.consumer.Using?)
    && (s.consumer.StopRelease? || s.consumer.StopWait? ==> s.stopWriting)
    && (s.stopWriting && Running(s) ==> s.consumer.StopRelease? || s.consumer.StopWait?)
    // a start and a stop each change hands through one event
    && (s.canStart ==> Running(s) && s.producer.WaitStart? && !s.wasStopped)
    && (s.wasStopped ==> (s.consumer.StopRelease? || s.consumer.StopWait?) && s.producer.WaitStart?)
    && (s.wasStopped && s.consumer.StopRelease? ==> s.free < s.numBlocks)
    && (!s.producer.WaitStart? ==> Running(s) && !s.canStart && !s.wasStopped)
    && (s.producer.WaitStart? && Running(s) ==> s.canStart || s.wasStopped)
    && (s.producer.Leaving? ==> s.stopWriting)
    // the counts
    && (s.renewed && !Running(s) && !s.consumer.StopDone? ==> s.free == s.numBlocks && s.filled == 0)
    && (s.consumer.Starting? ==> s.renewed && s.numProcessedBlocks == 1 && !s.stopWriting)
    && (s.producer.WaitStart? ==> s.blockIndex == 0)
    && (Running(s) ==> s.numProcessedBlocks >= 1)
    && (Running(s) && !s.wasStopped ==>
      && s.free + s.blockIndex + Claimed(s) == s.numBlocks + Released(s)
      && s.filled + Taken(s) == s.blockIndex)
    && (s.consumer.StopWait? && !s.wasStopped && !s.producer.Check? && !s.producer.Leaving? ==> s.free > 0)
    // every block posted and not given back is whole in its slot
    && (Running(s) && !s.wasStopped
        ==> forall i :: Released(s) <= i < s.blockIndex ==> s.ring[i % s.numBlocks] == Whole(i))
    // what has been handed over is every block from 0 on, once, in order
    && (Running(s) || s.consumer.Starting?
        ==> |s.delivered| == Handed(s) && forall i :: 0 <= i < |s.delivered| ==> s.delivered[i] == Whole(i))
    && (Running(s) && s.producer.Posting? ==> s.ring[s.blockIndex % s.numBlocks] == Whole(s.blockIndex))
  }

  // Block numbers less than a round apart have different slots.
  lemma SlotsDiffer(i: nat, j: nat, n: nat)
    requires i < j < i + n
    ensures i % n != j % n
  {
    var q, r, d := i / n, i % n, j - i;
    assert i == n * q + r;
    if r + d < n {
      ModUnique(j, n, q, r + d);
    } else {
      ModUnique(j, n, q + 1, r + d - n);
    }
  }

  lemma InitHolds(n: nat)
    requires n > 0
    ensures Inv(Created(n))
  {
  }

  lemma RingKept(s: Sync, v: Block)
    requires s.numBlocks > 0 && |s.ring| == s.numBlocks && 0 <= Released(s) && s.blockIndex < s.numBlocks + Released(s)
    requires forall i :: Released(s) <= i < s.blockIndex ==> s.ring[i % s.numBlocks] == Whole(i)
    ensures var ring' := s.ring[s.blockIndex % s.numBlocks := v];
      forall i :: Released(s) <= i < s.blockIndex ==> ring'[i % s.numBlocks] == Whole(i)
  {
    forall i | Released(s) <= i < s.blockIndex
      ensures i % s.numBlocks != s.blockIndex % s.numBlocks
    {
      SlotsDiffer(i, s.blockIndex, s.numBlocks);
    }
  }

  lemma StartKeeps(s: Sync, a: Act)
    requires Inv(s) && Can(s, a) && (a.DoInit? || a.Begin? || a.SetCanStart?)
    ensures Inv(Do(s, a))
  {
  }

  lemma RoundKeeps(s: Sync, a: Act)
    requires Inv(s) && Can(s, a) && (a.Unlock? || a.ReleaseFree? || a.TakeFilled? || a.Lock? || a.Pause?)
    ensures Inv(Do(s, a))
  {
  }

  lemma StopKeeps(s: Sync, a: Act)
    requires Inv(s) && Can(s, a) && (a.StopUnlock? || a.SetStop? || a.StopFree? || a.SeeStopped? || a.SetNeedStart?)
    ensures Inv(Do(s, a))
  {
  }

  lemma ProducerKeeps(s: Sync, a: Act)
    requires Inv(s) && Can(s, a) && (a.SeeStart? || a.TakeFree? || a.SeeStop? || a.PostFilled? || a.SetStopped?)
    ensures Inv(Do(s, a))
  {
  }

  lemma FillKeeps(s: Sync, a: Act)
    requires Inv(s) && Can(s, a) && (a.GoFill? || a.Write?)
    ensures Inv(Do(s, a))
  {
    RingKept(s, if a.GoFill? then Torn else Whole(s.blockIndex));
  }

  lemma MoverKeeps(s: Sync, a: Act)
    requires Inv(s) && Can(s, a) && (a.MoverEnter? || a.MoverLeave?)
    ensures Inv(Do(s, a))
  {
  }

  // Every step of the consumer, the producer or the mover keeps the invariant.
  lemma StepKeeps(s: Sync, a: Act)
    requires Inv(s) && Can(s, a)
    ensures Inv(Do(s, a))
  {
    hide Inv;
    RingSized(s);
    if a.DoInit? || a.Begin? || a.SetCanStart? { StartKeeps(s, a); }
    else if a.Unlock? || a.ReleaseFree? || a.TakeFilled? || a.Lock? || a.Pause? { RoundKeeps(s, a); }
    else if a.StopUnlock? || a.SetStop? || a.StopFree? || a.SeeStopped? || a.SetNeedStart? { StopKeeps(s, a); }
    else if a.SeeStart? || a.TakeFree? || a.SeeStop? || a.PostFilled? || a.SetStopped? { ProducerKeeps(s, a); }
    else if a.GoFill? || a.Write? { FillKeeps(s, a); }
    else { MoverKeeps(s, a); }
  }

  lemma RingSized(s: Sync)
    requires Inv(s)
    ensures s.numBlocks > 0 && |s.ring| == s.numBlocks
  {
  }

  // ---------- what the invariant gives ----------

  // No semaphore is released past its count, no event is set twice, LOCK_BUFFER and
  // MtSync_Init find the buffer unlocked and UNLOCK_BUFFER finds it locked.
  predicate Allowed(s: Sync, a: Act) {
    match a
    case ReleaseFree => s.free < s.numBlocks
    case StopFree => s.free < s.numBlocks
    case PostFilled => s.filled < s.numBlocks
    case Unlock => s.csWasEntered
    case Pause => s.csWasEntered
    case Lock => !s.csWasEntered
    case DoInit => !s.csWasEntered && s.needStart
    case Begin => !s.csWasEntered
    case SetCanStart => !s.canStart
    case SetStopped => !s.wasStopped
    case _ => true
  }

  lemma StepsAllowed(s: Sync, a: Act)
    requires Inv(s) && Can(s, a)
    ensures Allowed(s, a)
  {
  }

  // The block in hand is the one counted, whole, and the producer is not on its slot.
  predicate Reading(s: Sync) {
    var cur := s.numProcessedBlocks - 1;
    && s.numBlocks > 0 && |s.ring| == s.numBlocks && 0 <= cur < s.blockIndex && s.ring[cur % s.numBlocks] == Whole(cur)
    && (s.producer.Filling? || s.producer.Posting? || s.producer.Check?
        ==> s.blockIndex % s.numBlocks != cur % s.numBlocks)
  }

  lemma ReadSafe(s: Sync)
    requires Inv(s) && (s.consumer.Using? || s.consumer.Idle?)
    ensures Reading(s)
  {
    if s.producer.Filling? || s.producer.Posting? || s.producer.Check? {
      SlotsDiffer(s.numProcessedBlocks - 1, s.blockIndex, s.numBlocks);
    }
  }

  // Blocks are delivered in order, each exactly once.
  lemma InOrder(s: Sync)
    requires Inv(s) && s.consumer.Using?
    ensures |s.delivered| == s.numProcessedBlocks && forall i :: 0 <= i < |s.delivered| ==> s.delivered[i] == Whole(i)
  {
  }

  // After StopWriting the producer is out of its loop, waiting for the next start.
  lemma StoppedMeansStopped(s: Sync)
    requires Inv(s) && (s.consumer.StopDone? || s.consumer.Off?)
    ensures s.producer.WaitStart? && !s.canStart && !s.wasStopped && !s.csWasEntered
  {
  }

  // While somebody else holds the critical section the consumer is not in the buffer.
  lemma MoverAlone(s: Sync)
    requires Inv(s) && s.cs.Mover?
    ensures !s.consumer.Using?
  {
  }

  // The consumer can wait for stopping without being left waiting: whenever it does, the
  // producer either has said so, or still has a free block to wake up on or is on its way.
  lemma StopComes(s: Sync)
    requires Inv(s) && s.consumer.StopWait?
    ensures s.wasStopped || !s.producer.WaitFree? || s.free > 0
    ensures s.producer.WaitStart? && !s.wasStopped ==> s.canStart
  {
  }
}
