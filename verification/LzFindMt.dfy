// The three threads of LzFindMt.c: the encoder takes blocks of matches from the tree thread,
// which takes blocks of hash heads from the hash thread, which also moves the input buffer
// under both of them.
module LzFindMt {
  import opened MtSync

  // Where the hash thread is with moving the buffer.
  datatype Move =
    | Still
    | HasBt                       // CriticalSection_Enter(btSync.cs)
    | HasBoth                     // and hashSync.cs
    | Moved(offset: nat)          // MatchFinder_MoveBlock
    | LzAdjusted(offset: nat)     // pointerToCurPos -= offset
    | BothAdjusted                // buffer -= offset
    | LeftHash                    // CriticalSection_Leave(hashSync.cs)

  // The pointers are offsets into the buffer; lzAt, btAt and mfAt are the bytes of the stream
  // they stand for, and dropped is how much of the stream has been moved out of the buffer. crowded: the
  // hash thread has come so near the buffer's end that MatchFinder_NeedMove holds. room: how many more
  // blocks of heads the tree thread may take for its block, each of which adds to it.
  datatype Mt = Mt(bt: Sync, hash: Sync, move: Move, dropped: int,
                   pointerToCurPos: int, buffer: int, mfBuffer: int, lzAt: int, btAt: int, mfAt: int,
                   crowded: bool, room: nat)

  const BT_BLOCK: nat := 0x1_0000   // kMtBtBlockSize

  // MatchFinderMt_Create
  function Created_(btBlocks: nat, hashBlocks: nat): Mt {
    Mt(Created(btBlocks), Created(hashBlocks), Still, 0, 0, 0, 0, 0, 0, 0, false, 0)
  }

  datatype Step =
    | InitMt                      // MatchFinderMt_InitMt
    | Lz(a: Act)                  // the encoder, on btSync
    | LzAdvance(n: nat)           // GetMatches or Skip inside a block
    | BtOut(a: Act)               // the tree thread's loop, on btSync
    | BtIn(a: Act)                // BtFillBlock and BtGetMatches, on hashSync
    | BtAdvance(n: nat)
    | Hash(a: Act)                // the hash thread's loop, on hashSync
    | HashAdvance(n: nat, near: bool)  // near: the buffer's end is near now
    | EnterBt | EnterHash | MoveBlock(offset: nat) | AdjustLz | AdjustBt | LeaveHash | LeaveBt

  // The encoder calls GetNextBlock and StopWriting and never unlocks otherwise.
  predicate LzMay(s: Mt, a: Act) {
    || a.Begin? || a.SetCanStart? || a.Unlock? || a.ReleaseFree? || a.TakeFilled? || (a.Lock? && s.bt.consumer.Locking?)
    || (a.StopUnlock? && s.bt.consumer.Using?) || a.SetStop? || a.StopFree? || a.SeeStopped? || a.SetNeedStart?
  }

  // BtThreadFunc's order: a block is whole while the hash block is in use, it is posted once
  // that one is unlocked, and wasStopped is set once the hash thread has been stopped.
  predicate BtOutMay(s: Mt, a: Act) {
    || a.SeeStart? || a.TakeFree? || a.SeeStop? || a.GoFill?
    || (a.Write? && s.hash.consumer.Using?)
    || (a.PostFilled? && s.hash.consumer.Idle?)
    || (a.SetStopped? && s.hash.consumer.Off?)
  }

  predicate BtInMay(s: Mt, a: Act) {
    || (s.bt.producer.Filling?
        && (a.Begin? || a.SetCanStart? || a.Unlock? || a.ReleaseFree? || a.TakeFilled? || a.Lock?))
    || (s.bt.producer.Posting? && a.Pause?)
    || (s.bt.producer.Leaving? && (a.StopUnlock? || a.SetStop? || a.StopFree? || a.SeeStopped? || a.SetNeedStart?))
  }

  predicate HashMay(s: Mt, a: Act) {
    s.move.Still?
      && (a.SeeStart? || a.TakeFree? || a.SeeStop? || a.GoFill? || a.Write? || a.PostFilled? || a.SetStopped?)
  }

  predicate May(s: Mt, p: Step) {
    match p
    case InitMt => s.bt.needStart && !s.bt.csWasEntered && s.bt.consumer.Off? && s.hash.needStart
                   && !s.hash.csWasEntered && s.hash.consumer.Off?
    case Lz(a) => LzMay(s, a) && Can(s.bt, a)
    case LzAdvance(n) => s.bt.consumer.Using?
    case BtOut(a) => BtOutMay(s, a) && Can(s.bt, a)
    case BtIn(a) => BtInMay(s, a) && Can(s.hash, a) && (a.Unlock? ==> s.room > 0)
    case BtAdvance(n) => s.bt.producer.Filling? && s.hash.consumer.Using?
    case Hash(a) => HashMay(s, a) && Can(s.hash, a)
    case HashAdvance(_, _) => s.hash.producer.Filling?
    case EnterBt => s.move.Still? && s.crowded && s.hash.producer.WaitFree? && Can(s.bt, MoverEnter)
    case EnterHash => s.move.HasBt? && Can(s.hash, MoverEnter)
    case MoveBlock(_) => s.move.HasBoth?
    case AdjustLz => s.move.Moved?
    case AdjustBt => s.move.LzAdjusted?
    case LeaveHash => s.move.BothAdjusted? && Can(s.hash, MoverLeave)
    case LeaveBt => s.move.LeftHash? && Can(s.bt, MoverLeave)
  }

  predicate Sized(s: Sync) {
    s.numBlocks > 0 && |s.ring| == s.numBlocks
  }

  function After(s: Mt, p: Step): Mt
    requires Sized(s.bt) && Sized(s.hash) && May(s, p)
  {
    match p
    case InitMt => s.(bt := Do(s.bt, DoInit), hash := Do(s.hash, DoInit))
    case Lz(a) => s.(bt := Do(s.bt, a))
    case LzAdvance(n) => s.(pointerToCurPos := s.pointerToCurPos + n, lzAt := s.lzAt + n)
    case BtOut(a) => s.(bt := Do(s.bt, a), room := if a.GoFill? then BT_BLOCK else s.room)
    case BtIn(a) => s.(hash := Do(s.hash, a), room := if a.Unlock? then s.room - 1 else s.room)
    case BtAdvance(n) => s.(buffer := s.buffer + n, btAt := s.btAt + n)
    case Hash(a) => s.(hash := Do(s.hash, a))
    case HashAdvance(n, near) => s.(mfBuffer := s.mfBuffer + n, mfAt := s.mfAt + n, crowded := s.crowded || near)
    case EnterBt => s.(bt := Do(s.bt, MoverEnter), move := HasBt)
    case EnterHash => s.(hash := Do(s.hash, MoverEnter), move := HasBoth)
    case MoveBlock(offset) => s.(mfBuffer := s.mfBuffer - offset, dropped := s.dropped + offset, move := Moved(offset),
                                 crowded := false)
    case AdjustLz => s.(pointerToCurPos := s.pointerToCurPos - s.move.offset, move := LzAdjusted(s.move.offset))
    case AdjustBt => s.(buffer := s.buffer - s.move.offset, move := BothAdjusted)
    case LeaveHash => s.(hash := Do(s.hash, MoverLeave), move := LeftHash)
    case LeaveBt => s.(bt := Do(s.bt, MoverLeave), move := Still)
  }

  // ---------- the invariant of the three threads ----------

  // Which calls on hashSync the tree thread can be in at each point of its own loop.
  predicate Coupled(out: Producer, inner: Consumer) {
    match out
    case WaitStart => inner.Off?
    case WaitFree => inner.Off? || inner.Idle?
    case Check => inner.Off? || inner.Idle?
    case Filling =>
      || inner.Off? || inner.Starting? || inner.WaitFilled? || inner.Locking? || inner.Using? || inner.Idle?
      || inner.Freeing?
    case Posting => inner.Using? || inner.Idle?
    case Leaving =>
      || inner.Off? || inner.Idle? || inner.Stopping? || inner.StopRelease? || inner.StopWait? || inner.StopDone?
  }

  // A buffer lock belongs to the mover exactly while the hash thread is between its calls.
  predicate Locks(s: Mt) {
    && (s.bt.cs.Mover? <==> !s.move.Still?)
    && (s.hash.cs.Mover? <==> !s.move.Still? && !s.move.HasBt? && !s.move.LeftHash?)
    && (!s.move.Still? ==> s.hash.producer.WaitFree?)
    && (s.crowded ==> s.move.Still? || s.move.HasBt? || s.move.HasBoth?)
  }

  // Each pointer, with what has been dropped, is at its byte of the stream, except for the
  // corrections the mover still owes.
  predicate Pointers(s: Mt) {
    && s.mfBuffer + s.dropped == s.mfAt
    && s.pointerToCurPos + s.dropped == s.lzAt + (if s.move.Moved? then s.move.offset else 0)
    && s.buffer + s.dropped == s.btAt + (if s.move.Moved? || s.move.LzAdjusted? then s.move.offset else 0)
  }

  // The hash thread's semaphores are new whenever it may be started.
  predicate Renewed(s: Mt) {
    s.hash.consumer.Off? && s.bt.renewed
    && (s.bt.canStart || s.bt.producer.WaitFree? || s.bt.producer.Check? || s.bt.producer.Filling? || s.bt.consumer.Off?
        || s.bt.consumer.Starting?)
    ==> s.hash.renewed
  }

  ghost predicate MtInv(s: Mt) {
    && Inv(s.bt) && Inv(s.hash) && !s.bt.consumer.Idle? && Coupled(s.bt.producer, s.hash.consumer)
    && Locks(s) && Pointers(s) && Renewed(s) && s.room <= BT_BLOCK
  }

  lemma CreatedHolds(btBlocks: nat, hashBlocks: nat)
    requires btBlocks > 0 && hashBlocks > 0
    ensures MtInv(Created_(btBlocks, hashBlocks))
  {
    InitHolds(btBlocks);
    InitHolds(hashBlocks);
  }

  // What a step of a channel may change of the parts the threads share.
  lemma Effects(s: Sync, a: Act)
    requires Inv(s) && Can(s, a)
    ensures a.SeeStart? || a.TakeFree? || a.SeeStop? || a.GoFill? || a.Write? || a.PostFilled? || a.SetStopped? ==>
      var s' := Do(s, a); s'.consumer == s.consumer && s'.cs == s.cs && s'.renewed == s.renewed
    ensures a.Begin? || a.SetCanStart? || a.Unlock? || a.ReleaseFree? || a.TakeFilled? || a.Lock? || a.Pause? ==>
      var s' := Do(s, a); s'.producer == s.producer && (s'.cs.Mover? <==> s.cs.Mover?)
    ensures a.StopUnlock? || a.SetStop? || a.StopFree? || a.SeeStopped? || a.SetNeedStart? ==>
      var s' := Do(s, a); s'.producer == s.producer && (s'.cs.Mover? <==> s.cs.Mover?)
  {
  }

  lemma LzKeeps(s: Mt, a: Act)
    requires MtInv(s) && LzMay(s, a) && Can(s.bt, a)
    ensures MtInv(s.(bt := Do(s.bt, a)))
  {
    StepKeeps(s.bt, a);
    Effects(s.bt, a);
  }

  lemma BtOutKeeps(s: Mt, a: Act)
    requires MtInv(s) && BtOutMay(s, a) && Can(s.bt, a)
    ensures MtInv(s.(bt := Do(s.bt, a)))
  {
    StepKeeps(s.bt, a);
    Effects(s.bt, a);
  }

  lemma BtInKeeps(s: Mt, a: Act)
    requires MtInv(s) && BtInMay(s, a) && Can(s.hash, a)
    ensures MtInv(s.(hash := Do(s.hash, a)))
  {
    StepKeeps(s.hash, a);
    Effects(s.hash, a);
  }

  lemma HashKeeps(s: Mt, a: Act)
    requires MtInv(s) && HashMay(s, a) && Can(s.hash, a)
    ensures MtInv(s.(hash := Do(s.hash, a)))
  {
    StepKeeps(s.hash, a);
    Effects(s.hash, a);
  }

  // Whatever the interleaving, every step keeps the invariant.
  lemma MtStepKeeps(s: Mt, p: Step)
    requires MtInv(s) && May(s, p)
    ensures Sized(s.bt) && Sized(s.hash) && MtInv(After(s, p))
  {
    match p
    case Lz(a) => LzKeeps(s, a);
    case BtOut(a) => BtOutKeeps(s, a);
    case BtIn(a) => BtInKeeps(s, a);
    case Hash(a) => HashKeeps(s, a);
    case InitMt => StepKeeps(s.bt, DoInit); StepKeeps(s.hash, DoInit);
    case EnterBt => StepKeeps(s.bt, MoverEnter);
    case EnterHash => StepKeeps(s.hash, MoverEnter);
    case LeaveHash => StepKeeps(s.hash, MoverLeave);
    case LeaveBt => StepKeeps(s.bt, MoverLeave);
    case _ =>
  }

  // ---------- runs ----------

  ghost predicate Next(s: Mt, p: Step, s': Mt) {
    Sized(s.bt) && Sized(s.hash) && May(s, p) && s' == After(s, p)
  }

  // s is reached from the created state by some interleaving of the threads' steps.
  ghost predicate Reached(s: Mt, btBlocks: nat, hashBlocks: nat, steps: seq<Step>)
    decreases steps
  {
    if steps == [] then s == Created_(btBlocks, hashBlocks) else
      var last, before := steps[|steps| - 1], steps[..|steps| - 1];
      exists s0: Mt :: Next(s0, last, s) && Reached(s0, btBlocks, hashBlocks, before)
  }

  lemma {:induction false} ReachedInv(s: Mt, btBlocks: nat, hashBlocks: nat, steps: seq<Step>)
    requires btBlocks > 0 && hashBlocks > 0 && Reached(s, btBlocks, hashBlocks, steps)
    ensures MtInv(s)
    decreases steps
  {
    hide MtInv, Next;
    if steps == [] {
      CreatedHolds(btBlocks, hashBlocks);
    } else {
      var last, before := steps[|steps| - 1], steps[..|steps| - 1];
      var s0: Mt :| Next(s0, last, s) && Reached(s0, btBlocks, hashBlocks, before);
      ReachedInv(s0, btBlocks, hashBlocks, before);
      NextKeeps(s0, last, s);
    }
  }

  lemma NextKeeps(s: Mt, p: Step, s': Mt)
    requires MtInv(s) && Next(s, p, s')
    ensures MtInv(s')
  {
    MtStepKeeps(s, p);
  }

  // ---------- what holds in every interleaving ----------

  // A consumer in its buffer reads the block it counts, whole, off the producer's slot, and
  // with its pointer at its byte of the stream.
  lemma EveryReadSafe(s: Mt, btBlocks: nat, hashBlocks: nat, steps: seq<Step>)
    requires btBlocks > 0 && hashBlocks > 0 && Reached(s, btBlocks, hashBlocks, steps)
    ensures s.bt.consumer.Using? ==> Reading(s.bt) && s.pointerToCurPos + s.dropped == s.lzAt
    ensures s.hash.consumer.Using? ==> Reading(s.hash) && s.buffer + s.dropped == s.btAt
  {
    hide Reading, Inv, Reached;
    ReachedInv(s, btBlocks, hashBlocks, steps);
    if s.bt.consumer.Using? {
      ReadSafe(s.bt);
      UsingLock(s.bt);
    }
    if s.hash.consumer.Using? {
      ReadSafe(s.hash);
      UsingLock(s.hash);
    }
  }

  lemma UsingLock(s: Sync)
    requires Inv(s) && s.consumer.Using?
    ensures !s.cs.Mover?
  {
  }

  // The buffer is moved only while both locks are the hash thread's and nobody is in either
  // buffer, and once it has let go both pointers are where they belong.
  lemma MovesAlone(s: Mt, btBlocks: nat, hashBlocks: nat, steps: seq<Step>)
    requires btBlocks > 0 && hashBlocks > 0 && Reached(s, btBlocks, hashBlocks, steps)
    ensures s.move.HasBoth? || s.move.Moved? || s.move.LzAdjusted? || s.move.BothAdjusted? ==>
      s.bt.cs.Mover? && s.hash.cs.Mover? && !s.bt.consumer.Using? && !s.hash.consumer.Using?
    ensures s.move.Still? || s.move.LeftHash? || s.move.BothAdjusted? ==>
      s.pointerToCurPos + s.dropped == s.lzAt && s.buffer + s.dropped == s.btAt && s.mfBuffer + s.dropped == s.mfAt
    ensures s.move.BothAdjusted? ==> Can(s.hash, MoverLeave)
    ensures s.move.LeftHash? ==> Can(s.bt, MoverLeave)
  {
    ReachedInv(s, btBlocks, hashBlocks, steps);
  }

  // Once the encoder's StopWriting has returned, both other threads are out of their loops
  // and MatchFinderMt_InitMt may be called.
  lemma StopStopsBoth(s: Mt, btBlocks: nat, hashBlocks: nat, steps: seq<Step>)
    requires btBlocks > 0 && hashBlocks > 0 && Reached(s, btBlocks, hashBlocks, steps) && s.bt.consumer.Off?
    ensures s.bt.producer.WaitStart? && !s.bt.canStart && s.hash.producer.WaitStart? && !s.hash.canStart
    ensures s.hash.consumer.Off? && May(s, InitMt)
  {
    ReachedInv(s, btBlocks, hashBlocks, steps);
    StoppedMeansStopped(s.bt);
    StoppedMeansStopped(s.hash);
  }

  // No thread releases a semaphore past its count or trips a lock check, and the tree thread
  // can start the hash thread whenever it wants to.
  lemma NothingOverflows(s: Mt, btBlocks: nat, hashBlocks: nat, steps: seq<Step>, p: Step)
    requires btBlocks > 0 && hashBlocks > 0 && Reached(s, btBlocks, hashBlocks, steps) && May(s, p)
    ensures p.Lz? || p.BtOut? ==> Allowed(s.bt, p.a)
    ensures p.BtIn? || p.Hash? ==> Allowed(s.hash, p.a)
    ensures p.InitMt? ==> Allowed(s.bt, DoInit) && Allowed(s.hash, DoInit)
    ensures s.bt.producer.Filling? && s.hash.consumer.Off? ==> May(s, BtIn(Begin))
  {
    hide Allowed, Inv, Reached, Can;
    ReachedInv(s, btBlocks, hashBlocks, steps);
    if p.Lz? || p.BtOut? {
      StepsAllowed(s.bt, p.a);
    } else if p.BtIn? || p.Hash? {
      StepsAllowed(s.hash, p.a);
    } else if p.InitMt? {
      MayInit(s);
      StepsAllowed(s.bt, DoInit);
      StepsAllowed(s.hash, DoInit);
    }
    if s.bt.producer.Filling? && s.hash.consumer.Off? {
      RenewedWhenNeeded(s);
    }
  }

  lemma MayInit(s: Mt)
    requires May(s, InitMt)
    ensures Can(s.bt, DoInit) && Can(s.hash, DoInit)
  {
  }

  lemma RenewedWhenNeeded(s: Mt)
    requires MtInv(s) && s.bt.producer.Filling? && s.hash.consumer.Off?
    ensures Can(s.hash, Begin) && BtInMay(s, Begin)
  {
  }

  // ---------- nobody waits for ever ----------

  // Work inside a block, which touches nothing that the threads share.
  predicate Inside(p: Step) {
    p.LzAdvance? || p.BtAdvance? || p.HashAdvance?
  }

  // The encoder begins GetNextBlock or StopWriting, or makes ready for a new stream.
  predicate Calls(p: Step) {
    p.InitMt? || (p.Lz? && (p.a.Begin? || p.a.Unlock? || p.a.StopUnlock?))
  }

  // A step that brings a call or a block further.
  predicate Works(p: Step) {
    !Inside(p) && !Calls(p) && !p.EnterBt?
  }

  // A move that has begun can go on, or waits for the tree thread, which can.
  lemma MoverGoes(s: Mt) returns (p: Step)
    requires MtInv(s) && !s.move.Still?
    ensures Works(p) && May(s, p)
  {
    match s.move
    case HasBt =>
      if s.hash.cs.Nobody? {
        p := EnterHash;
      } else if s.bt.producer.Filling? {
        p := BtOut(Write);
      } else {
        p := BtIn(Pause);
      }
    case HasBoth => p := MoveBlock(0);
    case Moved(_) => p := AdjustLz;
    case LzAdjusted(_) => p := AdjustBt;
    case BothAdjusted => p := LeaveHash;
    case LeftHash => p := LeaveBt;
  }

  // What a waiting consumer waits for is on its way: its producer is not out of free blocks.
  lemma FreeLeft(s: Sync)
    requires Inv(s) && s.producer.WaitFree?
    requires (s.consumer.WaitFilled? && s.filled == 0) || (s.consumer.StopWait? && !s.wasStopped)
    ensures s.free > 0
  {
  }

  lemma StartLeft(s: Sync)
    requires Inv(s) && s.producer.WaitStart?
    requires (s.consumer.WaitFilled? && s.filled == 0) || (s.consumer.StopWait? && !s.wasStopped)
    ensures s.canStart
  {
  }

  // The tree thread waits for the hash thread.
  lemma HashGoes(s: Mt) returns (p: Step)
    requires MtInv(s)
    requires (s.hash.consumer.WaitFilled? && s.hash.filled == 0) || (s.hash.consumer.StopWait? && !s.hash.wasStopped)
    ensures Works(p) && May(s, p)
  {
    if !s.move.Still? {
      p := MoverGoes(s);
      return;
    }
    match s.hash.producer
    case WaitStart => StartLeft(s.hash); p := Hash(SeeStart);
    case WaitFree => FreeLeft(s.hash); p := Hash(TakeFree);
    case Check => p := Hash(if s.hash.stopWriting then SeeStop else GoFill);
    case Filling => p := Hash(Write);
    case Posting => p := Hash(PostFilled);
    case Leaving => p := Hash(SetStopped);
  }

  // The tree thread at its block.
  lemma FillGoes(s: Mt) returns (p: Step)
    requires MtInv(s) && s.bt.producer.Filling?
    ensures Works(p) && May(s, p)
  {
    match s.hash.consumer
    case Off => RenewedWhenNeeded(s); p := BtIn(Begin);
    case Starting => p := BtIn(SetCanStart);
    case Using => p := BtOut(Write);
    case Freeing => p := BtIn(ReleaseFree);
    case WaitFilled => if s.hash.filled > 0 { p := BtIn(TakeFilled); } else { p := HashGoes(s); }
    case _ => if s.hash.cs.Nobody? { p := BtIn(Lock); } else { p := MoverGoes(s); }
  }

  // The tree thread stopping the hash thread.
  lemma LeaveGoes(s: Mt) returns (p: Step)
    requires MtInv(s) && s.bt.producer.Leaving?
    ensures Works(p) && May(s, p)
  {
    match s.hash.consumer
    case Off => p := BtOut(SetStopped);
    case Stopping => p := BtIn(SetStop);
    case StopRelease => p := BtIn(StopFree);
    case StopWait => if s.hash.wasStopped { p := BtIn(SeeStopped); } else { p := HashGoes(s); }
    case StopDone => p := BtIn(SetNeedStart);
    case _ => p := BtIn(StopUnlock);
  }

  // The encoder waits for the tree thread.
  lemma TreeGoes(s: Mt) returns (p: Step)
    requires MtInv(s)
    requires (s.bt.consumer.WaitFilled? && s.bt.filled == 0) || (s.bt.consumer.StopWait? && !s.bt.wasStopped)
    ensures Works(p) && May(s, p)
  {
    match s.bt.producer
    case WaitStart => StartLeft(s.bt); p := BtOut(SeeStart);
    case WaitFree => FreeLeft(s.bt); p := BtOut(TakeFree);
    case Check => p := BtOut(if s.bt.stopWriting then SeeStop else GoFill);
    case Filling => p := FillGoes(s);
    case Posting => p := if s.hash.consumer.Idle? then BtOut(PostFilled) else BtIn(Pause);
    case Leaving => p := LeaveGoes(s);
  }

  lemma EncoderGoes(s: Mt) returns (p: Step)
    requires MtInv(s) && !s.bt.consumer.Off? && !s.bt.consumer.Using?
    ensures Works(p) && May(s, p)
  {
    match s.bt.consumer
    case Starting => p := Lz(SetCanStart);
    case WaitFilled => if s.bt.filled > 0 { p := Lz(TakeFilled); } else { p := TreeGoes(s); }
    case Locking => if s.bt.cs.Nobody? { p := Lz(Lock); } else { p := MoverGoes(s); }
    case Freeing => p := Lz(ReleaseFree);
    case Stopping => p := Lz(SetStop);
    case StopRelease => p := Lz(StopFree);
    case StopWait => if s.bt.wasStopped { p := Lz(SeeStopped); } else { p := TreeGoes(s); }
    case _ => p := Lz(SetNeedStart);
  }

  // In every reached state in which the encoder is inside GetNextBlock or StopWriting, some thread
  // can bring it further: the three threads never wait for each other in a circle.
  lemma NoDeadlock(s: Mt, btBlocks: nat, hashBlocks: nat, steps: seq<Step>) returns (p: Step)
    requires btBlocks > 0 && hashBlocks > 0 && Reached(s, btBlocks, hashBlocks, steps)
    requires !s.bt.consumer.Off? && !s.bt.consumer.Using?
    ensures Works(p) && May(s, p)
  {
    ReachedInv(s, btBlocks, hashBlocks, steps);
    p := EncoderGoes(s);
  }

  // The same for the tree thread: whenever it is at a block, or stopping, some thread can go on.
  lemma TreeNeverStuck(s: Mt, btBlocks: nat, hashBlocks: nat, steps: seq<Step>) returns (p: Step)
    requires btBlocks > 0 && hashBlocks > 0 && Reached(s, btBlocks, hashBlocks, steps)
    requires s.bt.producer.Filling? || s.bt.producer.Leaving?
    ensures Works(p) && May(s, p)
  {
    ReachedInv(s, btBlocks, hashBlocks, steps);
    if s.bt.producer.Filling? {
      p := FillGoes(s);
    } else {
      p := LeaveGoes(s);
    }
  }
}
