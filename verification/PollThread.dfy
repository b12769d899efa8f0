/** The worker context and its callbacks as the program has them, on the shared objects
    (src/poll_thread_manager.cpp:67-200, 313-321). Each method is the event of WorkerEvents. */
module PollThread {
  import opened Words
  import opened CopyCommand
  import opened DestinationLba
  import opened OpPool
  import opened Generator
  import opened ErrorAccounting
  import opened Statistic
  import opened WorkerSteps
  import opened WorkerEvents

  class PollThreadContext {
    var outstandingIo: nat
    var deferredCount: nat
    var qpair: bool
    var shouldStop: bool
    /** Local variables of the worker's thread in the source. */
    var consecutiveErrors: nat
    var reconnectAttempts: nat
    const targetIodepth: nat
    const rangeSize: nat
    const generator: XcopyGenerator
    const lbaMgr: LbaManager
    const stats: Statistics
    const opPool: OperationPool
    /** What the device has accepted and may still complete. */
    ghost var inflight: map<nat, Command>

    ghost function TheSetup(): Setup {
      Setup(generator.config, lbaMgr.namespaceSize, rangeSize)
    }

    /** The worker as a value, at a given point of an event. */
    ghost function ViewAt(pc: Pc): Worker
      reads this, opPool
    {
      Worker(targetIodepth, outstandingIo, deferredCount, qpair, shouldStop, opPool.View(), pc, inflight,
             consecutiveErrors, reconnectAttempts)
    }

    ghost function SharedView(): Shared
      reads lbaMgr, stats, stats.errorCounter
    {
      Shared(lbaMgr.View(), stats.operationsCompleted, stats.operationsFailed, stats.bytesCopied,
             stats.errorCounter.View())
    }

    ghost predicate ObjectsValid()
      reads opPool, opPool.operations, opPool.buffers, lbaMgr, stats
      reads stats.latencyBuffer, stats.latencyBuffer.samples, stats.errorCounter
    {
      && opPool.Valid() && lbaMgr.Valid() && stats.Valid()
      && opPool.maxRanges == generator.config.maxRanges
      && opPool.operations as object != stats.latencyBuffer.samples
      && (forall b :: b in opPool.buffers ==> b as object != stats.latencyBuffer.samples)
    }

    /** The objects represent values, and the setup is possible. This is all that a method needs to do to
        the objects what its event does to the values. */
    ghost predicate Sound()
      reads opPool, opPool.operations, opPool.buffers, lbaMgr, stats
      reads stats.latencyBuffer, stats.latencyBuffer.samples, stats.errorCounter
    {
      ObjectsValid() && ValidSetup(TheSetup())
    }

    /** Between events: the worker's invariant as well. */
    ghost predicate Valid()
      reads this, opPool, opPool.operations, opPool.buffers, lbaMgr, stats
      reads stats.latencyBuffer, stats.latencyBuffer.samples, stats.errorCounter
    {
      Sound() && Good(TheSetup(), SharedView(), ViewAt(Boundary))
    }

    /** The context the start loop makes: a new pool of twice the depth, a queue pair, nothing going on. */
    constructor (depth: nat, rangeSize: nat, generator: XcopyGenerator, lbaMgr: LbaManager, stats: Statistics,
                 opPool: OperationPool)
      requires depth <= 1024 && lbaMgr.Valid() && stats.Valid()
      requires ValidSetup(Setup(generator.config, lbaMgr.namespaceSize, rangeSize))
      requires opPool.Valid() && opPool.maxRanges == generator.config.maxRanges
      requires opPool.View() == Pool(0, FreshSlots(2 * depth, generator.config.maxRanges))
      requires opPool.operations as object != stats.latencyBuffer.samples
      requires forall b :: b in opPool.buffers ==> b as object != stats.latencyBuffer.samples
      ensures Valid() && this.opPool == opPool && this.lbaMgr == lbaMgr && this.stats == stats
      ensures ViewAt(Boundary) == Worker(depth, 0, 0, true, false, opPool.View(), Boundary, map[], 0, 0)
    {
      outstandingIo, deferredCount, qpair, shouldStop := 0, 0, true, false;
      consecutiveErrors, reconnectAttempts := 0, 0;
      targetIodepth := depth;
      this.rangeSize := rangeSize;
      this.generator, this.lbaMgr, this.stats, this.opPool := generator, lbaMgr, stats, opPool;
      inflight := map[];
      new;
      assert InUse(opPool.slots) == {};
    }

    /** Counts one more deferred operation, up to the cap. */
    method HandleBackpressurePooled()
      modifies this`deferredCount
      ensures old(deferredCount) <= MAX_DEFERRED ==> deferredCount == Min(old(deferredCount) + 1, MAX_DEFERRED)
      ensures old(deferredCount) > MAX_DEFERRED ==> deferredCount == old(deferredCount)
    {
      if deferredCount < MAX_DEFERRED {
        deferredCount := Add32(deferredCount, 1);
      }
    }

    /** Slot idx after an attempt. */
    ghost function SlotAfter(s: Slot, r: Attempt): Slot {
      match r
      case Rejected(_, written) => s.(ranges := Overlay(s.ranges, written))
      case Accepted(_, cmd, _) => Filled(s, cmd)
    }

    /** Copies the generated command into the slot whose buffer it was generated in. */
    method CopyToSlot(temp: XcopyOperation, idx: nat)
      requires opPool.ValidBut(idx) && idx < opPool.poolSize
      modifies opPool.operations, opPool`slots
      ensures opPool.Valid()
      ensures opPool.slots == old(opPool.slots)[idx := old(opPool.SlotAt(idx)).(
                dstNsid := temp.dstNsid, dstLba := temp.dstLba, numRanges := temp.numRanges,
                totalBlocks := temp.totalBlocks, hasContext := true)]
    {
      opPool.operations[idx] := opPool.operations[idx].(
        dstNsid := temp.dstNsid, dstLba := temp.dstLba, numRanges := temp.numRanges,
        totalBlocks := temp.totalBlocks, hasContext := true);
      opPool.Refresh(idx);
    }

    /** Generates into the buffer of slot idx and, on success, copies the command into the slot. */
    method GenerateIntoSlot(temp: XcopyOperation, idx: nat, d: Draws, spurious: nat)
      returns (ok: bool, ghost r: Attempt)
      requires opPool.Valid() && lbaMgr.Valid() && ValidSetup(TheSetup()) && ValidDraws(generator.config, d)
      requires opPool.maxRanges == generator.config.maxRanges
      requires idx < |opPool.buffers| && temp.ranges == opPool.buffers[idx]
      modifies temp, opPool.buffers[idx], opPool.operations, opPool`slots, lbaMgr`dstCurrent
      ensures opPool.Valid() && lbaMgr.Valid() && temp.ranges == opPool.buffers[idx]
      ensures r == Generate(generator.config, lbaMgr.namespaceSize, old(lbaMgr.View()), rangeSize, d)
      ensures ok == r.Accepted? && lbaMgr.View() == r.alloc
      ensures opPool.slots == old(opPool.slots)[idx := SlotAfter(old(opPool.slots[idx]), r)]
    {
      ghost var before := opPool.SlotAt(idx);
      assert before == opPool.slots[idx];
      r := Generate(generator.config, lbaMgr.namespaceSize, lbaMgr.View(), rangeSize, d);
      var rc := generator.GenerateOperation(temp, lbaMgr, rangeSize, d, spurious, true);
      ok := rc == 0;
      assert opPool.buffers[idx][..] == SlotAfter(before, r).ranges;
      if ok {
        CopyToSlot(temp, idx);
      } else {
        opPool.Refresh(idx);
      }
    }

    /** Gives the slot back after the tenth rejection. */
    method CheckRetries(idx: nat, retries: nat) returns (goOn: bool)
      requires opPool.Valid()
      modifies opPool.operations, opPool`slots
      ensures opPool.Valid()
      ensures goOn == (retries + 1 < MAX_RETRIES)
      ensures opPool.View() == if goOn then old(opPool.View()) else ReleaseSlot(old(opPool.View()), idx)
    {
      goOn := true;
      if retries + 1 >= MAX_RETRIES {
        opPool.Release(idx);
        goOn := false;
      }
    }

    /** One turn of the loop that generates. */
    method TryOnce(temp: XcopyOperation, idx: nat, retries: nat, d: Draws, spurious: nat)
      returns (ok: bool, goOn: bool, ghost next: Pc)
      requires Sound() && ValidDraws(generator.config, d)
      requires idx < |opPool.slots| && temp.ranges == opPool.buffers[idx]
      modifies temp, opPool.buffers[idx], opPool.operations, opPool`slots, lbaMgr`dstCurrent
      ensures Sound() && temp.ranges == opPool.buffers[idx] && |opPool.slots| == old(|opPool.slots|)
      ensures ok ==> next.Ready? && next.slot == idx
      ensures !ok ==> next == if goOn then Generating(idx, retries + 1) else Boundary
      ensures (lbaMgr.View(), ViewAt(next)) ==
              TryGenerate(TheSetup(), old(lbaMgr.View()), old(ViewAt(Generating(idx, retries))), d)
    {
      ghost var r;
      goOn := true;
      ok, r := GenerateIntoSlot(temp, idx, d, spurious);
      if ok {
        next := Ready(idx, r.srcNsid);
      } else {
        goOn := CheckRetries(idx, retries);
        next := if goOn then Generating(idx, retries + 1) else Boundary;
      }
    }

    /** The same, as a turn of GenerateLoop. */
    method TryInLoop(temp: XcopyOperation, idx: nat, retries: nat, e: Env, spurious: nat)
      returns (ok: bool, goOn: bool, ghost next: Pc)
      requires Sound() && ValidEnv(TheSetup(), e) && retries < MAX_RETRIES
      requires idx < |opPool.slots| && temp.ranges == opPool.buffers[idx]
      modifies temp, opPool.buffers[idx], opPool.operations, opPool`slots, lbaMgr`dstCurrent
      ensures Sound() && temp.ranges == opPool.buffers[idx] && |opPool.slots| == old(|opPool.slots|)
      ensures if ok then next.Ready? && next.slot == idx
              else if goOn then next == Generating(idx, retries + 1) && retries + 1 < MAX_RETRIES else next.Boundary?
      ensures GenerateLoop(TheSetup(), old(lbaMgr.View()), old(ViewAt(Generating(idx, retries))), e) ==
              if next.Generating? then GenerateLoop(TheSetup(), lbaMgr.View(), ViewAt(next), e)
              else (lbaMgr.View(), ViewAt(next))
    {
      GenerateTurn(TheSetup(), lbaMgr.View(), ViewAt(Generating(idx, retries)), e);
      ok, goOn, next := TryOnce(temp, idx, retries, e.draws[retries], spurious);
    }

    /** The loop that generates, until an attempt is accepted or the tenth is rejected. */
    method GenerateWithRetries(idx: nat, e: Env, spurious: nat) returns (ok: bool, ghost next: Pc)
      requires Sound() && idx < |opPool.slots| && ValidEnv(TheSetup(), e)
      modifies opPool.buffers, opPool.operations, opPool`slots, lbaMgr`dstCurrent
      ensures Sound() && |opPool.slots| == old(|opPool.slots|)
      ensures if ok then next.Ready? && next.slot == idx else next.Boundary?
      ensures (lbaMgr.View(), ViewAt(next)) ==
              GenerateLoop(TheSetup(), old(lbaMgr.View()), old(ViewAt(Generating(idx, 0))), e)
    {
      ghost var u, a, w := TheSetup(), lbaMgr.View(), ViewAt(Generating(idx, 0));
      var temp := new XcopyOperation(opPool.operations[idx].ranges);
      var retries, goOn := 0, true;
      ok, next := false, Generating(idx, 0);
      while !ok && goOn
        invariant Sound() && temp.ranges == opPool.buffers[idx] && |opPool.slots| == |w.pool.slots|
        invariant !ok && goOn ==> next == Generating(idx, retries) && retries < MAX_RETRIES
                                  && GenerateLoop(u, a, w, e) == GenerateLoop(u, lbaMgr.View(), ViewAt(next), e)
        invariant ok || !goOn ==> GenerateLoop(u, a, w, e) == (lbaMgr.View(), ViewAt(next))
        invariant ok ==> next.Ready? && next.slot == idx
        invariant !ok && !goOn ==> next.Boundary?
        decreases if !ok && goOn then 1 + MAX_RETRIES - retries else 0
      {
        ok, goOn, next := TryInLoop(temp, idx, retries, e, spurious);
        retries := retries + 1;
      }
    }

    /** Hands the generated command to the device. */
    method Dispatch(idx: nat, e: Env, ghost at: Pc) returns (rc: int)
      requires Sound() && at.Ready? && at.slot == idx < |opPool.slots|
      modifies this`outstandingIo, this`deferredCount, this`inflight, opPool.operations, opPool`slots
      ensures Sound()
      ensures ViewAt(Boundary) == Submit(old(ViewAt(at)), e.nsFound, e.rc)
      ensures rc == if outstandingIo != old(outstandingIo) then 1 else 0
    {
      if !e.nsFound {
        opPool.Release(idx);
        return 0;
      }
      rc := SubmitCommand(idx, e.rc, at);
    }

    /** The call into the device, which answers `answer`. */
    method SubmitCommand(idx: nat, answer: int, ghost at: Pc) returns (rc: int)
      requires Sound() && at.Ready? && at.slot == idx < |opPool.slots|
      modifies this`outstandingIo, this`deferredCount, this`inflight, opPool.operations, opPool`slots
      ensures Sound()
      ensures ViewAt(Boundary) == Submit(old(ViewAt(at)), true, answer)
      ensures rc == if outstandingIo != old(outstandingIo) then 1 else 0
    {
      if answer == 0 {
        inflight := inflight[idx := CommandIn(opPool.slots[idx])];
        outstandingIo := Add32(outstandingIo, 1);
        return 1;
      }
      opPool.Release(idx);
      HandleBackpressurePooled();
      rc := 0;
    }

    /** The checks of submit_next_io_pooled, the deferred count, and a slot from the pool. */
    method Admit(ghost at: Pc) returns (found: Option<nat>)
      requires Sound()
      modifies this`deferredCount, opPool.buffers, opPool.operations, opPool`nextIndex, opPool`slots
      ensures Sound() && (found.Some? ==> found.value < |opPool.slots|)
      ensures ViewAt(if found.Some? then Generating(found.value, 0) else Boundary) == Enter(old(ViewAt(at)))
    {
      if shouldStop {
        return None;
      }
      if !qpair {
        return None;
      }
      if outstandingIo >= targetIodepth {
        return None;
      }
      found := WorkOffAndAcquire(at);
    }

    /** The rest of it, after the checks. */
    method WorkOffAndAcquire(ghost at: Pc) returns (found: Option<nat>)
      requires Sound() && !shouldStop && qpair && outstandingIo < targetIodepth
      modifies this`deferredCount, opPool.buffers, opPool.operations, opPool`nextIndex, opPool`slots
      ensures Sound() && (found.Some? ==> found.value < |opPool.slots|)
      ensures ViewAt(if found.Some? then Generating(found.value, 0) else Boundary) == Enter(old(ViewAt(at)))
    {
      var deferred := deferredCount;
      if deferred > 0 {
        deferredCount := Sub32(deferredCount, 1);
      }
      found := opPool.Acquire();
    }

    /** submit_next_io_pooled; returns 1 if the device accepted a command. */
    method SubmitNextIoPooled(e: Env, spurious: nat, ghost at: Pc) returns (rc: int)
      requires Sound() && (at.Boundary? || at.Resubmitting?) && ValidEnv(TheSetup(), e)
      modifies this`outstandingIo, this`deferredCount, this`inflight
      modifies opPool.buffers, opPool.operations, opPool`nextIndex, opPool`slots, lbaMgr`dstCurrent
      ensures Sound()
      ensures (SharedView(), ViewAt(Boundary)) == SubmitEvent(TheSetup(), old(SharedView()), old(ViewAt(at)), e)
      ensures old(Good(TheSetup(), SharedView(), ViewAt(at))) ==> Good(TheSetup(), SharedView(), ViewAt(Boundary))
      ensures rc == if outstandingIo != old(outstandingIo) then 1 else 0
    {
      ghost var u, sh, w := TheSetup(), SharedView(), ViewAt(at);
      rc := SubmitNext(e, spurious, at);
      if Good(u, sh, w) {
        SubmitEventKeeps(u, sh, w, e);
      }
    }

    method SubmitNext(e: Env, spurious: nat, ghost at: Pc) returns (rc: int)
      requires Sound() && (at.Boundary? || at.Resubmitting?) && ValidEnv(TheSetup(), e)
      modifies this`outstandingIo, this`deferredCount, this`inflight
      modifies opPool.buffers, opPool.operations, opPool`nextIndex, opPool`slots, lbaMgr`dstCurrent
      ensures Sound()
      ensures (SharedView(), ViewAt(Boundary)) == SubmitEvent(TheSetup(), old(SharedView()), old(ViewAt(at)), e)
      ensures rc == if outstandingIo != old(outstandingIo) then 1 else 0
    {
      var found := Admit(at);
      if found.None? {
        return 0;
      }
      rc := GenerateAndDispatch(found.value, e, spurious);
    }

    method GenerateAndDispatch(idx: nat, e: Env, spurious: nat) returns (rc: int)
      requires Sound() && idx < |opPool.slots| && ValidEnv(TheSetup(), e)
      modifies this`outstandingIo, this`deferredCount, this`inflight
      modifies opPool.buffers, opPool.operations, opPool`slots, lbaMgr`dstCurrent
      ensures Sound()
      ensures (SharedView(), ViewAt(Boundary)) ==
              GenerateAndSubmit(TheSetup(), old(SharedView()), old(ViewAt(Generating(idx, 0))), e)
      ensures rc == if outstandingIo != old(outstandingIo) then 1 else 0
    {
      var ok, next := GenerateWithRetries(idx, e, spurious);
      if !ok {
        return 0;
      }
      rc := Dispatch(idx, e, next);
    }

    method AccountFailure(slot: nat, ghost cmd: Command, status: Status)
      requires Sound() && slot < |opPool.slots| && status.IsError() && status.sc < 0x100
      modifies this`deferredCount, lbaMgr`dstCurrent, stats, stats.errorCounter
      ensures Sound()
      ensures (SharedView(), ViewAt(Retiring(slot))) ==
              AccountEvent(old(SharedView()), old(ViewAt(Completing(slot, cmd, status))))
    {
      stats.RecordFailure(status.sc);
      if status.sc == 8 {
        lbaMgr.ResetDstLba();
      }
      if IsSaturationError(status.sc) {
        deferredCount := Add32(deferredCount, 1);
      }
    }

    method AccountSuccess(slot: nat, ghost cmd: Command, status: Status, latencyNs: nat, spurious: nat)
      requires Sound() && slot < |opPool.slots| && !status.IsError()
      requires |stats.latencyBuffer.history| + 1 < U64
      modifies stats, stats.latencyBuffer, stats.latencyBuffer.samples
      ensures Sound()
      ensures (SharedView(), ViewAt(Retiring(slot))) ==
              AccountEvent(old(SharedView()), old(ViewAt(Completing(slot, cmd, status))))
      ensures stats.latencyBuffer.history == old(stats.latencyBuffer.history) + [latencyNs]
    {
      assert opPool.SlotAt(slot) == opPool.slots[slot];
      var bytes := opPool.operations[slot].totalBlocks * BLOCK_BYTES;
      stats.RecordCompletion(bytes, latencyNs, spurious, spurious);
    }

    /** The statistics of a completion, and what a failure entails. */
    method Account(slot: nat, ghost cmd: Command, status: Status, latencyNs: nat, spurious: nat)
      requires Sound() && slot < |opPool.slots| && status.sc < 0x100 && |stats.latencyBuffer.history| + 1 < U64
      modifies this`deferredCount, lbaMgr`dstCurrent
      modifies stats, stats.latencyBuffer, stats.latencyBuffer.samples, stats.errorCounter
      ensures Sound()
      ensures (SharedView(), ViewAt(Retiring(slot))) ==
              AccountEvent(old(SharedView()), old(ViewAt(Completing(slot, cmd, status))))
      ensures stats.latencyBuffer.history ==
              old(stats.latencyBuffer.history) + if status.IsError() then [] else [latencyNs]
    {
      if status.sct != 0 || status.sc != 0 {
        AccountFailure(slot, cmd, status);
      } else {
        AccountSuccess(slot, cmd, status, latencyNs, spurious);
      }
    }

    method RetireAndRelease(slot: nat)
      requires Sound() && slot < |opPool.slots|
      modifies this`outstandingIo, opPool.operations, opPool`slots
      ensures Sound() && ViewAt(Resubmitting) == ReleaseOne(RetireOne(old(ViewAt(Retiring(slot)))))
    {
      outstandingIo := Sub32(outstandingIo, 1);
      opPool.Release(slot);
    }

    /** The device can complete the command in a slot, with this status. */
    ghost predicate MayComplete(slot: nat, status: Status)
      reads this, opPool
    {
      slot in inflight && slot < |opPool.slots| && status.sc < 0x100
    }

    /** The completion callback up to the submission that follows it: the statistics, the decrement of
        outstanding_io, and then the slot is given back. */
    method FinishCompletion(slot: nat, status: Status, latencyNs: nat, spurious: nat)
      requires Sound() && MayComplete(slot, status) && |stats.latencyBuffer.history| + 1 < U64
      modifies this`outstandingIo, this`deferredCount, this`inflight, opPool.operations, opPool`slots, lbaMgr`dstCurrent
      modifies stats, stats.latencyBuffer, stats.latencyBuffer.samples, stats.errorCounter
      ensures Sound()
      ensures (SharedView(), ViewAt(Resubmitting)) ==
              FinishEvent(TheSetup(), old(SharedView()), old(ViewAt(Boundary)), slot, status)
      ensures stats.latencyBuffer.history ==
              old(stats.latencyBuffer.history) + if status.IsError() then [] else [latencyNs]
    {
      // From here on the device may no longer touch the command.
      ghost var cmd := inflight[slot];
      inflight := inflight - {slot};
      Account(slot, cmd, status, latencyNs, spurious);
      RetireAndRelease(slot);
    }

    /** xcopy_complete_cb_pooled for the command in a slot. The slot's context pointer is set, so the
        callback's null check never fires. */
    method XcopyCompleteCbPooled(slot: nat, status: Status, latencyNs: nat, e: Env, spurious: nat)
      requires Sound() && ValidEnv(TheSetup(), e) && MayComplete(slot, status)
      requires |stats.latencyBuffer.history| + 1 < U64
      modifies this`outstandingIo, this`deferredCount, this`inflight
      modifies opPool.buffers, opPool.operations, opPool`nextIndex, opPool`slots, lbaMgr`dstCurrent
      modifies stats, stats.latencyBuffer, stats.latencyBuffer.samples, stats.errorCounter
      ensures Sound()
      ensures (SharedView(), ViewAt(Boundary)) ==
              CompleteEvent(TheSetup(), old(SharedView()), old(ViewAt(Boundary)), slot, status, e)
      ensures old(Valid() && qpair) ==> Valid()
      ensures stats.latencyBuffer.history ==
              old(stats.latencyBuffer.history) + if status.IsError() then [] else [latencyNs]
    {
      ghost var u, sh, w := TheSetup(), SharedView(), ViewAt(Boundary);
      CompleteCommand(slot, status, latencyNs, e, spurious);
      if Good(u, sh, w) && w.qpair {
        CompleteEventKeeps(u, sh, w, slot, status, e);
      }
    }

    method CompleteCommand(slot: nat, status: Status, latencyNs: nat, e: Env, spurious: nat)
      requires Sound() && ValidEnv(TheSetup(), e) && MayComplete(slot, status)
      requires |stats.latencyBuffer.history| + 1 < U64
      modifies this`outstandingIo, this`deferredCount, this`inflight
      modifies opPool.buffers, opPool.operations, opPool`nextIndex, opPool`slots, lbaMgr`dstCurrent
      modifies stats, stats.latencyBuffer, stats.latencyBuffer.samples, stats.errorCounter
      ensures Sound()
      ensures (SharedView(), ViewAt(Boundary)) ==
              CompleteEvent(TheSetup(), old(SharedView()), old(ViewAt(Boundary)), slot, status, e)
      ensures stats.latencyBuffer.history ==
              old(stats.latencyBuffer.history) + if status.IsError() then [] else [latencyNs]
    {
      ghost var u, sh, w := TheSetup(), SharedView(), ViewAt(Boundary);
      FinishCompletion(slot, status, latencyNs, spurious);
      assert (SharedView(), ViewAt(Resubmitting)) == FinishEvent(u, sh, w, slot, status);
      var rc := SubmitNext(e, spurious, Resubmitting);
    }

    /** One submission of a batch: it leads to the next state, or to the end. */
    method SubmitInBatch(es: seq<Env>, k: nat, spurious: nat, ghost submit: ((Shared, Worker), Env) -> (Shared, Worker),
                         ghost trace: seq<(Shared, Worker)>, ghost end: (Shared, Worker)) returns (rc: int)
      requires Sound() && ValidBatch(TheSetup(), es)
      requires IsBatch(submit, trace, end, es) && submit == Submitter(TheSetup())
      requires k < |trace| && (SharedView(), ViewAt(Boundary)) == trace[k] && k < |es| && outstandingIo < targetIodepth
      modifies this`outstandingIo, this`deferredCount, this`inflight
      modifies opPool.buffers, opPool.operations, opPool`nextIndex, opPool`slots, lbaMgr`dstCurrent
      ensures Sound()
      ensures rc != 0 ==> k + 1 < |trace| && (SharedView(), ViewAt(Boundary)) == trace[k + 1]
      ensures rc == 0 ==> k == |trace| - 1 && (SharedView(), ViewAt(Boundary)) == end
    {
      assert BatchStep(submit, trace, end, es, k);
      rc := SubmitNext(es[k], spurious, Boundary);
    }

    /** The loop of the batch. */
    method RunBatch(es: seq<Env>, spurious: nat, ghost submit: ((Shared, Worker), Env) -> (Shared, Worker),
                    ghost trace: seq<(Shared, Worker)>, ghost end: (Shared, Worker))
      returns (submitted: nat)
      requires Sound() && ValidBatch(TheSetup(), es) && |es| == BATCH
      requires IsBatch(submit, trace, end, es) && submit == Submitter(TheSetup())
      requires (SharedView(), ViewAt(Boundary)) == trace[0]
      modifies this`outstandingIo, this`deferredCount, this`inflight
      modifies opPool.buffers, opPool.operations, opPool`nextIndex, opPool`slots, lbaMgr`dstCurrent
      ensures Sound() && submitted == |trace| - 1 && (SharedView(), ViewAt(Boundary)) == end
    {
      submitted := 0;
      var outstanding := outstandingIo;
      while outstanding < targetIodepth && submitted < BATCH
        invariant Sound() && submitted < |trace| && (SharedView(), ViewAt(Boundary)) == trace[submitted]
        invariant outstanding == outstandingIo
        decreases BATCH - submitted
      {
        var rc := SubmitInBatch(es, submitted, spurious, submit, trace, end);
        if rc == 0 {
          return;
        }
        submitted := submitted + 1;
        outstanding := outstandingIo;
      }
      StopEnds(submit, trace, end, es, submitted);
    }

    /** The batch loop of the worker thread: fills the queue up to its depth, 32 submissions at most. It
        goes through the states of the batch, and so ends in the result of BatchEvent. */
    method SubmitBatch(es: seq<Env>, spurious: nat)
      returns (submitted: nat, ghost trace: seq<(Shared, Worker)>, ghost end: (Shared, Worker))
      requires Sound() && ValidBatch(TheSetup(), es) && |es| == BATCH
      modifies this`outstandingIo, this`deferredCount, this`inflight
      modifies opPool.buffers, opPool.operations, opPool`nextIndex, opPool`slots, lbaMgr`dstCurrent
      ensures Sound()
      ensures IsBatch(Submitter(TheSetup()), trace, end, es)
      ensures trace[0] == old((SharedView(), ViewAt(Boundary))) && end == (SharedView(), ViewAt(Boundary))
      ensures submitted == |trace| - 1
      ensures old(Valid()) ==> Valid()
    {
      trace, end := BatchExists(Submitter(TheSetup()), (SharedView(), ViewAt(Boundary)), es);
      submitted := RunBatch(es, spurious, Submitter(TheSetup()), trace, end);
      if Good(TheSetup(), trace[0].0, trace[0].1) {
        BatchTraceKeeps(TheSetup(), trace, end, es);
      }
    }

    /** Room is left for the latencies of this many completions. */
    ghost predicate HasRoom(pending: nat)
      reads opPool, opPool.operations, opPool.buffers, lbaMgr, stats
      reads stats.latencyBuffer, stats.latencyBuffer.samples, stats.errorCounter
    {
      Sound() && |stats.latencyBuffer.history| + pending < U64
    }

    /** One completion arrives: the next state of the trace. */
    method CompleteHasRoom(arrivals: seq<Arrival>, k: nat, e: Env, spurious: nat, ghost trace: seq<(Shared, Worker)>)
      requires k < |arrivals| && HasRoom(|arrivals| - k) && ValidEnv(TheSetup(), e)
      requires DrainStep(TheSetup(), trace, arrivals, k, e) && (SharedView(), ViewAt(Boundary)) == trace[k]
      modifies this`outstandingIo, this`deferredCount, this`inflight
      modifies opPool.buffers, opPool.operations, opPool`nextIndex, opPool`slots, lbaMgr`dstCurrent
      modifies stats, stats.latencyBuffer, stats.latencyBuffer.samples, stats.errorCounter
      ensures HasRoom(|arrivals| - k - 1) && (SharedView(), ViewAt(Boundary)) == trace[k + 1]
    {
      StepIsEnabled(TheSetup(), trace, arrivals, k, e);
      CompleteCommand(arrivals[k].slot, arrivals[k].status, arrivals[k].latencyNs, e, spurious);
    }

    /** One poll of the queue pair, which delivers the arrivals from position `first` up to `last`. */
    method Poll(arrivals: seq<Arrival>, first: nat, last: nat, e: Env, spurious: nat,
                ghost trace: seq<(Shared, Worker)>)
      requires first <= last <= |arrivals| && HasRoom(|arrivals| - first) && ValidEnv(TheSetup(), e)
      requires IsDrain(TheSetup(), trace, arrivals, e) && (SharedView(), ViewAt(Boundary)) == trace[first]
      modifies this`outstandingIo, this`deferredCount, this`inflight
      modifies opPool.buffers, opPool.operations, opPool`nextIndex, opPool`slots, lbaMgr`dstCurrent
      modifies stats, stats.latencyBuffer, stats.latencyBuffer.samples, stats.errorCounter
      ensures HasRoom(|arrivals| - last) && (SharedView(), ViewAt(Boundary)) == trace[last]
    {
      for k := first to last
        invariant HasRoom(|arrivals| - k) && (SharedView(), ViewAt(Boundary)) == trace[k]
      {
        CompleteHasRoom(arrivals, k, e, spurious, trace);
      }
    }

    /** The polls of the drain loop: while operations are outstanding, 10000 at most. Of the completions
        still to come, counts[c] can be had at the c-th poll. */
    method DrainPolls(arrivals: seq<Arrival>, counts: seq<nat>, e: Env, spurious: nat,
                      ghost trace: seq<(Shared, Worker)>)
      requires |counts| == DRAIN_CYCLES && |arrivals| <= Sum(counts) && HasRoom(|arrivals|) && ValidEnv(TheSetup(), e)
      requires IsDrain(TheSetup(), trace, arrivals, e) && (SharedView(), ViewAt(Boundary)) == trace[0]
      modifies this`outstandingIo, this`deferredCount, this`inflight
      modifies opPool.buffers, opPool.operations, opPool`nextIndex, opPool`slots, lbaMgr`dstCurrent
      modifies stats, stats.latencyBuffer, stats.latencyBuffer.samples, stats.errorCounter
      ensures Sound() && (SharedView(), ViewAt(Boundary)) == trace[|arrivals|]
    {
      var cycles, pos := 0, 0;
      while outstandingIo > 0 && cycles < DRAIN_CYCLES
        invariant cycles <= DRAIN_CYCLES && pos == Delivered(|arrivals|, counts, cycles)
        invariant HasRoom(|arrivals| - pos) && (SharedView(), ViewAt(Boundary)) == trace[pos]
        decreases DRAIN_CYCLES - cycles
      {
        DeliveredNext(|arrivals|, counts, cycles);
        var next := Min(|arrivals|, pos + counts[cycles]);
        Poll(arrivals, pos, next, e, spurious, trace);
        pos, cycles := next, cycles + 1;
      }
      DeliveredAll(|arrivals|, counts);
      if pos < |arrivals| {
        StepTakesOne(TheSetup(), trace, arrivals, pos, e);
        assert false;
      }
    }

    /** The end of the worker thread: drains and drops the queue pair. It takes exactly the completions
        that the polls can deliver, each takes one operation off, and none adds one. */
    method Drain(arrivals: seq<Arrival>, counts: seq<nat>, e: Env, spurious: nat)
      returns (ghost trace: seq<(Shared, Worker)>)
      requires Valid() && shouldStop && ValidEnv(TheSetup(), e) && |counts| == DRAIN_CYCLES
      requires Deliverable(inflight.Keys, arrivals) && |stats.latencyBuffer.history| + |arrivals| < U64
      modifies this`outstandingIo, this`deferredCount, this`inflight, this`qpair
      modifies opPool.buffers, opPool.operations, opPool`nextIndex, opPool`slots, lbaMgr`dstCurrent
      modifies stats, stats.latencyBuffer, stats.latencyBuffer.samples, stats.errorCounter
      ensures Valid() && !qpair
      ensures trace != [] && trace[0] == old((SharedView(), ViewAt(Boundary)))
      ensures SharedView() == trace[|trace| - 1].0 && ViewAt(Boundary) == DropQpair(trace[|trace| - 1].1)
      ensures var timely := if old(qpair) then arrivals[..Min(|arrivals|, Sum(counts))] else [];
              IsDrain(TheSetup(), trace, timely, e) && outstandingIo == old(outstandingIo) - |timely|
    {
      trace := [(SharedView(), ViewAt(Boundary))];
      if qpair {
        trace := DrainOutstanding(arrivals[..Min(|arrivals|, Sum(counts))], counts, e, spurious);
      }
      LeaveLoop();
    }

    /** The queue pair goes. */
    method LeaveLoop()
      requires Valid()
      modifies this`qpair, this`inflight
      ensures Valid() && SharedView() == old(SharedView()) && ViewAt(Boundary) == DropQpair(old(ViewAt(Boundary)))
    {
      DropKeeps(TheSetup(), ViewAt(Boundary));
      qpair := false;
      inflight := map[];
    }

    method DrainOutstanding(timely: seq<Arrival>, counts: seq<nat>, e: Env, spurious: nat)
      returns (ghost trace: seq<(Shared, Worker)>)
      requires Valid() && shouldStop && qpair && HasRoom(|timely|)
      requires ValidEnv(TheSetup(), e) && |counts| == DRAIN_CYCLES
      requires Deliverable(inflight.Keys, timely) && |timely| <= Sum(counts)
      modifies this`outstandingIo, this`deferredCount, this`inflight
      modifies opPool.buffers, opPool.operations, opPool`nextIndex, opPool`slots, lbaMgr`dstCurrent
      modifies stats, stats.latencyBuffer, stats.latencyBuffer.samples, stats.errorCounter
      ensures Valid() && IsDrain(TheSetup(), trace, timely, e)
      ensures trace[0] == old((SharedView(), ViewAt(Boundary))) && trace[|timely|] == (SharedView(), ViewAt(Boundary))
      ensures outstandingIo == old(outstandingIo) - |timely|
    {
      trace := DrainExists(TheSetup(), SharedView(), ViewAt(Boundary), timely, e);
      DrainCounts(TheSetup(), trace, timely, |timely|, e);
      DrainStays(TheSetup(), trace, timely, |timely|, e);
      DrainPolls(timely, counts, e, spurious, trace);
    }

    /** What the worker's loop does with the result of a poll; the tenth failure in a row deletes the
        queue pair. */
    method HandlePoll(result: int)
      requires Sound() && qpair
      modifies this`qpair, this`consecutiveErrors, this`reconnectAttempts, this`inflight
      ensures Sound() && SharedView() == old(SharedView())
      ensures ViewAt(Boundary) ==
              if result < 0 then FailPoll(old(ViewAt(Boundary))) else old(ViewAt(Boundary)).(pollErrors := 0)
      ensures old(Valid()) ==> Valid()
    {
      ghost var w := ViewAt(Boundary);
      if WorkerInv(TheSetup(), w) {
        PollKeeps(TheSetup(), w);
      }
      if result < 0 {
        consecutiveErrors := consecutiveErrors + 1;
        if consecutiveErrors >= MAX_POLL_ERRORS {
          qpair := false;
          inflight := map[];
          reconnectAttempts := 0;
        }
      } else {
        consecutiveErrors := 0;
      }
    }

    /** What the loop does without a queue pair: ten attempts to get a new one, and then nothing. */
    method TryReconnecting(ok: bool)
      requires Sound() && !qpair
      modifies this`qpair, this`consecutiveErrors, this`reconnectAttempts
      ensures Sound() && SharedView() == old(SharedView())
      ensures ViewAt(Boundary) == if old(reconnectAttempts) < MAX_RECONNECTS
                                  then TryReconnect(old(ViewAt(Boundary)), ok) else old(ViewAt(Boundary))
      ensures old(Valid()) ==> Valid()
    {
      ghost var w := ViewAt(Boundary);
      if WorkerInv(TheSetup(), w) {
        ReconnectKeeps(TheSetup(), w, ok);
      }
      if reconnectAttempts < MAX_RECONNECTS {
        reconnectAttempts := reconnectAttempts + 1;
        if ok {
          qpair := true;
          consecutiveErrors := 0;
          reconnectAttempts := 0;
        }
      }
    }
  }
}
