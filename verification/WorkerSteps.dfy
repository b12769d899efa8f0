/** One worker as a state machine (src/poll_thread_manager.cpp:67-200). Every access to data that the
    model shares with other threads is a step of its own: the stop flag, the allocator, and each counter
    of operations, bytes and errors. What lies between two of them is private to the worker. */
module WorkerSteps {
  import opened Words
  import opened CopyCommand
  import opened DestinationLba
  import opened OpPool
  import opened Generator
  import opened ErrorAccounting

  const MAX_RETRIES: nat := 10
  const MAX_DEFERRED: nat := 100
  const BLOCK_BYTES: nat := 512
  const MAX_POLL_ERRORS: nat := 10
  const MAX_RECONNECTS: nat := 10

  /** What every worker is given at the start. */
  datatype Setup = Setup(config: Config, lbaNsSize: nat, rangeSize: nat)

  ghost predicate ValidSetup(u: Setup) {
    ValidConfig(u.config) && u.lbaNsSize + MAX_COMMAND_BLOCKS < U64
  }

  /** Completion status: type and code. */
  datatype Status = Status(sct: nat, sc: nat) {
    predicate IsError() {
      sct != 0 || sc != 0
    }
  }

  /** Where a worker is. At Boundary it is between two events, anywhere in its loop. The slot is the one
      in hand; `cmd` is the command the device completed. */
  datatype Pc =
    | Boundary
    | Generating(slot: nat, retries: nat)
    | Ready(slot: nat, srcNsid: nat)
    | Completing(slot: nat, cmd: Command, status: Status)
    | Copied(slot: nat, cmd: Command)
    | FailureCounted(slot: nat, sc: nat)
    | ClassCounted(slot: nat, sc: nat)
    | Failed(slot: nat, sc: nat)
    | Retiring(slot: nat)
    | Releasing(slot: nat)
    | Resubmitting

  /** A worker; `pollErrors` counts failed polls in a row, and `reconnects` the attempts to replace a lost
      queue pair; `inflight` is what the device has accepted and may still complete. */
  datatype Worker = Worker(depth: nat, outstanding: nat, deferred: nat, qpair: bool, stop: bool,
                           pool: Pool, pc: Pc, inflight: map<nat, Command>, pollErrors: nat, reconnects: nat)

  /** The data all workers share. */
  datatype Shared = Shared(alloc: Allocator, completed: nat, failed: nat, bytes: nat, errors: Errors)

  function CommandIn(s: Slot): Command {
    Command(s.dstNsid, s.dstLba, if s.numRanges <= |s.ranges| then s.ranges[..s.numRanges] else [], s.totalBlocks)
  }

  // ---------------------------------------------------------------- submission

  /** submit_next_io_pooled up to the loop that generates: the checks, one deferred operation less, and
      a slot from the pool. */
  function Enter(w: Worker): Worker {
    if w.stop || !w.qpair || w.outstanding >= w.depth then w.(pc := Boundary)
    else
      var deferred := if w.deferred > 0 then Sub32(w.deferred, 1) else w.deferred;
      var (pool, found) := AcquireSlot(w.pool);
      w.(deferred := deferred, pool := pool, pc := if found.Some? then Generating(found.value, 0) else Boundary)
  }

  /** One attempt to generate. */
  function TryGenerate(u: Setup, a: Allocator, w: Worker, d: Draws): (Allocator, Worker)
    requires ValidSetup(u) && ValidDraws(u.config, d) && a.start <= a.end
    requires w.pc.Generating? && w.pc.slot < |w.pool.slots|
  {
    var r := Generate(u.config, u.lbaNsSize, a, u.rangeSize, d);
    (r.alloc, AfterAttempt(w, r))
  }

  /** The worker after an attempt; after ten rejections the slot is given back. */
  function AfterAttempt(w: Worker, r: Attempt): Worker
    requires w.pc.Generating? && w.pc.slot < |w.pool.slots|
  {
    var Generating(slot, retries) := w.pc;
    var s := w.pool.slots[slot];
    match r
    case Rejected(_, written) =>
      var pool := w.pool.(slots := w.pool.slots[slot := s.(ranges := Overlay(s.ranges, written))]);
      if retries + 1 >= MAX_RETRIES then w.(pool := ReleaseSlot(pool, slot), pc := Boundary)
      else w.(pool := pool, pc := Generating(slot, retries + 1))
    case Accepted(_, cmd, srcNsid) =>
      w.(pool := w.pool.(slots := w.pool.slots[slot := Filled(s, cmd)]), pc := Ready(slot, srcNsid))
  }

  /** A slot with a generated command copied into it. */
  function Filled(s: Slot, cmd: Command): Slot {
    s.(dstNsid := cmd.dstNsid, dstLba := cmd.dstLba, numRanges := |cmd.ranges|, totalBlocks := cmd.totalBlocks,
       hasContext := true, ranges := Overlay(s.ranges, cmd.ranges))
  }

  /** handle_backpressure_pooled. */
  function Backpressure(deferred: nat): nat {
    if deferred < MAX_DEFERRED then Add32(deferred, 1) else deferred
  }

  /** Hands the command to the device; rc is the device's answer. */
  function Submit(w: Worker, nsFound: bool, rc: int): Worker
    requires w.pc.Ready? && w.pc.slot < |w.pool.slots|
  {
    var slot := w.pc.slot;
    if !nsFound then
      w.(pool := ReleaseSlot(w.pool, slot), pc := Boundary)
    else if rc == 0 then
      w.(outstanding := Add32(w.outstanding, 1), pc := Boundary,
         inflight := w.inflight[slot := CommandIn(w.pool.slots[slot])])
    else
      w.(pool := ReleaseSlot(w.pool, slot), deferred := Backpressure(w.deferred), pc := Boundary)
  }

  // ---------------------------------------------------------------- completion

  /** The device completes a command in flight. */
  function Begin(w: Worker, slot: nat, status: Status): Worker
    requires slot in w.inflight
  {
    w.(pc := Completing(slot, w.inflight[slot], status), inflight := w.inflight - {slot})
  }

  /** Counts the operation as completed or failed; the error counter follows in two steps. */
  function Tally(sh: Shared, w: Worker): (Shared, Worker)
    requires w.pc.Completing?
  {
    var Completing(slot, cmd, status) := w.pc;
    if status.IsError() then
      (sh.(failed := Add64(sh.failed, 1)), w.(pc := FailureCounted(slot, status.sc)))
    else
      (sh.(completed := Add64(sh.completed, 1)), w.(pc := Copied(slot, cmd)))
  }

  /** The counter of the error's class. */
  function CountClassOf(sh: Shared, w: Worker): (Shared, Worker)
    requires w.pc.FailureCounted?
  {
    (sh.(errors := CountClass(sh.errors, w.pc.sc)), w.(pc := ClassCounted(w.pc.slot, w.pc.sc)))
  }

  /** The histogram of errors. */
  function CountCodeOf(sh: Shared, w: Worker): (Shared, Worker)
    requires w.pc.ClassCounted?
  {
    (sh.(errors := CountCode(sh.errors, w.pc.sc)), w.(pc := Failed(w.pc.slot, w.pc.sc)))
  }

  /** Adds the bytes of the slot's command. */
  function AddBytes(sh: Shared, w: Worker): (Shared, Worker)
    requires w.pc.Copied? && w.pc.slot < |w.pool.slots|
  {
    (sh.(bytes := Add64(sh.bytes, w.pool.slots[w.pc.slot].totalBlocks * BLOCK_BYTES)), w.(pc := Retiring(w.pc.slot)))
  }

  /** After a failure: code 8 sends the destination cursor back, saturation defers. */
  function HandleFailure(sh: Shared, w: Worker): (Shared, Worker)
    requires w.pc.Failed?
  {
    (if w.pc.sc == 8 then sh.(alloc := ResetCursor(sh.alloc)) else sh,
     w.(deferred := if IsSaturationError(w.pc.sc) then Add32(w.deferred, 1) else w.deferred, pc := Retiring(w.pc.slot)))
  }

  /** The decrement of outstanding_io. */
  function RetireOne(w: Worker): Worker
    requires w.pc.Retiring?
  {
    w.(outstanding := Sub32(w.outstanding, 1), pc := Releasing(w.pc.slot))
  }

  function ReleaseOne(w: Worker): Worker
    requires w.pc.Releasing?
  {
    w.(pool := ReleaseSlot(w.pool, w.pc.slot), pc := Resubmitting)
  }

  // ---------------------------------------------------------------- steps

  /** The queue pair goes away, and with it whatever the device has not completed. */
  function DropQpair(w: Worker): Worker {
    w.(qpair := false, inflight := map[])
  }

  /** A poll that fails; after ten in a row the queue pair is deleted. */
  function FailPoll(w: Worker): Worker {
    var w' := w.(pollErrors := w.pollErrors + 1);
    if w'.pollErrors >= MAX_POLL_ERRORS then DropQpair(w').(reconnects := 0) else w'
  }

  /** One of the ten attempts to get a new queue pair. */
  function TryReconnect(w: Worker, ok: bool): Worker {
    if ok then w.(qpair := true, pollErrors := 0, reconnects := 0) else w.(reconnects := w.reconnects + 1)
  }

  /** Steps of the worker, and of its environment: the device completes or loses commands, polls fail and
      new queue pairs can be had or not, the main thread raises stop, the worker leaves its loop. */
  datatype Label =
    | Check
    | Attempted(d: Draws)
    | Submitted(nsFound: bool, rc: int)
    | Complete(slot: nat, status: Status)
    | TallyStep
    | CountClassStep
    | CountCodeStep
    | AddBytesStep
    | HandleFailureStep
    | Retire
    | Release
    | RaiseStop
    | Lose(slot: nat)
    | PollSucceeded
    | PollFailed
    | Reconnect(ok: bool)
    | Leave

  /** A completion is delivered only for a command in flight, only through the queue pair and never in
      the middle of another event. */
  ghost predicate EnabledIn(u: Setup, w: Worker, l: Label) {
    match l
    case Check => w.pc.Boundary? || w.pc.Resubmitting?
    case Attempted(d) => w.pc.Generating? && w.pc.slot < |w.pool.slots| && ValidDraws(u.config, d)
    case Submitted(_, _) => w.pc.Ready? && w.pc.slot < |w.pool.slots|
    case Complete(slot, status) => w.pc.Boundary? && w.qpair && slot in w.inflight && status.sc < 0x100
    case TallyStep => w.pc.Completing?
    case CountClassStep => w.pc.FailureCounted?
    case CountCodeStep => w.pc.ClassCounted?
    case AddBytesStep => w.pc.Copied? && w.pc.slot < |w.pool.slots|
    case HandleFailureStep => w.pc.Failed?
    case Retire => w.pc.Retiring?
    case Release => w.pc.Releasing?
    case RaiseStop => true
    case Lose(slot) => slot in w.inflight
    case PollSucceeded => w.pc.Boundary? && w.qpair
    case PollFailed => w.pc.Boundary? && w.qpair
    case Reconnect(_) => w.pc.Boundary? && !w.qpair && w.reconnects < MAX_RECONNECTS
    case Leave => w.pc.Boundary? && w.stop
  }

  function Step(u: Setup, sh: Shared, w: Worker, l: Label): (Shared, Worker)
    requires ValidSetup(u) && sh.alloc.start <= sh.alloc.end && EnabledIn(u, w, l)
  {
    match l
    case Check => (sh, Enter(w))
    case Attempted(d) =>
      var (a', w') := TryGenerate(u, sh.alloc, w, d);
      (sh.(alloc := a'), w')
    case Submitted(nsFound, rc) => (sh, Submit(w, nsFound, rc))
    case Complete(slot, status) => (sh, Begin(w, slot, status))
    case TallyStep => Tally(sh, w)
    case CountClassStep => CountClassOf(sh, w)
    case CountCodeStep => CountCodeOf(sh, w)
    case AddBytesStep => AddBytes(sh, w)
    case HandleFailureStep => HandleFailure(sh, w)
    case Retire => (sh, RetireOne(w))
    case Release => (sh, ReleaseOne(w))
    case RaiseStop => (sh, w.(stop := true))
    case Lose(slot) => (sh, w.(inflight := w.inflight - {slot}))
    case PollSucceeded => (sh, w.(pollErrors := 0))
    case PollFailed => (sh, FailPoll(w))
    case Reconnect(ok) => (sh, TryReconnect(w, ok))
    case Leave => (sh, DropQpair(w))
  }

  // ---------------------------------------------------------------- invariant

  predicate HasSlot(pc: Pc) {
    !pc.Boundary? && !pc.Resubmitting?
  }

  /** In the middle of a completion callback. */
  predicate InCallback(pc: Pc) {
    || pc.Completing? || pc.Copied? || pc.FailureCounted? || pc.ClassCounted? || pc.Failed?
    || pc.Retiring? || pc.Releasing? || pc.Resubmitting?
  }

  /** The slot in hand is in use but not, or no longer, counted in outstanding_io. */
  function Uncounted(pc: Pc): nat {
    if pc.Generating? || pc.Ready? || pc.Releasing? then 1 else 0
  }

  /** The slots in use are the outstanding operations and the one in hand, and the ones in flight hold,
      unchanged, the commands the device was given. */
  ghost predicate SlotsOk(u: Setup, w: Worker) {
    && |w.pool.slots| == 2 * w.depth < U32 && w.pool.next < U32
    && (forall i :: 0 <= i < |w.pool.slots| ==> |w.pool.slots[i].ranges| == u.config.maxRanges)
    && |InUse(w.pool.slots)| == w.outstanding + Uncounted(w.pc)
    && w.inflight.Keys <= InUse(w.pool.slots)
    && (forall i :: i in w.inflight ==> Holds(u, w.pool.slots[i], w.inflight[i]))
    && (HasSlot(w.pc) ==> w.pc.slot in InUse(w.pool.slots) && w.pc.slot !in w.inflight)
    && (w.pc.Completing? ==> Holds(u, w.pool.slots[w.pc.slot], w.pc.cmd) && w.pc.status.sc < 0x100)
    && (w.pc.Copied? ==> Holds(u, w.pool.slots[w.pc.slot], w.pc.cmd))
    && (w.pc.Ready? ==> Holds(u, w.pool.slots[w.pc.slot], CommandIn(w.pool.slots[w.pc.slot])))
    && (w.pc.FailureCounted? || w.pc.ClassCounted? || w.pc.Failed? ==> w.pc.sc < 0x100)
  }

  ghost predicate Holds(u: Setup, s: Slot, cmd: Command) {
    && CommandIn(s) == cmd && s.hasContext
    && s.numRanges == |cmd.ranges| <= u.config.maxRanges == |s.ranges|
    && cmd.totalBlocks <= MAX_COMMAND_BLOCKS
  }

  ghost predicate DepthOk(w: Worker) {
    && w.depth <= 1024 && w.outstanding <= w.depth
    && (w.pc.Generating? || w.pc.Ready? || w.pc.Releasing? || w.pc.Resubmitting? ==> w.outstanding < w.depth)
    && (InCallback(w.pc) ==> w.qpair)
    && (w.pc.Generating? ==> w.pc.retries < MAX_RETRIES)
  }

  /** The deferred count, at every point of an event. A completion may add one more than the cap of the
      submission path, but only in exchange for an outstanding operation. */
  ghost predicate DeferredOk(w: Worker) {
    var afterFailure := if w.pc.Retiring? || w.pc.Releasing? || w.pc.Resubmitting? then 1 else 0;
    var beforeRetire := if w.pc.Retiring? then 1 else 0;
    && (!w.stop ==> w.deferred <= MAX_DEFERRED + afterFailure)
    && (w.pc.Generating? || w.pc.Ready? ==> w.deferred <= MAX_DEFERRED)
    && w.deferred + w.outstanding <= MAX_DEFERRED + w.depth + beforeRetire
  }

  ghost predicate WorkerInv(u: Setup, w: Worker) {
    SlotsOk(u, w) && DepthOk(w) && DeferredOk(w)
  }

  // ---------------------------------------------------------------- preservation

  lemma TakeSlot(slots: seq<Slot>, i: nat, s: Slot)
    requires i < |slots| && !slots[i].inUse && s.inUse
    ensures InUse(slots[i := s]) == InUse(slots) + {i}
    ensures |InUse(slots[i := s])| == |InUse(slots)| + 1
  {
    assert InUse(slots[i := s]) == InUse(slots) + {i};
  }

  lemma GiveSlot(slots: seq<Slot>, i: nat, s: Slot)
    requires i < |slots| && slots[i].inUse && !s.inUse
    ensures InUse(slots[i := s]) == InUse(slots) - {i}
    ensures |InUse(slots[i := s])| == |InUse(slots)| - 1
  {
    assert InUse(slots[i := s]) == InUse(slots) - {i};
  }

  lemma ChangeSlot(slots: seq<Slot>, i: nat, s: Slot)
    requires i < |slots| && slots[i].inUse == s.inUse
    ensures InUse(slots[i := s]) == InUse(slots)
  {
  }

  /** A worker that passes the checks always gets a slot: fewer than half are in use. */
  lemma EnterFindsSlot(u: Setup, w: Worker)
    requires WorkerInv(u, w) && (w.pc.Boundary? || w.pc.Resubmitting?)
    requires w.outstanding < w.depth
    ensures AcquireSlot(w.pool).1.Some?
  {
    AcquireSucceeds(w.pool);
  }

  /** The slot acquired was free, so it is not in flight. */
  lemma AcquireKeepsSlots(u: Setup, w: Worker)
    requires SlotsOk(u, w) && (w.pc.Boundary? || w.pc.Resubmitting?)
    requires AcquireSlot(w.pool).1.Some?
    ensures var (pool, found) := AcquireSlot(w.pool);
            SlotsOk(u, w.(pool := pool, pc := Generating(found.value, 0)))
  {
    var tried := ScanOutcome(w.pool, |w.pool.slots|);
    var i := AcquireSlot(w.pool).1.value;
    TakeSlot(w.pool.slots, i, Taken(w.pool.slots[i]));
    assert i !in InUse(w.pool.slots);
  }

  lemma SlotsIgnoreCounts(u: Setup, w: Worker, deferred: nat)
    requires SlotsOk(u, w)
    ensures SlotsOk(u, w.(deferred := deferred))
    ensures w.pc.Resubmitting? ==> SlotsOk(u, w.(pc := Boundary))
  {
  }

  lemma EnterKeeps(u: Setup, w: Worker)
    requires WorkerInv(u, w) && (w.pc.Boundary? || w.pc.Resubmitting?)
    ensures WorkerInv(u, Enter(w))
    ensures Enter(w).outstanding == w.outstanding
    ensures !Enter(w).pc.Boundary? <==> !w.stop && w.qpair && w.outstanding < w.depth
  {
    if !w.stop && w.qpair && w.outstanding < w.depth {
      EnterFindsSlot(u, w);
      EnterKeepsSlots(u, w);
      EnterKeepsCounts(w);
    } else {
      SlotsIgnoreCounts(u, w, w.deferred);
    }
  }

  lemma EnterKeepsSlots(u: Setup, w: Worker)
    requires SlotsOk(u, w) && (w.pc.Boundary? || w.pc.Resubmitting?)
    requires !w.stop && w.qpair && w.outstanding < w.depth && AcquireSlot(w.pool).1.Some?
    ensures SlotsOk(u, Enter(w))
  {
    AcquireKeepsSlots(u, w);
    var (pool, found) := AcquireSlot(w.pool);
    SlotsIgnoreCounts(u, w.(pool := pool, pc := Generating(found.value, 0)), Enter(w).deferred);
  }

  lemma EnterKeepsCounts(w: Worker)
    requires DepthOk(w) && DeferredOk(w) && (w.pc.Boundary? || w.pc.Resubmitting?)
    requires !w.stop && w.qpair && w.outstanding < w.depth && AcquireSlot(w.pool).1.Some?
    ensures DepthOk(Enter(w)) && DeferredOk(Enter(w)) && Enter(w).pc.Generating?
    ensures Enter(w).outstanding == w.outstanding && Enter(w).deferred == Max(w.deferred, 1) - 1
  {
  }

  /** Giving back a slot in hand that is not counted. */
  lemma GiveBackKeepsSlots(u: Setup, w: Worker)
    requires SlotsOk(u, w) && (w.pc.Generating? || w.pc.Ready? || w.pc.Releasing?)
    ensures SlotsOk(u, w.(pool := ReleaseSlot(w.pool, w.pc.slot), pc := Boundary))
    ensures SlotsOk(u, w.(pool := ReleaseSlot(w.pool, w.pc.slot), pc := Resubmitting))
  {
    var s := w.pool.slots[w.pc.slot];
    GiveSlot(w.pool.slots, w.pc.slot, s.(inUse := false));
  }

  /** Writing to the slot in hand. */
  lemma WriteKeepsSlots(u: Setup, w: Worker, s: Slot)
    requires SlotsOk(u, w) && w.pc.Generating?
    requires s.inUse && |s.ranges| == u.config.maxRanges
    ensures SlotsOk(u, w.(pool := w.pool.(slots := w.pool.slots[w.pc.slot := s])))
  {
    ChangeSlot(w.pool.slots, w.pc.slot, s);
  }

  lemma FilledHolds(u: Setup, s: Slot, cmd: Command)
    requires |s.ranges| == u.config.maxRanges && 1 <= |cmd.ranges| <= u.config.maxRanges
    requires cmd.totalBlocks <= MAX_COMMAND_BLOCKS
    ensures Holds(u, Filled(s, cmd), cmd)
  {
  }

  lemma RejectedFits(u: Setup, a: Allocator, d: Draws)
    requires ValidSetup(u) && ValidDraws(u.config, d) && a.start <= a.end
    ensures var r := Generate(u.config, u.lbaNsSize, a, u.rangeSize, d);
            r.Rejected? ==> |r.written| <= u.config.maxRanges
  {
  }

  /** An attempt whose ranges fit the buffer. */
  ghost predicate AttemptFits(u: Setup, r: Attempt) {
    match r
    case Rejected(_, written) => |written| <= u.config.maxRanges
    case Accepted(_, cmd, _) => 1 <= |cmd.ranges| <= u.config.maxRanges && cmd.totalBlocks <= MAX_COMMAND_BLOCKS
  }

  lemma AfterAttemptKeeps(u: Setup, w: Worker, r: Attempt)
    requires WorkerInv(u, w) && w.pc.Generating? && AttemptFits(u, r)
    ensures var w' := AfterAttempt(w, r);
            && WorkerInv(u, w') && w'.outstanding == w.outstanding
            && (r.Rejected? ==> w'.pc.Boundary? || w'.pc == Generating(w.pc.slot, w.pc.retries + 1))
            && (r.Accepted? ==> w'.pc == Ready(w.pc.slot, r.srcNsid) && CommandIn(w'.pool.slots[w'.pc.slot]) == r.cmd)
  {
    match r
    case Rejected(_, written) => RejectedKeeps(u, w, r);
    case Accepted(_, cmd, srcNsid) =>
      FilledHolds(u, w.pool.slots[w.pc.slot], cmd);
      WriteKeepsSlots(u, w, Filled(w.pool.slots[w.pc.slot], cmd));
  }

  lemma RejectedKeeps(u: Setup, w: Worker, r: Attempt)
    requires WorkerInv(u, w) && w.pc.Generating? && r.Rejected? && AttemptFits(u, r)
    ensures var w' := AfterAttempt(w, r);
            && WorkerInv(u, w') && w'.outstanding == w.outstanding
            && (w'.pc.Boundary? || w'.pc == Generating(w.pc.slot, w.pc.retries + 1))
  {
    var s := w.pool.slots[w.pc.slot];
    var s' := s.(ranges := Overlay(s.ranges, r.written));
    WriteKeepsSlots(u, w, s');
    if w.pc.retries + 1 >= MAX_RETRIES {
      GiveBackKeepsSlots(u, w.(pool := w.pool.(slots := w.pool.slots[w.pc.slot := s'])));
    }
  }

  lemma GeneratedFits(u: Setup, a: Allocator, d: Draws)
    requires ValidSetup(u) && ValidDraws(u.config, d) && a.Valid()
    ensures var r := Generate(u.config, u.lbaNsSize, a, u.rangeSize, d);
            && AttemptFits(u, r)
            && r.alloc.Valid() && r.alloc.start == a.start && r.alloc.end == a.end
            && (r.Accepted? ==> WellFormed(u.config, a.start, a.end, r.cmd, r.srcNsid))
  {
    AcceptedIsWellFormed(u.config, u.lbaNsSize, a, u.rangeSize, d);
    RejectedFits(u, a, d);
  }

  lemma TryGenerateKeeps(u: Setup, a: Allocator, w: Worker, d: Draws)
    requires ValidSetup(u) && ValidDraws(u.config, d) && a.Valid()
    requires WorkerInv(u, w) && w.pc.Generating?
    ensures var (a', w') := TryGenerate(u, a, w, d);
            && a'.Valid() && a'.start == a.start && a'.end == a.end
            && WorkerInv(u, w') && w'.outstanding == w.outstanding
            && (w'.pc.Ready? || w'.pc.Boundary? || w'.pc == Generating(w.pc.slot, w.pc.retries + 1))
            && (w'.pc.Ready? ==>
                  WellFormed(u.config, a.start, a.end, CommandIn(w'.pool.slots[w'.pc.slot]), w'.pc.srcNsid))
  {
    GeneratedFits(u, a, d);
    AfterAttemptKeeps(u, w, Generate(u.config, u.lbaNsSize, a, u.rangeSize, d));
  }

  lemma SubmitKeeps(u: Setup, w: Worker, nsFound: bool, rc: int)
    requires WorkerInv(u, w) && w.pc.Ready?
    ensures WorkerInv(u, Submit(w, nsFound, rc))
    ensures Submit(w, nsFound, rc).outstanding == w.outstanding + if nsFound && rc == 0 then 1 else 0
  {
    GiveBackKeepsSlots(u, w);
  }

  lemma MemberCounts(s: set<nat>, x: nat)
    requires x in s
    ensures |s| >= 1
  {
    assert s == (s - {x}) + {x};
  }

  /** The counter is decremented only while it counts something. */
  lemma RetireKeeps(u: Setup, w: Worker)
    requires WorkerInv(u, w) && w.pc.Retiring?
    ensures w.outstanding >= 1
    ensures WorkerInv(u, RetireOne(w)) && RetireOne(w).outstanding == w.outstanding - 1
  {
    MemberCounts(InUse(w.pool.slots), w.pc.slot);
  }

  lemma ReleaseKeeps(u: Setup, w: Worker)
    requires WorkerInv(u, w) && w.pc.Releasing?
    ensures WorkerInv(u, ReleaseOne(w))
  {
    GiveBackKeepsSlots(u, w);
  }

  lemma BeginKeeps(u: Setup, w: Worker, slot: nat, status: Status)
    requires WorkerInv(u, w) && w.pc.Boundary? && w.qpair && slot in w.inflight && status.sc < 0x100
    ensures WorkerInv(u, Begin(w, slot, status))
  {
  }

  lemma TallyKeeps(u: Setup, sh: Shared, w: Worker)
    requires WorkerInv(u, w) && w.pc.Completing?
    ensures WorkerInv(u, Tally(sh, w).1)
  {
  }

  lemma CountErrorKeeps(u: Setup, sh: Shared, w: Worker)
    requires WorkerInv(u, w)
    ensures w.pc.FailureCounted? ==> WorkerInv(u, CountClassOf(sh, w).1)
    ensures w.pc.ClassCounted? ==> WorkerInv(u, CountCodeOf(sh, w).1)
  {
  }

  lemma AddBytesKeeps(u: Setup, sh: Shared, w: Worker)
    requires WorkerInv(u, w) && w.pc.Copied?
    ensures WorkerInv(u, AddBytes(sh, w).1)
  {
  }

  lemma HandleFailureKeeps(u: Setup, sh: Shared, w: Worker)
    requires WorkerInv(u, w) && w.pc.Failed?
    ensures WorkerInv(u, HandleFailure(sh, w).1)
  {
  }

  /** Fewer commands in flight, and whatever happens to the queue pair between events. */
  lemma LosingKeeps(u: Setup, w: Worker, w': Worker)
    requires WorkerInv(u, w) && w.pc.Boundary? && w'.inflight.Keys <= w.inflight.Keys
    requires forall slot :: slot in w'.inflight ==> w'.inflight[slot] == w.inflight[slot]
    requires w' == w.(inflight := w'.inflight, qpair := w'.qpair,
                      pollErrors := w'.pollErrors, reconnects := w'.reconnects)
    ensures WorkerInv(u, w')
  {
  }

  lemma DropKeeps(u: Setup, w: Worker)
    requires WorkerInv(u, w) && w.pc.Boundary?
    ensures WorkerInv(u, DropQpair(w))
  {
    LosingKeeps(u, w, DropQpair(w));
  }

  lemma PollKeeps(u: Setup, w: Worker)
    requires WorkerInv(u, w) && w.pc.Boundary?
    ensures WorkerInv(u, FailPoll(w)) && WorkerInv(u, w.(pollErrors := 0))
  {
    LosingKeeps(u, w, FailPoll(w));
    LosingKeeps(u, w, w.(pollErrors := 0));
  }

  lemma ReconnectKeeps(u: Setup, w: Worker, ok: bool)
    requires WorkerInv(u, w) && w.pc.Boundary?
    ensures WorkerInv(u, TryReconnect(w, ok))
  {
    LosingKeeps(u, w, TryReconnect(w, ok));
  }

  lemma LoseKeeps(u: Setup, w: Worker, slot: nat)
    requires WorkerInv(u, w) && slot in w.inflight
    ensures WorkerInv(u, w.(inflight := w.inflight - {slot}))
  {
  }

  lemma RaiseStopKeeps(u: Setup, w: Worker)
    requires WorkerInv(u, w)
    ensures WorkerInv(u, w.(stop := true))
  {
  }

  lemma StepKeepsWindow(u: Setup, sh: Shared, w: Worker, l: Label)
    requires ValidSetup(u) && sh.alloc.Valid() && EnabledIn(u, w, l)
    ensures var (sh', w') := Step(u, sh, w, l);
            && w'.depth == w.depth && sh'.alloc.Valid()
            && sh'.alloc.start == sh.alloc.start && sh'.alloc.end == sh.alloc.end
  {
    if l.Attempted? {
      GeneratedFits(u, sh.alloc, l.d);
    }
  }

  /** The steps of a submission. */
  lemma SubmissionKeeps(u: Setup, sh: Shared, w: Worker, l: Label)
    requires ValidSetup(u) && sh.alloc.Valid() && EnabledIn(u, w, l) && WorkerInv(u, w)
    requires l.Check? || l.Attempted? || l.Submitted?
    ensures WorkerInv(u, Step(u, sh, w, l).1)
  {
    match l
    case Check => EnterKeeps(u, w);
    case Attempted(d) => TryGenerateKeeps(u, sh.alloc, w, d);
    case Submitted(nsFound, rc) => SubmitKeeps(u, w, nsFound, rc);
  }

  /** The steps of a completion. */
  lemma CompletionKeeps(u: Setup, sh: Shared, w: Worker, l: Label)
    requires ValidSetup(u) && sh.alloc.Valid() && EnabledIn(u, w, l) && WorkerInv(u, w) && IsCompletion(l)
    ensures WorkerInv(u, Step(u, sh, w, l).1)
  {
    match l
    case Complete(slot, status) => BeginKeeps(u, w, slot, status);
    case TallyStep => TallyKeeps(u, sh, w);
    case CountClassStep => CountErrorKeeps(u, sh, w);
    case CountCodeStep => CountErrorKeeps(u, sh, w);
    case AddBytesStep => AddBytesKeeps(u, sh, w);
    case HandleFailureStep => HandleFailureKeeps(u, sh, w);
    case Retire => RetireKeeps(u, w);
    case Release => ReleaseKeeps(u, w);
  }

  predicate IsCompletion(l: Label) {
    || l.Complete? || l.TallyStep? || l.CountClassStep? || l.CountCodeStep? || l.AddBytesStep?
    || l.HandleFailureStep? || l.Retire? || l.Release?
  }

  /** The steps of the environment, and of the worker's loop. */
  lemma EnvironmentKeeps(u: Setup, sh: Shared, w: Worker, l: Label)
    requires ValidSetup(u) && sh.alloc.Valid() && EnabledIn(u, w, l) && WorkerInv(u, w)
    requires l.RaiseStop? || l.Lose? || l.PollSucceeded? || l.PollFailed? || l.Reconnect? || l.Leave?
    ensures WorkerInv(u, Step(u, sh, w, l).1)
  {
    match l
    case RaiseStop => RaiseStopKeeps(u, w);
    case Lose(slot) => LoseKeeps(u, w, slot);
    case PollSucceeded => PollKeeps(u, w);
    case PollFailed => PollKeeps(u, w);
    case Reconnect(ok) => ReconnectKeeps(u, w, ok);
    case Leave => DropKeeps(u, w);
  }

  /** Every step of the worker and of its environment keeps the invariant, and the window. */
  lemma StepKeepsWorkerInv(u: Setup, sh: Shared, w: Worker, l: Label)
    requires ValidSetup(u) && sh.alloc.Valid() && EnabledIn(u, w, l) && WorkerInv(u, w)
    ensures var (sh', w') := Step(u, sh, w, l);
            && WorkerInv(u, w') && w'.depth == w.depth
            && sh'.alloc.Valid() && sh'.alloc.start == sh.alloc.start && sh'.alloc.end == sh.alloc.end
  {
    StepKeepsWindow(u, sh, w, l);
    if l.Check? || l.Attempted? || l.Submitted? {
      SubmissionKeeps(u, sh, w, l);
    } else if IsCompletion(l) {
      CompletionKeeps(u, sh, w, l);
    } else {
      EnvironmentKeeps(u, sh, w, l);
    }
  }
}
