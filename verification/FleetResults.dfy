/** What holds in every run of all workers together. A run is any sequence of enabled steps from the
    state that the start loop leaves. */
module FleetResults {
  import opened Words
  import opened CopyCommand
  import opened DestinationLba
  import opened OpPool
  import opened Generator
  import opened ErrorAccounting
  import opened WorkerSteps
  import opened WorkerEvents
  import opened CopySemantics
  import opened Fleets
  import opened FleetEvents
  import opened WorkerStartup

  /** outstanding_io never exceeds the depth, between events it is the number of pool slots in use, and
      it is not zero when it is about to be decremented, so it does not wrap. */
  lemma OutstandingCountsSlots(u: Setup, f: Fleet, depth: nat, acts: seq<Act>, i: nat)
    requires Init(u, f, depth) && Runs(u, f, acts) && i < |f.workers|
    ensures |Exec(u, f, acts).workers| == |f.workers|
    ensures var w := Exec(u, f, acts).workers[i];
            && w.outstanding <= depth
            && (w.pc.Boundary? ==> w.outstanding == |InUse(w.pool.slots)|)
            && (w.pc.Retiring? ==> w.outstanding >= 1)
            && w.inflight.Keys <= InUse(w.pool.slots)
  {
    ReachableInv(u, f, depth, acts);
    var w := Exec(u, f, acts).workers[i];
    if w.pc.Retiring? {
      RetireKeeps(u, w);
    }
  }

  /** The pool is never exhausted: a submission gets a slot exactly when it passes the checks of the stop
      flag, the queue pair and the depth. */
  lemma PoolNeverExhausted(u: Setup, f: Fleet, depth: nat, acts: seq<Act>, i: nat)
    requires Init(u, f, depth) && Runs(u, f, acts) && i < |f.workers|
    ensures |Exec(u, f, acts).workers| == |f.workers|
    ensures var w := Exec(u, f, acts).workers[i];
            w.pc.Boundary? || w.pc.Resubmitting? ==>
              (Enter(w).pc.Generating? <==> !w.stop && w.qpair && w.outstanding < depth)
  {
    ReachableInv(u, f, depth, acts);
    var w := Exec(u, f, acts).workers[i];
    if w.pc.Boundary? || w.pc.Resubmitting? {
      EnterKeeps(u, w);
    }
  }

  /** The deferred count: at most 100 between events until stop is raised, and together with the
      outstanding operations at most 100 plus the depth between events of every run. It is decremented
      only when positive, so it does not wrap either. */
  lemma DeferredIsBounded(u: Setup, f: Fleet, depth: nat, acts: seq<Act>, i: nat)
    requires Init(u, f, depth) && Runs(u, f, acts) && i < |f.workers|
    ensures |Exec(u, f, acts).workers| == |f.workers|
    ensures var w := Exec(u, f, acts).workers[i];
            w.pc.Boundary? ==>
              && (!w.stop ==> w.deferred <= 100)
              && w.deferred + w.outstanding <= 100 + depth
  {
    ReachableInv(u, f, depth, acts);
  }

  /** What the device may still be reading stays as it was: the slot of every command in flight, its
      range buffer included, holds exactly the command that the device accepted. */
  lemma InFlightCommandsUntouched(u: Setup, f: Fleet, depth: nat, acts: seq<Act>, i: nat, slot: nat)
    requires Init(u, f, depth) && Runs(u, f, acts) && i < |f.workers|
    requires |Exec(u, f, acts).workers| == |f.workers| && slot in Exec(u, f, acts).workers[i].inflight
    ensures var w := Exec(u, f, acts).workers[i];
            && slot < |w.pool.slots| && w.pool.slots[slot].inUse
            && CommandIn(w.pool.slots[slot]) == w.inflight[slot]
  {
    ReachableInv(u, f, depth, acts);
    var w := Exec(u, f, acts).workers[i];
    assert Holds(u, w.pool.slots[slot], w.inflight[slot]);
  }

  /** Every command handed to the device by any worker is well formed, and the device may move its blocks
      in any order. */
  lemma HandedCommandsAreSound<B>(u: Setup, f: Fleet, depth: nat, acts: seq<Act>, k: nat, d: Device<B>, order: seq<nat>)
    requires Init(u, f, depth) && Runs(u, f, acts)
    requires k < |Exec(u, f, acts).history.handed|
    ensures var h := Exec(u, f, acts).history.handed[k];
            && WellFormed(u.config, f.shared.alloc.start, f.shared.alloc.end, h.cmd, h.srcNsid)
            && var srcs, dsts := Sources(h.cmd, h.srcNsid), Destinations(h.cmd);
               (Readable(d, srcs) && Covers(order, |srcs|) ==>
                  IsConcatenation(d, Execute(d, srcs, dsts, order), srcs, dsts))
  {
    ReachableInv(u, f, depth, acts);
    var h := Exec(u, f, acts).history.handed[k];
    if Readable(d, Sources(h.cmd, h.srcNsid)) && Covers(order, |Sources(h.cmd, h.srcNsid)|) {
      AcceptedCopyIsOrderIndependent(u.config, f.shared.alloc.start, f.shared.alloc.end, h.cmd, h.srcNsid, d, order);
    }
  }

  /** The device reads a command in its destination namespace, because the command names no other. Read
      like that, a command handed over in any run is order independent exactly when it has no hazard; and
      all are, in every run, if copying between namespaces is off. */
  lemma HandedCommandsAsRead(u: Setup, f: Fleet, depth: nat, acts: seq<Act>, k: nat)
    requires Init(u, f, depth) && Runs(u, f, acts)
    requires k < |Exec(u, f, acts).history.handed|
    ensures var h := Exec(u, f, acts).history.handed[k];
            var srcs, dsts := Sources(h.cmd, h.cmd.dstNsid), Destinations(h.cmd);
            && Moves(srcs, dsts)
            && (OrderIndependent(srcs, dsts) <==> NoHazard(srcs, dsts))
            && (!CrossNamespace(u.config) || h.srcNsid == h.cmd.dstNsid ==> OrderIndependent(srcs, dsts))
  {
    ReachableInv(u, f, depth, acts);
    var h := Exec(u, f, acts).history.handed[k];
    HandedOverCommandSafeExactly(u.config, f.shared.alloc.start, f.shared.alloc.end, h.cmd, h.srcNsid);
  }

  ghost predicate BetweenEvents(f: Fleet) {
    forall i :: 0 <= i < |f.workers| ==> f.workers[i].pc.Boundary?
  }

  /** Conservation. When all workers are between events, the accepted submissions are the completed, the
      failed and the outstanding ones; the byte counter is 512 times the blocks of exactly the commands
      that completed successfully; and the error counter is the one of exactly the failures. The 64-bit
      counters hold these numbers modulo 2^64. */
  lemma Conservation(u: Setup, f: Fleet, depth: nat, acts: seq<Act>)
    requires Init(u, f, depth) && Runs(u, f, acts) && BetweenEvents(Exec(u, f, acts))
    ensures var f' := Exec(u, f, acts);
            var h := f'.history;
            && h.accepted == |h.done| + |h.failures| + SumOf(f'.workers, Outstanding)
            && f'.shared.completed == |h.done| % U64
            && f'.shared.failed == |h.failures| % U64
            && f'.shared.bytes == BytesOf(h.done) % U64
            && f'.shared.errors == RecordAll(NO_ERRORS, h.failures)
  {
    ReachableInv(u, f, depth, acts);
    AccountsBetweenEvents(Exec(u, f, acts));
    ErrorsBetweenEvents(Exec(u, f, acts));
  }

  lemma AccountsBetweenEvents(f: Fleet)
    requires CountsOk(f) && BytesOk(f) && BetweenEvents(f)
    ensures f.history.accepted == |f.history.done| + |f.history.failures| + SumOf(f.workers, Outstanding)
    ensures f.shared.bytes == BytesOf(f.history.done) % U64
  {
    SumAgree(f.workers, Pending, Outstanding);
    SumIsZero(f.workers, OwedBytes);
  }

  lemma ErrorsBetweenEvents(f: Fleet)
    requires ErrorsOk(f) && BetweenEvents(f)
    ensures f.shared.errors == RecordAll(NO_ERRORS, f.history.failures)
  {
    forall cls
      ensures ClassCounter(f.shared.errors, cls) == InClass(f.history.failures, cls)
    {
      assert ClassBooked(f, cls);
      SumIsZero(f.workers, ClassDebt(cls));
    }
    forall code
      ensures Count(f.shared.errors.counts, code) == multiset(f.history.failures)[code]
    {
      assert CodeBooked(f, code);
      SumIsZero(f.workers, CodeDebt(code));
    }
    CountsDetermine(f.shared.errors, f.history.failures);
  }

  /** So when all workers are between events the error total is the number of failures, the failure
      counter is that number modulo 2^64, the histogram counts each code recorded, and every class counter
      is the histogram's total over its class. */
  lemma ErrorCountersAgree(u: Setup, f: Fleet, depth: nat, acts: seq<Act>)
    requires Init(u, f, depth) && Runs(u, f, acts) && BetweenEvents(Exec(u, f, acts))
    ensures var f' := Exec(u, f, acts);
            && f'.shared.errors.Agrees()
            && f'.shared.errors.Total() == |f'.history.failures|
            && f'.shared.failed == f'.shared.errors.Total() % U64
            && (forall c :: Count(f'.shared.errors.counts, c) == multiset(f'.history.failures)[c])
  {
    Conservation(u, f, depth, acts);
    ReachableInv(u, f, depth, acts);
    FailuresAreCodes(Exec(u, f, acts));
    ErrorAccountsAgree(Exec(u, f, acts).history.failures);
  }

  lemma FailuresAreCodes(f: Fleet)
    requires ErrorsOk(f)
    ensures forall k :: 0 <= k < |f.history.failures| ==> f.history.failures[k] < CODES
  {
  }

  function Unclassified(w: Worker): nat {
    if w.pc.FailureCounted? then 1 else 0
  }

  function Unlisted(w: Worker): nat {
    if w.pc.FailureCounted? || w.pc.ClassCounted? then 1 else 0
  }

  /** The error total lacks one failure for every worker that has counted one and not yet its class, so
      it is the number of failures exactly when there is no such worker. */
  ghost predicate TotalLagsExactly(f: Fleet) {
    && f.shared.errors.Total() + SumOf(f.workers, Unclassified) == |f.history.failures|
    && (f.shared.errors.Total() == |f.history.failures| <==>
        forall i :: 0 <= i < |f.workers| ==> Unclassified(f.workers[i]) == 0)
  }

  /** The histogram is exact for all codes exactly when no worker still has to enter a failure. */
  ghost predicate HistogramLagsExactly(f: Fleet) {
    (forall c :: Count(f.shared.errors.counts, c) == multiset(f.history.failures)[c]) <==>
    forall i :: 0 <= i < |f.workers| ==> Unlisted(f.workers[i]) == 0
  }

  /** At any moment of any run the failure counter is up to date, while the error counter may lag. */
  lemma ErrorCountersLag(u: Setup, f: Fleet, depth: nat, acts: seq<Act>)
    requires Init(u, f, depth) && Runs(u, f, acts)
    ensures Exec(u, f, acts).shared.failed == |Exec(u, f, acts).history.failures| % U64
    ensures TotalLagsExactly(Exec(u, f, acts)) && HistogramLagsExactly(Exec(u, f, acts))
  {
    ReachableInv(u, f, depth, acts);
    TotalLags(Exec(u, f, acts));
    HistogramLags(Exec(u, f, acts));
  }

  /** And it does lag: a failed completion of any command in flight leads to such a moment. */
  lemma ErrorCountersDoLag(u: Setup, f: Fleet, depth: nat, i: nat, slot: nat) returns (acts: seq<Act>)
    requires FleetInv(u, f, depth) && i < |f.workers| && f.workers[i].pc.Boundary? && f.workers[i].qpair
    requires slot in f.workers[i].inflight
    ensures Runs(u, f, acts)
    ensures Exec(u, f, acts).shared.errors.Total() < |Exec(u, f, acts).history.failures|
  {
    var ls := [Complete(slot, Status(0, 1)), TallyStep];
    var (sh1, w1) := Step(u, f.shared, f.workers[i], ls[0]);
    StepKeepsWorkerInv(u, f.shared, f.workers[i], ls[0]);
    Prepend(u, sh1, w1, TallyStep, []);
    assert [TallyStep] + [] == ls[1..];
    Prepend(u, f.shared, f.workers[i], ls[0], ls[1..]);
    assert [ls[0]] + ls[1..] == ls;
    WorkerRunIsFleetRun(u, f, i, ls);
    acts := ActsOf(i, ls);
    RunKeepsInv(u, f, depth, acts);
    TotalLags(Exec(u, f, acts));
    assert Unclassified(Exec(u, f, acts).workers[i]) == 1;
  }

  lemma TotalLags(f: Fleet)
    requires ErrorsOk(f)
    ensures TotalLagsExactly(f)
  {
    assert ClassBooked(f, Saturation) && ClassBooked(f, Fatal) && ClassBooked(f, Other);
    InClassPartition(f.history.failures);
    DebtsAddUp(f.workers);
    SumIsZero(f.workers, Unclassified);
  }

  lemma {:induction false} DebtsAddUp(ws: seq<Worker>)
    ensures SumOf(ws, ClassDebt(Saturation)) + SumOf(ws, ClassDebt(Fatal)) + SumOf(ws, ClassDebt(Other))
            == SumOf(ws, Unclassified)
    decreases |ws|
  {
    if ws != [] {
      DebtsAddUp(ws[1..]);
      assert OwesClass(ws[0], Saturation) + OwesClass(ws[0], Fatal) + OwesClass(ws[0], Other) == Unclassified(ws[0]);
    }
  }

  lemma HistogramLags(f: Fleet)
    requires ErrorsOk(f)
    ensures HistogramLagsExactly(f)
  {
    forall c: nat
      ensures Count(f.shared.errors.counts, c) == multiset(f.history.failures)[c] <==>
              forall i :: 0 <= i < |f.workers| ==> OwesCode(f.workers[i], c) == 0
    {
      assert CodeBooked(f, c);
      SumIsZero(f.workers, CodeDebt(c));
    }
    if i :| 0 <= i < |f.workers| && Unlisted(f.workers[i]) != 0 {
      var c := f.workers[i].pc.sc;
      assert OwesCode(f.workers[i], c) == 1;
      assert Count(f.shared.errors.counts, c) != multiset(f.history.failures)[c];
    }
  }

  /** The workers' completions never count as fatal for their type: of all codes recorded in a run only
      0x01 and 0x02 are in the fatal class. */
  lemma FatalFailuresAreTwoCodes(u: Setup, f: Fleet, depth: nat, acts: seq<Act>, k: nat)
    requires Init(u, f, depth) && Runs(u, f, acts) && k < |Exec(u, f, acts).history.failures|
    ensures var code := Exec(u, f, acts).history.failures[k];
            ClassOf(code).Fatal? <==> code == 0x01 || code == 0x02
  {
    ReachableInv(u, f, depth, acts);
    EightBitCodesHaveNoType(Exec(u, f, acts).history.failures[k]);
  }

  // ---------------------------------------------------------------- depth

  /** All workers together never have more than max(iodepth, 4 * cores) operations outstanding. */
  lemma GlobalDepthBound(u: Setup, f: Fleet, iodepth: nat, cores: nat, maxQueueDepth: nat, acts: seq<Act>)
    requires cores > 0 && |f.workers| <= cores
    requires Init(u, f, PerThreadDepth(iodepth, cores, maxQueueDepth)) && Runs(u, f, acts)
    ensures SumOf(Exec(u, f, acts).workers, Outstanding) <= cores * PerThreadDepth(iodepth, cores, maxQueueDepth)
    ensures SumOf(Exec(u, f, acts).workers, Outstanding) <= Max(iodepth, 4 * cores)
  {
    var depth := PerThreadDepth(iodepth, cores, maxQueueDepth);
    ReachableInv(u, f, depth, acts);
    SumBounded(Exec(u, f, acts).workers, Outstanding, depth);
    MulMono(|f.workers|, cores, depth);
    DepthBudget(iodepth, cores, maxQueueDepth);
  }

  /** What filling needs, and keeps. */
  ghost predicate Fillable(u: Setup, f: Fleet, depth: nat) {
    && FleetInv(u, f, depth)
    && AcceptsEverywhere(u, f.shared.alloc.start, f.shared.alloc.end)
    && forall i :: 0 <= i < |f.workers| ==> MaySubmit(f.workers[i])
  }

  lemma SubmitOneKeepsFillable(u: Setup, f: Fleet, depth: nat, i: nat) returns (acts: seq<Act>)
    requires Fillable(u, f, depth) && i < |f.workers| && f.workers[i].outstanding < depth
    ensures Runs(u, f, acts) && Fillable(u, Exec(u, f, acts), depth)
    ensures OnlyGrew(f, Exec(u, f, acts), i) && Exec(u, f, acts).workers[i].outstanding == f.workers[i].outstanding + 1
  {
    acts := SubmitOne(u, f, depth, i);
    var f' := Exec(u, f, acts);
    forall k | 0 <= k < |f'.workers|
      ensures MaySubmit(f'.workers[k]) && (k != i ==> f'.workers[k] == f.workers[k])
    {
    }
  }

  ghost predicate OnlyGrew(f: Fleet, f': Fleet, i: nat) {
    |f'.workers| == |f.workers| && forall k :: 0 <= k < |f.workers| && k != i ==> f'.workers[k] == f.workers[k]
  }

  lemma {:induction false} FillOne(u: Setup, f: Fleet, depth: nat, i: nat) returns (acts: seq<Act>)
    requires Fillable(u, f, depth) && i < |f.workers|
    ensures Runs(u, f, acts) && Fillable(u, Exec(u, f, acts), depth)
    ensures OnlyGrew(f, Exec(u, f, acts), i) && Exec(u, f, acts).workers[i].outstanding == depth
    decreases depth - f.workers[i].outstanding
  {
    if f.workers[i].outstanding == depth {
      acts := [];
    } else {
      var first := SubmitOneKeepsFillable(u, f, depth, i);
      var rest := FillOne(u, Exec(u, f, first), depth, i);
      RunThenRun(u, f, first, rest);
      acts := first + rest;
    }
  }

  /** From idle workers a run leads to every worker having its full depth outstanding. */
  lemma {:induction false} FillAll(u: Setup, f: Fleet, depth: nat, done: nat) returns (acts: seq<Act>)
    requires Fillable(u, f, depth) && done <= |f.workers|
    requires forall i :: 0 <= i < done ==> f.workers[i].outstanding == depth
    ensures Runs(u, f, acts)
    ensures |Exec(u, f, acts).workers| == |f.workers|
    ensures forall i :: 0 <= i < |f.workers| ==> Exec(u, f, acts).workers[i].outstanding == depth
    decreases |f.workers| - done
  {
    if done == |f.workers| {
      acts := [];
    } else {
      var first := FillOne(u, f, depth, done);
      var rest := FillAll(u, Exec(u, f, first), depth, done + 1);
      RunThenRun(u, f, first, rest);
      acts := first + rest;
    }
  }

  lemma {:induction false} SumConstant(ws: seq<Worker>, depth: nat)
    requires forall i :: 0 <= i < |ws| ==> ws[i].outstanding == depth
    ensures SumOf(ws, Outstanding) == |ws| * depth
    decreases |ws|
  {
    if ws != [] {
      SumConstant(ws[1..], depth);
      assert |ws| * depth == depth + |ws[1..]| * depth;
    }
  }

  /** The documented maximum. With a worker for every core, and commands that can be generated wherever
      the cursor stands, iodepth bounds the operations outstanding in every run exactly when it is at least
      four for every core, or what the controller allows if that is less. In every other case some run
      exceeds it. */
  lemma IodepthKeptInEveryRunExactly(u: Setup, f: Fleet, iodepth: nat, cores: nat, maxQueueDepth: nat)
    requires cores > 0 && |f.workers| == cores
    requires Init(u, f, PerThreadDepth(iodepth, cores, maxQueueDepth))
    requires AcceptsEverywhere(u, f.shared.alloc.start, f.shared.alloc.end)
    ensures (forall acts :: Runs(u, f, acts) ==> SumOf(Exec(u, f, acts).workers, Outstanding) <= iodepth) <==>
            cores * Min(4, maxQueueDepth) <= iodepth
  {
    var depth := PerThreadDepth(iodepth, cores, maxQueueDepth);
    IodepthIsGlobalMaximumExactly(iodepth, cores, maxQueueDepth);
    if cores * depth <= iodepth {
      forall acts | Runs(u, f, acts)
        ensures SumOf(Exec(u, f, acts).workers, Outstanding) <= iodepth
      {
        GlobalDepthBound(u, f, iodepth, cores, maxQueueDepth, acts);
      }
    } else {
      InitEstablishesInv(u, f, depth);
      var acts := FillAll(u, f, depth, 0);
      SumConstant(Exec(u, f, acts).workers, depth);
    }
  }

  /** The number of ranges of a command with as few as the configuration allows. */
  function FewestRanges(c: Config): nat {
    if c.fixedRanges > 0 then c.fixedRanges else 1
  }

  /** Commands can be generated everywhere whenever the sources lie in the destination namespace and the
      part of it in which they are drawn has room for a destination and a range on either side of it. The
      window may be any part of the namespace that holds a command, the whole of it included. */
  lemma RoomySetupAcceptsEverywhere(u: Setup, start: nat, end: nat)
    requires ValidSetup(u) && !CrossNamespace(u.config)
    requires NsSize(u.config.namespaces, u.config.dstNsid) == u.lbaNsSize && end <= u.lbaNsSize
    requires 0 < u.rangeSize <= MAX_RANGE_BLOCKS && u.rangeSize <= u.lbaNsSize
    requires start + FewestRanges(u.config) * u.rangeSize <= end
    requires (FewestRanges(u.config) + 2) * u.rangeSize <= SafeSize(u.lbaNsSize, u.rangeSize)
    ensures AcceptsEverywhere(u, start, end)
  {
    forall cursor | start <= cursor < end
      ensures SomeAcceptedAt(u, Allocator(start, end, cursor))
    {
      var a := Allocator(start, end, cursor);
      var total := FewestRanges(u.config) * u.rangeSize;
      ReserveStaysInWindow(a, total);
      var lba := Reserve(a, total).0;
      AcceptedBeside(u, a, if lba >= u.rangeSize then 0 else lba + total);
    }
  }

  /** All ranges at an address x beside the destination. */
  lemma AcceptedBeside(u: Setup, a: Allocator, x: nat)
    requires ValidSetup(u) && !CrossNamespace(u.config) && a.Valid()
    requires NsSize(u.config.namespaces, u.config.dstNsid) == u.lbaNsSize && a.end <= u.lbaNsSize
    requires 0 < u.rangeSize <= MAX_RANGE_BLOCKS && u.rangeSize < u.lbaNsSize
    requires x + u.rangeSize <= SafeSize(u.lbaNsSize, u.rangeSize)
    requires var total := FewestRanges(u.config) * u.rangeSize;
             var lba := Reserve(a, total).0;
             0 < total <= a.Span() && (x + u.rangeSize <= lba || lba + total <= x)
    ensures SomeAcceptedAt(u, a)
  {
    var n := FewestRanges(u.config);
    var d := Draws(1, 0, seq(u.config.maxRanges, _ => x));
    var ranges := SourceRanges(u.lbaNsSize, u.lbaNsSize, u.rangeSize, d.lbas[..n]);
    assert ValidDraws(u.config, d);
    DrawnAsIs(u.lbaNsSize, u.rangeSize, x);
    EqualRangesTotal(ranges, u.rangeSize);
    ReserveStaysInWindow(a, TotalBlocks(ranges));
    var cmd := Command(u.config.dstNsid, Reserve(a, TotalBlocks(ranges)).0, ranges, TotalBlocks(ranges));
    assert !Overlaps(cmd);
    assert Generate(u.config, u.lbaNsSize, a, u.rangeSize, d) == Place(u.config, a, ranges, u.config.dstNsid);
  }

  lemma DrawnAsIs(nsSize: nat, rangeSize: nat, x: nat)
    requires 0 < rangeSize < nsSize < U64 && x + rangeSize <= SafeSize(nsSize, rangeSize)
    ensures SourceRangeFor(nsSize, nsSize, rangeSize, x) == SourceRange(x, rangeSize - 1)
  {
    RemainderBelow(x, SafeSize(nsSize, rangeSize) - rangeSize + 1);
  }

  /** So the hypothesis holds for a window over a whole namespace, where no single draw would do: the
      cursor reaches every source. */
  lemma WholeNamespaceAcceptsEverywhere() returns (u: Setup)
    ensures ValidSetup(u) && u.lbaNsSize == 1000 && AcceptsEverywhere(u, 0, 1000)
  {
    u := Setup(Config(1, 0, [], 1, [Some(Namespace(1, 1000))], false, false), 1000, 1);
    RoomySetupAcceptsEverywhere(u, 0, 1000);
  }

  // ---------------------------------------------------------------- stop

  /** Submissions of worker i that the device accepts in a run, and decrements of its counter. */
  ghost function AcceptedIn(acts: seq<Act>, i: nat): nat
    decreases |acts|
  {
    if acts == [] then 0
    else (if acts[0].i == i && acts[0].l.Submitted? && acts[0].l.nsFound && acts[0].l.rc == 0 then 1 else 0)
         + AcceptedIn(acts[1..], i)
  }

  ghost function RetiredIn(acts: seq<Act>, i: nat): nat
    decreases |acts|
  {
    if acts == [] then 0 else (if acts[0].i == i && acts[0].l.Retire? then 1 else 0) + RetiredIn(acts[1..], i)
  }

  /** The worker is past its check of the stop flag. */
  ghost predicate PastCheck(w: Worker) {
    w.pc.Generating? || w.pc.Ready?
  }

  lemma StoppedStep(u: Setup, sh: Shared, w: Worker, l: Label)
    requires ValidSetup(u) && sh.alloc.Valid() && EnabledIn(u, w, l) && WorkerInv(u, w) && w.stop
    ensures var w' := Step(u, sh, w, l).1;
            && w'.stop
            && (DeviceAccepts(w, l) ==> PastCheck(w) && !PastCheck(w'))
            && (PastCheck(w') ==> PastCheck(w))
  {
    if l.Attempted? {
      TryGenerateKeeps(u, sh.alloc, w, l.d);
    }
  }

  lemma {:induction false} StopDrainsFrom(u: Setup, f: Fleet, depth: nat, acts: seq<Act>, i: nat)
    requires FleetInv(u, f, depth) && Runs(u, f, acts) && i < |f.workers|
    ensures |Exec(u, f, acts).workers| == |f.workers|
    ensures Exec(u, f, acts).workers[i].outstanding + RetiredIn(acts, i) ==
            f.workers[i].outstanding + AcceptedIn(acts, i)
    ensures f.workers[i].stop ==> AcceptedIn(acts, i) <= if PastCheck(f.workers[i]) then 1 else 0
    decreases |acts|
  {
    if acts != [] {
      var act := acts[0];
      StepKeepsInv(u, f, depth, act);
      StepBalances(u, f.shared, f.workers[act.i], act.l, f.history);
      if f.workers[act.i].stop {
        StoppedStep(u, f.shared, f.workers[act.i], act.l);
      }
      StopDrainsFrom(u, Apply(u, f, act), depth, acts[1..], i);
    }
  }

  /** Stop. Once it is raised for a worker, the device accepts at most the one submission that was past
      its check, and none if there was none; from then on the outstanding count is what it was, plus that
      one, less the completions, so it reaches zero after exactly that many. */
  lemma StopDrains(u: Setup, f: Fleet, depth: nat, before: seq<Act>, after: seq<Act>, i: nat)
    requires Init(u, f, depth) && Runs(u, f, before) && Runs(u, Exec(u, f, before), after) && i < |f.workers|
    requires |Exec(u, f, before).workers| == |f.workers| && Exec(u, f, before).workers[i].stop
    ensures |Exec(u, Exec(u, f, before), after).workers| == |f.workers|
    ensures var w, w' := Exec(u, f, before).workers[i], Exec(u, Exec(u, f, before), after).workers[i];
            var last := AcceptedIn(after, i);
            && last <= (if PastCheck(w) then 1 else 0)
            && w'.outstanding == w.outstanding + last - RetiredIn(after, i)
            && (w'.outstanding == 0 <==> RetiredIn(after, i) == w.outstanding + last)
  {
    ReachableInv(u, f, depth, before);
    StopDrainsFrom(u, Exec(u, f, before), depth, after, i);
  }
}
