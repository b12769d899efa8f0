/** All workers together: any number of them, sharing the allocator and the statistics, with their steps
    interleaved in any way and an environment that does what it likes. */
module Fleets {
  import opened Words
  import opened CopyCommand
  import opened DestinationLba
  import opened OpPool
  import opened Generator
  import opened ErrorAccounting
  import opened WorkerSteps

  /** A command handed to the device, and the namespace its sources were drawn for. */
  datatype Handed = Handed(cmd: Command, srcNsid: nat)

  /** What happened so far: submissions the device accepted, all commands handed to it, the commands that
      completed successfully, and the codes of those that failed. */
  datatype History = History(accepted: nat, handed: seq<Handed>, done: seq<Command>, failures: seq<nat>)

  datatype Fleet = Fleet(shared: Shared, workers: seq<Worker>, history: History)

  /** One step of worker i, or of its environment. */
  datatype Act = Act(i: nat, l: Label)

  ghost predicate Enabled(u: Setup, f: Fleet, act: Act) {
    act.i < |f.workers| && EnabledIn(u, f.workers[act.i], act.l)
  }

  ghost predicate DeviceAccepts(w: Worker, l: Label) {
    l.Submitted? && l.nsFound && l.rc == 0
  }

  function Observe(h: History, w: Worker, l: Label): History {
    if l.Submitted? && l.nsFound && w.pc.Ready? && w.pc.slot < |w.pool.slots| then
      h.(handed := h.handed + [Handed(CommandIn(w.pool.slots[w.pc.slot]), w.pc.srcNsid)],
         accepted := h.accepted + if l.rc == 0 then 1 else 0)
    else if l.TallyStep? && w.pc.Completing? then
      if w.pc.status.IsError() then h.(failures := h.failures + [w.pc.status.sc])
      else h.(done := h.done + [w.pc.cmd])
    else h
  }

  function Apply(u: Setup, f: Fleet, act: Act): Fleet
    requires ValidSetup(u) && f.shared.alloc.start <= f.shared.alloc.end && Enabled(u, f, act)
  {
    var w := f.workers[act.i];
    var (shared, w') := Step(u, f.shared, w, act.l);
    Fleet(shared, f.workers[act.i := w'], Observe(f.history, w, act.l))
  }

  ghost predicate Runs(u: Setup, f: Fleet, acts: seq<Act>)
    requires ValidSetup(u)
    decreases |acts|
  {
    f.shared.alloc.Valid()
    && (acts == [] || (Enabled(u, f, acts[0]) && Runs(u, Apply(u, f, acts[0]), acts[1..])))
  }

  function Exec(u: Setup, f: Fleet, acts: seq<Act>): Fleet
    requires ValidSetup(u) && Runs(u, f, acts)
    decreases |acts|
  {
    if acts == [] then f else Exec(u, Apply(u, f, acts[0]), acts[1..])
  }

  /** Workers as the start loop leaves them: a queue pair, a pool of twice the depth, nothing going on. */
  ghost predicate Fresh(u: Setup, w: Worker, depth: nat) {
    && depth <= 1024
    && w == Worker(depth, 0, 0, true, false, Pool(0, FreshSlots(2 * depth, u.config.maxRanges)), Boundary, map[], 0, 0)
  }

  ghost predicate Init(u: Setup, f: Fleet, depth: nat) {
    && ValidSetup(u)
    && (forall i :: 0 <= i < |f.workers| ==> Fresh(u, f.workers[i], depth))
    && f.shared == Shared(f.shared.alloc, 0, 0, 0, NO_ERRORS) && f.shared.alloc.Valid()
    && f.history == History(0, [], [], [])
  }

  // ---------------------------------------------------------------- sums over workers

  function SumOf(ws: seq<Worker>, f: Worker -> nat): nat
    decreases |ws|
  {
    if ws == [] then 0 else f(ws[0]) + SumOf(ws[1..], f)
  }

  lemma {:induction false} SumUpdate(ws: seq<Worker>, i: nat, w: Worker, f: Worker -> nat)
    requires i < |ws|
    ensures SumOf(ws[i := w], f) == SumOf(ws, f) - f(ws[i]) + f(w)
    decreases |ws|
  {
    if i > 0 {
      assert ws[i := w][1..] == ws[1..][i - 1 := w];
      SumUpdate(ws[1..], i - 1, w, f);
    } else {
      assert ws[i := w][1..] == ws[1..];
    }
  }

  lemma {:induction false} SumAgree(ws: seq<Worker>, f: Worker -> nat, g: Worker -> nat)
    requires forall i :: 0 <= i < |ws| ==> f(ws[i]) == g(ws[i])
    ensures SumOf(ws, f) == SumOf(ws, g)
    decreases |ws|
  {
    if ws != [] {
      SumAgree(ws[1..], f, g);
    }
  }

  lemma {:induction false} SumBounded(ws: seq<Worker>, f: Worker -> nat, bound: nat)
    requires forall i :: 0 <= i < |ws| ==> f(ws[i]) <= bound
    ensures SumOf(ws, f) <= |ws| * bound
    decreases |ws|
  {
    if ws != [] {
      SumBounded(ws[1..], f, bound);
      assert |ws| * bound == bound + |ws[1..]| * bound;
    }
  }

  function Outstanding(w: Worker): nat {
    w.outstanding
  }

  /** Counted as completed or failed, and still counted as outstanding. */
  predicate Accounted(pc: Pc) {
    pc.Copied? || pc.FailureCounted? || pc.ClassCounted? || pc.Failed? || pc.Retiring?
  }

  /** Accepted and not yet counted as completed or failed. */
  function Pending(w: Worker): nat {
    if Accounted(w.pc) && w.outstanding > 0 then w.outstanding - 1 else w.outstanding
  }

  /** Counted as completed, with the bytes still to be added. */
  function OwedBytes(w: Worker): nat {
    if w.pc.Copied? then w.pc.cmd.totalBlocks * BLOCK_BYTES else 0
  }

  /** Counted as failed, with the counter of the error's class still to be incremented. */
  function OwesClass(w: Worker, cls: Class): nat {
    if w.pc.FailureCounted? && ClassOf(w.pc.sc) == cls then 1 else 0
  }

  function ClassDebt(cls: Class): Worker -> nat {
    w => OwesClass(w, cls)
  }

  /** Counted as failed, with the histogram still to be updated. */
  function OwesCode(w: Worker, code: nat): nat {
    if (w.pc.FailureCounted? || w.pc.ClassCounted?) && w.pc.sc == code then 1 else 0
  }

  function CodeDebt(code: nat): Worker -> nat {
    w => OwesCode(w, code)
  }

  function BytesOf(cmds: seq<Command>): nat
    decreases |cmds|
  {
    if cmds == [] then 0 else BytesOf(cmds[..|cmds| - 1]) + cmds[|cmds| - 1].totalBlocks * BLOCK_BYTES
  }

  lemma BytesSnoc(cmds: seq<Command>, cmd: Command)
    ensures BytesOf(cmds + [cmd]) == BytesOf(cmds) + cmd.totalBlocks * BLOCK_BYTES
  {
    assert (cmds + [cmd])[..|cmds|] == cmds;
  }

  // ---------------------------------------------------------------- invariant

  ghost predicate ReadyOk(u: Setup, alloc: Allocator, w: Worker) {
    w.pc.Ready? && w.pc.slot < |w.pool.slots| ==>
      WellFormed(u.config, alloc.start, alloc.end, CommandIn(w.pool.slots[w.pc.slot]), w.pc.srcNsid)
  }

  ghost predicate WorkersOk(u: Setup, f: Fleet, depth: nat) {
    && f.shared.alloc.Valid()
    && forall i :: 0 <= i < |f.workers| ==>
         WorkerInv(u, f.workers[i]) && f.workers[i].depth == depth && ReadyOk(u, f.shared.alloc, f.workers[i])
  }

  ghost predicate HandedOk(u: Setup, f: Fleet) {
    forall k :: 0 <= k < |f.history.handed| ==>
      var h := f.history.handed[k];
      WellFormed(u.config, f.shared.alloc.start, f.shared.alloc.end, h.cmd, h.srcNsid)
  }

  /** Every accepted submission is completed, failed or pending. */
  ghost predicate CountsOk(f: Fleet) {
    f.history.accepted == |f.history.done| + |f.history.failures| + SumOf(f.workers, Pending)
  }

  ghost predicate BytesOk(f: Fleet) {
    && f.shared.bytes < U64
    && (f.shared.bytes + SumOf(f.workers, OwedBytes)) % U64 == BytesOf(f.history.done) % U64
  }

  ghost predicate TalliesOk(sh: Shared, h: History) {
    sh.completed == |h.done| % U64 && sh.failed == |h.failures| % U64
  }

  /** Every failure is in the counter of its class and in the histogram, or owed by its worker. */
  ghost predicate ErrorsOk(f: Fleet) {
    && Positive(f.shared.errors.counts)
    && (forall k :: 0 <= k < |f.history.failures| ==> f.history.failures[k] < 0x100)
    && (forall cls :: ClassBooked(f, cls))
    && (forall code :: CodeBooked(f, code))
  }

  ghost predicate ClassBooked(f: Fleet, cls: Class) {
    ClassCounter(f.shared.errors, cls) + SumOf(f.workers, ClassDebt(cls)) == InClass(f.history.failures, cls)
  }

  ghost predicate CodeBooked(f: Fleet, code: nat) {
    Count(f.shared.errors.counts, code) + SumOf(f.workers, CodeDebt(code)) == multiset(f.history.failures)[code]
  }

  ghost predicate AccountsOk(f: Fleet) {
    CountsOk(f) && BytesOk(f) && TalliesOk(f.shared, f.history) && ErrorsOk(f)
  }

  ghost predicate FleetInv(u: Setup, f: Fleet, depth: nat) {
    ValidSetup(u) && WorkersOk(u, f, depth) && HandedOk(u, f) && AccountsOk(f)
  }

  lemma StepKeepsReady(u: Setup, sh: Shared, w: Worker, l: Label)
    requires ValidSetup(u) && sh.alloc.Valid() && EnabledIn(u, w, l) && WorkerInv(u, w) && ReadyOk(u, sh.alloc, w)
    ensures ReadyOk(u, sh.alloc, Step(u, sh, w, l).1)
  {
    if l.Attempted? {
      TryGenerateKeeps(u, sh.alloc, w, l.d);
    }
  }

  lemma StepKeepsWorkers(u: Setup, f: Fleet, depth: nat, act: Act)
    requires ValidSetup(u) && WorkersOk(u, f, depth) && Enabled(u, f, act)
    ensures var f' := Apply(u, f, act);
            && WorkersOk(u, f', depth)
            && f'.shared.alloc.start == f.shared.alloc.start && f'.shared.alloc.end == f.shared.alloc.end
  {
    var w := f.workers[act.i];
    StepKeepsWorkerInv(u, f.shared, w, act.l);
    StepKeepsReady(u, f.shared, w, act.l);
    var f' := Apply(u, f, act);
    forall i | 0 <= i < |f'.workers|
      ensures WorkerInv(u, f'.workers[i]) && f'.workers[i].depth == depth && ReadyOk(u, f'.shared.alloc, f'.workers[i])
    {
      if i != act.i {
        assert ReadyOk(u, f.shared.alloc, f.workers[i]);
      }
    }
  }

  lemma StepKeepsHanded(u: Setup, f: Fleet, depth: nat, act: Act)
    requires ValidSetup(u) && WorkersOk(u, f, depth) && HandedOk(u, f) && Enabled(u, f, act)
    ensures HandedOk(u, Apply(u, f, act))
  {
    StepKeepsWorkers(u, f, depth, act);
    assert ReadyOk(u, f.shared.alloc, f.workers[act.i]);
  }

  /** Nothing appears or gets lost: accepted operations become completed, failed or pending ones, and the
      counter moves only when the device accepts a command and when one is retired. */
  ghost predicate CountsBalance(h: History, w: Worker, l: Label, h': History, w': Worker) {
    && h'.accepted - h.accepted == |h'.done| - |h.done| + |h'.failures| - |h.failures| + Pending(w') - Pending(w)
    && w'.outstanding - w.outstanding == (if DeviceAccepts(w, l) then 1 else 0) - (if l.Retire? then 1 else 0)
  }

  lemma StepBalances(u: Setup, sh: Shared, w: Worker, l: Label, h: History)
    requires ValidSetup(u) && sh.alloc.Valid() && EnabledIn(u, w, l) && WorkerInv(u, w)
    ensures CountsBalance(h, w, l, Observe(h, w, l), Step(u, sh, w, l).1)
  {
    if l.Check? || l.Attempted? {
      NothingHandedYet(u, sh, w, l, h);
    } else if l.Submitted? {
      SubmitBalances(u, w, l, h);
    } else if l.Retire? {
      RetireKeeps(u, w);
    } else if l.TallyStep? {
      TallyBalances(u, sh, w, h);
    } else {
      OthersBalance(u, sh, w, l, h);
    }
  }

  lemma NothingHandedYet(u: Setup, sh: Shared, w: Worker, l: Label, h: History)
    requires ValidSetup(u) && sh.alloc.Valid() && EnabledIn(u, w, l) && WorkerInv(u, w) && (l.Check? || l.Attempted?)
    ensures CountsBalance(h, w, l, Observe(h, w, l), Step(u, sh, w, l).1)
  {
    if l.Check? {
      EnterKeeps(u, w);
    } else {
      TryGenerateKeeps(u, sh.alloc, w, l.d);
    }
  }

  lemma SubmitBalances(u: Setup, w: Worker, l: Label, h: History)
    requires WorkerInv(u, w) && w.pc.Ready? && l.Submitted?
    ensures CountsBalance(h, w, l, Observe(h, w, l), Submit(w, l.nsFound, l.rc))
  {
    SubmitKeeps(u, w, l.nsFound, l.rc);
  }

  lemma TallyBalances(u: Setup, sh: Shared, w: Worker, h: History)
    requires WorkerInv(u, w) && w.pc.Completing?
    ensures CountsBalance(h, w, TallyStep, Observe(h, w, TallyStep), Tally(sh, w).1)
  {
    MemberCounts(InUse(w.pool.slots), w.pc.slot);
  }

  lemma OthersBalance(u: Setup, sh: Shared, w: Worker, l: Label, h: History)
    requires ValidSetup(u) && sh.alloc.Valid() && EnabledIn(u, w, l) && WorkerInv(u, w)
    requires !l.Check? && !l.Attempted? && !l.Submitted? && !l.Retire? && !l.TallyStep?
    ensures CountsBalance(h, w, l, Observe(h, w, l), Step(u, sh, w, l).1)
  {
  }

  /** The bytes counted and owed grow with the list of completed commands, and only with it. */
  ghost predicate BytesBalance(sh: Shared, w: Worker, h: History, sh': Shared, w': Worker, h': History) {
    && sh'.bytes < U64
    && (sh'.bytes + OwedBytes(w')) % U64 == (sh.bytes + OwedBytes(w) + BytesOf(h'.done) - BytesOf(h.done)) % U64
  }

  lemma TallyBalancesBytes(sh: Shared, w: Worker, h: History)
    requires w.pc.Completing? && sh.bytes < U64
    ensures BytesBalance(sh, w, h, Tally(sh, w).0, Tally(sh, w).1, Observe(h, w, TallyStep))
  {
    if !w.pc.status.IsError() {
      BytesSnoc(h.done, w.pc.cmd);
    }
  }

  lemma AddBytesBalances(u: Setup, sh: Shared, w: Worker, h: History)
    requires WorkerInv(u, w) && w.pc.Copied? && sh.bytes < U64
    ensures BytesBalance(sh, w, h, AddBytes(sh, w).0, AddBytes(sh, w).1, h)
  {
  }

  lemma OthersKeepBytes(u: Setup, sh: Shared, w: Worker, l: Label, h: History)
    requires ValidSetup(u) && sh.alloc.Valid() && EnabledIn(u, w, l) && WorkerInv(u, w)
    requires !l.TallyStep? && !l.AddBytesStep?
    ensures Step(u, sh, w, l).0.bytes == sh.bytes
    ensures OwedBytes(Step(u, sh, w, l).1) == OwedBytes(w) && Observe(h, w, l).done == h.done
  {
    if l.Attempted? {
      TryGenerateKeeps(u, sh.alloc, w, l.d);
    }
  }

  lemma StepBalancesBytes(u: Setup, sh: Shared, w: Worker, l: Label, h: History)
    requires ValidSetup(u) && sh.alloc.Valid() && EnabledIn(u, w, l) && WorkerInv(u, w) && sh.bytes < U64
    ensures BytesBalance(sh, w, h, Step(u, sh, w, l).0, Step(u, sh, w, l).1, Observe(h, w, l))
  {
    if l.TallyStep? {
      TallyBalancesBytes(sh, w, h);
    } else if l.AddBytesStep? {
      AddBytesBalances(u, sh, w, h);
    } else {
      OthersKeepBytes(u, sh, w, l, h);
    }
  }

  lemma TallyKeepsTallies(sh: Shared, w: Worker, h: History)
    requires w.pc.Completing? && TalliesOk(sh, h)
    ensures TalliesOk(Tally(sh, w).0, Observe(h, w, TallyStep))
  {
    CountUp(sh.completed, |h.done|, 1);
    CountUp(sh.failed, |h.failures|, 1);
  }

  /** No other step touches the counters of operations. */
  lemma OthersKeepTallies(u: Setup, sh: Shared, w: Worker, l: Label, h: History)
    requires ValidSetup(u) && sh.alloc.Valid() && EnabledIn(u, w, l) && !l.TallyStep?
    ensures var sh' := Step(u, sh, w, l).0;
            sh'.completed == sh.completed && sh'.failed == sh.failed
    ensures Observe(h, w, l).done == h.done && Observe(h, w, l).failures == h.failures
  {
  }

  lemma StepKeepsTallies(u: Setup, sh: Shared, w: Worker, l: Label, h: History)
    requires ValidSetup(u) && sh.alloc.Valid() && EnabledIn(u, w, l) && TalliesOk(sh, h)
    ensures TalliesOk(Step(u, sh, w, l).0, Observe(h, w, l))
  {
    if l.TallyStep? {
      TallyKeepsTallies(sh, w, h);
    } else {
      OthersKeepTallies(u, sh, w, l, h);
    }
  }

  /** What a step adds to the errors counted and to those owed, it adds to the list of failures. */
  ghost predicate ErrorsBalance(e: Errors, w: Worker, failures: seq<nat>, e': Errors, w': Worker, failures': seq<nat>) {
    && (Positive(e.counts) ==> Positive(e'.counts))
    && (forall cls :: ClassBalance(e, w, failures, e', w', failures', cls))
    && (forall code :: CodeBalance(e, w, failures, e', w', failures', code))
  }

  ghost predicate ClassBalance(e: Errors, w: Worker, failures: seq<nat>, e': Errors, w': Worker, failures': seq<nat>,
                               cls: Class) {
    ClassCounter(e', cls) + OwesClass(w', cls) + InClass(failures, cls)
    == ClassCounter(e, cls) + OwesClass(w, cls) + InClass(failures', cls)
  }

  ghost predicate CodeBalance(e: Errors, w: Worker, failures: seq<nat>, e': Errors, w': Worker, failures': seq<nat>,
                              code: nat) {
    Count(e'.counts, code) + OwesCode(w', code) + multiset(failures)[code]
    == Count(e.counts, code) + OwesCode(w, code) + multiset(failures')[code]
  }

  lemma TallyBalancesErrors(sh: Shared, w: Worker, h: History)
    requires w.pc.Completing?
    ensures ErrorsBalance(sh.errors, w, h.failures,
                          Tally(sh, w).0.errors, Tally(sh, w).1, Observe(h, w, TallyStep).failures)
  {
    if w.pc.status.IsError() {
      forall cls
        ensures InClass(h.failures + [w.pc.status.sc], cls) ==
                InClass(h.failures, cls) + if ClassOf(w.pc.status.sc) == cls then 1 else 0
      {
        InClassSnoc(h.failures, w.pc.status.sc, cls);
      }
    }
  }

  lemma CountClassBalances(sh: Shared, w: Worker, failures: seq<nat>)
    requires w.pc.FailureCounted?
    ensures ErrorsBalance(sh.errors, w, failures, CountClassOf(sh, w).0.errors, CountClassOf(sh, w).1, failures)
  {
  }

  lemma CountCodeBalances(sh: Shared, w: Worker, failures: seq<nat>)
    requires w.pc.ClassCounted?
    ensures ErrorsBalance(sh.errors, w, failures, CountCodeOf(sh, w).0.errors, CountCodeOf(sh, w).1, failures)
  {
  }

  /** In the middle of recording a failure. */
  predicate RecordingError(pc: Pc) {
    pc.FailureCounted? || pc.ClassCounted?
  }

  lemma OthersBalanceErrors(u: Setup, sh: Shared, w: Worker, l: Label, h: History)
    requires ValidSetup(u) && sh.alloc.Valid() && EnabledIn(u, w, l) && WorkerInv(u, w)
    requires !l.TallyStep? && !l.CountClassStep? && !l.CountCodeStep?
    ensures var (sh', w') := Step(u, sh, w, l);
            && sh'.errors == sh.errors && Observe(h, w, l).failures == h.failures
            && (w'.pc == w.pc || !(RecordingError(w.pc) || RecordingError(w'.pc)))
  {
    if l.Attempted? {
      TryGenerateKeeps(u, sh.alloc, w, l.d);
    }
  }

  lemma StepBalancesErrors(u: Setup, sh: Shared, w: Worker, l: Label, h: History)
    requires ValidSetup(u) && sh.alloc.Valid() && EnabledIn(u, w, l) && WorkerInv(u, w)
    ensures ErrorsBalance(sh.errors, w, h.failures,
                          Step(u, sh, w, l).0.errors, Step(u, sh, w, l).1, Observe(h, w, l).failures)
  {
    if l.TallyStep? {
      TallyBalancesErrors(sh, w, h);
    } else if l.CountClassStep? {
      CountClassBalances(sh, w, h.failures);
    } else if l.CountCodeStep? {
      CountCodeBalances(sh, w, h.failures);
    } else {
      OthersBalanceErrors(u, sh, w, l, h);
    }
  }

  lemma BalanceKeepsErrors(f: Fleet, i: nat, sh': Shared, w': Worker, h': History)
    requires ErrorsOk(f) && i < |f.workers|
    requires ErrorsBalance(f.shared.errors, f.workers[i], f.history.failures, sh'.errors, w', h'.failures)
    requires forall k :: 0 <= k < |h'.failures| ==> h'.failures[k] < 0x100
    ensures ErrorsOk(Fleet(sh', f.workers[i := w'], h'))
  {
    var f' := Fleet(sh', f.workers[i := w'], h');
    var e, w, fs := f.shared.errors, f.workers[i], f.history.failures;
    forall cls
      ensures ClassBooked(f', cls)
    {
      assert ClassBooked(f, cls) && ClassBalance(e, w, fs, sh'.errors, w', h'.failures, cls);
      SumUpdate(f.workers, i, w', ClassDebt(cls));
    }
    forall code
      ensures CodeBooked(f', code)
    {
      assert CodeBooked(f, code) && CodeBalance(e, w, fs, sh'.errors, w', h'.failures, code);
      SumUpdate(f.workers, i, w', CodeDebt(code));
    }
  }

  lemma FailuresStayCodes(u: Setup, w: Worker, l: Label, h: History)
    requires EnabledIn(u, w, l) && WorkerInv(u, w)
    requires forall k :: 0 <= k < |h.failures| ==> h.failures[k] < 0x100
    ensures var fs := Observe(h, w, l).failures; forall k :: 0 <= k < |fs| ==> fs[k] < 0x100
  {
  }

  lemma StepKeepsErrors(u: Setup, f: Fleet, act: Act)
    requires ValidSetup(u) && f.shared.alloc.Valid() && ErrorsOk(f)
    requires Enabled(u, f, act) && WorkerInv(u, f.workers[act.i])
    ensures ErrorsOk(Apply(u, f, act))
  {
    var w := f.workers[act.i];
    StepBalancesErrors(u, f.shared, w, act.l, f.history);
    FailuresStayCodes(u, w, act.l, f.history);
    var (sh', w') := Step(u, f.shared, w, act.l);
    BalanceKeepsErrors(f, act.i, sh', w', Observe(f.history, w, act.l));
  }

  lemma StepKeepsCounts(u: Setup, f: Fleet, act: Act)
    requires ValidSetup(u) && f.shared.alloc.Valid() && CountsOk(f)
    requires Enabled(u, f, act) && WorkerInv(u, f.workers[act.i])
    ensures CountsOk(Apply(u, f, act))
  {
    var w := f.workers[act.i];
    var w' := Step(u, f.shared, w, act.l).1;
    StepBalances(u, f.shared, w, act.l, f.history);
    SumUpdate(f.workers, act.i, w', Pending);
  }

  lemma StepKeepsBytes(u: Setup, f: Fleet, act: Act)
    requires ValidSetup(u) && f.shared.alloc.Valid() && BytesOk(f)
    requires Enabled(u, f, act) && WorkerInv(u, f.workers[act.i])
    ensures BytesOk(Apply(u, f, act))
  {
    var w := f.workers[act.i];
    StepBalancesBytes(u, f.shared, w, act.l, f.history);
    var (sh', w') := Step(u, f.shared, w, act.l);
    BalanceKeepsBytes(f, act.i, sh', w', Observe(f.history, w, act.l));
  }

  lemma BalanceKeepsBytes(f: Fleet, i: nat, sh': Shared, w': Worker, h': History)
    requires BytesOk(f) && i < |f.workers| && BytesBalance(f.shared, f.workers[i], f.history, sh', w', h')
    ensures BytesOk(Fleet(sh', f.workers[i := w'], h'))
  {
    ReplaceWorkerBytes(f.workers, i, w', f.shared.bytes, sh'.bytes, BytesOf(f.history.done), BytesOf(h'.done));
  }

  lemma ReplaceWorkerBytes(ws: seq<Worker>, i: nat, w': Worker, bytes: nat, bytes': nat, sum: nat, sum': nat)
    requires i < |ws|
    requires (bytes' + OwedBytes(w')) % U64 == (bytes + OwedBytes(ws[i]) + sum' - sum) % U64
    requires (bytes + SumOf(ws, OwedBytes)) % U64 == sum % U64
    ensures (bytes' + SumOf(ws[i := w'], OwedBytes)) % U64 == sum' % U64
  {
    SumUpdate(ws, i, w', OwedBytes);
    CarryOver(bytes, bytes', OwedBytes(ws[i]), OwedBytes(w'), SumOf(ws, OwedBytes) - OwedBytes(ws[i]), sum, sum');
  }

  /** Arithmetic modulo 2^64: what a step adds to the counter and to what is owed, it adds to the sum. */
  lemma CarryOver(bytes: int, bytes': int, owed: int, owed': int, others: int, sum: int, sum': int)
    requires (bytes' + owed') % U64 == (bytes + owed + sum' - sum) % U64
    requires (bytes + (others + owed)) % U64 == sum % U64
    ensures (bytes' + (others + owed')) % U64 == sum' % U64
  {
    ModuloShift(bytes' + owed', bytes + owed + sum' - sum, others, U64);
    ModuloShift(bytes + (others + owed), sum, sum' - sum, U64);
  }

  lemma StepKeepsInv(u: Setup, f: Fleet, depth: nat, act: Act)
    requires FleetInv(u, f, depth) && Enabled(u, f, act)
    ensures FleetInv(u, Apply(u, f, act), depth)
    ensures Apply(u, f, act).shared.alloc.start == f.shared.alloc.start
    ensures Apply(u, f, act).shared.alloc.end == f.shared.alloc.end
  {
    StepKeepsWorkers(u, f, depth, act);
    StepKeepsHanded(u, f, depth, act);
    StepKeepsCounts(u, f, act);
    StepKeepsBytes(u, f, act);
    StepKeepsTallies(u, f.shared, f.workers[act.i], act.l, f.history);
    StepKeepsErrors(u, f, act);
  }

  lemma {:induction false} RunKeepsInv(u: Setup, f: Fleet, depth: nat, acts: seq<Act>)
    requires FleetInv(u, f, depth) && Runs(u, f, acts)
    ensures FleetInv(u, Exec(u, f, acts), depth)
    ensures Exec(u, f, acts).shared.alloc.start == f.shared.alloc.start
    ensures Exec(u, f, acts).shared.alloc.end == f.shared.alloc.end
    ensures |Exec(u, f, acts).workers| == |f.workers|
    decreases |acts|
  {
    if acts != [] {
      StepKeepsInv(u, f, depth, acts[0]);
      RunKeepsInv(u, Apply(u, f, acts[0]), depth, acts[1..]);
    }
  }

  lemma {:induction false} SumIsZero(ws: seq<Worker>, f: Worker -> nat)
    ensures SumOf(ws, f) == 0 <==> forall i :: 0 <= i < |ws| ==> f(ws[i]) == 0
    decreases |ws|
  {
    if ws != [] {
      SumIsZero(ws[1..], f);
      if forall i :: 0 <= i < |ws[1..]| ==> f(ws[1..][i]) == 0 {
        assert forall i :: 0 < i < |ws| ==> ws[i] == ws[1..][i - 1];
      }
    }
  }

  lemma FreshOwesNothing(u: Setup, ws: seq<Worker>, depth: nat, f: Worker -> nat)
    requires forall i :: 0 <= i < |ws| ==> Fresh(u, ws[i], depth)
    requires forall w: Worker :: w.pc.Boundary? && w.outstanding == 0 ==> f(w) == 0
    ensures SumOf(ws, f) == 0
  {
    forall i | 0 <= i < |ws|
      ensures f(ws[i]) == 0
    {
      assert Fresh(u, ws[i], depth);
    }
    SumIsZero(ws, f);
  }

  lemma FreshWorkerOk(u: Setup, w: Worker, depth: nat)
    requires Fresh(u, w, depth)
    ensures WorkerInv(u, w)
  {
    assert InUse(w.pool.slots) == {};
  }

  lemma InitEstablishesInv(u: Setup, f: Fleet, depth: nat)
    requires Init(u, f, depth)
    ensures FleetInv(u, f, depth)
  {
    FreshOwesNothing(u, f.workers, depth, Pending);
    FreshOwesNothing(u, f.workers, depth, OwedBytes);
    forall cls
      ensures ClassBooked(f, cls)
    {
      FreshOwesNothing(u, f.workers, depth, ClassDebt(cls));
    }
    forall code
      ensures CodeBooked(f, code)
    {
      FreshOwesNothing(u, f.workers, depth, CodeDebt(code));
    }
    forall i | 0 <= i < |f.workers|
      ensures WorkerInv(u, f.workers[i])
    {
      assert Fresh(u, f.workers[i], depth);
      FreshWorkerOk(u, f.workers[i], depth);
    }
  }

  lemma ReachableInv(u: Setup, f: Fleet, depth: nat, acts: seq<Act>)
    requires Init(u, f, depth) && Runs(u, f, acts)
    ensures FleetInv(u, Exec(u, f, acts), depth)
    ensures Exec(u, f, acts).shared.alloc.start == f.shared.alloc.start
    ensures Exec(u, f, acts).shared.alloc.end == f.shared.alloc.end
    ensures |Exec(u, f, acts).workers| == |f.workers|
  {
    InitEstablishesInv(u, f, depth);
    RunKeepsInv(u, f, depth, acts);
  }
}
