/** Whole events as runs of all workers: the other workers do nothing meanwhile. */
module FleetEvents {
  import opened CopyCommand
  import opened DestinationLba
  import opened Generator
  import opened WorkerSteps
  import opened WorkerEvents
  import opened Fleets

  lemma {:induction false} RunThenRun(u: Setup, f: Fleet, a: seq<Act>, b: seq<Act>)
    requires ValidSetup(u) && Runs(u, f, a) && Runs(u, Exec(u, f, a), b)
    ensures Runs(u, f, a + b) && Exec(u, f, a + b) == Exec(u, Exec(u, f, a), b)
    decreases |a|
  {
    if a == [] {
      assert a + b == b;
    } else {
      assert (a + b)[1..] == a[1..] + b;
      RunThenRun(u, Apply(u, f, a[0]), a[1..], b);
    }
  }

  /** The labels as steps of worker i. */
  function ActsOf(i: nat, ls: seq<Label>): (acts: seq<Act>)
    ensures |acts| == |ls|
  {
    seq(|ls|, k requires 0 <= k < |ls| => Act(i, ls[k]))
  }

  /** A run of one worker's steps is a run of all workers, in which only that worker changes. */
  lemma {:induction false} WorkerRunIsFleetRun(u: Setup, f: Fleet, i: nat, ls: seq<Label>)
    requires ValidSetup(u) && i < |f.workers| && StepsRun(u, f.shared, f.workers[i], ls)
    ensures Runs(u, f, ActsOf(i, ls))
    ensures var (sh, w) := StepAll(u, f.shared, f.workers[i], ls);
            Exec(u, f, ActsOf(i, ls)).shared == sh && Exec(u, f, ActsOf(i, ls)).workers == f.workers[i := w]
    decreases |ls|
  {
    if ls != [] {
      var f' := Apply(u, f, Act(i, ls[0]));
      assert ActsOf(i, ls)[1..] == ActsOf(i, ls[1..]);
      var last := StepAll(u, f.shared, f.workers[i], ls).1;
      assert f'.workers[i := last] == f.workers[i := last];
      WorkerRunIsFleetRun(u, f', i, ls[1..]);
    }
  }

  // ---------------------------------------------------------------- a submission that gets through

  /** Some draw is accepted at the allocator's cursor. */
  ghost predicate SomeAcceptedAt(u: Setup, a: Allocator)
    requires ValidSetup(u) && a.start <= a.end
  {
    exists d :: ValidDraws(u.config, d) && Generate(u.config, u.lbaNsSize, a, u.rangeSize, d).Accepted?
  }

  /** Wherever the destination cursor stands in the window, some draw is accepted. */
  ghost predicate AcceptsEverywhere(u: Setup, start: nat, end: nat)
    requires ValidSetup(u)
  {
    forall cursor :: start <= cursor < end ==> SomeAcceptedAt(u, Allocator(start, end, cursor))
  }

  ghost predicate MaySubmit(w: Worker) {
    (w.pc.Boundary? || w.pc.Resubmitting?) && w.qpair && !w.stop
  }

  function Accepting(d: Draws): Env {
    Env(seq(MAX_RETRIES, _ => d), true, 0)
  }

  /** A submission whose first draw is accepted, by the generator and by the device: the command is in
      flight afterwards, in a slot that was not. */
  ghost predicate GotInFlight(w: Worker, w': Worker, cmd: Command) {
    exists slot: nat :: slot !in w.inflight && w'.inflight == w.inflight[slot := cmd]
  }

  lemma GeneratesAtOnce(u: Setup, a: Allocator, w: Worker, d: Draws)
    requires ValidSetup(u) && a.Valid() && WorkerInv(u, w) && w.pc.Generating? && ValidDraws(u.config, d)
    requires Generate(u.config, u.lbaNsSize, a, u.rangeSize, d).Accepted?
    ensures GenerateLoop(u, a, w, Accepting(d)).0 == Generate(u.config, u.lbaNsSize, a, u.rangeSize, d).alloc
    ensures var w' := GenerateLoop(u, a, w, Accepting(d)).1;
            && w'.pc.Ready? && w'.qpair == w.qpair && w'.stop == w.stop && w'.inflight == w.inflight
            && CommandIn(w'.pool.slots[w'.pc.slot]) == Generate(u.config, u.lbaNsSize, a, u.rangeSize, d).cmd
  {
    GenerateTurn(u, a, w, Accepting(d));
    GeneratedFits(u, a, d);
    AcceptedMoves(u, w, Generate(u.config, u.lbaNsSize, a, u.rangeSize, d));
  }

  lemma AcceptedMoves(u: Setup, w: Worker, r: Attempt)
    requires WorkerInv(u, w) && w.pc.Generating? && r.Accepted? && AttemptFits(u, r)
    ensures var w' := AfterAttempt(w, r);
            && w'.pc == Ready(w.pc.slot, r.srcNsid) && CommandIn(w'.pool.slots[w.pc.slot]) == r.cmd
            && w'.qpair == w.qpair && w'.stop == w.stop && w'.inflight == w.inflight
  {
    AfterAttemptKeeps(u, w, r);
  }

  lemma EnterMoves(u: Setup, w: Worker)
    requires WorkerInv(u, w) && MaySubmit(w) && w.outstanding < w.depth
    ensures var w' := Enter(w);
            && w'.pc.Generating? && w'.qpair && !w'.stop && w'.inflight == w.inflight
            && w'.outstanding == w.outstanding
  {
    EnterKeeps(u, w);
  }

  lemma DispatchMoves(u: Setup, w: Worker)
    requires WorkerInv(u, w) && w.pc.Ready?
    ensures var w' := Submit(w, true, 0);
            && w'.pc.Boundary? && w'.qpair == w.qpair && w'.stop == w.stop
            && w'.outstanding == w.outstanding + 1
            && GotInFlight(w, w', CommandIn(w.pool.slots[w.pc.slot]))
  {
    SubmitKeeps(u, w, true, 0);
    assert w.pc.slot !in w.inflight;
  }

  /** Below its depth a worker gets one more operation outstanding, and the command drawn in flight. */
  lemma SubmissionAccepted(u: Setup, sh: Shared, w: Worker, d: Draws)
    requires Good(u, sh, w) && MaySubmit(w) && w.outstanding < w.depth && ValidDraws(u.config, d)
    requires Generate(u.config, u.lbaNsSize, sh.alloc, u.rangeSize, d).Accepted?
    ensures var (sh', w') := SubmitEvent(u, sh, w, Accepting(d));
            var r := Generate(u.config, u.lbaNsSize, sh.alloc, u.rangeSize, d);
            && sh'.alloc == r.alloc
            && w'.pc.Boundary? && MaySubmit(w') && w'.outstanding == w.outstanding + 1
            && GotInFlight(w, w', r.cmd)
  {
    EnterKeeps(u, w);
    EnterMoves(u, w);
    GenerateLoopKeeps(u, sh.alloc, Enter(w), Accepting(d));
    GeneratesAtOnce(u, sh.alloc, Enter(w), d);
    DispatchMoves(u, GenerateLoop(u, sh.alloc, Enter(w), Accepting(d)).1);
  }

  /** Only worker i changed, and the window is the same. */
  ghost predicate OnlyMoved(f: Fleet, f': Fleet, i: nat) {
    && i < |f.workers| == |f'.workers| && f'.workers == f.workers[i := f'.workers[i]]
    && f'.shared.alloc.start == f.shared.alloc.start && f'.shared.alloc.end == f.shared.alloc.end
  }

  /** The same as a run of all workers. */
  lemma SubmitDrawn(u: Setup, f: Fleet, depth: nat, i: nat, d: Draws) returns (acts: seq<Act>)
    requires FleetInv(u, f, depth) && i < |f.workers| && MaySubmit(f.workers[i]) && f.workers[i].outstanding < depth
    requires ValidDraws(u.config, d) && Generate(u.config, u.lbaNsSize, f.shared.alloc, u.rangeSize, d).Accepted?
    ensures Runs(u, f, acts)
    ensures var f' := Exec(u, f, acts);
            var r := Generate(u.config, u.lbaNsSize, f.shared.alloc, u.rangeSize, d);
            && FleetInv(u, f', depth) && OnlyMoved(f, f', i)
            && f'.workers[i].pc.Boundary? && MaySubmit(f'.workers[i])
            && f'.workers[i].outstanding == f.workers[i].outstanding + 1
            && f'.shared.alloc == r.alloc && GotInFlight(f.workers[i], f'.workers[i], r.cmd)
  {
    SubmissionAccepted(u, f.shared, f.workers[i], d);
    var ls := SubmitEventIsARun(u, f.shared, f.workers[i], Accepting(d));
    WorkerRunIsFleetRun(u, f, i, ls);
    acts := ActsOf(i, ls);
    RunKeepsInv(u, f, depth, acts);
  }

  lemma SubmitOne(u: Setup, f: Fleet, depth: nat, i: nat) returns (acts: seq<Act>)
    requires FleetInv(u, f, depth) && i < |f.workers| && MaySubmit(f.workers[i]) && f.workers[i].outstanding < depth
    requires AcceptsEverywhere(u, f.shared.alloc.start, f.shared.alloc.end)
    ensures Runs(u, f, acts)
    ensures var f' := Exec(u, f, acts);
            && FleetInv(u, f', depth) && OnlyMoved(f, f', i)
            && f'.workers[i].pc.Boundary? && MaySubmit(f'.workers[i])
            && f'.workers[i].outstanding == f.workers[i].outstanding + 1
  {
    var a := f.shared.alloc;
    assert a == Allocator(a.start, a.end, a.cursor) && SomeAcceptedAt(u, a);
    var d :| ValidDraws(u.config, d) && Generate(u.config, u.lbaNsSize, a, u.rangeSize, d).Accepted?;
    acts := SubmitDrawn(u, f, depth, i, d);
  }

  // ---------------------------------------------------------------- a completion

  /** A command in flight completes, up to the submission that follows. */
  lemma FinishOne(u: Setup, f: Fleet, depth: nat, i: nat, slot: nat) returns (acts: seq<Act>)
    requires FleetInv(u, f, depth) && i < |f.workers| && MaySubmit(f.workers[i]) && f.workers[i].pc.Boundary?
    requires slot in f.workers[i].inflight
    ensures Runs(u, f, acts)
    ensures var f' := Exec(u, f, acts);
            && FleetInv(u, f', depth) && OnlyMoved(f, f', i)
            && MaySubmit(f'.workers[i]) && f'.workers[i].outstanding == f.workers[i].outstanding - 1
  {
    FinishEventKeeps(u, f.shared, f.workers[i], slot, Status(0, 0));
    var ls := FinishEventIsARun(u, f.shared, f.workers[i], slot, Status(0, 0), []);
    WorkerRunIsFleetRun(u, f, i, ls);
    acts := ActsOf(i, ls);
    RunKeepsInv(u, f, depth, acts);
    FinishMoves(u, f.shared, f.workers[i], slot, Status(0, 0));
  }

  lemma FinishMoves(u: Setup, sh: Shared, w: Worker, slot: nat, status: Status)
    requires Good(u, sh, w) && EnabledIn(u, w, Complete(slot, status)) && slot < |w.pool.slots|
    ensures var w' := FinishEvent(u, sh, w, slot, status).1;
            w'.pc.Resubmitting? && w'.qpair == w.qpair && w'.stop == w.stop && w'.outstanding == w.outstanding - 1
  {
    FinishEventKeeps(u, sh, w, slot, status);
  }
}
