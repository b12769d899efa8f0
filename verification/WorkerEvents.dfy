/** Whole events of one worker, made of the steps of WorkerSteps: a submission, a completion with the
    submission that follows it, and a batch of submissions. */
module WorkerEvents {
  import opened Words
  import opened DestinationLba
  import opened Generator
  import opened WorkerSteps

  const BATCH: nat := 32

  /** What one submission meets: draws for every attempt, whether the namespace is found, the device's
      answer. */
  datatype Env = Env(draws: seq<Draws>, nsFound: bool, rc: int)

  ghost predicate ValidEnv(u: Setup, e: Env) {
    |e.draws| == MAX_RETRIES && forall k :: 0 <= k < MAX_RETRIES ==> ValidDraws(u.config, e.draws[k])
  }

  ghost predicate Good(u: Setup, sh: Shared, w: Worker) {
    ValidSetup(u) && sh.alloc.Valid() && WorkerInv(u, w)
  }

  /** What an event needs of a worker in the middle of an attempt: a slot of its pool. */
  ghost predicate Trying(w: Worker) {
    w.pc.Generating? && w.pc.slot < |w.pool.slots| && w.pc.retries < MAX_RETRIES
  }

  /** Attempts until one is accepted or the tenth is rejected. */
  function GenerateLoop(u: Setup, a: Allocator, w: Worker, e: Env): (r: (Allocator, Worker))
    requires ValidSetup(u) && a.start <= a.end && ValidEnv(u, e) && Trying(w)
    ensures r.0.start == a.start && r.0.end == a.end
    ensures r.1.pc.Boundary? || (r.1.pc.Ready? && r.1.pc.slot < |r.1.pool.slots|)
    decreases MAX_RETRIES - w.pc.retries
  {
    var (a', w') := TryGenerate(u, a, w, e.draws[w.pc.retries]);
    if w'.pc.Generating? then GenerateLoop(u, a', w', e) else (a', w')
  }

  lemma GenerateTurn(u: Setup, a: Allocator, w: Worker, e: Env)
    requires ValidSetup(u) && a.start <= a.end && ValidEnv(u, e) && Trying(w)
    ensures var (a', w') := TryGenerate(u, a, w, e.draws[w.pc.retries]);
            && a'.start == a.start && a'.end == a.end && (w'.pc.Generating? ==> Trying(w'))
            && GenerateLoop(u, a, w, e) == if w'.pc.Generating? then GenerateLoop(u, a', w', e) else (a', w')
  {
  }

  /** The loop keeps the worker's invariant and the window, and leaves the counts alone. */
  lemma {:induction false} GenerateLoopKeeps(u: Setup, a: Allocator, w: Worker, e: Env)
    requires ValidSetup(u) && a.Valid() && WorkerInv(u, w) && ValidEnv(u, e) && Trying(w)
    ensures var (a', w') := GenerateLoop(u, a, w, e);
            && a'.Valid() && a'.start == a.start && a'.end == a.end
            && WorkerInv(u, w') && w'.depth == w.depth && w'.outstanding == w.outstanding && w'.deferred == w.deferred
    decreases MAX_RETRIES - w.pc.retries
  {
    var d := e.draws[w.pc.retries];
    GenerateTurn(u, a, w, e);
    TryGenerateKeeps(u, a, w, d);
    var (a', w') := TryGenerate(u, a, w, d);
    if w'.pc.Generating? {
      GenerateLoopKeeps(u, a', w', e);
    }
  }

  /** submit_next_io_pooled. */
  function SubmitEvent(u: Setup, sh: Shared, w: Worker, e: Env): (r: (Shared, Worker))
    requires ValidSetup(u) && sh.alloc.start <= sh.alloc.end && ValidEnv(u, e)
    requires w.pc.Boundary? || w.pc.Resubmitting?
    ensures r.0.alloc.start == sh.alloc.start && r.0.alloc.end == sh.alloc.end && r.1.pc.Boundary?
  {
    var w1 := Enter(w);
    if w1.pc.Boundary? then (sh, w1) else GenerateAndSubmit(u, sh, w1, e)
  }

  function GenerateAndSubmit(u: Setup, sh: Shared, w: Worker, e: Env): (r: (Shared, Worker))
    requires ValidSetup(u) && sh.alloc.start <= sh.alloc.end && ValidEnv(u, e) && Trying(w)
    ensures r.0.alloc.start == sh.alloc.start && r.0.alloc.end == sh.alloc.end && r.1.pc.Boundary?
  {
    var (a, w') := GenerateLoop(u, sh.alloc, w, e);
    (sh.(alloc := a), SubmitIfReady(w', e))
  }

  function SubmitIfReady(w: Worker, e: Env): (w': Worker)
    requires w.pc.Boundary? || (w.pc.Ready? && w.pc.slot < |w.pool.slots|)
    ensures w'.pc.Boundary?
  {
    if w.pc.Ready? then Submit(w, e.nsFound, e.rc) else w
  }

  lemma SubmitIfReadyKeeps(u: Setup, w: Worker, e: Env)
    requires WorkerInv(u, w) && (w.pc.Ready? || w.pc.Boundary?)
    ensures var w' := SubmitIfReady(w, e);
            && WorkerInv(u, w') && w'.depth == w.depth
            && (w'.outstanding == w.outstanding || w'.outstanding == w.outstanding + 1)
  {
    if w.pc.Ready? {
      SubmitKeeps(u, w, e.nsFound, e.rc);
    }
  }

  /** A submission keeps the invariant and ends with at most one operation more outstanding. */
  lemma SubmitEventKeeps(u: Setup, sh: Shared, w: Worker, e: Env)
    requires Good(u, sh, w) && ValidEnv(u, e) && (w.pc.Boundary? || w.pc.Resubmitting?)
    ensures var (sh', w') := SubmitEvent(u, sh, w, e);
            && Good(u, sh', w') && w'.depth == w.depth
            && (w'.outstanding == w.outstanding || w'.outstanding == w.outstanding + 1)
  {
    EnterKeeps(u, w);
    var w1 := Enter(w);
    if !w1.pc.Boundary? {
      GenerateLoopKeeps(u, sh.alloc, w1, e);
      SubmitIfReadyKeeps(u, GenerateLoop(u, sh.alloc, w1, e).1, e);
    }
  }

  /** The submission passes the checks, and one of its attempts yields a command for a namespace that
      is found. */
  ghost predicate ReachesDevice(u: Setup, sh: Shared, w: Worker, e: Env)
    requires ValidSetup(u) && sh.alloc.start <= sh.alloc.end && ValidEnv(u, e)
    requires w.pc.Boundary? || w.pc.Resubmitting?
  {
    Enter(w).pc.Generating? && GenerateLoop(u, sh.alloc, Enter(w), e).1.pc.Ready? && e.nsFound
  }

  /** What a submission does to the counts. One that fails a check changes nothing. One that passes them
      works off one deferred operation. If then the device rejects its command, that is deferred in turn,
      so that the count is what it was, but at least 1 and at most 100; if the device accepts it, one more
      operation is outstanding. */
  lemma SubmissionDefers(u: Setup, sh: Shared, w: Worker, e: Env)
    requires Good(u, sh, w) && ValidEnv(u, e) && (w.pc.Boundary? || w.pc.Resubmitting?)
    ensures var w' := SubmitEvent(u, sh, w, e).1;
            var reached := ReachesDevice(u, sh, w, e);
            && w'.deferred ==
               (if w.stop || !w.qpair || w.outstanding >= w.depth then w.deferred
                else if reached && e.rc != 0 then Min(Max(w.deferred, 1), MAX_DEFERRED)
                else Max(w.deferred, 1) - 1)
            && w'.outstanding == w.outstanding + if reached && e.rc == 0 then 1 else 0
  {
    EnterKeeps(u, w);
    EnterDefers(w);
    var w1 := Enter(w);
    if w1.pc.Generating? {
      GenerateLoopKeeps(u, sh.alloc, w1, e);
      DispatchDefers(u, GenerateLoop(u, sh.alloc, w1, e).1, e);
    }
  }

  lemma EnterDefers(w: Worker)
    requires w.deferred < U32
    ensures Enter(w).deferred ==
            if w.stop || !w.qpair || w.outstanding >= w.depth then w.deferred else Max(w.deferred, 1) - 1
  {
  }

  lemma DispatchDefers(u: Setup, w: Worker, e: Env)
    requires WorkerInv(u, w) && (w.pc.Ready? || w.pc.Boundary?)
    ensures var w' := SubmitIfReady(w, e);
            var reached := w.pc.Ready? && e.nsFound;
            && w'.deferred == (if reached && e.rc != 0 then Min(w.deferred + 1, MAX_DEFERRED) else w.deferred)
            && w'.outstanding == w.outstanding + if reached && e.rc == 0 then 1 else 0
  {
  }

  /** The part of the completion callback before it submits again. */
  function FinishEvent(u: Setup, sh: Shared, w: Worker, slot: nat, status: Status): (r: (Shared, Worker))
    requires slot in w.inflight && slot < |w.pool.slots|
    ensures r.0.alloc.start == sh.alloc.start && r.0.alloc.end == sh.alloc.end && r.1.pc.Resubmitting?
  {
    var (sh', w') := AccountEvent(sh, Begin(w, slot, status));
    (sh', ReleaseOne(RetireOne(w')))
  }

  /** The statistics, and what a failure entails. */
  function AccountEvent(sh: Shared, w: Worker): (r: (Shared, Worker))
    requires w.pc.Completing? && w.pc.slot < |w.pool.slots|
    ensures r.0.alloc.start == sh.alloc.start && r.0.alloc.end == sh.alloc.end && r.1.pc == Retiring(w.pc.slot)
  {
    var (sh1, w1) := Tally(sh, w);
    if w1.pc.FailureCounted? then FailureEvent(sh1, w1) else AddBytes(sh1, w1)
  }

  /** The error counter, and the reactions to the failure. */
  function FailureEvent(sh: Shared, w: Worker): (r: (Shared, Worker))
    requires w.pc.FailureCounted?
    ensures r.0.alloc.start == sh.alloc.start && r.0.alloc.end == sh.alloc.end && r.1.pc == Retiring(w.pc.slot)
  {
    var (sh1, w1) := CountClassOf(sh, w);
    var (sh2, w2) := CountCodeOf(sh1, w1);
    HandleFailure(sh2, w2)
  }

  lemma FailureEventKeeps(u: Setup, sh: Shared, w: Worker)
    requires Good(u, sh, w) && w.pc.FailureCounted?
    ensures var (sh', w') := FailureEvent(sh, w);
            Good(u, sh', w') && w'.depth == w.depth && w'.outstanding == w.outstanding
  {
    CountErrorKeeps(u, sh, w);
    var (sh1, w1) := CountClassOf(sh, w);
    CountErrorKeeps(u, sh1, w1);
    var (sh2, w2) := CountCodeOf(sh1, w1);
    HandleFailureKeeps(u, sh2, w2);
  }

  lemma AccountEventKeeps(u: Setup, sh: Shared, w: Worker)
    requires Good(u, sh, w) && w.pc.Completing?
    ensures var (sh', w') := AccountEvent(sh, w);
            Good(u, sh', w') && w'.depth == w.depth && w'.outstanding == w.outstanding
  {
    TallyKeeps(u, sh, w);
    var (sh1, w1) := Tally(sh, w);
    if w1.pc.FailureCounted? {
      FailureEventKeeps(u, sh1, w1);
    } else {
      AddBytesKeeps(u, sh1, w1);
    }
  }

  /** The first part of a completion keeps the invariant and takes one operation off. */
  lemma FinishEventKeeps(u: Setup, sh: Shared, w: Worker, slot: nat, status: Status)
    requires Good(u, sh, w) && EnabledIn(u, w, Complete(slot, status))
    ensures slot < |w.pool.slots|
    ensures var (sh', w') := FinishEvent(u, sh, w, slot, status);
            Good(u, sh', w') && w'.depth == w.depth && w'.outstanding == w.outstanding - 1
  {
    BeginKeeps(u, w, slot, status);
    var w1 := Begin(w, slot, status);
    AccountEventKeeps(u, sh, w1);
    var w2 := AccountEvent(sh, w1).1;
    RetireKeeps(u, w2);
    ReleaseKeeps(u, RetireOne(w2));
  }

  /** xcopy_complete_cb_pooled. */
  function CompleteEvent(u: Setup, sh: Shared, w: Worker, slot: nat, status: Status, e: Env): (r: (Shared, Worker))
    requires ValidSetup(u) && sh.alloc.start <= sh.alloc.end && ValidEnv(u, e)
    requires slot in w.inflight && slot < |w.pool.slots|
    ensures r.0.alloc.start == sh.alloc.start && r.0.alloc.end == sh.alloc.end && r.1.pc.Boundary?
  {
    var (sh', w') := FinishEvent(u, sh, w, slot, status);
    SubmitEvent(u, sh', w', e)
  }

  /** A completion keeps the invariant and ends with as many operations outstanding as before, or one
      fewer. */
  lemma CompleteEventKeeps(u: Setup, sh: Shared, w: Worker, slot: nat, status: Status, e: Env)
    requires Good(u, sh, w) && ValidEnv(u, e) && EnabledIn(u, w, Complete(slot, status))
    ensures slot < |w.pool.slots|
    ensures var (sh', w') := CompleteEvent(u, sh, w, slot, status, e);
            && Good(u, sh', w') && w'.depth == w.depth
            && (w'.outstanding == w.outstanding || w'.outstanding == w.outstanding - 1)
  {
    FinishEventKeeps(u, sh, w, slot, status);
    var (sh', w') := FinishEvent(u, sh, w, slot, status);
    SubmitEventKeeps(u, sh', w', e);
  }

  ghost predicate ValidBatch(u: Setup, es: seq<Env>) {
    |es| <= BATCH && forall k :: 0 <= k < |es| ==> ValidEnv(u, es[k])
  }

  ghost predicate BatchRuns(u: Setup, s: (Shared, Worker)) {
    ValidSetup(u) && s.0.alloc.start <= s.0.alloc.end && s.1.pc.Boundary?
  }

  /** The submission that a batch repeats. */
  ghost function Submitter(u: Setup): ((Shared, Worker), Env) -> (Shared, Worker) {
    (s: (Shared, Worker), e: Env) => if BatchRuns(u, s) && ValidEnv(u, e) then SubmitEvent(u, s.0, s.1, e) else s
  }

  /** The batch loop: submissions until the depth is reached, one does not get through, or there were as
      many as the batch allows. The result is the state and the number of submissions that got through. */
  ghost function BatchEvent(submit: ((Shared, Worker), Env) -> (Shared, Worker), s: (Shared, Worker), es: seq<Env>)
    : (r: ((Shared, Worker), nat))
    ensures r.1 <= |es|
    decreases |es|
  {
    if s.1.outstanding >= s.1.depth || es == [] then (s, 0)
    else
      var s' := submit(s, es[0]);
      if s'.1.outstanding == s.1.outstanding then (s', 0)
      else
        var r := BatchEvent(submit, s', es[1..]);
        (r.0, r.1 + 1)
  }

  /** It keeps the invariant and adds exactly the submissions it reports to the outstanding operations. */
  lemma {:induction false} BatchEventKeeps(u: Setup, s: (Shared, Worker), es: seq<Env>)
    requires Good(u, s.0, s.1) && s.1.pc.Boundary? && ValidBatch(u, es)
    ensures var (s', submitted) := BatchEvent(Submitter(u), s, es);
            && Good(u, s'.0, s'.1) && s'.1.pc.Boundary? && s'.1.depth == s.1.depth
            && s'.1.outstanding == s.1.outstanding + submitted
    decreases |es|
  {
    if s.1.outstanding < s.1.depth && es != [] {
      SubmitEventKeeps(u, s.0, s.1, es[0]);
      var s' := Submitter(u)(s, es[0]);
      if s'.1.outstanding != s.1.outstanding {
        BatchEventKeeps(u, s', es[1..]);
      }
    }
  }

  // A batch step by step: the states it goes through while submissions get through, and its end. There is
  // exactly one such trace from a state.

  ghost predicate Stops(s: (Shared, Worker), es: seq<Env>, k: nat) {
    s.1.outstanding >= s.1.depth || k >= |es|
  }

  /** Submission k leads to the next state, or to the end. */
  ghost predicate BatchStep(submit: ((Shared, Worker), Env) -> (Shared, Worker), trace: seq<(Shared, Worker)>,
                            end: (Shared, Worker), es: seq<Env>, k: nat) {
    && k < |trace|
    && if Stops(trace[k], es, k) then k == |trace| - 1 && end == trace[k]
       else
         var s := submit(trace[k], es[k]);
         if s.1.outstanding == trace[k].1.outstanding then k == |trace| - 1 && end == s
         else k + 1 < |trace| && trace[k + 1] == s
  }

  ghost predicate IsBatch(submit: ((Shared, Worker), Env) -> (Shared, Worker), trace: seq<(Shared, Worker)>,
                          end: (Shared, Worker), es: seq<Env>) {
    0 < |trace| <= |es| + 1 && forall k :: 0 <= k < |trace| ==> BatchStep(submit, trace, end, es, k)
  }

  lemma {:induction false} BatchExists(submit: ((Shared, Worker), Env) -> (Shared, Worker), s: (Shared, Worker),
                                       es: seq<Env>)
    returns (trace: seq<(Shared, Worker)>, end: (Shared, Worker))
    ensures IsBatch(submit, trace, end, es) && trace[0] == s
    ensures BatchEvent(submit, s, es) == (end, |trace| - 1)
    decreases |es|
  {
    trace, end := [s], s;
    if !Stops(s, es, 0) {
      end := submit(s, es[0]);
      if end.1.outstanding != s.1.outstanding {
        var rest;
        rest, end := BatchExists(submit, end, es[1..]);
        trace := trace + rest;
        PrependBatch(submit, trace, end, es);
      }
    }
  }

  /** A trace leads to the result of BatchEvent. */
  lemma {:induction false} BatchTraceIsEvent(submit: ((Shared, Worker), Env) -> (Shared, Worker),
                                             trace: seq<(Shared, Worker)>, end: (Shared, Worker), es: seq<Env>)
    requires IsBatch(submit, trace, end, es)
    ensures BatchEvent(submit, trace[0], es) == (end, |trace| - 1)
    decreases |es|
  {
    assert BatchStep(submit, trace, end, es, 0);
    if |trace| > 1 {
      forall k | 0 <= k < |trace| - 1
        ensures BatchStep(submit, trace[1..], end, es[1..], k)
      {
        assert BatchStep(submit, trace, end, es, k + 1);
      }
      BatchTraceIsEvent(submit, trace[1..], end, es[1..]);
    }
  }

  /** Where the batch stops, that is its end. */
  lemma StopEnds(submit: ((Shared, Worker), Env) -> (Shared, Worker), trace: seq<(Shared, Worker)>,
                 end: (Shared, Worker), es: seq<Env>, k: nat)
    requires IsBatch(submit, trace, end, es) && k < |trace| && Stops(trace[k], es, k)
    ensures k == |trace| - 1 && end == trace[k]
  {
    assert BatchStep(submit, trace, end, es, k);
  }

  /** A batch keeps the invariant and adds its submissions to the outstanding operations. */
  lemma BatchTraceKeeps(u: Setup, trace: seq<(Shared, Worker)>, end: (Shared, Worker), es: seq<Env>)
    requires IsBatch(Submitter(u), trace, end, es) && ValidBatch(u, es)
    requires Good(u, trace[0].0, trace[0].1) && trace[0].1.pc.Boundary?
    ensures Good(u, end.0, end.1) && end.1.outstanding == trace[0].1.outstanding + |trace| - 1
  {
    BatchTraceIsEvent(Submitter(u), trace, end, es);
    BatchEventKeeps(u, trace[0], es);
  }

  lemma PrependBatch(submit: ((Shared, Worker), Env) -> (Shared, Worker), trace: seq<(Shared, Worker)>,
                     end: (Shared, Worker), es: seq<Env>)
    requires es != [] && |trace| > 1
    requires BatchStep(submit, trace, end, es, 0) && IsBatch(submit, trace[1..], end, es[1..])
    ensures IsBatch(submit, trace, end, es)
  {
    forall k | 0 <= k < |trace|
      ensures BatchStep(submit, trace, end, es, k)
    {
      if k > 0 {
        assert BatchStep(submit, trace[1..], end, es[1..], k - 1);
      }
    }
  }

  // ---------------------------------------------------------------- draining

  const DRAIN_CYCLES: nat := 10_000

  /** A completion that the device delivers. */
  datatype Arrival = Arrival(slot: nat, status: Status, latencyNs: nat)

  function SlotsOf(arrivals: seq<Arrival>): set<nat> {
    set a | a in arrivals :: a.slot
  }

  /** Of the commands in these slots, the device can deliver these in a row. */
  ghost predicate Deliverable(slots: set<nat>, arrivals: seq<Arrival>) {
    && (forall k :: 0 <= k < |arrivals| ==> arrivals[k].slot in slots && arrivals[k].status.sc < 0x100)
    && (forall j, k :: 0 <= j < k < |arrivals| ==> arrivals[j].slot != arrivals[k].slot)
  }

  lemma DeliverFirst(slots: set<nat>, arrivals: seq<Arrival>)
    requires Deliverable(slots, arrivals) && arrivals != []
    ensures Deliverable(slots - {arrivals[0].slot}, arrivals[1..])
    ensures SlotsOf(arrivals) == {arrivals[0].slot} + SlotsOf(arrivals[1..])
  {
    assert arrivals == [arrivals[0]] + arrivals[1..];
  }

  ghost predicate Draining(u: Setup, sh: Shared, w: Worker) {
    Good(u, sh, w) && w.pc.Boundary? && w.stop && w.qpair
  }

  /** After stop a completion takes one operation off and submits nothing. */
  function DrainOne(u: Setup, sh: Shared, w: Worker, slot: nat, status: Status, e: Env): (r: (Shared, Worker))
    requires Draining(u, sh, w) && ValidEnv(u, e) && slot in w.inflight && status.sc < 0x100
    ensures Draining(u, r.0, r.1) && r.1.depth == w.depth
    ensures r.1.outstanding == w.outstanding - 1 && r.1.inflight == w.inflight - {slot}
  {
    FinishEventKeeps(u, sh, w, slot, status);
    CompleteEvent(u, sh, w, slot, status, e)
  }

  /** The states a stopped worker goes through, completion by completion. */
  ghost predicate IsDrain(u: Setup, trace: seq<(Shared, Worker)>, arrivals: seq<Arrival>, e: Env)
    requires ValidEnv(u, e)
  {
    |trace| == |arrivals| + 1 && forall k :: 0 <= k < |arrivals| ==> DrainStep(u, trace, arrivals, k, e)
  }

  ghost predicate DrainStep(u: Setup, trace: seq<(Shared, Worker)>, arrivals: seq<Arrival>, k: nat, e: Env)
    requires ValidEnv(u, e)
  {
    && k < |arrivals| && k + 1 < |trace|
    && var ((sh, w), a) := (trace[k], arrivals[k]);
       && Draining(u, sh, w) && a.slot in w.inflight && a.status.sc < 0x100
       && trace[k + 1] == DrainOne(u, sh, w, a.slot, a.status, e)
  }

  /** Completions that can be delivered in a row can all be drained. */
  lemma {:induction false} DrainExists(u: Setup, sh: Shared, w: Worker, arrivals: seq<Arrival>, e: Env)
    returns (trace: seq<(Shared, Worker)>)
    requires Draining(u, sh, w) && ValidEnv(u, e) && Deliverable(w.inflight.Keys, arrivals)
    ensures IsDrain(u, trace, arrivals, e) && trace[0] == (sh, w)
    decreases |arrivals|
  {
    if arrivals == [] {
      trace := [(sh, w)];
    } else {
      DeliverFirst(w.inflight.Keys, arrivals);
      var (sh', w') := DrainOne(u, sh, w, arrivals[0].slot, arrivals[0].status, e);
      var rest := DrainExists(u, sh', w', arrivals[1..], e);
      trace := [(sh, w)] + rest;
      PrependDrain(u, trace, arrivals, e);
    }
  }

  lemma StepIsEnabled(u: Setup, trace: seq<(Shared, Worker)>, arrivals: seq<Arrival>, k: nat, e: Env)
    requires ValidEnv(u, e) && DrainStep(u, trace, arrivals, k, e)
    ensures ValidSetup(u) && trace[k].0.alloc.Valid()
    ensures arrivals[k].slot in trace[k].1.inflight && arrivals[k].slot < |trace[k].1.pool.slots|
    ensures arrivals[k].status.sc < 0x100
    ensures trace[k + 1] == CompleteEvent(u, trace[k].0, trace[k].1, arrivals[k].slot, arrivals[k].status, e)
  {
    FinishEventKeeps(u, trace[k].0, trace[k].1, arrivals[k].slot, arrivals[k].status);
  }

  /** The states of a drain that starts in a good state are good. */
  lemma DrainStays(u: Setup, trace: seq<(Shared, Worker)>, arrivals: seq<Arrival>, k: nat, e: Env)
    requires ValidEnv(u, e) && IsDrain(u, trace, arrivals, e) && k <= |arrivals|
    requires Draining(u, trace[0].0, trace[0].1)
    ensures Draining(u, trace[k].0, trace[k].1)
  {
    if k > 0 {
      assert DrainStep(u, trace, arrivals, k - 1, e);
    }
  }

  /** A command in flight is outstanding. */
  lemma StepTakesOne(u: Setup, trace: seq<(Shared, Worker)>, arrivals: seq<Arrival>, k: nat, e: Env)
    requires ValidEnv(u, e) && DrainStep(u, trace, arrivals, k, e)
    ensures trace[k].1.outstanding == trace[k + 1].1.outstanding + 1
  {
  }

  /** So after k of them k operations less are outstanding. */
  lemma DrainCounts(u: Setup, trace: seq<(Shared, Worker)>, arrivals: seq<Arrival>, k: nat, e: Env)
    requires ValidEnv(u, e) && IsDrain(u, trace, arrivals, e) && k <= |arrivals|
    ensures trace[k].1.outstanding == trace[0].1.outstanding - k
  {
    forall j | 0 <= j < k
      ensures OneLess(trace, j)
    {
      StepTakesOne(u, trace, arrivals, j, e);
    }
    CountDown(trace, k);
  }

  ghost predicate OneLess(trace: seq<(Shared, Worker)>, j: nat) {
    j + 1 < |trace| && trace[j].1.outstanding == trace[j + 1].1.outstanding + 1
  }

  lemma {:induction false} CountDown(trace: seq<(Shared, Worker)>, k: nat)
    requires k < |trace| && forall j :: 0 <= j < k ==> OneLess(trace, j)
    ensures trace[k].1.outstanding == trace[0].1.outstanding - k
  {
    if k > 0 {
      CountDown(trace, k - 1);
      assert OneLess(trace, k - 1);
    }
  }

  /** How many of n completions were delivered after some polls, of which poll c can deliver counts[c]. */
  function Delivered(n: nat, counts: seq<nat>, polls: nat): nat
    requires polls <= |counts|
  {
    Min(n, Sum(counts[..polls]))
  }

  lemma DeliveredNext(n: nat, counts: seq<nat>, polls: nat)
    requires polls < |counts|
    ensures Delivered(n, counts, polls + 1) == Min(n, Delivered(n, counts, polls) + counts[polls])
  {
    SumGrows(counts, polls);
  }

  lemma DeliveredAll(n: nat, counts: seq<nat>)
    ensures Delivered(n, counts, |counts|) == Min(n, Sum(counts))
  {
    assert counts[..|counts|] == counts;
  }

  lemma PrependDrain(u: Setup, trace: seq<(Shared, Worker)>, arrivals: seq<Arrival>, e: Env)
    requires ValidEnv(u, e) && arrivals != [] && trace != []
    requires DrainStep(u, trace, arrivals, 0, e) && IsDrain(u, trace[1..], arrivals[1..], e)
    ensures IsDrain(u, trace, arrivals, e)
  {
    forall k | 0 <= k < |arrivals|
      ensures DrainStep(u, trace, arrivals, k, e)
    {
      if k > 0 {
        assert DrainStep(u, trace[1..], arrivals[1..], k - 1, e);
      }
    }
  }

  // ---------------------------------------------------------------- events are runs of steps

  ghost predicate StepsRun(u: Setup, sh: Shared, w: Worker, ls: seq<Label>)
    requires ValidSetup(u)
    decreases |ls|
  {
    && sh.alloc.Valid()
    && (ls == [] || (EnabledIn(u, w, ls[0]) &&
                     var (sh', w') := Step(u, sh, w, ls[0]); StepsRun(u, sh', w', ls[1..])))
  }

  function StepAll(u: Setup, sh: Shared, w: Worker, ls: seq<Label>): (Shared, Worker)
    requires ValidSetup(u) && StepsRun(u, sh, w, ls)
    decreases |ls|
  {
    if ls == [] then (sh, w)
    else
      var (sh', w') := Step(u, sh, w, ls[0]);
      StepAll(u, sh', w', ls[1..])
  }

  lemma Prepend(u: Setup, sh: Shared, w: Worker, l: Label, ls: seq<Label>)
    requires Good(u, sh, w) && EnabledIn(u, w, l)
    requires var (sh', w') := Step(u, sh, w, l); StepsRun(u, sh', w', ls)
    ensures StepsRun(u, sh, w, [l] + ls)
    ensures var (sh', w') := Step(u, sh, w, l); StepAll(u, sh, w, [l] + ls) == StepAll(u, sh', w', ls)
  {
    assert ([l] + ls)[1..] == ls;
  }

  lemma {:induction false} GenerateLoopIsARun(u: Setup, sh: Shared, w: Worker, e: Env) returns (ls: seq<Label>)
    requires Good(u, sh, w) && ValidEnv(u, e) && Trying(w)
    ensures StepsRun(u, sh, w, ls)
    ensures var (a, w2) := GenerateLoop(u, sh.alloc, w, e);
            StepAll(u, sh, w, ls) == (sh.(alloc := a), SubmitIfReady(w2, e))
    decreases MAX_RETRIES - w.pc.retries
  {
    var l := Attempted(e.draws[w.pc.retries]);
    StepKeepsWorkerInv(u, sh, w, l);
    TryGenerateKeeps(u, sh.alloc, w, l.d);
    var (sh', w') := Step(u, sh, w, l);
    if w'.pc.Generating? {
      ls := GenerateLoopIsARun(u, sh', w', e);
    } else if w'.pc.Ready? {
      Prepend(u, sh', w', Submitted(e.nsFound, e.rc), []);
      ls := [Submitted(e.nsFound, e.rc)];
      assert [Submitted(e.nsFound, e.rc)] + [] == ls;
    } else {
      ls := [];
    }
    Prepend(u, sh, w, l, ls);
    ls := [l] + ls;
  }

  /** Left alone by the other threads, a submission is a run of the worker's steps. */
  lemma SubmitEventIsARun(u: Setup, sh: Shared, w: Worker, e: Env) returns (ls: seq<Label>)
    requires Good(u, sh, w) && ValidEnv(u, e) && (w.pc.Boundary? || w.pc.Resubmitting?)
    ensures StepsRun(u, sh, w, ls) && StepAll(u, sh, w, ls) == SubmitEvent(u, sh, w, e)
  {
    EnterKeeps(u, w);
    var w1 := Enter(w);
    ls := [];
    if w1.pc.Generating? {
      ls := GenerateLoopIsARun(u, sh, w1, e);
    }
    Prepend(u, sh, w, Check, ls);
    ls := [Check] + ls;
  }

  lemma FinishIsARun(u: Setup, sh: Shared, w: Worker, rest: seq<Label>) returns (ls: seq<Label>)
    requires Good(u, sh, w) && w.pc.Retiring?
    requires StepsRun(u, sh, ReleaseOne(RetireOne(w)), rest)
    ensures StepsRun(u, sh, w, ls) && StepAll(u, sh, w, ls) == StepAll(u, sh, ReleaseOne(RetireOne(w)), rest)
  {
    RetireKeeps(u, w);
    Prepend(u, sh, RetireOne(w), Release, rest);
    Prepend(u, sh, w, Retire, [Release] + rest);
    ls := [Retire] + ([Release] + rest);
  }

  lemma AccountIsARun(u: Setup, sh: Shared, w: Worker, rest: seq<Label>) returns (ls: seq<Label>)
    requires Good(u, sh, w) && w.pc.Completing?
    requires var (sh', w') := AccountEvent(sh, w); StepsRun(u, sh', w', rest)
    ensures StepsRun(u, sh, w, ls)
    ensures var (sh', w') := AccountEvent(sh, w); StepAll(u, sh, w, ls) == StepAll(u, sh', w', rest)
  {
    TallyKeeps(u, sh, w);
    var (sh1, w1) := Tally(sh, w);
    if w1.pc.FailureCounted? {
      ls := FailureIsARun(u, sh1, w1, rest);
    } else {
      Prepend(u, sh1, w1, AddBytesStep, rest);
      ls := [AddBytesStep] + rest;
    }
    Prepend(u, sh, w, TallyStep, ls);
    ls := [TallyStep] + ls;
  }

  lemma FailureIsARun(u: Setup, sh: Shared, w: Worker, rest: seq<Label>) returns (ls: seq<Label>)
    requires Good(u, sh, w) && w.pc.FailureCounted?
    requires var (sh', w') := FailureEvent(sh, w); StepsRun(u, sh', w', rest)
    ensures StepsRun(u, sh, w, ls)
    ensures var (sh', w') := FailureEvent(sh, w); StepAll(u, sh, w, ls) == StepAll(u, sh', w', rest)
  {
    CountErrorKeeps(u, sh, w);
    var (sh1, w1) := CountClassOf(sh, w);
    CountErrorKeeps(u, sh1, w1);
    var (sh2, w2) := CountCodeOf(sh1, w1);
    Prepend(u, sh2, w2, HandleFailureStep, rest);
    Prepend(u, sh1, w1, CountCodeStep, [HandleFailureStep] + rest);
    Prepend(u, sh, w, CountClassStep, [CountCodeStep] + ([HandleFailureStep] + rest));
    ls := [CountClassStep] + ([CountCodeStep] + ([HandleFailureStep] + rest));
  }

  /** And so is a completion, before whatever follows it. */
  lemma FinishEventIsARun(u: Setup, sh: Shared, w: Worker, slot: nat, status: Status, rest: seq<Label>)
    returns (ls: seq<Label>)
    requires Good(u, sh, w) && EnabledIn(u, w, Complete(slot, status)) && slot < |w.pool.slots|
    requires var (sh', w') := FinishEvent(u, sh, w, slot, status); StepsRun(u, sh', w', rest)
    ensures StepsRun(u, sh, w, ls)
    ensures var (sh', w') := FinishEvent(u, sh, w, slot, status); StepAll(u, sh, w, ls) == StepAll(u, sh', w', rest)
  {
    BeginKeeps(u, w, slot, status);
    var w1 := Begin(w, slot, status);
    AccountEventKeeps(u, sh, w1);
    var (sh2, w2) := AccountEvent(sh, w1);
    ls := FinishIsARun(u, sh2, w2, rest);
    ls := AccountIsARun(u, sh, w1, ls);
    Prepend(u, sh, w, Complete(slot, status), ls);
    ls := [Complete(slot, status)] + ls;
  }

  lemma CompleteEventIsARun(u: Setup, sh: Shared, w: Worker, slot: nat, status: Status, e: Env) returns (ls: seq<Label>)
    requires Good(u, sh, w) && ValidEnv(u, e) && EnabledIn(u, w, Complete(slot, status)) && slot < |w.pool.slots|
    ensures StepsRun(u, sh, w, ls) && StepAll(u, sh, w, ls) == CompleteEvent(u, sh, w, slot, status, e)
  {
    FinishEventKeeps(u, sh, w, slot, status);
    var (sh', w') := FinishEvent(u, sh, w, slot, status);
    ls := SubmitEventIsARun(u, sh', w', e);
    ls := FinishEventIsARun(u, sh, w, slot, status, ls);
  }
}
