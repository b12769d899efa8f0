/** Commands whose completion never arrives: lost by the device, or with the queue pair. Nothing gives their
    slots back (src/poll_thread_manager.cpp:326-332, 353-363). */
module FleetLosses {
  import opened OpPool
  import opened Generator
  import opened WorkerSteps
  import opened Fleets
  import opened FleetEvents
  import opened FleetResults

  function SlotInHand(w: Worker): set<nat> {
    if HasSlot(w.pc) then {w.pc.slot} else {}
  }

  /** Slots in use that no event holds and no completion will give back. */
  function LostSlots(w: Worker): set<nat> {
    InUse(w.pool.slots) - w.inflight.Keys - SlotInHand(w)
  }

  /** What a step loses. */
  function LostBy(w: Worker, l: Label): set<nat> {
    if l.Lose? then {l.slot}
    else if l.Leave? || (l.PollFailed? && w.pollErrors + 1 >= MAX_POLL_ERRORS) then w.inflight.Keys
    else {}
  }

  /** The slot in hand is counted in outstanding_io. */
  function CountedInHand(pc: Pc): nat {
    if HasSlot(pc) && Uncounted(pc) == 0 then 1 else 0
  }

  lemma DisjointUnion(a: set<nat>, b: set<nat>)
    requires a !! b
    ensures |a + b| == |a| + |b|
  {
  }

  /** The counter is made up of the operations in flight, the lost ones, and the one in hand. */
  lemma OutstandingIsInFlightAndLost(u: Setup, w: Worker)
    requires WorkerInv(u, w)
    ensures w.outstanding == |w.inflight| + |LostSlots(w)| + CountedInHand(w.pc)
  {
    ThreeParts(InUse(w.pool.slots), w.inflight.Keys, SlotInHand(w));
    assert |w.inflight.Keys| == |w.inflight|;
  }

  lemma ThreeParts(all: set<nat>, a: set<nat>, b: set<nat>)
    requires a <= all && b <= all && a !! b
    ensures |all| == |a| + |all - a - b| + |b|
  {
    assert all == (a + (all - a - b)) + b;
    DisjointUnion(a + (all - a - b), b);
    DisjointUnion(a, all - a - b);
  }

  lemma EnterLosesNothing(u: Setup, w: Worker)
    requires WorkerInv(u, w) && (w.pc.Boundary? || w.pc.Resubmitting?)
    ensures LostSlots(Enter(w)) == LostSlots(w)
  {
    if !w.stop && w.qpair && w.outstanding < w.depth {
      EnterFindsSlot(u, w);
      var tried := ScanOutcome(w.pool, |w.pool.slots|);
      var i := AcquireSlot(w.pool).1.value;
      TakeSlot(w.pool.slots, i, Taken(w.pool.slots[i]));
      assert i !in InUse(w.pool.slots);
    }
  }

  lemma AttemptLosesNothing(w: Worker, r: Attempt)
    requires w.pc.Generating? && w.pc.slot in InUse(w.pool.slots) && w.pc.slot !in w.inflight
    ensures LostSlots(AfterAttempt(w, r)) == LostSlots(w)
  {
    var w', slot := AfterAttempt(w, r), w.pc.slot;
    if w'.pc.Boundary? {
      GiveSlot(w.pool.slots, slot, w'.pool.slots[slot]);
    } else {
      ChangeSlot(w.pool.slots, slot, w'.pool.slots[slot]);
    }
    assert w'.pool.slots == w.pool.slots[slot := w'.pool.slots[slot]];
  }

  lemma SubmitLosesNothing(u: Setup, w: Worker, nsFound: bool, rc: int)
    requires WorkerInv(u, w) && w.pc.Ready?
    ensures LostSlots(Submit(w, nsFound, rc)) == LostSlots(w)
  {
    var s := w.pool.slots[w.pc.slot];
    GiveSlot(w.pool.slots, w.pc.slot, s.(inUse := false));
  }

  lemma ReleaseLosesNothing(u: Setup, w: Worker)
    requires WorkerInv(u, w) && w.pc.Releasing?
    ensures LostSlots(ReleaseOne(w)) == LostSlots(w)
  {
    var s := w.pool.slots[w.pc.slot];
    GiveSlot(w.pool.slots, w.pc.slot, s.(inUse := false));
  }

  lemma OthersLose(u: Setup, sh: Shared, w: Worker, l: Label)
    requires ValidSetup(u) && sh.alloc.Valid() && EnabledIn(u, w, l) && WorkerInv(u, w)
    requires !l.Check? && !l.Attempted? && !l.Submitted? && !l.Release?
    ensures LostSlots(Step(u, sh, w, l).1) == LostSlots(w) + LostBy(w, l)
  {
  }

  /** A step loses exactly what the device or the queue pair loses in it, and nothing is ever found again:
      no completion, no submission and no new queue pair takes a slot out of the lost ones. */
  lemma StepLoses(u: Setup, sh: Shared, w: Worker, l: Label)
    requires ValidSetup(u) && sh.alloc.Valid() && EnabledIn(u, w, l) && WorkerInv(u, w)
    ensures LostSlots(Step(u, sh, w, l).1) == LostSlots(w) + LostBy(w, l)
  {
    match l
    case Check => EnterLosesNothing(u, w);
    case Attempted(d) => AttemptLosesNothing(w, Generate(u.config, u.lbaNsSize, sh.alloc, u.rangeSize, d));
    case Submitted(nsFound, rc) => SubmitLosesNothing(u, w, nsFound, rc);
    case Release => ReleaseLosesNothing(u, w);
    case _ => OthersLose(u, sh, w, l);
  }

  /** All that worker i loses in a run. */
  ghost function LostIn(u: Setup, f: Fleet, acts: seq<Act>, i: nat): set<nat>
    requires ValidSetup(u) && Runs(u, f, acts) && i < |f.workers|
    decreases |acts|
  {
    if acts == [] then {}
    else
      (if acts[0].i == i then LostBy(f.workers[i], acts[0].l) else {}) + LostIn(u, Apply(u, f, acts[0]), acts[1..], i)
  }

  lemma {:induction false} RunLoses(u: Setup, f: Fleet, depth: nat, acts: seq<Act>, i: nat)
    requires FleetInv(u, f, depth) && Runs(u, f, acts) && i < |f.workers|
    ensures |Exec(u, f, acts).workers| == |f.workers|
    ensures LostSlots(Exec(u, f, acts).workers[i]) == LostSlots(f.workers[i]) + LostIn(u, f, acts, i)
    decreases |acts|
  {
    if acts != [] {
      var act := acts[0];
      StepKeepsInv(u, f, depth, act);
      StepLoses(u, f.shared, f.workers[act.i], act.l);
      RunLoses(u, Apply(u, f, act), depth, acts[1..], i);
    }
  }

  /** In every run, between events, outstanding_io counts the commands in flight and the slots lost since
      the start, so losses take away from the depth for good, new queue pairs or not. */
  lemma LossesStayOutstanding(u: Setup, f: Fleet, depth: nat, acts: seq<Act>, i: nat)
    requires Init(u, f, depth) && Runs(u, f, acts) && i < |f.workers|
    ensures |Exec(u, f, acts).workers| == |f.workers|
    ensures var w := Exec(u, f, acts).workers[i];
            && LostSlots(w) == LostIn(u, f, acts, i)
            && |LostIn(u, f, acts, i)| <= depth
            && (w.pc.Boundary? ==> w.outstanding == |w.inflight| + |LostIn(u, f, acts, i)|)
  {
    InitEstablishesInv(u, f, depth);
    RunLoses(u, f, depth, acts, i);
    ReachableInv(u, f, depth, acts);
    FreshLostNothing(u, f.workers[i], depth);
    LossesBounded(u, Exec(u, f, acts).workers[i], depth, LostIn(u, f, acts, i));
  }

  lemma FreshLostNothing(u: Setup, w: Worker, depth: nat)
    requires Fresh(u, w, depth)
    ensures LostSlots(w) == {}
  {
  }

  lemma LossesBounded(u: Setup, w: Worker, depth: nat, lost: set<nat>)
    requires WorkerInv(u, w) && w.depth == depth && LostSlots(w) == {} + lost
    ensures LostSlots(w) == lost && |lost| <= depth
    ensures w.pc.Boundary? ==> w.outstanding == |w.inflight| + |lost|
  {
    assert LostSlots(w) == lost;
    OutstandingIsInFlightAndLost(u, w);
  }

  // ---------------------------------------------------------------- a worker that lost its whole depth

  ghost predicate Stuck(w: Worker) {
    w.pc.Boundary? && w.outstanding == w.depth && w.inflight == map[]
  }

  /** A worker is stuck when, and only when, it has lost as many operations as its depth. */
  lemma StuckExactly(u: Setup, w: Worker)
    requires WorkerInv(u, w)
    ensures Stuck(w) <==> |LostSlots(w)| == w.depth
  {
    OutstandingIsInFlightAndLost(u, w);
  }

  lemma StepStaysStuck(u: Setup, sh: Shared, w: Worker, l: Label)
    requires ValidSetup(u) && sh.alloc.Valid() && EnabledIn(u, w, l) && Stuck(w)
    ensures Stuck(Step(u, sh, w, l).1)
    ensures !l.Submitted? && !l.Complete? && !l.Attempted?
  {
  }

  /** It stays so in every continuation: it generates, submits and completes nothing any more. */
  lemma {:induction false} StuckForEver(u: Setup, f: Fleet, depth: nat, acts: seq<Act>, i: nat)
    requires FleetInv(u, f, depth) && Runs(u, f, acts) && i < |f.workers| && Stuck(f.workers[i])
    ensures |Exec(u, f, acts).workers| == |f.workers| && Stuck(Exec(u, f, acts).workers[i])
    ensures forall k :: 0 <= k < |acts| && acts[k].i == i ==>
              !acts[k].l.Submitted? && !acts[k].l.Complete? && !acts[k].l.Attempted?
    decreases |acts|
  {
    if acts != [] {
      StepKeepsInv(u, f, depth, acts[0]);
      if acts[0].i == i {
        StepStaysStuck(u, f.shared, f.workers[i], acts[0].l);
      }
      StuckForEver(u, Apply(u, f, acts[0]), depth, acts[1..], i);
    }
  }

  // ---------------------------------------------------------------- and any other worker

  lemma {:induction false} AcceptedInBoth(a: seq<Act>, b: seq<Act>, i: nat)
    ensures AcceptedIn(a + b, i) == AcceptedIn(a, i) + AcceptedIn(b, i)
    decreases |a|
  {
    if a == [] {
      assert a + b == b;
    } else {
      assert (a + b)[1..] == a[1..] + b;
      AcceptedInBoth(a[1..], b, i);
    }
  }

  lemma {:induction false} NothingAccepted(acts: seq<Act>, i: nat)
    requires forall k :: 0 <= k < |acts| && acts[k].i == i ==> !acts[k].l.Submitted?
    ensures AcceptedIn(acts, i) == 0
    decreases |acts|
  {
    if acts != [] {
      NothingAccepted(acts[1..], i);
    }
  }

  /** A worker gives up when all its attempts to replace its queue pair failed. */
  ghost predicate GivenUp(w: Worker) {
    w.pc.Boundary? && !w.qpair && w.reconnects >= MAX_RECONNECTS
  }

  lemma StepStaysGivenUp(u: Setup, sh: Shared, w: Worker, l: Label)
    requires ValidSetup(u) && sh.alloc.Valid() && EnabledIn(u, w, l) && GivenUp(w)
    ensures GivenUp(Step(u, sh, w, l).1) && !l.Submitted?
  {
  }

  lemma {:induction false} GivenUpForEver(u: Setup, f: Fleet, depth: nat, acts: seq<Act>, i: nat)
    requires FleetInv(u, f, depth) && Runs(u, f, acts) && i < |f.workers| && GivenUp(f.workers[i])
    ensures NeverSubmits(acts, i)
    decreases |acts|
  {
    if acts != [] {
      StepKeepsInv(u, f, depth, acts[0]);
      if acts[0].i == i {
        StepStaysGivenUp(u, f.shared, f.workers[i], acts[0].l);
      }
      GivenUpForEver(u, Apply(u, f, acts[0]), depth, acts[1..], i);
      NeverSubmitsEither(acts, i);
    }
  }

  ghost predicate NeverSubmits(acts: seq<Act>, i: nat) {
    forall k :: 0 <= k < |acts| && acts[k].i == i ==> !acts[k].l.Submitted?
  }

  lemma NeverSubmitsEither(acts: seq<Act>, i: nat)
    requires acts != [] && NeverSubmits(acts[1..], i) && (acts[0].i == i ==> !acts[0].l.Submitted?)
    ensures NeverSubmits(acts, i)
  {
    forall k | 0 < k < |acts|
      ensures acts[k] == acts[1..][k - 1]
    {
    }
  }

  /** Brings a worker that is between events, not stopped, not stuck and has not given up below its
      depth: a new queue pair if it has none, and a completion if its depth is reached. */
  lemma MakeRoom(u: Setup, f: Fleet, depth: nat, i: nat) returns (acts: seq<Act>)
    requires FleetInv(u, f, depth) && i < |f.workers| && CanGoOn(f.workers[i])
    ensures Runs(u, f, acts)
    ensures var f' := Exec(u, f, acts);
            && FleetInv(u, f', depth) && |f'.workers| == |f.workers|
            && f'.shared.alloc.start == f.shared.alloc.start && f'.shared.alloc.end == f.shared.alloc.end
            && MaySubmit(f'.workers[i]) && f'.workers[i].outstanding < depth
  {
    var f0 := f;
    acts := [];
    if !f.workers[i].qpair {
      acts := [Act(i, Reconnect(true))];
      StepKeepsInv(u, f, depth, acts[0]);
      f0 := Apply(u, f, acts[0]);
      assert acts[1..] == [];
    }
    if f0.workers[i].outstanding == depth {
      assert f0.workers[i].inflight != map[];
      var slot :| slot in f0.workers[i].inflight;
      var more := FinishOne(u, f0, depth, i, slot);
      RunThenRun(u, f, acts, more);
      acts := acts + more;
    }
  }

  ghost predicate CanGoOn(w: Worker) {
    w.pc.Boundary? && !w.stop && !Stuck(w) && !GivenUp(w)
  }

  /** Where commands can be generated, a worker between events that is not stopped can still get a command
      accepted in some continuation exactly when it has lost fewer operations than its depth, and it has a
      queue pair or an attempt left to get one. */
  lemma CanSubmitExactly(u: Setup, f: Fleet, depth: nat, before: seq<Act>, i: nat)
    requires Init(u, f, depth) && Runs(u, f, before) && i < |f.workers|
    requires AcceptsEverywhere(u, f.shared.alloc.start, f.shared.alloc.end)
    ensures |Exec(u, f, before).workers| == |f.workers|
    ensures var w := Exec(u, f, before).workers[i];
            w.pc.Boundary? && !w.stop ==>
              ((exists acts :: Runs(u, Exec(u, f, before), acts) && AcceptedIn(acts, i) > 0) <==>
               |LostIn(u, f, before, i)| < depth && (w.qpair || w.reconnects < MAX_RECONNECTS))
  {
    ReachableInv(u, f, depth, before);
    LossesStayOutstanding(u, f, depth, before, i);
    var f' := Exec(u, f, before);
    StuckExactly(u, f'.workers[i]);
    if CanGoOn(f'.workers[i]) {
      var acts := GetAccepted(u, f', depth, i);
    } else if Stuck(f'.workers[i]) || GivenUp(f'.workers[i]) {
      forall acts | Runs(u, f', acts)
        ensures AcceptedIn(acts, i) == 0
      {
        NeverAgain(u, f', depth, acts, i);
      }
    }
  }

  lemma NeverAgain(u: Setup, f: Fleet, depth: nat, acts: seq<Act>, i: nat)
    requires FleetInv(u, f, depth) && Runs(u, f, acts) && i < |f.workers|
    requires Stuck(f.workers[i]) || GivenUp(f.workers[i])
    ensures AcceptedIn(acts, i) == 0
  {
    if Stuck(f.workers[i]) {
      StuckForEver(u, f, depth, acts, i);
    } else {
      GivenUpForEver(u, f, depth, acts, i);
    }
    NothingAccepted(acts, i);
  }

  lemma GetAccepted(u: Setup, f: Fleet, depth: nat, i: nat) returns (acts: seq<Act>)
    requires FleetInv(u, f, depth) && i < |f.workers| && CanGoOn(f.workers[i])
    requires AcceptsEverywhere(u, f.shared.alloc.start, f.shared.alloc.end)
    ensures Runs(u, f, acts) && AcceptedIn(acts, i) > 0
  {
    var room := MakeRoom(u, f, depth, i);
    var f1 := Exec(u, f, room);
    var submit := SubmitOne(u, f1, depth, i);
    StopDrainsFrom(u, f1, depth, submit, i);
    RunThenRun(u, f, room, submit);
    AcceptedInBoth(room, submit, i);
    acts := room + submit;
  }
}
