/** The latency ring under any number of recording threads: drawing an index, storing the sample and
    counting it are three steps (include/statistics.h:36-40). */
module LatencyThreads {
  import opened Words
  import opened LatencyRing

  datatype Pc = Idle | Drawn(value: nat, idx: nat) | Stored(value: nat)

  /** `tickets` lists the values in the order in which their indices were drawn. */
  datatype State = State(samples: seq<nat>, writeIndex: nat, count: nat, pcs: seq<Pc>, tickets: seq<nat>)

  datatype Label = Draw(tid: nat, value: nat) | Store(tid: nat) | Tally(tid: nat)

  predicate Enabled(s: State, l: Label) {
    && |s.samples| == BUFFER_SIZE && l.tid < |s.pcs|
    && match l
       case Draw(tid, _) => s.pcs[tid].Idle?
       case Store(tid) => s.pcs[tid].Drawn? && s.pcs[tid].idx < BUFFER_SIZE
       case Tally(tid) => s.pcs[tid].Stored?
  }

  function Apply(s: State, l: Label): State
    requires Enabled(s, l)
  {
    match l
    case Draw(tid, value) =>
      s.(writeIndex := Add64(s.writeIndex, 1), pcs := s.pcs[tid := Drawn(value, SlotOf(s.writeIndex))],
         tickets := s.tickets + [value])
    case Store(tid) =>
      s.(samples := s.samples[s.pcs[tid].idx := s.pcs[tid].value], pcs := s.pcs[tid := Stored(s.pcs[tid].value)])
    case Tally(tid) =>
      s.(count := Add64(s.count, 1), pcs := s.pcs[tid := Idle])
  }

  predicate Runs(s: State, ls: seq<Label>)
    decreases |ls|
  {
    ls == [] || (Enabled(s, ls[0]) && Runs(Apply(s, ls[0]), ls[1..]))
  }

  function Exec(s: State, ls: seq<Label>): State
    requires Runs(s, ls)
    decreases |ls|
  {
    if ls == [] then s else Exec(Apply(s, ls[0]), ls[1..])
  }

  ghost predicate Init(s: State) {
    && |s.samples| == BUFFER_SIZE && s.writeIndex == s.count == 0 && s.tickets == []
    && (forall i :: 0 <= i < BUFFER_SIZE ==> s.samples[i] == 0)
    && (forall t :: 0 <= t < |s.pcs| ==> s.pcs[t].Idle?)
  }

  ghost predicate Quiescent(s: State) {
    forall t :: 0 <= t < |s.pcs| ==> s.pcs[t].Idle?
  }

  /** The values recorded in a run. */
  function Recorded(ls: seq<Label>): seq<nat>
    decreases |ls|
  {
    if ls == [] then [] else (if ls[0].Draw? then [ls[0].value] else []) + Recorded(ls[1..])
  }

  ghost predicate Pending(s: State, t: nat, i: nat) {
    t < |s.pcs| && s.pcs[t].Drawn? && s.pcs[t].idx == i
  }

  function Busy(pcs: seq<Pc>): nat {
    if pcs == [] then 0 else Busy(pcs[..|pcs| - 1]) + if pcs[|pcs| - 1].Idle? then 0 else 1
  }

  lemma {:induction false} BusyUpdate(pcs: seq<Pc>, t: nat, pc: Pc)
    requires t < |pcs|
    ensures Busy(pcs[t := pc]) == Busy(pcs) - (if pcs[t].Idle? then 0 else 1) + (if pc.Idle? then 0 else 1)
    decreases |pcs|
  {
    var init := pcs[..|pcs| - 1];
    if t < |init| {
      assert pcs[t := pc][..|pcs| - 1] == init[t := pc];
      BusyUpdate(init, t, pc);
    } else {
      assert pcs[t := pc][..|pcs| - 1] == init;
    }
  }

  lemma {:induction false} NobodyBusy(pcs: seq<Pc>)
    requires forall t :: 0 <= t < |pcs| ==> pcs[t].Idle?
    ensures Busy(pcs) == 0
    decreases |pcs|
  {
    if pcs != [] {
      NobodyBusy(pcs[..|pcs| - 1]);
    }
  }

  /** Until the ring is full once, every drawn index is a slot of its own, and the slot holds its value
      unless the thread that drew it has not stored it yet. */
  ghost predicate Inv(s: State) {
    && |s.samples| == BUFFER_SIZE
    && s.writeIndex == |s.tickets| <= BUFFER_SIZE
    && s.count + Busy(s.pcs) == |s.tickets|
    && (forall t: nat, i: nat :: Pending(s, t, i) ==> i < |s.tickets| && s.pcs[t].value == s.tickets[i])
    && (forall t: nat, u: nat, i: nat :: Pending(s, t, i) && Pending(s, u, i) ==> t == u)
    && (forall i: nat :: i < |s.tickets| && (forall t: nat :: !Pending(s, t, i)) ==> s.samples[i] == s.tickets[i])
  }

  lemma StepKeepsInv(s: State, l: Label)
    requires Inv(s) && Enabled(s, l) && |Apply(s, l).tickets| <= BUFFER_SIZE
    ensures Inv(Apply(s, l))
  {
    var s' := Apply(s, l);
    BusyUpdate(s.pcs, l.tid, s'.pcs[l.tid]);
    forall t: nat, i: nat
      ensures Pending(s', t, i) <==> if t == l.tid then l.Draw? && i == s.writeIndex else Pending(s, t, i)
    {
    }
    forall i: nat | i < |s'.tickets| && (forall t: nat :: !Pending(s', t, i))
      ensures s'.samples[i] == s'.tickets[i]
    {
      if l.Store? && i == s.pcs[l.tid].idx {
        assert Pending(s, l.tid, i);
      } else if l.Draw? {
        assert !Pending(s', l.tid, i);
        assert forall t: nat :: Pending(s, t, i) ==> t != l.tid && Pending(s', t, i);
      } else {
        assert forall t: nat :: Pending(s, t, i) ==> t != l.tid && Pending(s', t, i);
      }
    }
  }

  lemma {:induction false} RunKeepsInv(s: State, ls: seq<Label>)
    requires Inv(s) && Runs(s, ls) && |s.tickets| + |Recorded(ls)| <= BUFFER_SIZE
    ensures Inv(Exec(s, ls)) && Exec(s, ls).tickets == s.tickets + Recorded(ls)
    decreases |ls|
  {
    if ls != [] {
      StepKeepsInv(s, ls[0]);
      RunKeepsInv(Apply(s, ls[0]), ls[1..]);
    }
  }

  /** Any number of threads that together record no more values than the ring holds: when all are done,
      reading the ring gives exactly the nonzero values recorded, whatever the interleaving was. */
  lemma ConcurrentRecordsAreExact(s: State, ls: seq<Label>)
    requires Init(s) && Runs(s, ls)
    requires |Recorded(ls)| <= BUFFER_SIZE && Quiescent(Exec(s, ls))
    ensures var s' := Exec(s, ls);
            && s'.count == |Recorded(ls)| <= |s'.samples|
            && s'.samples[..s'.count] == Recorded(ls)
            && multiset(NonZero(s'.samples[..s'.count])) == multiset(NonZero(Recorded(ls)))
  {
    NobodyBusy(s.pcs);
    RunKeepsInv(s, ls);
    var s' := Exec(s, ls);
    NobodyBusy(s'.pcs);
    assert s.tickets + Recorded(ls) == Recorded(ls);
    assert s'.samples[..s'.count] == s'.tickets;
  }
}
