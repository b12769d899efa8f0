/** The pool under any number of threads: each ticket, flag compare-exchange and flag store is one step
    (include/operation_pool.h:86-106). */
module PoolThreads {
  import opened Words

  /** Trying counts the attempts made so far; Ticketed has drawn a slot number and not tried its flag. */
  datatype Pc = Resting | Trying(attempts: nat) | Ticketed(attempts: nat, idx: nat)

  datatype State = State(next: nat, flags: seq<bool>, pcs: seq<Pc>, held: seq<set<nat>>)

  datatype Label =
    | Begin(tid: nat)
    | DrawTicket(tid: nat)
    | TryFlag(tid: nat)
    | GiveUp(tid: nat)
    | Release(tid: nat, idx: nat)

  /** A thread releases only what it holds, and not in the middle of its own acquire. */
  predicate Enabled(s: State, l: Label) {
    && |s.held| == |s.pcs| && l.tid < |s.pcs|
    && var pc := s.pcs[l.tid];
       match l
       case Begin(_) => pc.Resting?
       case DrawTicket(_) => pc.Trying? && pc.attempts < |s.flags|
       case TryFlag(_) => pc.Ticketed? && pc.idx < |s.flags|
       case GiveUp(_) => pc.Trying? && pc.attempts >= |s.flags|
       case Release(tid, idx) => pc.Resting? && idx in s.held[tid] && idx < |s.flags|
  }

  function Apply(s: State, l: Label): State
    requires Enabled(s, l)
  {
    match l
    case Begin(tid) => s.(pcs := s.pcs[tid := Trying(0)])
    case DrawTicket(tid) =>
      s.(next := Add32(s.next, 1), pcs := s.pcs[tid := Ticketed(s.pcs[tid].attempts, s.next % |s.flags|)])
    case TryFlag(tid) =>
      var Ticketed(attempts, idx) := s.pcs[tid];
      if s.flags[idx] then s.(pcs := s.pcs[tid := Trying(attempts + 1)])
      else s.(flags := s.flags[idx := true], pcs := s.pcs[tid := Resting],
              held := s.held[tid := s.held[tid] + {idx}])
    case GiveUp(tid) => s.(pcs := s.pcs[tid := Resting])
    case Release(tid, idx) => s.(flags := s.flags[idx := false], held := s.held[tid := s.held[tid] - {idx}])
  }

  predicate Runs(s: State, ls: seq<Label>)
    decreases |ls|
  {
    ls == [] || (Enabled(s, ls[0]) && Runs(Apply(s, ls[0]), ls[1..]))
  }

  function Exec(s: State, ls: seq<Label>): State
    requires Runs(s, ls)
    decreases |ls|
  {
    if ls == [] then s else Exec(Apply(s, ls[0]), ls[1..])
  }

  ghost predicate Init(s: State) {
    && |s.held| == |s.pcs| && s.next < U32
    && (forall i :: 0 <= i < |s.flags| ==> !s.flags[i])
    && (forall t :: 0 <= t < |s.pcs| ==> s.pcs[t].Resting? && s.held[t] == {})
  }

  ghost predicate Holds(s: State, t: nat, i: nat) {
    t < |s.held| && i in s.held[t]
  }

  /** No slot has two holders, and a flag is up exactly while some thread holds the slot. */
  ghost predicate Exclusive(s: State) {
    && (forall t: nat, u: nat, i: nat :: Holds(s, t, i) && Holds(s, u, i) ==> t == u)
    && (forall t: nat, i: nat :: Holds(s, t, i) ==> i < |s.flags| && s.flags[i])
    && (forall i :: 0 <= i < |s.flags| && s.flags[i] ==> exists t: nat :: Holds(s, t, i))
  }

  ghost predicate Inv(s: State) {
    && |s.held| == |s.pcs|
    && Exclusive(s)
    && (forall t :: 0 <= t < |s.pcs| ==> PcOk(s.pcs[t], |s.flags|))
  }

  /** An acquire makes at most as many attempts as there are slots. */
  ghost predicate PcOk(pc: Pc, n: nat) {
    match pc
    case Resting => true
    case Trying(attempts) => attempts <= n
    case Ticketed(attempts, idx) => attempts < n && idx < n
  }

  lemma StepKeepsInv(s: State, l: Label)
    requires Inv(s) && Enabled(s, l)
    ensures Inv(Apply(s, l))
  {
    var s' := Apply(s, l);
    forall t: nat, i: nat
      ensures Holds(s', t, i) <==>
              if l.TryFlag? && t == l.tid && s.pcs[t].idx == i && !s.flags[i] then true
              else if l.Release? && t == l.tid && i == l.idx then false
              else Holds(s, t, i)
    {
    }
    forall t: nat, u: nat, i: nat | Holds(s', t, i) && Holds(s', u, i)
      ensures t == u && i < |s'.flags| && s'.flags[i]
    {
      if Holds(s, t, i) && Holds(s, u, i) {
        assert t == u;
        assert l.Release? ==> Holds(s, l.tid, l.idx);
      }
    }
    forall i | 0 <= i < |s'.flags| && s'.flags[i]
      ensures exists t: nat :: Holds(s', t, i)
    {
      if l.TryFlag? && s.pcs[l.tid].idx == i && !s.flags[i] {
        assert Holds(s', l.tid, i);
      } else {
        var t: nat :| Holds(s, t, i);
        assert Holds(s', t, i);
      }
    }
  }

  lemma {:induction false} RunKeepsInv(s: State, ls: seq<Label>)
    requires Inv(s) && Runs(s, ls)
    ensures Inv(Exec(s, ls)) && |Exec(s, ls).pcs| == |s.pcs| && |Exec(s, ls).flags| == |s.flags|
    decreases |ls|
  {
    if ls != [] {
      StepKeepsInv(s, ls[0]);
      RunKeepsInv(Apply(s, ls[0]), ls[1..]);
    }
  }

  /** In every interleaving, at every step, slots are held exclusively and an acquire in progress has
      made at most as many attempts as there are slots. */
  lemma SlotsAreExclusive(s: State, ls: seq<Label>)
    requires Init(s) && Runs(s, ls)
    ensures var s' := Exec(s, ls);
            && Exclusive(s')
            && |s'.pcs| == |s.pcs| && |s'.flags| == |s.flags|
            && (forall t :: 0 <= t < |s'.pcs| ==> PcOk(s'.pcs[t], |s.flags|))
  {
    RunKeepsInv(s, ls);
  }
}
