/** record_completion under any number of threads: the counters, and the loops that keep the minimum and
    the maximum with weak compare-exchanges (src/statistics.cpp:20-40). */
module StatisticsThreads {
  import opened Words
  import opened Percentiles

  /** Where a recorder is. In the two loops `current` is the value it last saw. */
  datatype Pc =
    | Idle
    | Counted(lat: nat)
    | Totaled(lat: nat)
    | MinLoop(lat: nat, current: nat)
    | MinDone(lat: nat)
    | MaxLoop(lat: nat, current: nat)

  datatype State = State(completed: nat, total: nat, min: nat, max: nat, pcs: seq<Pc>, recorded: seq<nat>)

  datatype Label =
    | Begin(tid: nat, lat: nat)
    | AddTotal(tid: nat)
    | LoadMin(tid: nat)
    | TryMin(tid: nat, spurious: bool)
    | LoadMax(tid: nat)
    | TryMax(tid: nat, spurious: bool)

  predicate Enabled(s: State, l: Label) {
    && l.tid < |s.pcs|
    && var pc := s.pcs[l.tid];
       match l
       case Begin(_, lat) => pc.Idle? && lat < U64
       case AddTotal(_) => pc.Counted?
       case LoadMin(_) => pc.Totaled?
       case TryMin(_, _) => pc.MinLoop?
       case LoadMax(_) => pc.MinDone?
       case TryMax(_, _) => pc.MaxLoop?
  }

  /** A failed compare-exchange leaves the value it found in `current`. */
  function Apply(s: State, l: Label): State
    requires Enabled(s, l)
  {
    var tid, pc := l.tid, s.pcs[l.tid];
    match l
    case Begin(_, lat) =>
      s.(completed := Add64(s.completed, 1), pcs := s.pcs[tid := Counted(lat)], recorded := s.recorded + [lat])
    case AddTotal(_) => s.(total := Add64(s.total, pc.lat), pcs := s.pcs[tid := Totaled(pc.lat)])
    case LoadMin(_) => s.(pcs := s.pcs[tid := MinLoop(pc.lat, s.min)])
    case TryMin(_, spurious) =>
      if pc.lat >= pc.current then s.(pcs := s.pcs[tid := MinDone(pc.lat)])
      else if !spurious && s.min == pc.current then s.(min := pc.lat, pcs := s.pcs[tid := MinDone(pc.lat)])
      else s.(pcs := s.pcs[tid := MinLoop(pc.lat, s.min)])
    case LoadMax(_) => s.(pcs := s.pcs[tid := MaxLoop(pc.lat, s.max)])
    case TryMax(_, spurious) =>
      if pc.lat <= pc.current then s.(pcs := s.pcs[tid := Idle])
      else if !spurious && s.max == pc.current then s.(max := pc.lat, pcs := s.pcs[tid := Idle])
      else s.(pcs := s.pcs[tid := MaxLoop(pc.lat, s.max)])
  }

  predicate Runs(s: State, ls: seq<Label>)
    decreases |ls|
  {
    ls == [] || (Enabled(s, ls[0]) && Runs(Apply(s, ls[0]), ls[1..]))
  }

  function Exec(s: State, ls: seq<Label>): State
    requires Runs(s, ls)
    decreases |ls|
  {
    if ls == [] then s else Exec(Apply(s, ls[0]), ls[1..])
  }

  ghost predicate Init(s: State) {
    && s.completed == s.total == s.max == 0 && s.min == U64 - 1
    && s.recorded == []
    && Quiescent(s)
  }

  ghost predicate Quiescent(s: State) {
    forall t :: 0 <= t < |s.pcs| ==> s.pcs[t].Idle?
  }

  // ---------------------------------------------------------------- invariant

  /** The recorder still has to bring the minimum (the maximum) down (up) to its value. */
  predicate OwesMin(pc: Pc, lat: nat) {
    (pc.Counted? || pc.Totaled? || pc.MinLoop?) && pc.lat == lat
  }

  predicate OwesMax(pc: Pc, lat: nat) {
    !pc.Idle? && pc.lat == lat
  }

  ghost predicate MinCovers(s: State, lat: nat) {
    s.min <= lat || exists t :: 0 <= t < |s.pcs| && OwesMin(s.pcs[t], lat)
  }

  ghost predicate MaxCovers(s: State, lat: nat) {
    lat <= s.max || exists t :: 0 <= t < |s.pcs| && OwesMax(s.pcs[t], lat)
  }

  /** What a loop last saw is on the far side of the current extreme. */
  ghost predicate PcOk(s: State, pc: Pc) {
    && (!pc.Idle? ==> pc.lat in s.recorded && pc.lat < U64)
    && (pc.MinLoop? ==> s.min <= pc.current)
    && (pc.MaxLoop? ==> pc.current <= s.max)
  }

  function OwedTotal(pcs: seq<Pc>): nat {
    if pcs == [] then 0
    else OwedTotal(pcs[..|pcs| - 1]) + Owed(pcs[|pcs| - 1])
  }

  function Owed(pc: Pc): nat {
    if pc.Counted? then pc.lat else 0
  }

  lemma {:induction false} OwedUpdate(pcs: seq<Pc>, t: nat, pc: Pc)
    requires t < |pcs|
    ensures OwedTotal(pcs[t := pc]) == OwedTotal(pcs) - Owed(pcs[t]) + Owed(pc)
    decreases |pcs|
  {
    var init := pcs[..|pcs| - 1];
    if t < |init| {
      assert pcs[t := pc][..|pcs| - 1] == init[t := pc];
      OwedUpdate(init, t, pc);
    } else {
      assert pcs[t := pc][..|pcs| - 1] == init;
    }
  }

  lemma {:induction false} NothingOwed(pcs: seq<Pc>)
    requires forall t :: 0 <= t < |pcs| ==> pcs[t].Idle?
    ensures OwedTotal(pcs) == 0
    decreases |pcs|
  {
    if pcs != [] {
      NothingOwed(pcs[..|pcs| - 1]);
    }
  }

  lemma {:induction false} SumSnoc(ts: seq<nat>, x: nat)
    ensures Sum(ts + [x]) == Sum(ts) + x
    decreases |ts|
  {
    if ts == [] {
      assert ts + [x] == [x];
    } else {
      assert (ts + [x])[1..] == ts[1..] + [x];
      SumSnoc(ts[1..], x);
    }
  }

  /** The total lacks exactly the latencies that were counted and not yet added. */
  ghost predicate CountersOk(s: State) {
    && s.completed == |s.recorded| % U64
    && (s.total + OwedTotal(s.pcs)) % U64 == Sum(s.recorded) % U64
    && s.total < U64
  }

  ghost predicate ExtremesOk(s: State) {
    && (s.min == U64 - 1 || s.min in s.recorded)
    && (s.max == 0 || s.max in s.recorded)
    && (forall lat :: lat in s.recorded ==> lat < U64 && MinCovers(s, lat) && MaxCovers(s, lat))
    && (forall t :: 0 <= t < |s.pcs| ==> PcOk(s, s.pcs[t]))
  }

  lemma StepKeepsCounters(s: State, l: Label)
    requires CountersOk(s) && Enabled(s, l)
    ensures CountersOk(Apply(s, l))
  {
    var s' := Apply(s, l);
    OwedUpdate(s.pcs, l.tid, s'.pcs[l.tid]);
    var owed := OwedTotal(s.pcs);
    if l.Begin? {
      SumSnoc(s.recorded, l.lat);
      CountUp(s.completed, |s.recorded|, 1);
      ModuloShift(s.total + owed, Sum(s.recorded), l.lat, U64);
    } else if l.AddTotal? {
      MoveToTotal(s.total, s.pcs[l.tid].lat, owed);
    }
  }

  /** A latency that moves from what is owed to the total. */
  lemma MoveToTotal(total: nat, lat: nat, owed: int)
    ensures (Add64(total, lat) + (owed - lat)) % U64 == (total + owed) % U64
  {
    ModuloShift(Add64(total, lat), total + lat, owed - lat, U64);
  }

  lemma StepKeepsPcs(s: State, l: Label)
    requires ExtremesOk(s) && Enabled(s, l)
    ensures forall t :: 0 <= t < |s.pcs| ==> PcOk(Apply(s, l), Apply(s, l).pcs[t])
    ensures Apply(s, l).min <= s.min && s.max <= Apply(s, l).max
  {
    var s', tid := Apply(s, l), l.tid;
    assert PcOk(s, s.pcs[tid]);
    forall t | 0 <= t < |s'.pcs|
      ensures PcOk(s', s'.pcs[t])
    {
      assert PcOk(s, s.pcs[t]);
    }
  }

  lemma StepKeepsMinCovers(s: State, l: Label, lat: nat)
    requires ExtremesOk(s) && Enabled(s, l) && lat in Apply(s, l).recorded
    ensures MinCovers(Apply(s, l), lat)
  {
    var s', tid := Apply(s, l), l.tid;
    StepKeepsPcs(s, l);
    assert PcOk(s, s.pcs[tid]);
    if lat in s.recorded {
      assert MinCovers(s, lat);
      if t :| 0 <= t < |s.pcs| && OwesMin(s.pcs[t], lat) {
        assert OwesMin(s'.pcs[t], lat) || (t == tid && s'.min <= lat);
      }
    } else {
      assert OwesMin(s'.pcs[tid], lat);
    }
  }

  lemma StepKeepsMaxCovers(s: State, l: Label, lat: nat)
    requires ExtremesOk(s) && Enabled(s, l) && lat in Apply(s, l).recorded
    ensures MaxCovers(Apply(s, l), lat)
  {
    var s', tid := Apply(s, l), l.tid;
    StepKeepsPcs(s, l);
    assert PcOk(s, s.pcs[tid]);
    if lat in s.recorded {
      assert MaxCovers(s, lat);
      if t :| 0 <= t < |s.pcs| && OwesMax(s.pcs[t], lat) {
        assert OwesMax(s'.pcs[t], lat) || (t == tid && lat <= s'.max);
      }
    } else {
      assert OwesMax(s'.pcs[tid], lat);
    }
  }

  lemma StepKeepsExtremes(s: State, l: Label)
    requires ExtremesOk(s) && Enabled(s, l)
    ensures ExtremesOk(Apply(s, l))
  {
    StepKeepsPcs(s, l);
    assert PcOk(s, s.pcs[l.tid]);
    forall lat | lat in Apply(s, l).recorded
      ensures MinCovers(Apply(s, l), lat) && MaxCovers(Apply(s, l), lat)
    {
      StepKeepsMinCovers(s, l, lat);
      StepKeepsMaxCovers(s, l, lat);
    }
  }

  lemma {:induction false} RunKeepsInv(s: State, ls: seq<Label>)
    requires CountersOk(s) && ExtremesOk(s) && Runs(s, ls)
    ensures CountersOk(Exec(s, ls)) && ExtremesOk(Exec(s, ls))
    decreases |ls|
  {
    if ls != [] {
      StepKeepsCounters(s, ls[0]);
      StepKeepsExtremes(s, ls[0]);
      RunKeepsInv(Apply(s, ls[0]), ls[1..]);
    }
  }

  // ---------------------------------------------------------------- main results

  /** When no recorder is in progress, the minimum and the maximum are the true ones, whatever the
      interleaving and however many compare-exchanges failed spuriously. */
  lemma ExtremesAreExact(s: State, ls: seq<Label>)
    requires Init(s) && Runs(s, ls) && Quiescent(Exec(s, ls))
    ensures var s' := Exec(s, ls);
            && (s'.recorded != [] ==> IsMin(s'.recorded, s'.min) && IsMax(s'.recorded, s'.max))
            && (s'.recorded == [] ==> s'.min == U64 - 1 && s'.max == 0)
            && s'.completed == |s'.recorded| % U64
            && s'.total == Sum(s'.recorded) % U64
  {
    NothingOwed(s.pcs);
    RunKeepsInv(s, ls);
    var s' := Exec(s, ls);
    NothingOwed(s'.pcs);
    if s'.recorded != [] {
      forall lat | lat in s'.recorded
        ensures s'.min <= lat <= s'.max
      {
        assert MinCovers(s', lat) && MaxCovers(s', lat);
      }
      var first := s'.recorded[0];
      assert first in s'.recorded;
    }
  }

  /** How far a recorder's latency is from what it last saw. */
  function MinGap(pc: Pc): int
    requires pc.MinLoop?
  {
    pc.current - pc.lat
  }

  function MaxGap(pc: Pc): int
    requires pc.MaxLoop?
  {
    pc.lat - pc.current
  }

  /** A compare-exchange in the minimum loop that fails, and not spuriously, leaves the recorder with a
      strictly smaller gap to close, and one with no gap left stops; so the failures of one call are
      bounded by the gap that it first saw. Likewise for the maximum. */
  lemma RetryShrinksGap(s: State, ls: seq<Label>, tid: nat)
    requires Init(s) && Runs(s, ls)
    requires var s' := Exec(s, ls); tid < |s'.pcs|
    ensures var s' := Exec(s, ls);
            && (s'.pcs[tid].MinLoop? ==>
                  var s'' := Apply(s', TryMin(tid, false));
                  s''.pcs[tid].MinLoop? ==> MinGap(s''.pcs[tid]) < MinGap(s'.pcs[tid]))
            && (s'.pcs[tid].MaxLoop? ==>
                  var s'' := Apply(s', TryMax(tid, false));
                  s''.pcs[tid].MaxLoop? ==> MaxGap(s''.pcs[tid]) < MaxGap(s'.pcs[tid]))
  {
    NothingOwed(s.pcs);
    RunKeepsInv(s, ls);
    var s' := Exec(s, ls);
    assert PcOk(s', s'.pcs[tid]);
  }

  lemma {:induction false} SumBetween(ts: seq<nat>, lo: nat, hi: nat)
    requires forall i :: 0 <= i < |ts| ==> lo <= ts[i] <= hi
    ensures lo * |ts| <= Sum(ts) <= hi * |ts|
    decreases |ts|
  {
    if ts != [] {
      SumBetween(ts[1..], lo, hi);
      assert lo * |ts| == lo + lo * (|ts| - 1);
      assert hi * |ts| == hi + hi * (|ts| - 1);
    }
  }

  /** The total holds the true sum exactly while that fits 64 bits, and never exceeds the maximum times
      the count. It is at least the minimum times the count exactly when what the wrapping took off the sum
      is no more than what the latencies exceed the minimum by in all: always if the sum fits, and only
      then if that excess is below 2^64. */
  lemma TotalBetweenExtremes(s: State, ls: seq<Label>)
    requires Init(s) && Runs(s, ls) && Quiescent(Exec(s, ls))
    requires var s' := Exec(s, ls); s'.recorded != [] && |s'.recorded| < U64
    ensures var s' := Exec(s, ls);
            var sum := Sum(s'.recorded);
            var floor := s'.min * s'.completed;
            && (s'.total == sum <==> sum < U64)
            && s'.total <= s'.max * s'.completed
            && floor <= sum
            && (floor <= s'.total <==> (sum / U64) * U64 <= sum - floor)
            && (sum < U64 ==> floor <= s'.total)
            && (sum - floor < U64 ==> (floor <= s'.total <==> sum < U64))
  {
    ExtremesAreExact(s, ls);
    var s' := Exec(s, ls);
    assert forall i :: 0 <= i < |s'.recorded| ==> s'.recorded[i] in s'.recorded;
    SumBetween(s'.recorded, s'.min, s'.max);
    WrappedSum(Sum(s'.recorded));
  }

  lemma WrappedSum(sum: nat)
    ensures sum % U64 == sum - (sum / U64) * U64
    ensures sum / U64 >= 0 && (sum / U64 == 0 <==> sum < U64)
  {
  }

  /** The steps of one recorder on its own, without a spurious failure. */
  function Alone(lat: nat): seq<Label> {
    [Begin(0, lat), AddTotal(0), LoadMin(0), TryMin(0, false), LoadMax(0), TryMax(0, false)]
  }

  lemma AloneRecords(s: State, lat: nat)
    requires |s.pcs| == 1 && s.pcs[0].Idle? && lat < U64
    ensures Runs(s, Alone(lat))
    ensures Exec(s, Alone(lat)) == State(Add64(s.completed, 1), Add64(s.total, lat), Min(s.min, lat), Max(s.max, lat),
                                         s.pcs, s.recorded + [lat])
  {
    var ls := Alone(lat);
    var s1 := Apply(s, ls[0]);
    var s2 := Apply(s1, ls[1]);
    var s3 := Apply(s2, ls[2]);
    var s4 := Apply(s3, ls[3]);
    var s5 := Apply(s4, ls[4]);
    var s6 := Apply(s5, ls[5]);
    assert s6.pcs == s.pcs;
    RunsFrom(s5, ls, 5);
    RunsFrom(s4, ls, 4);
    RunsFrom(s3, ls, 3);
    RunsFrom(s2, ls, 2);
    RunsFrom(s1, ls, 1);
    RunsFrom(s, ls, 0);
    assert ls[0..] == ls && ls[6..] == [];
  }

  /** A run of the labels from position k on is the step at k and a run of the rest. */
  lemma RunsFrom(s: State, ls: seq<Label>, k: nat)
    requires k < |ls| && Enabled(s, ls[k])
    ensures Runs(s, ls[k..]) <==> Runs(Apply(s, ls[k]), ls[k + 1..])
    ensures Runs(s, ls[k..]) ==> Exec(s, ls[k..]) == Exec(Apply(s, ls[k]), ls[k + 1..])
  {
    assert ls[k..][1..] == ls[k + 1..];
  }

  lemma {:induction false} RunThenRun(s: State, a: seq<Label>, b: seq<Label>)
    requires Runs(s, a) && Runs(Exec(s, a), b)
    ensures Runs(s, a + b) && Exec(s, a + b) == Exec(Exec(s, a), b)
    decreases |a|
  {
    if a == [] {
      assert a + b == b;
    } else {
      assert (a + b)[1..] == a[1..] + b;
      RunThenRun(Apply(s, a[0]), a[1..], b);
    }
  }

  /** The average can fall below the minimum: after two latencies of 2^63 the total is zero. */
  lemma AverageCanFallBelowMinimum() returns (s: State, ls: seq<Label>)
    ensures Init(s) && Runs(s, ls) && Quiescent(Exec(s, ls))
    ensures var s' := Exec(s, ls); s'.recorded != [] && s'.total < s'.min * s'.completed
  {
    var half := U64 / 2;
    s := State(0, 0, U64 - 1, 0, [Idle], []);
    AloneRecords(s, half);
    var s1 := Exec(s, Alone(half));
    AloneRecords(s1, half);
    RunThenRun(s, Alone(half), Alone(half));
    ls := Alone(half) + Alone(half);
  }
}
