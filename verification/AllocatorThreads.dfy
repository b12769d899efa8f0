/** The allocator under any number of threads: every load, weak compare-exchange and store is one step
    (src/lba_manager.cpp:26-63 and 109-111). The sequential allocator of DestinationLba is what it refines. */
module AllocatorThreads {
  import opened Words
  import opened DestinationLba

  /** Where a thread is inside get_and_advance_dst_lba or reset_dst_lba. `seen` is the length the log
      had when the cursor was loaded. */
  datatype Pc =
    | Idle
    | GotStart(blocks: nat, start: nat)
    | Looping(blocks: nat, start: nat, end: nat)
    | Loaded(blocks: nat, start: nat, end: nat, current: nat, seen: nat)
    | Rewinding(start: nat)

  /** What the log records, in the order in which the cursor was read or written. */
  datatype Entry =
    | Reserved(tid: nat, blocks: nat, lba: nat)
    | Rewound(tid: nat)
    | Ranged(start: nat, end: nat)

  datatype State = State(
    base: Allocator,
    alloc: Allocator,
    pcs: seq<Pc>,
    log: seq<Entry>,
    returned: seq<seq<nat>>)

  datatype Label =
    | Call(tid: nat, blocks: nat)
    | LoadEnd(tid: nat)
    | LoadCursor(tid: nat)
    | CompareExchange(tid: nat, spurious: bool)
    | CallReset(tid: nat)
    | StoreReset(tid: nat)
    | SetRange(start: nat, end: nat)

  predicate Enabled(s: State, l: Label) {
    && |s.returned| == |s.pcs|
    && match l
       case Call(tid, _) => tid < |s.pcs| && s.pcs[tid].Idle?
       case LoadEnd(tid) => tid < |s.pcs| && s.pcs[tid].GotStart?
       case LoadCursor(tid) => tid < |s.pcs| && s.pcs[tid].Looping?
       case CompareExchange(tid, _) => tid < |s.pcs| && s.pcs[tid].Loaded? && s.pcs[tid].start <= s.pcs[tid].end
       case CallReset(tid) => tid < |s.pcs| && s.pcs[tid].Idle?
       case StoreReset(tid) => tid < |s.pcs| && s.pcs[tid].Rewinding?
       // The window is replaced only while no thread is inside the allocator.
       case SetRange(start, end) => start < end && forall t :: 0 <= t < |s.pcs| ==> s.pcs[t].Idle?
  }

  /** A compare-exchange succeeds when the cursor holds the loaded value and it does not fail spuriously. */
  predicate Succeeds(s: State, tid: nat, spurious: bool)
    requires tid < |s.pcs| && s.pcs[tid].Loaded?
  {
    !spurious && s.alloc.cursor == s.pcs[tid].current
  }

  function Return(s: State, tid: nat, blocks: nat, lba: nat, cursor: nat): State
    requires tid < |s.pcs| == |s.returned|
  {
    s.(alloc := s.alloc.(cursor := cursor),
       pcs := s.pcs[tid := Idle],
       log := s.log + [Reserved(tid, blocks, lba)],
       returned := s.returned[tid := s.returned[tid] + [lba]])
  }

  function Apply(s: State, l: Label): State
    requires Enabled(s, l)
  {
    match l
    case Call(tid, blocks) =>
      if blocks == 0 then Return(s, tid, 0, s.alloc.cursor, s.alloc.cursor)
      else s.(pcs := s.pcs[tid := GotStart(blocks, s.alloc.start)])
    case LoadEnd(tid) =>
      s.(pcs := s.pcs[tid := Looping(s.pcs[tid].blocks, s.pcs[tid].start, s.alloc.end)])
    case LoadCursor(tid) =>
      var pc := s.pcs[tid];
      s.(pcs := s.pcs[tid := Loaded(pc.blocks, pc.start, pc.end, s.alloc.cursor, |s.log|)])
    case CompareExchange(tid, spurious) =>
      var pc := s.pcs[tid];
      if Succeeds(s, tid, spurious) then
        // Result and next cursor are computed from the loaded values only.
        var (lba, next) := Reserve(Allocator(pc.start, pc.end, pc.current), pc.blocks);
        Return(s, tid, pc.blocks, lba, next.cursor)
      else
        s.(pcs := s.pcs[tid := Looping(pc.blocks, pc.start, pc.end)])
    case CallReset(tid) =>
      s.(pcs := s.pcs[tid := Rewinding(s.alloc.start)])
    case StoreReset(tid) =>
      s.(alloc := s.alloc.(cursor := s.pcs[tid].start), pcs := s.pcs[tid := Idle], log := s.log + [Rewound(tid)])
    case SetRange(start, end) =>
      s.(alloc := Allocator(start, end, start), log := s.log + [Ranged(start, end)])
  }

  predicate Runs(s: State, ls: seq<Label>)
    decreases |ls|
  {
    ls == [] || (Enabled(s, ls[0]) && Runs(Apply(s, ls[0]), ls[1..]))
  }

  function Exec(s: State, ls: seq<Label>): State
    requires Runs(s, ls)
    decreases |ls|
  {
    if ls == [] then s else Exec(Apply(s, ls[0]), ls[1..])
  }

  ghost predicate Init(s: State) {
    && s.alloc == s.base && s.base.Valid()
    && s.log == []
    && |s.returned| == |s.pcs|
    && (forall t :: 0 <= t < |s.pcs| ==> s.pcs[t].Idle? && s.returned[t] == [])
  }

  // ---------------------------------------------------------------- the sequential meaning of a log

  function Effect(a: Allocator, e: Entry): Allocator {
    match e
    case Reserved(_, blocks, _) => if a.start <= a.end then Reserve(a, blocks).1 else a
    case Rewound(_) => ResetCursor(a)
    case Ranged(start, end) => Allocator(start, end, start)
  }

  /** The sequential allocator driven through the first k entries of a log. */
  function Replay(base: Allocator, log: seq<Entry>, k: nat): Allocator
    requires k <= |log|
  {
    if k == 0 then base else Effect(Replay(base, log, k - 1), log[k - 1])
  }

  /** Every LBA in the log is the one the sequential allocator hands out at that point. */
  ghost predicate Sequential(base: Allocator, log: seq<Entry>) {
    forall i: nat :: i < |log| ==> SequentialAt(base, log, i)
  }

  ghost predicate SequentialAt(base: Allocator, log: seq<Entry>, i: nat)
    requires i < |log|
  {
    log[i].Reserved? ==>
      var a := Replay(base, log, i);
      a.Valid() && log[i].lba == Reserve(a, log[i].blocks).0
  }

  /** What one thread was handed, according to a log. */
  function HandedTo(log: seq<Entry>, tid: nat): seq<nat>
    decreases |log|
  {
    if log == [] then []
    else
      var e := log[|log| - 1];
      HandedTo(log[..|log| - 1], tid) + if e.Reserved? && e.tid == tid then [e.lba] else []
  }

  predicate ByThread(e: Entry, tid: nat) {
    (e.Reserved? || e.Rewound?) && e.tid == tid
  }

  ghost predicate ThreadOk(s: State, tid: nat)
    requires tid < |s.pcs|
  {
    match s.pcs[tid]
    case Idle => true
    case GotStart(blocks, start) => blocks > 0 && start == s.alloc.start
    case Looping(blocks, start, end) => blocks > 0 && start == s.alloc.start && end == s.alloc.end
    case Loaded(blocks, start, end, current, seen) =>
      && blocks > 0 && start == s.alloc.start && end == s.alloc.end
      && seen <= |s.log|
      && current == Replay(s.base, s.log, seen).cursor
      && (forall i :: seen <= i < |s.log| ==> !ByThread(s.log[i], tid) && !s.log[i].Ranged?)
    case Rewinding(start) => start == s.alloc.start
  }

  ghost predicate Inv(s: State) {
    && s.alloc.Valid()
    && s.alloc == Replay(s.base, s.log, |s.log|)
    && Sequential(s.base, s.log)
    && |s.returned| == |s.pcs|
    && (forall t :: 0 <= t < |s.pcs| ==> ThreadOk(s, t))
    && (forall t :: 0 <= t < |s.pcs| ==> s.returned[t] == HandedTo(s.log, t))
  }

  /** Appending an entry with its effect: the log still tells the allocator's state, and every LBA in it
      is still the sequential one. */
  lemma LogGrows(base: Allocator, log: seq<Entry>, a: Allocator, e: Entry)
    requires a == Replay(base, log, |log|) && a.Valid() && Sequential(base, log)
    requires e.Reserved? ==> e.lba == Reserve(a, e.blocks).0
    ensures Replay(base, log + [e], |log| + 1) == Effect(a, e)
    ensures Sequential(base, log + [e])
  {
    var log' := log + [e];
    ReplayPrefix(base, log, e, |log|);
    forall i: nat | i < |log'|
      ensures SequentialAt(base, log', i)
    {
      if i < |log| {
        ReplayPrefix(base, log, e, i);
        assert log'[i] == log[i] && SequentialAt(base, log, i);
      }
    }
  }

  lemma {:induction false} ReplayPrefix(base: Allocator, log: seq<Entry>, e: Entry, k: nat)
    requires k <= |log|
    ensures Replay(base, log + [e], k) == Replay(base, log, k)
  {
    if k > 0 {
      ReplayPrefix(base, log, e, k - 1);
      assert (log + [e])[k - 1] == log[k - 1];
    }
  }

  lemma HandedGrows(log: seq<Entry>, e: Entry, tid: nat)
    ensures HandedTo(log + [e], tid) == HandedTo(log, tid) + if e.Reserved? && e.tid == tid then [e.lba] else []
  {
    assert (log + [e])[..|log|] == log;
  }

  /** A thread inside the allocator is not disturbed by another thread's entry. */
  lemma OtherStaysOk(s: State, s': State, e: Entry, t: nat)
    requires t < |s.pcs| == |s'.pcs| && ThreadOk(s, t) && s'.pcs[t] == s.pcs[t]
    requires s'.base == s.base && s'.log == s.log + [e]
    requires s'.alloc.start == s.alloc.start && s'.alloc.end == s.alloc.end
    requires !ByThread(e, t) && !e.Ranged?
    ensures ThreadOk(s', t)
  {
    if s.pcs[t].Loaded? {
      ReplayPrefix(s.base, s.log, e, s.pcs[t].seen);
    }
  }

  /** The end of an allocation or a reset. */
  lemma Finish(s: State, s': State, e: Entry, tid: nat)
    requires Inv(s) && tid < |s.pcs| && !e.Ranged? && e.tid == tid
    requires s'.base == s.base && s'.log == s.log + [e] && s'.alloc == Effect(s.alloc, e)
    requires s'.alloc.Valid() && s'.alloc.start == s.alloc.start && s'.alloc.end == s.alloc.end
    requires e.Reserved? ==> e.lba == Reserve(s.alloc, e.blocks).0
    requires s'.pcs == s.pcs[tid := Idle]
    requires s'.returned == if e.Reserved? then s.returned[tid := s.returned[tid] + [e.lba]] else s.returned
    ensures Inv(s')
  {
    LogGrows(s.base, s.log, s.alloc, e);
    forall t | 0 <= t < |s'.pcs|
      ensures ThreadOk(s', t) && s'.returned[t] == HandedTo(s'.log, t)
    {
      HandedGrows(s.log, e, t);
      assert ThreadOk(s, t);
      if t != tid {
        OtherStaysOk(s, s', e, t);
      }
    }
  }

  lemma CallKeepsInv(s: State, tid: nat, blocks: nat)
    requires Inv(s) && Enabled(s, Call(tid, blocks))
    ensures Inv(Apply(s, Call(tid, blocks)))
  {
    var s' := Apply(s, Call(tid, blocks));
    if blocks == 0 {
      Finish(s, s', Reserved(tid, 0, s.alloc.cursor), tid);
    } else {
      Local(s, s', tid);
    }
  }

  lemma LoadsKeepInv(s: State, l: Label)
    requires Inv(s) && Enabled(s, l) && (l.LoadEnd? || l.LoadCursor? || l.CallReset?)
    ensures Inv(Apply(s, l))
  {
    assert ThreadOk(s, l.tid);
    Local(s, Apply(s, l), l.tid);
  }

  lemma CompareExchangeKeepsInv(s: State, tid: nat, spurious: bool)
    requires Inv(s) && Enabled(s, CompareExchange(tid, spurious))
    ensures Inv(Apply(s, CompareExchange(tid, spurious)))
  {
    var s' := Apply(s, CompareExchange(tid, spurious));
    assert ThreadOk(s, tid);
    if Succeeds(s, tid, spurious) {
      var pc := s.pcs[tid];
      ReserveStaysInWindow(s.alloc, pc.blocks);
      Finish(s, s', Reserved(tid, pc.blocks, Reserve(s.alloc, pc.blocks).0), tid);
    } else {
      Local(s, s', tid);
    }
  }

  lemma StoreResetKeepsInv(s: State, tid: nat)
    requires Inv(s) && Enabled(s, StoreReset(tid))
    ensures Inv(Apply(s, StoreReset(tid)))
  {
    assert ThreadOk(s, tid);
    Finish(s, Apply(s, StoreReset(tid)), Rewound(tid), tid);
  }

  lemma SetRangeKeepsInv(s: State, start: nat, end: nat)
    requires Inv(s) && Enabled(s, SetRange(start, end))
    ensures Inv(Apply(s, SetRange(start, end)))
  {
    var s' := Apply(s, SetRange(start, end));
    LogGrows(s.base, s.log, s.alloc, Ranged(start, end));
    forall t | 0 <= t < |s'.pcs|
      ensures ThreadOk(s', t) && s'.returned[t] == HandedTo(s'.log, t)
    {
      HandedGrows(s.log, Ranged(start, end), t);
    }
  }

  lemma StepKeepsInv(s: State, l: Label)
    requires Inv(s) && Enabled(s, l)
    ensures Inv(Apply(s, l))
  {
    match l
    case Call(tid, blocks) => CallKeepsInv(s, tid, blocks);
    case LoadEnd(_) => LoadsKeepInv(s, l);
    case LoadCursor(_) => LoadsKeepInv(s, l);
    case CompareExchange(tid, spurious) => CompareExchangeKeepsInv(s, tid, spurious);
    case CallReset(_) => LoadsKeepInv(s, l);
    case StoreReset(tid) => StoreResetKeepsInv(s, tid);
    case SetRange(start, end) => SetRangeKeepsInv(s, start, end);
  }

  /** Steps that touch only one thread's own registers. */
  lemma Local(s: State, s': State, tid: nat)
    requires Inv(s) && tid < |s.pcs| == |s'.pcs|
    requires s' == s.(pcs := s.pcs[tid := s'.pcs[tid]]) && ThreadOk(s', tid)
    ensures Inv(s')
  {
    forall t | 0 <= t < |s'.pcs|
      ensures ThreadOk(s', t)
    {
      assert ThreadOk(s, t);
    }
  }

  lemma {:induction false} RunKeepsInv(s: State, ls: seq<Label>)
    requires Inv(s) && Runs(s, ls)
    ensures Inv(Exec(s, ls))
    decreases |ls|
  {
    if ls != [] {
      StepKeepsInv(s, ls[0]);
      RunKeepsInv(Apply(s, ls[0]), ls[1..]);
    }
  }

  lemma {:induction false} RunKeepsBase(s: State, ls: seq<Label>)
    requires Runs(s, ls)
    ensures Exec(s, ls).base == s.base && |Exec(s, ls).pcs| == |s.pcs|
    decreases |ls|
  {
    if ls != [] {
      RunKeepsBase(Apply(s, ls[0]), ls[1..]);
    }
  }

  // ---------------------------------------------------------------- what the threads ask for

  /** The sizes that a thread requests in a run. */
  function RequestedBy(ls: seq<Label>, tid: nat): seq<nat>
    decreases |ls|
  {
    if ls == [] then []
    else (if ls[0].Call? && ls[0].tid == tid then [ls[0].blocks] else []) + RequestedBy(ls[1..], tid)
  }

  /** The sizes that a log has for a thread. */
  function SizesOf(log: seq<Entry>, tid: nat): seq<nat>
    decreases |log|
  {
    if log == [] then []
    else
      var e := log[|log| - 1];
      SizesOf(log[..|log| - 1], tid) + if e.Reserved? && e.tid == tid then [e.blocks] else []
  }

  /** The call a thread is in. */
  function InProgress(pc: Pc): seq<nat> {
    match pc
    case Idle => []
    case GotStart(blocks, _) => [blocks]
    case Looping(blocks, _, _) => [blocks]
    case Loaded(blocks, _, _, _, _) => [blocks]
    case Rewinding(_) => []
  }

  function Logged(s: State, tid: nat): seq<nat>
    requires tid < |s.pcs|
  {
    SizesOf(s.log, tid) + InProgress(s.pcs[tid])
  }

  lemma SizesGrow(log: seq<Entry>, e: Entry, tid: nat)
    ensures SizesOf(log + [e], tid) == SizesOf(log, tid) + if e.Reserved? && e.tid == tid then [e.blocks] else []
  {
    assert (log + [e])[..|log|] == log;
  }

  lemma StepLogs(s: State, l: Label, tid: nat)
    requires Enabled(s, l) && tid < |s.pcs|
    ensures |Apply(s, l).pcs| == |s.pcs|
    ensures Logged(Apply(s, l), tid) == Logged(s, tid) + if l.Call? && l.tid == tid then [l.blocks] else []
  {
    var s' := Apply(s, l);
    StepShape(s, l, tid);
    if s'.log != s.log {
      SizesGrow(s.log, s'.log[|s.log|], tid);
    }
  }

  /** A step leaves the log and may begin or go on with a call, or it logs the end of one. */
  lemma StepShape(s: State, l: Label, tid: nat)
    requires Enabled(s, l) && tid < |s.pcs|
    ensures |Apply(s, l).pcs| == |s.pcs|
    ensures var s' := Apply(s, l);
            var begun := if l.Call? && l.tid == tid then [l.blocks] else [];
            if s'.log == s.log then InProgress(s'.pcs[tid]) == InProgress(s.pcs[tid]) + begun
            else
              && |s'.log| == |s.log| + 1 && s'.log == s.log + [s'.log[|s.log|]]
              && var e := s'.log[|s.log|];
                 if e.Reserved? && e.tid == tid
                 then InProgress(s'.pcs[tid]) == [] && [e.blocks] == InProgress(s.pcs[tid]) + begun
                 else InProgress(s'.pcs[tid]) == InProgress(s.pcs[tid]) && begun == []
  {
  }

  lemma {:induction false} RequestsAreLogged(s: State, ls: seq<Label>, tid: nat)
    requires Runs(s, ls) && tid < |s.pcs|
    ensures |Exec(s, ls).pcs| == |s.pcs| && Logged(Exec(s, ls), tid) == Logged(s, tid) + RequestedBy(ls, tid)
    decreases |ls|
  {
    if ls != [] {
      StepLogs(s, ls[0], tid);
      RequestsAreLogged(Apply(s, ls[0]), ls[1..], tid);
      Chain(Logged(Exec(s, ls), tid), Logged(Apply(s, ls[0]), tid), Logged(s, tid),
            if ls[0].Call? && ls[0].tid == tid then [ls[0].blocks] else [], RequestedBy(ls[1..], tid));
    }
  }

  lemma Chain(total: seq<nat>, after: seq<nat>, before: seq<nat>, first: seq<nat>, rest: seq<nat>)
    requires total == after + rest && after == before + first
    ensures total == before + (first + rest)
  {
  }

  // ---------------------------------------------------------------- main results

  /** Refinement. Whatever the interleaving, the values returned to each thread are exactly those the
      sequential allocator hands out when it is run through the log, the shared cursor is where that run
      leaves it, and it lies inside the window. The sizes in the log are those each thread asked for, in
      its order, up to the call it is in. */
  lemma RefinesSequentialAllocator(s: State, ls: seq<Label>)
    requires Init(s) && Runs(s, ls)
    ensures var s' := Exec(s, ls);
            && s'.alloc == Replay(s.base, s'.log, |s'.log|)
            && Sequential(s.base, s'.log)
            && |s'.returned| == |s.pcs|
            && (forall t :: 0 <= t < |s.pcs| ==> s'.returned[t] == HandedTo(s'.log, t))
            && s'.alloc.start <= s'.alloc.cursor < s'.alloc.end
            && |s'.pcs| == |s.pcs|
            && (forall t :: 0 <= t < |s.pcs| ==> RequestedBy(ls, t) == Logged(s', t))
  {
    RunKeepsInv(s, ls);
    RunKeepsBase(s, ls);
    forall t | 0 <= t < |s.pcs|
      ensures RequestedBy(ls, t) == Logged(Exec(s, ls), t)
    {
      RequestsAreLogged(s, ls, t);
      assert Logged(s, t) == [];
    }
  }

  /** Progress. When a compare-exchange fails although it is not a spurious failure, another thread
      changed the cursor after this one loaded it. */
  lemma FailureMeansInterference(s: State, ls: seq<Label>, tid: nat) returns (i: nat)
    requires Init(s) && Runs(s, ls)
    requires var s' := Exec(s, ls); tid < |s'.pcs| && s'.pcs[tid].Loaded? && !Succeeds(s', tid, false)
    ensures var s' := Exec(s, ls);
            && s'.pcs[tid].seen <= i < |s'.log|
            && !s'.log[i].Ranged? && s'.log[i].tid != tid
            && Replay(s.base, s'.log, i).cursor != Replay(s.base, s'.log, i + 1).cursor
  {
    RunKeepsInv(s, ls);
    RunKeepsBase(s, ls);
    var s' := Exec(s, ls);
    assert ThreadOk(s', tid);
    i := FirstChange(s.base, s'.log, s'.pcs[tid].seen, |s'.log|);
    assert !ByThread(s'.log[i], tid);
  }

  lemma {:induction false} FirstChange(base: Allocator, log: seq<Entry>, lo: nat, hi: nat) returns (i: nat)
    requires lo <= hi <= |log|
    requires Replay(base, log, lo).cursor != Replay(base, log, hi).cursor
    ensures lo <= i < hi
    ensures Replay(base, log, i).cursor != Replay(base, log, i + 1).cursor
    decreases hi - lo
  {
    if Replay(base, log, lo).cursor != Replay(base, log, lo + 1).cursor {
      i := lo;
    } else {
      i := FirstChange(base, log, lo + 1, hi);
    }
  }

  // ---------------------------------------------------------------- extents across threads

  ghost predicate AllocationsOnly(log: seq<Entry>, lo: nat, hi: nat) {
    hi <= |log| && forall k :: lo <= k < hi ==> log[k].Reserved?
  }

  function SizeOf(e: Entry): nat {
    if e.Reserved? then e.blocks else 0
  }

  /** The sizes requested in a stretch of the log. */
  function Sizes(log: seq<Entry>, lo: nat, hi: nat): (ts: seq<nat>)
    requires lo <= hi <= |log|
    ensures |ts| == hi - lo && forall k :: 0 <= k < hi - lo ==> ts[k] == SizeOf(log[lo + k])
  {
    seq<nat>(hi - lo, k requires 0 <= k < hi - lo => SizeOf(log[lo + k]))
  }

  lemma ReplayNext(base: Allocator, log: seq<Entry>, k: nat)
    requires k < |log| && Sequential(base, log) && log[k].Reserved?
    ensures Replay(base, log, k).Valid()
    ensures Reserve(Replay(base, log, k), log[k].blocks) == (log[k].lba, Replay(base, log, k + 1))
  {
    assert SequentialAt(base, log, k);
  }

  lemma SizesOneMore(log: seq<Entry>, lo: nat, k: nat)
    requires lo <= k < |log| && log[k].Reserved?
    ensures Sizes(log, lo, k + 1) == Sizes(log, lo, k) + [log[k].blocks]
  {
  }

  lemma SizesPrefix(log: seq<Entry>, lo: nat, k: nat, hi: nat)
    requires lo <= k <= hi <= |log|
    ensures Sizes(log, lo, hi)[..k - lo] == Sizes(log, lo, k)
  {
  }

  /** Replaying a stretch of allocations is running the sequential allocator on its sizes. */
  lemma {:induction false} ReplayIsAfter(base: Allocator, log: seq<Entry>, lo: nat, k: nat)
    requires lo <= k <= |log| && AllocationsOnly(log, lo, k) && Sequential(base, log)
    requires Replay(base, log, lo).Valid()
    ensures After(Replay(base, log, lo), Sizes(log, lo, k)) == Replay(base, log, k)
    decreases k
  {
    if k > lo {
      ReplayIsAfter(base, log, lo, k - 1);
      ReplayNext(base, log, k - 1);
      SizesOneMore(log, lo, k - 1);
      AfterOneMore(Replay(base, log, lo), Sizes(log, lo, k - 1), log[k - 1].blocks);
    }
  }

  lemma LogMatchesExtents(base: Allocator, log: seq<Entry>, lo: nat, hi: nat, k: nat)
    requires lo <= k < hi && AllocationsOnly(log, lo, hi)
    requires Sequential(base, log)
    ensures Replay(base, log, lo).Valid()
    ensures Extents(Replay(base, log, lo), Sizes(log, lo, hi))[k - lo] == Extent(log[k].lba, log[k].blocks)
  {
    ReplayNext(base, log, lo);
    ReplayNext(base, log, k);
    ReplayIsAfter(base, log, lo, k);
    SizesPrefix(log, lo, k, hi);
    ServedAt(Replay(base, log, lo), Sizes(log, lo, hi), Sizes(log, lo, k), Replay(base, log, k), log[k]);
  }

  lemma ServedAt(a: Allocator, ts: seq<nat>, first: seq<nat>, later: Allocator, e: Entry)
    requires a.start <= a.end && |first| < |ts| && ts[..|first|] == first && After(a, first) == later
    requires e.Reserved? && ts[|first|] == e.blocks && later.start <= later.end && Reserve(later, e.blocks).0 == e.lba
    ensures Extents(a, ts)[|first|] == Extent(e.lba, e.blocks)
  {
    ExtentAt(a, ts, |first|);
  }

  lemma LogWindowDisjoint(base: Allocator, log: seq<Entry>, lo: nat, hi: nat, m: nat, i: nat, j: nat)
    requires Sequential(base, log)
    requires lo <= i < j < hi && AllocationsOnly(log, lo, hi)
    requires AtMost(Sizes(log, lo, hi), m)
    requires Sum(Sizes(log, lo, hi)) + m <= Replay(base, log, lo).Span() + 1
    ensures Disjoint(Extent(log[i].lba, log[i].blocks), Extent(log[j].lba, log[j].blocks))
  {
    LogMatchesExtents(base, log, lo, hi, i);
    LogMatchesExtents(base, log, lo, hi, j);
    ExtentsApart(Replay(base, log, lo), Sizes(log, lo, hi), m, i - lo, j - lo,
                 Extent(log[i].lba, log[i].blocks), Extent(log[j].lba, log[j].blocks));
  }

  lemma ExtentsApart(a: Allocator, ts: seq<nat>, m: nat, i: nat, j: nat, x: Extent, y: Extent)
    requires a.Valid() && AtMost(ts, m) && Sum(ts) + m <= a.Span() + 1 && i < j < |ts|
    requires Extents(a, ts)[i] == x && Extents(a, ts)[j] == y
    ensures Disjoint(x, y)
  {
    WindowDisjoint(a, ts, m, i, j);
  }

  /** Sliding window over any interleaving: allocations in a row, by whatever threads, with no reset or
      new window between them, are pairwise disjoint while their sizes plus the largest one do not
      exceed the window by more than one. */
  lemma ThreadsGetDisjointExtents(s: State, ls: seq<Label>, s': State, lo: nat, hi: nat, m: nat, i: nat, j: nat)
    requires Init(s) && Runs(s, ls) && s' == Exec(s, ls)
    requires lo <= i < j < hi && AllocationsOnly(s'.log, lo, hi)
    requires AtMost(Sizes(s'.log, lo, hi), m)
    requires Sum(Sizes(s'.log, lo, hi)) + m <= Replay(s.base, s'.log, lo).Span() + 1
    ensures Disjoint(Extent(s'.log[i].lba, s'.log[i].blocks), Extent(s'.log[j].lba, s'.log[j].blocks))
  {
    RefinesSequentialAllocator(s, ls);
    LogWindowDisjoint(s.base, s'.log, lo, hi, m, i, j);
  }
}
