/** Where the workers' commands write: the destination extents of a whole run are those of the
    sequential allocator, so commands generated close together never share a destination block. */
module FleetDestinations {
  import opened Words
  import opened CopyCommand
  import opened DestinationLba
  import opened Generator
  import opened WorkerSteps
  import opened Fleets

  /** The reservation one attempt makes, if it gets that far. */
  ghost function ReservedBy(u: Setup, d: Draws): seq<nat>
    requires ValidSetup(u) && ValidDraws(u.config, d)
  {
    var nsSize := NsSize(u.config.namespaces, EffectiveSource(u.config, d));
    if nsSize == 0 || u.rangeSize >= nsSize || u.rangeSize == 0 || u.rangeSize > MAX_RANGE_BLOCKS then []
    else
      var total := TotalBlocks(SourceRanges(u.lbaNsSize, nsSize, u.rangeSize, d.lbas[..NumRanges(u.config, d)]));
      var dstSize := NsSize(u.config.namespaces, u.config.dstNsid);
      if dstSize > 0 && total > dstSize then [] else [total]
  }

  ghost function Destination(cmd: Command): Extent {
    Extent(cmd.dstLba, cmd.totalBlocks)
  }

  lemma SingleRequest(a: Allocator, t: nat)
    requires a.start <= a.end
    ensures Extents(a, [t]) == [Extent(Reserve(a, t).0, t)] && After(a, [t]) == Reserve(a, t).1
  {
    assert [t][1..] == [];
  }

  /** An attempt moves the cursor by what it reserved, accepted or not; an accepted command writes to
      exactly the extent reserved. */
  lemma AttemptReserves(u: Setup, a: Allocator, d: Draws)
    requires ValidSetup(u) && ValidDraws(u.config, d) && a.Valid()
    ensures var r := Generate(u.config, u.lbaNsSize, a, u.rangeSize, d);
            && r.alloc == After(a, ReservedBy(u, d))
            && (r.Accepted? ==> Extents(a, ReservedBy(u, d)) == [Destination(r.cmd)])
  {
    var ts := ReservedBy(u, d);
    if ts != [] {
      SingleRequest(a, ts[0]);
    }
  }

  /** A step that sends the cursor back: the handling of a failure with code 8. */
  ghost predicate Resets(f: Fleet, act: Act) {
    act.i < |f.workers| && act.l.HandleFailureStep? && f.workers[act.i].pc.Failed? && f.workers[act.i].pc.sc == 8
  }

  ghost predicate NeverResets(u: Setup, f: Fleet, acts: seq<Act>)
    requires ValidSetup(u) && Runs(u, f, acts)
    decreases |acts|
  {
    acts == [] || (!Resets(f, acts[0]) && NeverResets(u, Apply(u, f, acts[0]), acts[1..]))
  }

  ghost function StepRequests(u: Setup, f: Fleet, act: Act): seq<nat>
    requires ValidSetup(u) && Enabled(u, f, act)
  {
    if act.l.Attempted? then ReservedBy(u, act.l.d) else []
  }

  /** All reservations of a run, by all workers, in order. */
  ghost function Requests(u: Setup, f: Fleet, acts: seq<Act>): seq<nat>
    requires ValidSetup(u) && Runs(u, f, acts)
    decreases |acts|
  {
    if acts == [] then [] else StepRequests(u, f, acts[0]) + Requests(u, Apply(u, f, acts[0]), acts[1..])
  }

  ghost function StepGenerated(u: Setup, f: Fleet, act: Act): seq<Command>
    requires ValidSetup(u) && f.shared.alloc.Valid() && Enabled(u, f, act)
  {
    if act.l.Attempted? then
      match Generate(u.config, u.lbaNsSize, f.shared.alloc, u.rangeSize, act.l.d)
      case Accepted(_, cmd, _) => [cmd]
      case Rejected(_, _) => []
    else []
  }

  /** All commands the generator accepted in a run, for all workers, in order. */
  ghost function Generated(u: Setup, f: Fleet, acts: seq<Act>): seq<Command>
    requires ValidSetup(u) && Runs(u, f, acts)
    decreases |acts|
  {
    if acts == [] then [] else StepGenerated(u, f, acts[0]) + Generated(u, Apply(u, f, acts[0]), acts[1..])
  }

  lemma StepFollowsRequests(u: Setup, f: Fleet, act: Act)
    requires ValidSetup(u) && f.shared.alloc.Valid() && Enabled(u, f, act) && !Resets(f, act)
    ensures Apply(u, f, act).shared.alloc == After(f.shared.alloc, StepRequests(u, f, act))
    ensures StepGenerated(u, f, act) == [] ||
            (|StepGenerated(u, f, act)| == 1 &&
             Extents(f.shared.alloc, StepRequests(u, f, act)) == [Destination(StepGenerated(u, f, act)[0])])
  {
    if act.l.Attempted? {
      AttemptReserves(u, f.shared.alloc, act.l.d);
    }
  }

  /** Without a reset, the shared cursor is where the sequential allocator is after the run's requests. */
  lemma {:induction false} CursorFollowsRequests(u: Setup, f: Fleet, acts: seq<Act>)
    requires ValidSetup(u) && Runs(u, f, acts) && NeverResets(u, f, acts)
    ensures Exec(u, f, acts).shared.alloc == After(f.shared.alloc, Requests(u, f, acts))
    decreases |acts|
  {
    if acts != [] {
      var f' := Apply(u, f, acts[0]);
      StepFollowsRequests(u, f, acts[0]);
      CursorFollowsRequests(u, f', acts[1..]);
      ExtentsSplit(f.shared.alloc, StepRequests(u, f, acts[0]), Requests(u, f', acts[1..]));
    }
  }

  /** The commands write, in order, to some of the extents. */
  ghost predicate WriteAmong(es: seq<Extent>, cmds: seq<Command>)
    decreases |es|
  {
    || cmds == []
    || (es != [] && es[0] == Destination(cmds[0]) && WriteAmong(es[1..], cmds[1..]))
    || (es != [] && WriteAmong(es[1..], cmds))
  }

  lemma WriteAmongMore(es: seq<Extent>, cmds: seq<Command>, first: seq<Extent>)
    requires WriteAmong(es, cmds)
    ensures WriteAmong(first + es, cmds)
    decreases |first|
  {
    if first == [] {
      assert first + es == es;
    } else {
      assert (first + es)[1..] == first[1..] + es;
      WriteAmongMore(es, cmds, first[1..]);
    }
  }

  lemma WriteAmongAfter(es: seq<Extent>, cmds: seq<Command>, cmd: Command)
    requires WriteAmong(es, cmds)
    ensures WriteAmong([Destination(cmd)] + es, [cmd] + cmds)
  {
    assert ([Destination(cmd)] + es)[1..] == es;
    assert ([cmd] + cmds)[1..] == cmds;
  }

  lemma WriteAmongBoth(first: seq<Extent>, es: seq<Extent>, gen: seq<Command>, more: seq<Command>)
    requires WriteAmong(es, more)
    requires gen == [] || (|gen| == 1 && first == [Destination(gen[0])])
    ensures WriteAmong(first + es, gen + more)
  {
    if gen == [] {
      WriteAmongMore(es, more, first);
      assert gen + more == more;
    } else {
      WriteAmongAfter(es, more, gen[0]);
      assert gen == [gen[0]];
    }
  }

  /** Command k has an extent of its own. */
  lemma {:induction false} OwnExtent(es: seq<Extent>, cmds: seq<Command>, k: nat) returns (p: nat)
    requires WriteAmong(es, cmds) && k < |cmds|
    ensures p < |es| && es[p] == Destination(cmds[k])
    decreases |es|
  {
    if es[0] == Destination(cmds[0]) && WriteAmong(es[1..], cmds[1..]) {
      p := 0;
      if k > 0 {
        p := OwnExtent(es[1..], cmds[1..], k - 1);
        p := p + 1;
      }
    } else {
      p := OwnExtent(es[1..], cmds, k);
      p := p + 1;
    }
  }

  ghost predicate AllDisjoint(es: seq<Extent>) {
    forall i, j :: 0 <= i < j < |es| ==> Disjoint(es[i], es[j])
  }

  /** Commands that write to disjoint extents do not share a block. */
  lemma {:induction false} ApartAmong(es: seq<Extent>, cmds: seq<Command>, j: nat, k: nat)
    requires WriteAmong(es, cmds) && AllDisjoint(es) && j < k < |cmds|
    ensures Disjoint(Destination(cmds[j]), Destination(cmds[k]))
    decreases |es|
  {
    if es[0] == Destination(cmds[0]) && WriteAmong(es[1..], cmds[1..]) {
      if j > 0 {
        ApartAmong(es[1..], cmds[1..], j - 1, k - 1);
      } else {
        var p := OwnExtent(es[1..], cmds[1..], k - 1);
        assert Disjoint(es[0], es[p + 1]);
      }
    } else {
      ApartAmong(es[1..], cmds, j, k);
    }
  }

  /** The commands accepted in a run write, in order, to extents of the sequential allocator's. */
  lemma {:induction false} GeneratedAmongExtents(u: Setup, f: Fleet, acts: seq<Act>)
    requires ValidSetup(u) && Runs(u, f, acts) && NeverResets(u, f, acts)
    ensures WriteAmong(Extents(f.shared.alloc, Requests(u, f, acts)), Generated(u, f, acts))
    decreases |acts|
  {
    if acts != [] {
      var f' := Apply(u, f, acts[0]);
      var reqs, gen := StepRequests(u, f, acts[0]), StepGenerated(u, f, acts[0]);
      StepFollowsRequests(u, f, acts[0]);
      GeneratedAmongExtents(u, f', acts[1..]);
      SplitExtents(f.shared.alloc, reqs, Requests(u, f', acts[1..]), gen, Generated(u, f', acts[1..]));
    }
  }

  lemma SplitExtents(a: Allocator, reqs: seq<nat>, rest: seq<nat>, gen: seq<Command>, more: seq<Command>)
    requires a.start <= a.end && WriteAmong(Extents(After(a, reqs), rest), more)
    requires gen == [] || (|gen| == 1 && Extents(a, reqs) == [Destination(gen[0])])
    ensures WriteAmong(Extents(a, reqs + rest), gen + more)
  {
    ExtentsSplit(a, reqs, rest);
    WriteAmongBoth(Extents(a, reqs), Extents(After(a, reqs), rest), gen, more);
  }

  /** The reservations leave room in the window for one more of at most m blocks. */
  ghost predicate FitsWindow(a: Allocator, reqs: seq<nat>, m: nat) {
    AtMost(reqs, m) && Sum(reqs) + m <= a.Span() + 1
  }

  /** Across all workers: in a run without a reset, in which every attempt reserves at most m blocks and
      all together reserve S with S + m <= span + 1, no two accepted commands share a destination block,
      whoever generated them and wherever the window wraps. The run may start in the middle of another. */
  lemma GeneratedWriteApart(u: Setup, f: Fleet, acts: seq<Act>, m: nat, j: nat, k: nat)
    requires ValidSetup(u) && Runs(u, f, acts) && NeverResets(u, f, acts)
    requires FitsWindow(f.shared.alloc, Requests(u, f, acts), m)
    requires j < k < |Generated(u, f, acts)|
    ensures Disjoint(Destination(Generated(u, f, acts)[j]), Destination(Generated(u, f, acts)[k]))
  {
    var es := Extents(f.shared.alloc, Requests(u, f, acts));
    GeneratedAmongExtents(u, f, acts);
    WindowAllDisjoint(f.shared.alloc, Requests(u, f, acts), m);
    ApartAmong(es, Generated(u, f, acts), j, k);
  }

  lemma WindowAllDisjoint(a: Allocator, reqs: seq<nat>, m: nat)
    requires a.Valid() && FitsWindow(a, reqs, m)
    ensures AllDisjoint(Extents(a, reqs))
  {
    forall i, j | 0 <= i < j < |reqs|
      ensures Disjoint(Extents(a, reqs)[i], Extents(a, reqs)[j])
    {
      WindowDisjoint(a, reqs, m, i, j);
    }
  }

  // ---------------------------------------------------------------- commands handed to the device

  ghost function Union(ms: seq<multiset<Command>>): multiset<Command>
    decreases |ms|
  {
    if ms == [] then multiset{} else ms[0] + Union(ms[1..])
  }

  lemma {:induction false} UnionUpdate(ms: seq<multiset<Command>>, i: nat, m: multiset<Command>)
    requires i < |ms|
    ensures Union(ms[i := m]) + ms[i] == Union(ms) + m
    decreases |ms|
  {
    if i > 0 {
      assert ms[i := m][1..] == ms[1..][i - 1 := m];
      UnionUpdate(ms[1..], i - 1, m);
      var u, u' := Union(ms[1..]), Union(ms[1..][i - 1 := m]);
      assert (ms[0] + u') + ms[i] == ms[0] + (u' + ms[i]) == ms[0] + (u + m) == (ms[0] + u) + m;
    } else {
      assert ms[i := m][1..] == ms[1..];
    }
  }

  lemma {:induction false} UnionOfEmpty(ms: seq<multiset<Command>>)
    requires forall i :: 0 <= i < |ms| ==> ms[i] == multiset{}
    ensures Union(ms) == multiset{}
    decreases |ms|
  {
    if ms != [] {
      UnionOfEmpty(ms[1..]);
    }
  }

  /** The command a worker has generated and not yet handed over. */
  ghost function ReadyIn(w: Worker): multiset<Command> {
    if w.pc.Ready? && w.pc.slot < |w.pool.slots| then multiset{CommandIn(w.pool.slots[w.pc.slot])} else multiset{}
  }

  ghost function Ready(ws: seq<Worker>): seq<multiset<Command>> {
    seq(|ws|, i requires 0 <= i < |ws| => ReadyIn(ws[i]))
  }

  ghost function StepHanded(f: Fleet, act: Act): seq<Command>
    requires act.i < |f.workers|
  {
    var w := f.workers[act.i];
    if act.l.Submitted? && act.l.nsFound && w.pc.Ready? && w.pc.slot < |w.pool.slots|
    then [CommandIn(w.pool.slots[w.pc.slot])] else []
  }

  /** The commands handed to the device in a run, by all workers, in order. */
  ghost function HandedIn(u: Setup, f: Fleet, acts: seq<Act>): seq<Command>
    requires ValidSetup(u) && Runs(u, f, acts)
    decreases |acts|
  {
    if acts == [] then [] else StepHanded(f, acts[0]) + HandedIn(u, Apply(u, f, acts[0]), acts[1..])
  }

  /** They are what the run adds to the history. */
  lemma {:induction false} HandedInIsHistory(u: Setup, f: Fleet, acts: seq<Act>)
    requires ValidSetup(u) && Runs(u, f, acts)
    ensures CommandsOf(Exec(u, f, acts).history.handed) == CommandsOf(f.history.handed) + HandedIn(u, f, acts)
    decreases |acts|
  {
    if acts != [] {
      HandedInIsHistory(u, Apply(u, f, acts[0]), acts[1..]);
    }
  }

  ghost function CommandsOf(hs: seq<Handed>): seq<Command> {
    seq(|hs|, i requires 0 <= i < |hs| => hs[i].cmd)
  }

  /** A step hands over only what its worker had ready, and makes ready only what it generated. */
  lemma StepHandsOver(u: Setup, f: Fleet, act: Act)
    requires ValidSetup(u) && f.shared.alloc.Valid() && Enabled(u, f, act) && WorkerInv(u, f.workers[act.i])
    ensures multiset(StepHanded(f, act)) + ReadyIn(Step(u, f.shared, f.workers[act.i], act.l).1)
            <= ReadyIn(f.workers[act.i]) + multiset(StepGenerated(u, f, act))
  {
    var w := f.workers[act.i];
    if act.l.Attempted? {
      AttemptMakesReady(u, f.shared.alloc, w, act.l.d);
    } else if act.l.Submitted? {
      SubmittedIsNotReady(w, act.l.nsFound, act.l.rc);
    } else {
      OthersMakeNothingReady(u, f.shared, w, act.l);
    }
  }

  lemma SubmittedIsNotReady(w: Worker, nsFound: bool, rc: int)
    requires w.pc.Ready? && w.pc.slot < |w.pool.slots|
    ensures ReadyIn(Submit(w, nsFound, rc)) == multiset{}
    ensures ReadyIn(w) == multiset{CommandIn(w.pool.slots[w.pc.slot])}
  {
  }

  lemma AttemptMakesReady(u: Setup, a: Allocator, w: Worker, d: Draws)
    requires ValidSetup(u) && a.Valid() && ValidDraws(u.config, d) && WorkerInv(u, w) && w.pc.Generating?
    ensures var r := Generate(u.config, u.lbaNsSize, a, u.rangeSize, d);
            ReadyIn(TryGenerate(u, a, w, d).1) == if r.Accepted? then multiset{r.cmd} else multiset{}
  {
    GeneratedFits(u, a, d);
    var r := Generate(u.config, u.lbaNsSize, a, u.rangeSize, d);
    if r.Accepted? {
      FilledHolds(u, w.pool.slots[w.pc.slot], r.cmd);
    }
  }

  lemma OthersMakeNothingReady(u: Setup, sh: Shared, w: Worker, l: Label)
    requires ValidSetup(u) && sh.alloc.Valid() && EnabledIn(u, w, l) && !l.Attempted? && !l.Submitted?
    ensures ReadyIn(Step(u, sh, w, l).1) <= ReadyIn(w)
  {
  }

  /** So every command handed over was generated before, and once for each time it was handed over. */
  lemma {:induction false} HandedWereGenerated(u: Setup, f: Fleet, depth: nat, acts: seq<Act>)
    requires FleetInv(u, f, depth) && Runs(u, f, acts)
    ensures multiset(HandedIn(u, f, acts)) <= Union(Ready(f.workers)) + multiset(Generated(u, f, acts))
    decreases |acts|
  {
    if acts != [] {
      var act, f' := acts[0], Apply(u, f, acts[0]);
      StepKeepsInv(u, f, depth, act);
      HandedWereGenerated(u, f', depth, acts[1..]);
      StepHandsOver(u, f, act);
      HandOn(f.workers, act.i, f'.workers[act.i], StepHanded(f, act), StepGenerated(u, f, act),
             HandedIn(u, f', acts[1..]), Generated(u, f', acts[1..]));
    }
  }

  lemma HandOn(ws: seq<Worker>, i: nat, w': Worker, handed: seq<Command>, gen: seq<Command>,
               rest: seq<Command>, more: seq<Command>)
    requires i < |ws| && multiset(handed) + ReadyIn(w') <= ReadyIn(ws[i]) + multiset(gen)
    requires multiset(rest) <= Union(Ready(ws[i := w'])) + multiset(more)
    ensures multiset(handed + rest) <= Union(Ready(ws)) + multiset(gen + more)
  {
    assert Ready(ws[i := w']) == Ready(ws)[i := ReadyIn(w')];
    UnionUpdate(Ready(ws), i, ReadyIn(w'));
    Regroup(multiset(handed), ReadyIn(w'), ReadyIn(ws[i]), multiset(gen), multiset(rest),
            Union(Ready(ws[i := w'])), multiset(more), Union(Ready(ws)));
  }

  lemma Regroup<C>(handed: multiset<C>, mine': multiset<C>, mine: multiset<C>, gen: multiset<C>,
                   rest: multiset<C>, all': multiset<C>, more: multiset<C>, all: multiset<C>)
    requires handed + mine' <= mine + gen && rest <= all' + more && all' + mine == all + mine'
    ensures handed + rest <= all + (gen + more)
  {
    forall x
      ensures (handed + rest)[x] <= (all + (gen + more))[x]
    {
      assert (handed + mine')[x] <= (mine + gen)[x];
      assert rest[x] <= (all' + more)[x];
      assert (all' + mine)[x] == (all + mine')[x];
    }
  }

  /** Picks an occurrence of x out of a sequence. */
  lemma PickOut(s: seq<Command>, x: Command) returns (p: nat)
    requires x in multiset(s)
    ensures p < |s| && s[p] == x && multiset(s[..p] + s[p + 1..]) == multiset(s) - multiset{x}
  {
    assert x in s;
    p :| p < |s| && s[p] == x;
    assert s == s[..p] + [x] + s[p + 1..];
  }

  lemma PairWithin(s: seq<Command>, j: nat, k: nat)
    requires j < k < |s|
    ensures multiset{s[j], s[k]} <= multiset(s)
  {
    assert s == s[..j] + [s[j]] + s[j + 1..];
    assert s[k] in s[j + 1..];
  }

  /** Two entries of the one sequence are two entries of the other. */
  lemma TwoOf(handed: seq<Command>, gen: seq<Command>, j: nat, k: nat) returns (p: nat, q: nat)
    requires multiset(handed) <= multiset(gen) && j < k < |handed|
    ensures p < |gen| && q < |gen| && p != q && gen[p] == handed[j] && gen[q] == handed[k]
  {
    PairWithin(handed, j, k);
    TwiceIn(multiset(handed), multiset(gen), handed[j], handed[k]);
    p := PickOut(gen, handed[j]);
    q := PickOut(gen[..p] + gen[p + 1..], handed[k]);
    q := if q < p then q else q + 1;
  }

  lemma TwiceIn(a: multiset<Command>, b: multiset<Command>, x: Command, y: Command)
    requires a <= b && multiset{x, y} <= a
    ensures x in b && y in b - multiset{x}
  {
    assert multiset{x, y}[y] <= a[y] <= b[y];
    assert multiset{x, y}[x] <= a[x] <= b[x];
  }

  /** The same for the commands handed to the device: in a stretch of any run without a reset that
      starts with no command half-way, with reservations of at most m blocks that add up to S, where
      S + m <= span + 1, any two commands handed over have disjoint destinations. */
  lemma HandedWriteApart(u: Setup, f: Fleet, depth: nat, before: seq<Act>, acts: seq<Act>, m: nat, j: nat, k: nat)
    requires Init(u, f, depth) && Runs(u, f, before) && Runs(u, Exec(u, f, before), acts)
    requires forall i :: 0 <= i < |Exec(u, f, before).workers| ==> !Exec(u, f, before).workers[i].pc.Ready?
    requires NeverResets(u, Exec(u, f, before), acts)
    requires FitsWindow(Exec(u, f, before).shared.alloc, Requests(u, Exec(u, f, before), acts), m)
    requires j < k < |HandedIn(u, Exec(u, f, before), acts)|
    ensures var handed := HandedIn(u, Exec(u, f, before), acts);
            Disjoint(Destination(handed[j]), Destination(handed[k]))
  {
    ReachableInv(u, f, depth, before);
    var f' := Exec(u, f, before);
    HandedWereGenerated(u, f', depth, acts);
    UnionOfEmpty(Ready(f'.workers));
    var p, q := TwoOf(HandedIn(u, f', acts), Generated(u, f', acts), j, k);
    GeneratedWriteApart(u, f', acts, m, Min(p, q), Max(p, q));
  }
}
