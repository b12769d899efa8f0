/** Commands that the device executes at the same time. The generator's overlap test looks at one command
    (src/xcopy_generator.cpp:215-228); this module says what it takes for several in flight together. */
module CommandsTogether {
  import opened Words
  import opened CopyCommand
  import opened DestinationLba
  import opened OpPool
  import opened Generator
  import opened ErrorAccounting
  import opened CopySemantics
  import opened WorkerSteps
  import opened Fleets
  import opened FleetEvents
  import opened FleetDestinations

  // ---------------------------------------------------------------- several commands as one list of moves

  ghost predicate Counted(cmd: Command) {
    cmd.totalBlocks == TotalBlocks(cmd.ranges) > 0
  }

  ghost predicate AllCounted(cmds: seq<Command>, nsid: nat) {
    forall k :: 0 <= k < |cmds| ==> Counted(cmds[k]) && cmds[k].dstNsid == nsid
  }

  ghost predicate AllApart(cmds: seq<Command>) {
    forall j, k :: 0 <= j < k < |cmds| ==> Disjoint(Destination(cmds[j]), Destination(cmds[k]))
  }

  /** The sources of all commands, as the device reads them, and the destinations. */
  function AllSources(cmds: seq<Command>): seq<Address>
    decreases |cmds|
  {
    if cmds == [] then [] else Sources(cmds[0], cmds[0].dstNsid) + AllSources(cmds[1..])
  }

  function AllDestinations(cmds: seq<Command>): seq<Address>
    decreases |cmds|
  {
    if cmds == [] then [] else Destinations(cmds[0]) + AllDestinations(cmds[1..])
  }

  lemma {:induction false} SameLength(cmds: seq<Command>, nsid: nat)
    requires AllCounted(cmds, nsid)
    ensures |AllSources(cmds)| == |AllDestinations(cmds)|
    decreases |cmds|
  {
    if cmds != [] {
      SameLength(cmds[1..], nsid);
    }
  }

  /** Every destination block is one of a command's. */
  lemma {:induction false} DestinationOf(cmds: seq<Command>, x: Address) returns (k: nat)
    requires x in AllDestinations(cmds)
    ensures k < |cmds| && x in Destinations(cmds[k])
    decreases |cmds|
  {
    if x in Destinations(cmds[0]) {
      k := 0;
    } else {
      k := DestinationOf(cmds[1..], x);
      k := k + 1;
    }
  }

  lemma {:induction false} SourceOf(cmds: seq<Command>, x: Address) returns (k: nat)
    requires x in AllSources(cmds)
    ensures k < |cmds| && x in Sources(cmds[k], cmds[k].dstNsid)
    decreases |cmds|
  {
    if x in Sources(cmds[0], cmds[0].dstNsid) {
      k := 0;
    } else {
      k := SourceOf(cmds[1..], x);
      k := k + 1;
    }
  }

  ghost predicate NoRepeats(s: seq<Address>) {
    forall j, k :: 0 <= j < k < |s| ==> s[j] != s[k]
  }

  lemma {:induction false} DestinationsDistinct(cmds: seq<Command>, nsid: nat)
    requires AllCounted(cmds, nsid) && AllApart(cmds)
    ensures NoRepeats(AllDestinations(cmds))
    decreases |cmds|
  {
    if cmds != [] {
      var first, rest := Destinations(cmds[0]), AllDestinations(cmds[1..]);
      forall j, k | 0 <= j < k < |cmds[1..]|
        ensures Disjoint(Destination(cmds[1..][j]), Destination(cmds[1..][k]))
      {
        assert Disjoint(Destination(cmds[j + 1]), Destination(cmds[k + 1]));
      }
      DestinationsDistinct(cmds[1..], nsid);
      forall x | x in first
        ensures x !in rest
      {
        if x in rest {
          var k := DestinationOf(cmds[1..], x);
          NoCommonBlock(cmds[0], cmds[k + 1], x);
          assert false;
        }
      }
      JoinDistinct(first, rest);
    }
  }

  lemma NoCommonBlock(a: Command, b: Command, x: Address)
    requires a.totalBlocks > 0 && b.totalBlocks > 0 && x in Destinations(a) && x in Destinations(b)
    ensures !Disjoint(Destination(a), Destination(b))
  {
  }

  lemma JoinDistinct(a: seq<Address>, b: seq<Address>)
    requires NoRepeats(a) && NoRepeats(b) && forall x :: x in a ==> x !in b
    ensures NoRepeats(a + b)
  {
    forall j, k | 0 <= j < k < |a + b|
      ensures (a + b)[j] != (a + b)[k]
    {
      if j < |a| <= k {
        assert a[j] in a && b[k - |a|] in b;
      }
    }
  }

  /** Some range of one command meets the destination of the other. */
  predicate Touches(reader: Command, writer: Command) {
    exists i :: 0 <= i < |reader.ranges| && RangeOverlaps(reader.ranges[i], writer.dstLba, writer.totalBlocks)
  }

  lemma UntouchedBlocks(reader: Command, writer: Command, x: Address)
    requires Counted(reader) && Counted(writer) && reader.dstNsid == writer.dstNsid
    requires x in Sources(reader, reader.dstNsid) && x in Destinations(writer)
    ensures Touches(reader, writer)
  {
    var srcs := Sources(reader, reader.dstNsid);
    var k :| 0 <= k < |srcs| && srcs[k] == x;
    var i := SourceBlockInRange(reader.dstNsid, reader.ranges, k);
    assert InExtent(x.1, reader.ranges[i].slba, reader.ranges[i].Blocks());
    assert InExtent(x.1, writer.dstLba, writer.totalBlocks);
    OverlapTestExact(reader.ranges[i], writer.dstLba, writer.totalBlocks);
  }

  /** No command's sources meet a destination, its own or another's. */
  ghost predicate NoneTouches(cmds: seq<Command>) {
    forall j, k :: 0 <= j < |cmds| && 0 <= k < |cmds| ==> !Touches(cmds[j], cmds[k])
  }

  /** The block moves of the commands may be interleaved in any way exactly when there is no hazard among
      them, and always if no two commands touch. */
  ghost predicate InterleaveExactly(cmds: seq<Command>) {
    && Moves(AllSources(cmds), AllDestinations(cmds))
    && (OrderIndependent(AllSources(cmds), AllDestinations(cmds)) <==>
        NoHazard(AllSources(cmds), AllDestinations(cmds)))
    && (NoneTouches(cmds) ==> OrderIndependent(AllSources(cmds), AllDestinations(cmds)))
  }

  /** That is so for commands with disjoint destinations. The generator makes the test for each command
      alone, not for every two. */
  lemma TogetherExactly(cmds: seq<Command>, nsid: nat)
    requires AllCounted(cmds, nsid) && AllApart(cmds)
    ensures InterleaveExactly(cmds)
  {
    var srcs, dsts := AllSources(cmds), AllDestinations(cmds);
    SameLength(cmds, nsid);
    DestinationsDistinct(cmds, nsid);
    OrderIndependentExactly(srcs, dsts);
    if NoneTouches(cmds) {
      forall x | x in srcs
        ensures x !in dsts
      {
        if x in dsts {
          var j := SourceOf(cmds, x);
          var k := DestinationOf(cmds, x);
          UntouchedBlocks(cmds[j], cmds[k], x);
        }
      }
      NoSharedNoHazard(srcs, dsts);
    }
  }

  lemma NoSharedNoHazard(srcs: seq<Address>, dsts: seq<Address>)
    requires |srcs| == |dsts| && forall x :: x in srcs ==> x !in dsts
    ensures NoHazard(srcs, dsts)
  {
    forall j, k | 0 <= j < |srcs| && 0 <= k < |srcs|
      ensures srcs[k] != dsts[j]
    {
      assert srcs[k] in srcs && dsts[j] in dsts;
    }
  }

  /** Sources outside the destination window. */
  predicate ReadsOutside(cmd: Command, start: nat, end: nat) {
    forall i :: 0 <= i < |cmd.ranges| ==>
      cmd.ranges[i].slba + cmd.ranges[i].Blocks() <= start || end <= cmd.ranges[i].slba
  }

  lemma OutsideTouchesNothing(c: Config, start: nat, end: nat, reader: Command, writer: Command, srcNsid: nat)
    requires WellFormed(c, start, end, writer, srcNsid) && writer.totalBlocks <= end - start
    requires ReadsOutside(reader, start, end)
    ensures !Touches(reader, writer)
  {
  }

  // ---------------------------------------------------------------- the commands in flight

  /** The commands in flight in the first n slots. */
  function Flying(inflight: map<nat, Command>, n: nat): seq<Command> {
    if n == 0 then []
    else Flying(inflight, n - 1) + if n - 1 in inflight then [inflight[n - 1]] else []
  }

  lemma {:induction false} FlyingMore(m: map<nat, Command>, slot: nat, cmd: Command, n: nat)
    requires slot !in m
    ensures multiset(Flying(m[slot := cmd], n)) ==
            multiset(Flying(m, n)) + if slot < n then multiset{cmd} else multiset{}
  {
    if n > 0 {
      FlyingMore(m, slot, cmd, n - 1);
    }
  }

  lemma {:induction false} FlyingLess(m: map<nat, Command>, m': map<nat, Command>, n: nat)
    requires m'.Keys <= m.Keys && forall s :: s in m' ==> m'[s] == m[s]
    ensures multiset(Flying(m', n)) <= multiset(Flying(m, n))
  {
    if n > 0 {
      FlyingLess(m, m', n - 1);
    }
  }

  function FlyingOf(w: Worker): seq<Command> {
    Flying(w.inflight, |w.pool.slots|)
  }

  /** All commands in flight, worker by worker. */
  function InFlight(ws: seq<Worker>): seq<Command>
    decreases |ws|
  {
    if ws == [] then [] else FlyingOf(ws[0]) + InFlight(ws[1..])
  }

  ghost function Flights(ws: seq<Worker>): seq<multiset<Command>> {
    seq(|ws|, i requires 0 <= i < |ws| => multiset(FlyingOf(ws[i])))
  }

  lemma {:induction false} InFlightIsUnion(ws: seq<Worker>)
    ensures multiset(InFlight(ws)) == Union(Flights(ws))
    decreases |ws|
  {
    if ws != [] {
      InFlightIsUnion(ws[1..]);
      assert Flights(ws)[1..] == Flights(ws[1..]);
    }
  }

  lemma StepFlies(u: Setup, f: Fleet, act: Act)
    requires ValidSetup(u) && f.shared.alloc.Valid() && Enabled(u, f, act) && WorkerInv(u, f.workers[act.i])
    ensures multiset(FlyingOf(Step(u, f.shared, f.workers[act.i], act.l).1)) <=
            multiset(FlyingOf(f.workers[act.i])) + multiset(StepHanded(f, act))
  {
    var w := f.workers[act.i];
    var w' := Step(u, f.shared, w, act.l).1;
    StepKeepsSlotCount(u, f.shared, w, act.l);
    if act.l.Submitted? && act.l.nsFound && act.l.rc == 0 {
      assert w.pc.slot !in w.inflight;
      FlyingMore(w.inflight, w.pc.slot, CommandIn(w.pool.slots[w.pc.slot]), |w.pool.slots|);
    } else {
      OthersFlyLess(u, f.shared, w, act.l);
      FlyingLess(w.inflight, w'.inflight, |w.pool.slots|);
    }
  }

  lemma StepKeepsSlotCount(u: Setup, sh: Shared, w: Worker, l: Label)
    requires ValidSetup(u) && sh.alloc.Valid() && EnabledIn(u, w, l) && WorkerInv(u, w)
    ensures |Step(u, sh, w, l).1.pool.slots| == |w.pool.slots|
  {
    StepKeepsWorkerInv(u, sh, w, l);
  }

  lemma OthersFlyLess(u: Setup, sh: Shared, w: Worker, l: Label)
    requires ValidSetup(u) && sh.alloc.Valid() && EnabledIn(u, w, l)
    requires !(l.Submitted? && l.nsFound && l.rc == 0)
    ensures var m := Step(u, sh, w, l).1.inflight;
            m.Keys <= w.inflight.Keys && forall s :: s in m ==> m[s] == w.inflight[s]
  {
  }

  /** Whatever is in flight was in flight before or was handed over in the run, once for each time. */
  lemma {:induction false} InFlightWereHanded(u: Setup, f: Fleet, depth: nat, acts: seq<Act>)
    requires FleetInv(u, f, depth) && Runs(u, f, acts)
    ensures Union(Flights(Exec(u, f, acts).workers)) <= Union(Flights(f.workers)) + multiset(HandedIn(u, f, acts))
    decreases |acts|
  {
    if acts != [] {
      var act, f' := acts[0], Apply(u, f, acts[0]);
      StepKeepsInv(u, f, depth, act);
      InFlightWereHanded(u, f', depth, acts[1..]);
      StepFlies(u, f, act);
      FlyOn(f.workers, act.i, f'.workers[act.i], StepHanded(f, act), HandedIn(u, f', acts[1..]),
            Union(Flights(Exec(u, f, acts).workers)));
    }
  }

  lemma FlyOn(ws: seq<Worker>, i: nat, w': Worker, handed: seq<Command>, more: seq<Command>, last: multiset<Command>)
    requires i < |ws| && multiset(FlyingOf(w')) <= multiset(FlyingOf(ws[i])) + multiset(handed)
    requires last <= Union(Flights(ws[i := w'])) + multiset(more)
    ensures last <= Union(Flights(ws)) + multiset(handed + more)
  {
    assert Flights(ws[i := w']) == Flights(ws)[i := multiset(FlyingOf(w'))];
    UnionUpdate(Flights(ws), i, multiset(FlyingOf(w')));
    Carry(last, Union(Flights(ws[i := w'])), Union(Flights(ws)), multiset(FlyingOf(w')), multiset(FlyingOf(ws[i])),
          multiset(handed), multiset(more));
  }

  lemma Carry<C>(last: multiset<C>, all': multiset<C>, all: multiset<C>, mine': multiset<C>, mine: multiset<C>,
                 handed: multiset<C>, more: multiset<C>)
    requires mine' <= mine + handed && last <= all' + more && all' + mine == all + mine'
    ensures last <= all + (handed + more)
  {
    forall x
      ensures last[x] <= (all + (handed + more))[x]
    {
      assert mine'[x] <= (mine + handed)[x];
      assert last[x] <= (all' + more)[x];
      assert (all' + mine)[x] == (all + mine')[x];
    }
  }

  /** Nothing generated and not yet handed over, and nothing in flight. */
  ghost predicate Quiet(ws: seq<Worker>) {
    forall i :: 0 <= i < |ws| ==> !ws[i].pc.Ready? && ws[i].inflight == map[]
  }

  lemma {:induction false} QuietFliesNothing(ws: seq<Worker>)
    requires Quiet(ws)
    ensures Union(Flights(ws)) == multiset{}
  {
    forall i | 0 <= i < |ws|
      ensures Flights(ws)[i] == multiset{}
    {
      NothingFlies(|ws[i].pool.slots|);
    }
    UnionOfEmpty(Flights(ws));
  }

  lemma {:induction false} NothingFlies(n: nat)
    ensures Flying(map[], n) == []
  {
    if n > 0 {
      NothingFlies(n - 1);
    }
  }

  /** The commands in flight after a stretch of a run that started with none. */
  lemma FlownFrom(u: Setup, f: Fleet, depth: nat, acts: seq<Act>)
    requires FleetInv(u, f, depth) && Runs(u, f, acts) && Quiet(f.workers)
    ensures multiset(InFlight(Exec(u, f, acts).workers)) <= multiset(HandedIn(u, f, acts))
  {
    QuietFliesNothing(f.workers);
    InFlightWereHanded(u, f, depth, acts);
    InFlightIsUnion(Exec(u, f, acts).workers);
  }

  lemma HandedInWellFormed(u: Setup, f: Fleet, depth: nat, acts: seq<Act>, cmd: Command) returns (srcNsid: nat)
    requires FleetInv(u, f, depth) && Runs(u, f, acts) && cmd in HandedIn(u, f, acts)
    ensures WellFormed(u.config, f.shared.alloc.start, f.shared.alloc.end, cmd, srcNsid)
  {
    RunKeepsInv(u, f, depth, acts);
    HandedInIsHistory(u, f, acts);
    var hs := Exec(u, f, acts).history.handed;
    assert cmd in CommandsOf(hs);
    var k :| 0 <= k < |hs| && hs[k].cmd == cmd;
    srcNsid := hs[k].srcNsid;
  }

  lemma MemberOfSmaller(s: seq<Command>, t: seq<Command>, k: nat)
    requires multiset(s) <= multiset(t) && k < |s|
    ensures s[k] in t
  {
    assert s[k] in multiset(s) && s[k] in multiset(t);
  }

  /** Commands in flight together. After a stretch of any run that starts quiet, has no reset, and whose
      reservations of at most m blocks leave room in the window for one more, all commands in flight,
      those of different workers included, have disjoint destinations; so the device may interleave their
      block moves as it likes exactly when there is no hazard among them, and always if no source meets
      another's destination. Sources that are drawn outside the window are enough for that. */
  lemma InFlightTogether(u: Setup, f: Fleet, depth: nat, before: seq<Act>, acts: seq<Act>, m: nat)
    requires Init(u, f, depth) && Runs(u, f, before) && Runs(u, Exec(u, f, before), acts)
    requires Quiet(Exec(u, f, before).workers) && NeverResets(u, Exec(u, f, before), acts)
    requires FitsWindow(Exec(u, f, before).shared.alloc, Requests(u, Exec(u, f, before), acts), m)
    ensures var cmds := InFlight(Exec(u, Exec(u, f, before), acts).workers);
            && AllApart(cmds) && InterleaveExactly(cmds)
            && (AllOutside(cmds, f.shared.alloc) ==> NoneTouches(cmds))
  {
    ReachableInv(u, f, depth, before);
    var f' := Exec(u, f, before);
    var cmds := InFlight(Exec(u, f', acts).workers);
    FlownFrom(u, f', depth, acts);
    InFlightCounted(u, f', depth, acts, cmds);
    InFlightApart(u, f, depth, before, acts, m, cmds);
    TogetherExactly(cmds, u.config.dstNsid);
    if AllOutside(cmds, f.shared.alloc) {
      OutsideNoneTouches(u, f', depth, acts, cmds);
    }
  }

  ghost predicate AllOutside(cmds: seq<Command>, a: Allocator) {
    forall k :: 0 <= k < |cmds| ==> ReadsOutside(cmds[k], a.start, a.end) && cmds[k].totalBlocks <= a.Span()
  }

  lemma InFlightCounted(u: Setup, f: Fleet, depth: nat, acts: seq<Act>, cmds: seq<Command>)
    requires FleetInv(u, f, depth) && Runs(u, f, acts) && multiset(cmds) <= multiset(HandedIn(u, f, acts))
    ensures AllCounted(cmds, u.config.dstNsid)
  {
    forall k | 0 <= k < |cmds|
      ensures Counted(cmds[k]) && cmds[k].dstNsid == u.config.dstNsid
    {
      MemberOfSmaller(cmds, HandedIn(u, f, acts), k);
      var srcNsid := HandedInWellFormed(u, f, depth, acts, cmds[k]);
    }
  }

  lemma InFlightApart(u: Setup, f: Fleet, depth: nat, before: seq<Act>, acts: seq<Act>, m: nat, cmds: seq<Command>)
    requires Init(u, f, depth) && Runs(u, f, before) && Runs(u, Exec(u, f, before), acts)
    requires Quiet(Exec(u, f, before).workers) && NeverResets(u, Exec(u, f, before), acts)
    requires FitsWindow(Exec(u, f, before).shared.alloc, Requests(u, Exec(u, f, before), acts), m)
    requires multiset(cmds) <= multiset(HandedIn(u, Exec(u, f, before), acts))
    ensures AllApart(cmds)
  {
    var handed := HandedIn(u, Exec(u, f, before), acts);
    forall j, k | 0 <= j < k < |cmds|
      ensures Disjoint(Destination(cmds[j]), Destination(cmds[k]))
    {
      var p, q := TwoOf(cmds, handed, j, k);
      HandedWriteApart(u, f, depth, before, acts, m, Min(p, q), Max(p, q));
    }
  }

  lemma OutsideNoneTouches(u: Setup, f: Fleet, depth: nat, acts: seq<Act>, cmds: seq<Command>)
    requires FleetInv(u, f, depth) && Runs(u, f, acts) && multiset(cmds) <= multiset(HandedIn(u, f, acts))
    requires AllOutside(cmds, f.shared.alloc)
    ensures NoneTouches(cmds)
  {
    forall j, k | 0 <= j < |cmds| && 0 <= k < |cmds|
      ensures !Touches(cmds[j], cmds[k])
    {
      MemberOfSmaller(cmds, HandedIn(u, f, acts), k);
      var srcNsid := HandedInWellFormed(u, f, depth, acts, cmds[k]);
      OutsideTouchesNothing(u.config, f.shared.alloc.start, f.shared.alloc.end, cmds[j], cmds[k], srcNsid);
    }
  }

  // ---------------------------------------------------------------- commands that do collide

  const SMALL := Setup(Config(1, 0, [], 1, [Some(Namespace(1, 1000))], false, false), 1000, 1)

  /** One block copied from src to dst. */
  function OneBlock(src: nat, dst: nat): Command {
    Command(1, dst, [SourceRange(src, 0)], 1)
  }

  lemma SmallDraw(src: nat, cursor: nat)
    requires src < 900 && cursor < 999 && src != cursor
    ensures ValidSetup(SMALL) && ValidDraws(SMALL.config, Draws(1, 0, [src]))
    ensures Generate(SMALL.config, 1000, Allocator(0, 1000, cursor), 1, Draws(1, 0, [src])) ==
            Accepted(Allocator(0, 1000, cursor + 1), OneBlock(src, cursor), 1)
  {
    var rs := SourceRanges(1000, 1000, 1, [src][..1]);
    RemainderBelow(src, 900);
    assert rs == [SourceRange(src, 0)] && rs[..0] == [];
    assert TotalBlocks(rs) == 1;
    assert Place(SMALL.config, Allocator(0, 1000, cursor), rs, 1) ==
           Accepted(Allocator(0, 1000, cursor + 1), OneBlock(src, cursor), 1);
  }

  /** One worker of depth 2 that has just started, with a window over the whole namespace. */
  function SmallFleet(): Fleet {
    var w := Worker(2, 0, 0, true, false, Pool(0, FreshSlots(4, 1)), Boundary, map[], 0, 0);
    Fleet(Shared(Allocator(0, 1000, 0), 0, 0, 0, NO_ERRORS), [w], History(0, [], [], []))
  }

  lemma SmallFleetStarts() returns (f: Fleet)
    ensures ValidSetup(SMALL) && Init(SMALL, f, 2) && FleetInv(SMALL, f, 2)
    ensures |f.workers| == 1 && f.shared.alloc == Allocator(0, 1000, 0)
    ensures MaySubmit(f.workers[0]) && f.workers[0].outstanding == 0 && InFlight(f.workers) == []
  {
    f := SmallFleet();
    SmallDraw(500, 0);
    assert Init(SMALL, f, 2);
    InitEstablishesInv(SMALL, f, 2);
    NothingFlies(4);
    OnlyWorkerFlies(f.workers);
  }

  /** Its next command. */
  lemma SubmitSmall(f: Fleet, src: nat, cursor: nat) returns (acts: seq<Act>)
    requires ValidSetup(SMALL) && FleetInv(SMALL, f, 2)
    requires |f.workers| == 1 && f.shared.alloc == Allocator(0, 1000, cursor)
    requires MaySubmit(f.workers[0]) && f.workers[0].outstanding < 2
    requires src < 900 && cursor < 999 && src != cursor
    ensures Runs(SMALL, f, acts)
    ensures var f' := Exec(SMALL, f, acts);
            && FleetInv(SMALL, f', 2) && |f'.workers| == 1 && f'.shared.alloc == Allocator(0, 1000, cursor + 1)
            && MaySubmit(f'.workers[0]) && f'.workers[0].outstanding == f.workers[0].outstanding + 1
            && multiset(InFlight(f'.workers)) == multiset(InFlight(f.workers)) + multiset{OneBlock(src, cursor)}
  {
    SmallDraw(src, cursor);
    acts := SubmitDrawn(SMALL, f, 2, 0, Draws(1, 0, [src]));
    var f' := Exec(SMALL, f, acts);
    GainsOne(SMALL, f.workers[0], f'.workers[0], 2, OneBlock(src, cursor));
    OnlyWorkerFlies(f.workers);
    OnlyWorkerFlies(f'.workers);
  }

  lemma OnlyWorkerFlies(ws: seq<Worker>)
    requires |ws| == 1
    ensures InFlight(ws) == FlyingOf(ws[0])
  {
    assert ws[1..] == [];
  }

  lemma GainsOne(u: Setup, w: Worker, w': Worker, depth: nat, cmd: Command)
    requires WorkerInv(u, w) && WorkerInv(u, w') && w.depth == w'.depth == depth && GotInFlight(w, w', cmd)
    ensures multiset(FlyingOf(w')) == multiset(FlyingOf(w)) + multiset{cmd}
  {
    var slot: nat :| slot !in w.inflight && w'.inflight == w.inflight[slot := cmd];
    assert slot in w'.inflight && slot in InUse(w'.pool.slots);
    FlyingMore(w.inflight, slot, cmd, |w.pool.slots|);
  }

  /** Two commands of one worker, accepted with a window over the whole namespace, of which the first
      copies block 500 to block 0 and the second block 0 to block 1. Each is order independent on its own,
      and together they are not. */
  lemma TwoCommandsCanCollide() returns (u: Setup, f: Fleet, acts: seq<Act>)
    ensures Init(u, f, 2) && Runs(u, f, acts)
    ensures var cmds := InFlight(Exec(u, f, acts).workers);
            && multiset(cmds) == multiset{OneBlock(500, 0), OneBlock(0, 1)}
            && |AllSources(cmds)| == |AllDestinations(cmds)|
            && !OrderIndependent(AllSources(cmds), AllDestinations(cmds))
  {
    u := SMALL;
    f := SmallFleetStarts();
    var first := SubmitSmall(f, 500, 0);
    var second := SubmitSmall(Exec(u, f, first), 0, 1);
    RunThenRun(u, f, first, second);
    acts := first + second;
    BothFly(InFlight(f.workers), InFlight(Exec(u, f, first).workers), InFlight(Exec(u, f, acts).workers));
  }

  lemma BothFly(none: seq<Command>, one: seq<Command>, both: seq<Command>)
    requires none == [] && multiset(one) == multiset(none) + multiset{OneBlock(500, 0)}
    requires multiset(both) == multiset(one) + multiset{OneBlock(0, 1)}
    ensures multiset(both) == multiset{OneBlock(500, 0), OneBlock(0, 1)}
    ensures |AllSources(both)| == |AllDestinations(both)|
    ensures !OrderIndependent(AllSources(both), AllDestinations(both))
  {
    Collide(both);
  }

  lemma Collide(cmds: seq<Command>)
    requires multiset(cmds) == multiset{OneBlock(500, 0), OneBlock(0, 1)}
    ensures |AllSources(cmds)| == |AllDestinations(cmds)|
    ensures !OrderIndependent(AllSources(cmds), AllDestinations(cmds))
  {
    var a, b := OneBlock(500, 0), OneBlock(0, 1);
    EitherOrder(cmds, a, b);
    OneMove(500, 0);
    OneMove(0, 1);
    PairOfMoves(a, b);
    PairOfMoves(b, a);
    var srcs, dsts := AllSources(cmds), AllDestinations(cmds);
    var i := if cmds == [a, b] then 0 else 1;
    assert srcs[i] == (1, 500) && srcs[1 - i] == (1, 0) && dsts[i] == (1, 0) && dsts[1 - i] == (1, 1);
    assert srcs[1 - i] == dsts[i] && srcs[i] != dsts[i];
    OrderIndependentExactly(srcs, dsts);
  }

  lemma PairOfMoves(a: Command, b: Command)
    ensures AllSources([a, b]) == Sources(a, a.dstNsid) + Sources(b, b.dstNsid)
    ensures AllDestinations([a, b]) == Destinations(a) + Destinations(b)
  {
    assert [a, b][1..] == [b] && [b][1..] == [];
    assert AllSources([b]) == Sources(b, b.dstNsid) + [];
    assert AllDestinations([b]) == Destinations(b) + [];
  }

  lemma EitherOrder(cmds: seq<Command>, a: Command, b: Command)
    requires multiset(cmds) == multiset{a, b}
    ensures cmds == [a, b] || cmds == [b, a]
  {
    assert |multiset(cmds)| == |cmds| && |multiset{a, b}| == 2;
    assert cmds == [cmds[0], cmds[1]];
    assert multiset{cmds[0], cmds[1]} == multiset{a, b};
    assert multiset{cmds[1]} == multiset{a, b} - multiset{cmds[0]};
    assert cmds[0] in multiset{a, b};
    if cmds[0] == a {
      assert multiset{a, b} - multiset{a} == multiset{b};
      assert cmds[1] in multiset{b};
    } else {
      assert multiset{a, b} - multiset{b} == multiset{a};
      assert cmds[1] in multiset{a};
    }
  }

  lemma OneMove(src: nat, dst: nat)
    ensures Sources(OneBlock(src, dst), 1) == [(1, src)] && Destinations(OneBlock(src, dst)) == [(1, dst)]
  {
    assert [SourceRange(src, 0)][..0] == [];
  }
}
