/** What a Copy command does to a device: the destination becomes the concatenation of the source ranges
    (section 3.2.2 of the NVM Command Set Specification, Revision 1.0). A device may move the blocks one
    at a time and in any order; this module says for which commands that makes no difference. */
module CopySemantics {
  import opened Words
  import opened CopyCommand
  import opened DestinationLba
  import opened Generator

  /** A block address: namespace and LBA. */
  type Address = (nat, nat)
  type Device<B> = map<Address, B>

  function BlocksOf(nsid: nat, lba: nat, n: nat): (s: seq<Address>)
    ensures |s| == n && forall k :: 0 <= k < n ==> s[k] == (nsid, lba + k)
  {
    seq(n, (k: nat) => (nsid, lba + k))
  }

  /** The source ranges laid end to end. */
  function SourceBlocks(nsid: nat, ranges: seq<SourceRange>): (s: seq<Address>)
    ensures |s| == TotalBlocks(ranges)
    decreases |ranges|
  {
    if ranges == [] then []
    else
      var r := ranges[|ranges| - 1];
      SourceBlocks(nsid, ranges[..|ranges| - 1]) + BlocksOf(nsid, r.slba, r.Blocks())
  }

  /** A source block lies in one of the ranges. */
  lemma {:induction false} SourceBlockInRange(nsid: nat, ranges: seq<SourceRange>, k: nat) returns (i: nat)
    requires k < TotalBlocks(ranges)
    ensures i < |ranges|
    ensures SourceBlocks(nsid, ranges)[k].0 == nsid
    ensures ranges[i].slba <= SourceBlocks(nsid, ranges)[k].1 < ranges[i].slba + ranges[i].Blocks()
    decreases |ranges|
  {
    var init := ranges[..|ranges| - 1];
    if k < TotalBlocks(init) {
      i := SourceBlockInRange(nsid, init, k);
    } else {
      i := |ranges| - 1;
    }
  }

  /** And every block of every range is a source block. */
  lemma {:induction false} RangeBlockIsSource(nsid: nat, ranges: seq<SourceRange>, i: nat, x: nat) returns (k: nat)
    requires i < |ranges| && ranges[i].slba <= x < ranges[i].slba + ranges[i].Blocks()
    ensures k < TotalBlocks(ranges) && SourceBlocks(nsid, ranges)[k] == (nsid, x)
    decreases |ranges|
  {
    var init := ranges[..|ranges| - 1];
    if i < |init| {
      k := RangeBlockIsSource(nsid, init, i, x);
    } else {
      k := TotalBlocks(init) + (x - ranges[i].slba);
    }
  }

  // ---------------------------------------------------------------- block-by-block copying

  /** A list of block moves: block k goes from srcs[k] to dsts[k], and no two go to the same place. */
  ghost predicate Moves(srcs: seq<Address>, dsts: seq<Address>) {
    && |srcs| == |dsts|
    && forall j, k :: 0 <= j < k < |dsts| ==> dsts[j] != dsts[k]
  }

  /** An order in which to make the moves: every move at least once. */
  ghost predicate Covers(order: seq<nat>, n: nat) {
    && (forall i :: 0 <= i < |order| ==> order[i] < n)
    && (forall k: nat :: k < n ==> k in order)
  }

  /** The device after the moves in the given order, each reading what the device holds at that moment. */
  function Execute<B>(d: Device<B>, srcs: seq<Address>, dsts: seq<Address>, order: seq<nat>): (d': Device<B>)
    requires |srcs| == |dsts|
    requires forall k :: 0 <= k < |srcs| ==> srcs[k] in d
    requires forall i :: 0 <= i < |order| ==> order[i] < |srcs|
    ensures d.Keys <= d'.Keys
    decreases |order|
  {
    if order == [] then d
    else
      var d1 := Execute(d, srcs, dsts, order[..|order| - 1]);
      var k := order[|order| - 1];
      d1[dsts[k] := d1[srcs[k]]]
  }

  /** The specified outcome: each destination block holds what its source block held at the start, and
      nothing else changed. */
  ghost predicate IsConcatenation<B>(d: Device<B>, d': Device<B>, srcs: seq<Address>, dsts: seq<Address>)
    requires |srcs| == |dsts|
  {
    && (forall k :: 0 <= k < |srcs| ==> srcs[k] in d && dsts[k] in d' && d'[dsts[k]] == d[srcs[k]])
    && (forall a :: a in d && a !in dsts ==> a in d' && d'[a] == d[a])
  }

  /** A source block that is also a destination is only ever overwritten with itself. */
  ghost predicate NoHazard(srcs: seq<Address>, dsts: seq<Address>)
    requires |srcs| == |dsts|
  {
    forall j, k :: 0 <= j < |srcs| && 0 <= k < |srcs| && srcs[k] == dsts[j] ==> srcs[j] == dsts[j]
  }

  lemma {:induction false} ExecuteWithoutHazard<B>(d: Device<B>, srcs: seq<Address>, dsts: seq<Address>,
                                                   order: seq<nat>)
    requires Moves(srcs, dsts) && NoHazard(srcs, dsts)
    requires forall k :: 0 <= k < |srcs| ==> srcs[k] in d
    requires forall i :: 0 <= i < |order| ==> order[i] < |srcs|
    ensures var d' := Execute(d, srcs, dsts, order);
            && (forall k: nat :: k < |srcs| && k in order ==> dsts[k] in d' && d'[dsts[k]] == d[srcs[k]])
            && (forall k: nat :: k < |srcs| && k !in order && dsts[k] in d ==> d'[dsts[k]] == d[dsts[k]])
            && (forall a :: a in d && a !in dsts ==> d'[a] == d[a])
    decreases |order|
  {
    if order != [] {
      var init, k := order[..|order| - 1], order[|order| - 1];
      ExecuteWithoutHazard(d, srcs, dsts, init);
      assert order == init + [k];
      var d1 := Execute(d, srcs, dsts, init);
      assert d1[srcs[k]] == d[srcs[k]] by {
        if srcs[k] in dsts {
          var j :| 0 <= j < |dsts| && dsts[j] == srcs[k];
          assert srcs[j] == dsts[j];
        }
      }
    }
  }

  /** Without a hazard every order gives the specified outcome. */
  lemma AnyOrderConcatenates<B>(d: Device<B>, srcs: seq<Address>, dsts: seq<Address>, order: seq<nat>)
    requires Moves(srcs, dsts) && NoHazard(srcs, dsts)
    requires forall k :: 0 <= k < |srcs| ==> srcs[k] in d
    requires Covers(order, |srcs|)
    ensures IsConcatenation(d, Execute(d, srcs, dsts, order), srcs, dsts)
  {
    ExecuteWithoutHazard(d, srcs, dsts, order);
  }

  /** Every move exactly once. */
  ghost predicate Permutation(order: seq<nat>, n: nat) {
    Covers(order, n) && forall i, j :: 0 <= i < j < |order| ==> order[i] != order[j]
  }

  function OthersThan(j: nat, k: nat, n: nat): (order: seq<nat>)
    ensures forall i :: 0 <= i < |order| ==> order[i] < n && order[i] != j && order[i] != k
    ensures forall i: nat :: i < n && i != j && i != k ==> i in order
    ensures forall i, l :: 0 <= i < l < |order| ==> order[i] != order[l]
  {
    if n == 0 then []
    else OthersThan(j, k, n - 1) + if n - 1 == j || n - 1 == k then [] else [n - 1]
  }

  /** Moves to other places leave a block alone. */
  lemma {:induction false} OtherMovesKeep<B>(d: Device<B>, srcs: seq<Address>, dsts: seq<Address>,
                                             first: seq<nat>, rest: seq<nat>, k: nat)
    requires Moves(srcs, dsts) && k < |srcs|
    requires forall i :: 0 <= i < |srcs| ==> srcs[i] in d
    requires forall i :: 0 <= i < |first| ==> first[i] < |srcs|
    requires forall i :: 0 <= i < |rest| ==> rest[i] < |srcs| && rest[i] != k
    requires dsts[k] in Execute(d, srcs, dsts, first)
    ensures dsts[k] in Execute(d, srcs, dsts, first + rest)
    ensures Execute(d, srcs, dsts, first + rest)[dsts[k]] == Execute(d, srcs, dsts, first)[dsts[k]]
    decreases |rest|
  {
    if rest == [] {
      assert first + rest == first;
    } else {
      var init := rest[..|rest| - 1];
      assert (first + rest)[..|first + rest| - 1] == first + init;
      OtherMovesKeep(d, srcs, dsts, first, init, k);
    }
  }

  /** With a hazard the order matters: for some device, making move j first, then move k, which reads
      what move j wrote, and then all the others gives another outcome. */
  lemma HazardBreaksSomeOrder(srcs: seq<Address>, dsts: seq<Address>, j: nat, k: nat)
    returns (d: Device<bool>, order: seq<nat>)
    requires Moves(srcs, dsts)
    requires j < |srcs| && k < |srcs| && srcs[k] == dsts[j] && srcs[j] != dsts[j]
    ensures forall i :: 0 <= i < |srcs| ==> srcs[i] in d
    ensures Permutation(order, |srcs|)
    ensures !IsConcatenation(d, Execute(d, srcs, dsts, order), srcs, dsts)
  {
    // Only the block that move j brings in is true.
    d := map a | a in srcs :: a == srcs[j];
    var rest := OthersThan(j, k, |srcs|);
    order := [j, k] + rest;
    forall i: nat | i < |srcs|
      ensures i in order
    {
      assert order[0] == j && order[1] == k;
      assert i == j || i == k || i in rest;
    }
    TwoMoves(d, srcs, dsts, j, k);
    OtherMovesKeep(d, srcs, dsts, [j, k], rest, k);
  }

  lemma TwoMoves<B>(d: Device<B>, srcs: seq<Address>, dsts: seq<Address>, j: nat, k: nat)
    requires Moves(srcs, dsts) && j < |srcs| && k < |srcs|
    requires forall i :: 0 <= i < |srcs| ==> srcs[i] in d
    requires srcs[k] == dsts[j]
    ensures dsts[k] in Execute(d, srcs, dsts, [j, k])
    ensures Execute(d, srcs, dsts, [j, k])[dsts[k]] == d[srcs[j]]
  {
    assert [j, k][..1] == [j];
    assert [j][..0] == [];
    assert Execute(d, srcs, dsts, [j]) == d[dsts[j] := d[srcs[j]]];
  }

  /** The order of the moves is irrelevant for every device exactly when there is no hazard. */
  lemma OrderIndependentExactly(srcs: seq<Address>, dsts: seq<Address>)
    requires Moves(srcs, dsts)
    ensures NoHazard(srcs, dsts) <==> OrderIndependent(srcs, dsts)
  {
    if NoHazard(srcs, dsts) {
      forall d: Device<bool>, order: seq<nat> | Readable(d, srcs) && Permutation(order, |srcs|)
        ensures IsConcatenation(d, Execute(d, srcs, dsts, order), srcs, dsts)
      {
        AnyOrderConcatenates(d, srcs, dsts, order);
      }
    } else {
      var j, k :| 0 <= j < |srcs| && 0 <= k < |srcs| && srcs[k] == dsts[j] && srcs[j] != dsts[j];
      var d, order := HazardBreaksSomeOrder(srcs, dsts, j, k);
      assert Readable(d, srcs);
    }
  }

  ghost predicate Readable<B>(d: Device<B>, srcs: seq<Address>) {
    forall k :: 0 <= k < |srcs| ==> srcs[k] in d
  }

  ghost predicate OrderIndependent(srcs: seq<Address>, dsts: seq<Address>)
    requires |srcs| == |dsts|
  {
    forall d: Device<bool>, order: seq<nat> :: Readable(d, srcs) && Permutation(order, |srcs|) ==>
      IsConcatenation(d, Execute(d, srcs, dsts, order), srcs, dsts)
  }

  // ---------------------------------------------------------------- the overlap test

  predicate InExtent(x: nat, lba: nat, blocks: nat) {
    lba <= x < lba + blocks
  }

  /** The test on half-open extents is exact: it holds when, and only when, some block is in both. */
  lemma OverlapTestExact(r: SourceRange, dstLba: nat, totalBlocks: nat)
    requires totalBlocks > 0
    ensures RangeOverlaps(r, dstLba, totalBlocks) <==>
            exists x: nat :: InExtent(x, r.slba, r.Blocks()) && InExtent(x, dstLba, totalBlocks)
  {
    if RangeOverlaps(r, dstLba, totalBlocks) {
      var x := Max(r.slba, dstLba);
      assert InExtent(x, r.slba, r.Blocks()) && InExtent(x, dstLba, totalBlocks);
    }
  }

  function Sources(cmd: Command, srcNsid: nat): seq<Address> {
    SourceBlocks(srcNsid, cmd.ranges)
  }

  function Destinations(cmd: Command): seq<Address> {
    BlocksOf(cmd.dstNsid, cmd.dstLba, cmd.totalBlocks)
  }

  /** Read in the destination namespace, a command shares a block between source and destination exactly
      when the generator's test says so. */
  lemma SharedBlockExactly(cmd: Command)
    requires cmd.totalBlocks == TotalBlocks(cmd.ranges) > 0
    ensures Overlaps(cmd) <==> exists k :: 0 <= k < cmd.totalBlocks && Sources(cmd, cmd.dstNsid)[k] in Destinations(cmd)
  {
    var srcs, dsts := Sources(cmd, cmd.dstNsid), Destinations(cmd);
    if Overlaps(cmd) {
      var i :| 0 <= i < |cmd.ranges| && RangeOverlaps(cmd.ranges[i], cmd.dstLba, cmd.totalBlocks);
      OverlapTestExact(cmd.ranges[i], cmd.dstLba, cmd.totalBlocks);
      var x: nat :| InExtent(x, cmd.ranges[i].slba, cmd.ranges[i].Blocks()) && InExtent(x, cmd.dstLba, cmd.totalBlocks);
      var k := RangeBlockIsSource(cmd.dstNsid, cmd.ranges, i, x);
      assert dsts[x - cmd.dstLba] == srcs[k];
    }
    if k :| 0 <= k < cmd.totalBlocks && srcs[k] in dsts {
      var j :| 0 <= j < |dsts| && dsts[j] == srcs[k];
      var i := SourceBlockInRange(cmd.dstNsid, cmd.ranges, k);
      assert InExtent(srcs[k].1, cmd.ranges[i].slba, cmd.ranges[i].Blocks());
      assert InExtent(srcs[k].1, cmd.dstLba, cmd.totalBlocks);
      OverlapTestExact(cmd.ranges[i], cmd.dstLba, cmd.totalBlocks);
    }
  }

  // ---------------------------------------------------------------- accepted commands

  /** Source and destination of an accepted command have no block in common. */
  lemma AcceptedIsDisjoint(c: Config, start: nat, end: nat, cmd: Command, srcNsid: nat)
    requires WellFormed(c, start, end, cmd, srcNsid)
    ensures Moves(Sources(cmd, srcNsid), Destinations(cmd))
    ensures forall k :: 0 <= k < cmd.totalBlocks ==> Sources(cmd, srcNsid)[k] !in Destinations(cmd)
  {
    SharedBlockExactly(cmd);
    forall k | 0 <= k < cmd.totalBlocks
      ensures Sources(cmd, srcNsid)[k] !in Destinations(cmd)
    {
      var i := SourceBlockInRange(srcNsid, cmd.ranges, k);
    }
  }

  /** Order independence. However the device orders the block moves of an accepted command, and even if
      it repeats some, the destination ends up as the concatenation of the original source ranges and
      every source block is as it was. */
  lemma AcceptedCopyIsOrderIndependent<B>(c: Config, start: nat, end: nat, cmd: Command, srcNsid: nat,
                                          d: Device<B>, order: seq<nat>)
    requires WellFormed(c, start, end, cmd, srcNsid)
    requires Readable(d, Sources(cmd, srcNsid)) && Covers(order, cmd.totalBlocks)
    ensures var srcs, dsts := Sources(cmd, srcNsid), Destinations(cmd);
            var d' := Execute(d, srcs, dsts, order);
            && IsConcatenation(d, d', srcs, dsts)
            && (forall k :: 0 <= k < cmd.totalBlocks ==> d'[srcs[k]] == d[srcs[k]])
  {
    AcceptedIsDisjoint(c, start, end, cmd, srcNsid);
    AnyOrderConcatenates(d, Sources(cmd, srcNsid), Destinations(cmd), order);
  }

  /** And the other way round: an attempt is accepted exactly when the range size is possible, the
      reserved destination fits its namespace, as far as that is known, and no block is both read and
      written. That the block count alone fits is no condition of its own; it only decides whether a
      rejected attempt has used up a destination. */
  lemma AcceptedExactly(c: Config, lbaNsSize: nat, a: Allocator, rangeSize: nat, d: Draws)
    requires ValidConfig(c) && ValidDraws(c, d) && lbaNsSize < U64 && a.Valid()
    ensures var src := EffectiveSource(c, d);
            var size, dstSize := NsSize(c.namespaces, src), NsSize(c.namespaces, c.dstNsid);
            Generate(c, lbaNsSize, a, rangeSize, d).Accepted? <==>
              && 0 < rangeSize < size && rangeSize <= MAX_RANGE_BLOCKS
              && var ranges := SourceRanges(lbaNsSize, size, rangeSize, d.lbas[..NumRanges(c, d)]);
                 var total := TotalBlocks(ranges);
                 var cmd := Command(c.dstNsid, Reserve(a, total).0, ranges, total);
                 && (dstSize > 0 ==> cmd.dstLba + total <= dstSize)
                 && (src == c.dstNsid ==> forall k :: 0 <= k < total ==> Sources(cmd, src)[k] !in Destinations(cmd))
  {
    var src := EffectiveSource(c, d);
    var size := NsSize(c.namespaces, src);
    if 0 < rangeSize < size && rangeSize <= MAX_RANGE_BLOCKS {
      var n := NumRanges(c, d);
      var ranges := SourceRanges(lbaNsSize, size, rangeSize, d.lbas[..n]);
      EqualRangesTotal(ranges, rangeSize);
      MulMono(1, n, rangeSize);
      SharedBlockExactly(Command(c.dstNsid, Reserve(a, TotalBlocks(ranges)).0, ranges, TotalBlocks(ranges)));
    }
  }

  // ---------------------------------------------------------------- the command as it is handed over

  /** The example: two namespaces of 100 blocks, one range of two blocks drawn at LBA 10 for namespace 2,
      and the destination cursor of namespace 1 at 11. */
  const EXAMPLE_CONFIG := Config(1, 1, [2], 1, [Some(Namespace(1, 100)), Some(Namespace(2, 100))], true, true)
  const EXAMPLE_DRAWS := Draws(1, 0, [10])
  const EXAMPLE_COMMAND := Command(1, 11, [SourceRange(10, 1)], 2)

  lemma ExampleIsAccepted()
    ensures ValidConfig(EXAMPLE_CONFIG) && ValidDraws(EXAMPLE_CONFIG, EXAMPLE_DRAWS)
    ensures Generate(EXAMPLE_CONFIG, 100, Allocator(0, 100, 11), 2, EXAMPLE_DRAWS) ==
            Accepted(Allocator(0, 100, 13), EXAMPLE_COMMAND, 2)
  {
    var c, d := EXAMPLE_CONFIG, EXAMPLE_DRAWS;
    assert c.namespaces[1..][0] == Some(Namespace(2, 100));
    assert NsSize(c.namespaces, 2) == 100 && NsSize(c.namespaces, 1) == 100;
    var rs := SourceRanges(100, 100, 2, d.lbas[..1]);
    assert rs == [SourceRange(10, 1)] && rs[..0] == [];
    assert TotalBlocks(rs) == 2;
    assert Reserve(Allocator(0, 100, 11), 2) == (11, Allocator(0, 100, 13));
    assert Place(c, Allocator(0, 100, 11), rs, 2) == Accepted(Allocator(0, 100, 13), EXAMPLE_COMMAND, 2);
  }

  /** The command carries no source namespace. Read in the destination namespace, a command that the
      generator accepted for another one can overwrite one of its own source blocks, and then the order
      independence of the accepted command is lost. */
  lemma HandedOverCommandCanOverlap() returns (c: Config, a: Allocator, d: Draws)
    ensures ValidConfig(c) && ValidDraws(c, d) && a.Valid()
    ensures var r := Generate(c, 100, a, 2, d);
            && r.Accepted? && r.srcNsid != r.cmd.dstNsid
            && !OrderIndependent(Sources(r.cmd, r.cmd.dstNsid), Destinations(r.cmd))
  {
    ExampleIsAccepted();
    c, a, d := EXAMPLE_CONFIG, Allocator(0, 100, 11), EXAMPLE_DRAWS;
    var srcs, dsts := Sources(EXAMPLE_COMMAND, 1), Destinations(EXAMPLE_COMMAND);
    assert EXAMPLE_COMMAND.ranges[..0] == [];
    assert srcs == [(1, 10), (1, 11)];
    assert srcs[1] == dsts[0] && srcs[0] != dsts[0];
    OrderIndependentExactly(srcs, dsts);
  }

  /** As handed over, the order of the moves is irrelevant exactly when no block is overwritten with
      another one before it is read. The overlap test guarantees that, and the generator makes the test
      whenever the sources were drawn for the destination namespace. */
  lemma HandedOverCommandSafeExactly(c: Config, start: nat, end: nat, cmd: Command, srcNsid: nat)
    requires WellFormed(c, start, end, cmd, srcNsid)
    ensures Moves(Sources(cmd, cmd.dstNsid), Destinations(cmd))
    ensures var srcs, dsts := Sources(cmd, cmd.dstNsid), Destinations(cmd);
            && (OrderIndependent(srcs, dsts) <==> NoHazard(srcs, dsts))
            && (!Overlaps(cmd) ==> OrderIndependent(srcs, dsts))
            && (srcNsid == cmd.dstNsid ==> OrderIndependent(srcs, dsts))
  {
    SharedBlockExactly(cmd);
    OrderIndependentExactly(Sources(cmd, cmd.dstNsid), Destinations(cmd));
  }
}
