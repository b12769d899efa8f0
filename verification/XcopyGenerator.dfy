/** The generator that turns random draws into a Copy command (src/xcopy_generator.cpp). */
module Generator {
  import opened Words
  import opened CopyCommand
  import opened DestinationLba

  const MAX_RANGE_BLOCKS: nat := 0x1_0000
  const MAX_COMMAND_BLOCKS: nat := 16 * MAX_RANGE_BLOCKS

  datatype Namespace = Namespace(nsid: nat, sectors: nat)

  /** What the generator is constructed with; a missing namespace is a null pointer in the list. */
  datatype Config = Config(
    maxRanges: nat, fixedRanges: nat, srcNsids: seq<nat>, dstNsid: nat,
    namespaces: seq<Option<Namespace>>, crossEnabled: bool, crossSupported: bool)

  /** The bounds that Config::validate enforces (src/config_manager.cpp:47-61), and 64-bit sizes. */
  ghost predicate ValidConfig(c: Config) {
    && 1 <= c.maxRanges <= 16 && c.fixedRanges <= c.maxRanges
    && forall i :: 0 <= i < |c.namespaces| && c.namespaces[i].Some? ==> c.namespaces[i].value.sectors < U64
  }

  /** The random draws one attempt may consume: a range count, an index into the source namespaces and
      one 64-bit number for each range. */
  datatype Draws = Draws(numRanges: nat, pick: nat, lbas: seq<nat>)

  ghost predicate ValidDraws(c: Config, d: Draws) {
    && 1 <= d.numRanges <= c.maxRanges
    && (c.srcNsids != [] ==> d.pick < |c.srcNsids|)
    && |d.lbas| >= c.maxRanges
  }

  function NumRanges(c: Config, d: Draws): nat {
    if c.fixedRanges > 0 then c.fixedRanges else d.numRanges
  }

  predicate CrossNamespace(c: Config) {
    c.crossEnabled && c.crossSupported
  }

  function EffectiveSource(c: Config, d: Draws): nat
    requires ValidDraws(c, d)
  {
    if CrossNamespace(c) && c.srcNsids != [] then c.srcNsids[d.pick] else c.dstNsid
  }

  /** The size of the first listed namespace with this id, and zero when there is none. */
  function NsSize(namespaces: seq<Option<Namespace>>, nsid: nat): nat {
    if namespaces == [] then 0
    else if namespaces[0].Some? && namespaces[0].value.nsid == nsid then namespaces[0].value.sectors
    else NsSize(namespaces[1..], nsid)
  }

  lemma {:induction false} NsSizeMeaning(namespaces: seq<Option<Namespace>>, nsid: nat) returns (i: nat)
    ensures i <= |namespaces|
    ensures forall k :: 0 <= k < i && namespaces[k].Some? ==> namespaces[k].value.nsid != nsid
    ensures i < |namespaces| ==> namespaces[i].Some? && namespaces[i].value == Namespace(nsid, NsSize(namespaces, nsid))
    ensures i == |namespaces| ==> NsSize(namespaces, nsid) == 0
    decreases |namespaces|
  {
    i := 0;
    if namespaces != [] && !(namespaces[0].Some? && namespaces[0].value.nsid == nsid) {
      i := NsSizeMeaning(namespaces[1..], nsid);
      i := i + 1;
    }
  }

  lemma NsSizeBounded(namespaces: seq<Option<Namespace>>, nsid: nat)
    requires forall i :: 0 <= i < |namespaces| && namespaces[i].Some? ==> namespaces[i].value.sectors < U64
    ensures NsSize(namespaces, nsid) < U64
  {
    var i := NsSizeMeaning(namespaces, nsid);
  }

  // ---------------------------------------------------------------- the command

  /** The i-th source range: a random LBA, moved back if it does not leave room for the range. */
  function SourceRangeFor(lbaNsSize: nat, nsSize: nat, rangeSize: nat, draw: nat): SourceRange
    requires lbaNsSize < U64 && 0 < rangeSize < nsSize
  {
    SourceRange(MovedBack(RandomSrcLba(lbaNsSize, rangeSize, draw), nsSize, rangeSize), rangeSize - 1)
  }

  function MovedBack(lba: nat, nsSize: nat, rangeSize: nat): nat
    requires rangeSize < nsSize
  {
    if lba + rangeSize > nsSize then nsSize - rangeSize else lba
  }

  function SourceRanges(lbaNsSize: nat, nsSize: nat, rangeSize: nat, draws: seq<nat>): (rs: seq<SourceRange>)
    requires lbaNsSize < U64 && 0 < rangeSize < nsSize
    ensures |rs| == |draws|
    ensures forall i :: 0 <= i < |draws| ==> rs[i] == SourceRangeFor(lbaNsSize, nsSize, rangeSize, draws[i])
  {
    seq(|draws|, i requires 0 <= i < |draws| => SourceRangeFor(lbaNsSize, nsSize, rangeSize, draws[i]))
  }

  /** The overlap test between one source range and the destination extent. */
  predicate RangeOverlaps(r: SourceRange, dstLba: nat, totalBlocks: nat) {
    r.slba < dstLba + totalBlocks && r.slba + r.Blocks() > dstLba
  }

  predicate Overlaps(cmd: Command) {
    exists i :: 0 <= i < |cmd.ranges| && RangeOverlaps(cmd.ranges[i], cmd.dstLba, cmd.totalBlocks)
  }

  /** One attempt: the allocator afterwards and, if accepted, the command and the namespace its source
      addresses were drawn for. A rejected attempt can still have consumed a destination extent, and may
      leave ranges in the buffer. */
  datatype Attempt =
    | Rejected(alloc: Allocator, written: seq<SourceRange>)
    | Accepted(alloc: Allocator, cmd: Command, srcNsid: nat)

  function Generate(c: Config, lbaNsSize: nat, a: Allocator, rangeSize: nat, d: Draws): (r: Attempt)
    requires ValidConfig(c) && ValidDraws(c, d) && lbaNsSize < U64 && a.start <= a.end
    ensures r.alloc.start == a.start && r.alloc.end == a.end
  {
    var src := EffectiveSource(c, d);
    var nsSize := NsSize(c.namespaces, src);
    if nsSize == 0 || rangeSize >= nsSize || rangeSize == 0 || rangeSize > MAX_RANGE_BLOCKS then
      Rejected(a, [])
    else
      Place(c, a, SourceRanges(lbaNsSize, nsSize, rangeSize, d.lbas[..NumRanges(c, d)]), src)
  }

  /** A buffer after some ranges were written to its beginning. */
  function Overlay(buffer: seq<SourceRange>, written: seq<SourceRange>): seq<SourceRange> {
    if |written| <= |buffer| then written + buffer[|written|..] else buffer
  }

  /** The ranges written are at the beginning, and the rest is as it was. */
  lemma OverlayMeaning(before: seq<SourceRange>, written: seq<SourceRange>, after: seq<SourceRange>)
    requires |written| <= |before| == |after|
    ensures after == Overlay(before, written) <==>
            after[..|written|] == written && forall k :: |written| <= k < |before| ==> after[k] == before[k]
  {
    assert after == after[..|written|] + after[|written|..];
    if after[..|written|] == written && forall k :: |written| <= k < |before| ==> after[k] == before[k] {
      assert after[|written|..] == before[|written|..];
    }
  }

  /** The second half of an attempt: reserve the destination and check it. */
  function Place(c: Config, a: Allocator, ranges: seq<SourceRange>, src: nat): Attempt
    requires a.start <= a.end
  {
    var total := TotalBlocks(ranges);
    var dstSize := NsSize(c.namespaces, c.dstNsid);
    if dstSize > 0 && total > dstSize then
      Rejected(a, ranges)
    else
      var (lba, a') := Reserve(a, total);
      var cmd := Command(c.dstNsid, lba, ranges, total);
      if dstSize > 0 && lba + total > dstSize then Rejected(a', ranges)
      else if (!CrossNamespace(c) || src == c.dstNsid) && Overlaps(cmd) then Rejected(a', ranges)
      else Accepted(a', cmd, src)
  }

  // ---------------------------------------------------------------- what an accepted command is

  /** A command a device may be given: its ranges fit the buffer and the namespace they were drawn for,
      the block count is theirs, the destination fits its namespace and, whenever it can, the window,
      and within one namespace no source block is also a destination block. */
  ghost predicate WellFormed(c: Config, start: nat, end: nat, cmd: Command, srcNsid: nat) {
    && cmd.dstNsid == c.dstNsid
    && 1 <= |cmd.ranges| <= c.maxRanges
    && (forall i :: 0 <= i < |cmd.ranges| ==> RangeFits(cmd.ranges[i], NsSize(c.namespaces, srcNsid)))
    && 1 <= cmd.totalBlocks == TotalBlocks(cmd.ranges) <= MAX_COMMAND_BLOCKS
    && (NsSize(c.namespaces, c.dstNsid) > 0 ==> cmd.dstLba + cmd.totalBlocks <= NsSize(c.namespaces, c.dstNsid))
    && start <= cmd.dstLba < end
    && (cmd.dstLba + cmd.totalBlocks <= end <==> cmd.totalBlocks <= end - start)
    && (srcNsid == cmd.dstNsid ==> !Overlaps(cmd))
    && (srcNsid == cmd.dstNsid || (CrossNamespace(c) && srcNsid in c.srcNsids))
  }

  predicate RangeFits(r: SourceRange, size: nat) {
    r.slba + r.Blocks() <= size && r.Blocks() <= MAX_RANGE_BLOCKS
  }

  /** All ranges have the configured size, so the block count is their number times the size. */
  lemma {:induction false} EqualRangesTotal(rs: seq<SourceRange>, size: nat)
    requires size > 0 && forall i :: 0 <= i < |rs| ==> rs[i].Blocks() == size
    ensures TotalBlocks(rs) == |rs| * size
    decreases |rs|
  {
    if rs != [] {
      EqualRangesTotal(rs[..|rs| - 1], size);
      assert (|rs| - 1) * size + size == |rs| * size;
    }
  }

  /** Every accepted command is well formed, its block count is the number of ranges times the range
      size, and the allocator stays in its window. */
  lemma AcceptedIsWellFormed(c: Config, lbaNsSize: nat, a: Allocator, rangeSize: nat, d: Draws)
    requires ValidConfig(c) && ValidDraws(c, d) && lbaNsSize < U64 && a.Valid()
    ensures var r := Generate(c, lbaNsSize, a, rangeSize, d);
            && r.alloc.Valid() && r.alloc.start == a.start && r.alloc.end == a.end
            && (r.Accepted? ==>
                  && WellFormed(c, a.start, a.end, r.cmd, r.srcNsid)
                  && |r.cmd.ranges| == NumRanges(c, d)
                  && r.cmd.totalBlocks == NumRanges(c, d) * rangeSize)
  {
    var src := EffectiveSource(c, d);
    var nsSize := NsSize(c.namespaces, src);
    if !(nsSize == 0 || rangeSize >= nsSize || rangeSize == 0 || rangeSize > MAX_RANGE_BLOCKS) {
      var n := NumRanges(c, d);
      var ranges := SourceRanges(lbaNsSize, nsSize, rangeSize, d.lbas[..n]);
      EqualRangesTotal(ranges, rangeSize);
      MulMono(1, n, rangeSize);
      MulMono(n, 16, rangeSize);
      ReserveStaysInWindow(a, TotalBlocks(ranges));
    }
  }

  // ---------------------------------------------------------------- the classes

  class XcopyOperation {
    var dstNsid: nat
    var dstLba: nat
    var numRanges: nat
    var totalBlocks: nat
    var ranges: array?<SourceRange>

    constructor (ranges: array?<SourceRange>)
      ensures this.ranges == ranges && numRanges == 0
    {
      dstNsid, dstLba, numRanges, totalBlocks := 0, 0, 0, 0;
      this.ranges := ranges;
    }

    ghost function Cmd(): Command
      reads this, ranges
      requires ranges != null && numRanges <= ranges.Length
    {
      Command(dstNsid, dstLba, ranges[..numRanges], totalBlocks)
    }

    /** Allocates a zeroed buffer unless there is one already; the allocation may fail. */
    method AllocateRanges(maxRanges: nat, mallocOk: bool) returns (rc: int)
      modifies this`ranges
      ensures rc == 0 <==> old(ranges) != null || mallocOk
      ensures old(ranges) != null || rc != 0 ==> ranges == old(ranges)
      ensures old(ranges) == null && rc == 0 ==> ranges != null && fresh(ranges) && ranges[..] == ZeroRanges(maxRanges)
      ensures rc == 0 || rc == -1
    {
      if ranges != null {
        return 0;
      }
      if !mallocOk {
        return -1;
      }
      ranges := new SourceRange[maxRanges](_ => ZERO_RANGE);
      rc := 0;
    }
  }

  class XcopyGenerator {
    const config: Config

    constructor (config: Config)
      ensures this.config == config
    {
      this.config := config;
    }

    method GetNsSize(nsid: nat) returns (size: nat)
      ensures size == NsSize(config.namespaces, nsid)
    {
      for i := 0 to |config.namespaces|
        invariant NsSize(config.namespaces, nsid) == NsSize(config.namespaces[i..], nsid)
      {
        var ns := config.namespaces[i];
        if ns.Some? && ns.value.nsid == nsid {
          return ns.value.sectors;
        }
      }
      size := 0;
    }

    /** The buffer that an attempt starts with: the operation's own, or else a new one. */
    ghost function BufferOf(op: XcopyOperation): seq<SourceRange>
      reads op, op.ranges
    {
      if op.ranges == null then ZeroRanges(config.maxRanges) else op.ranges[..]
    }

    /** Fills the operation from the draws. The buffer must hold max_ranges ranges if there is one. */
    method GenerateOperation(op: XcopyOperation, lba: LbaManager, rangeSize: nat, d: Draws, spurious: nat,
                             mallocOk: bool)
      returns (rc: int)
      requires ValidConfig(config) && ValidDraws(config, d)
      requires lba.Valid() && lba.namespaceSize + MAX_COMMAND_BLOCKS < U64
      requires op.ranges == null || op.ranges.Length == config.maxRanges
      modifies op, op.ranges, lba`dstCurrent
      ensures lba.Valid()
      ensures old(op.ranges) == null && !mallocOk ==> rc == -1 && lba.View() == old(lba.View())
      ensures old(op.ranges) != null ==> op.ranges == old(op.ranges)
      ensures old(op.ranges) != null || mallocOk ==>
                && op.ranges != null && op.ranges.Length == config.maxRanges
                && (old(op.ranges) == null ==> fresh(op.ranges))
                && (match Generate(config, lba.namespaceSize, old(lba.View()), rangeSize, d)
                    case Rejected(a, written) =>
                      && rc == -1 && lba.View() == a
                      && op.ranges[..] == Overlay(old(BufferOf(op)), written)
                    case Accepted(a, cmd, _) =>
                      && rc == 0 && lba.View() == a
                      && op.numRanges == |cmd.ranges| <= op.ranges.Length && op.Cmd() == cmd
                      && op.ranges[..] == Overlay(old(BufferOf(op)), cmd.ranges))
    {
      if op.ranges == null {
        var allocRc := op.AllocateRanges(config.maxRanges, mallocOk);
        if allocRc != 0 {
          return -1;
        }
      }
      rc := GenerateInto(op, lba, rangeSize, d, spurious);
    }

    /** The rest, once there is a buffer. */
    method GenerateInto(op: XcopyOperation, lba: LbaManager, rangeSize: nat, d: Draws, spurious: nat) returns (rc: int)
      requires ValidConfig(config) && ValidDraws(config, d)
      requires lba.Valid() && lba.namespaceSize + MAX_COMMAND_BLOCKS < U64
      requires op.ranges != null && op.ranges.Length == config.maxRanges
      modifies op`dstNsid, op`dstLba, op`numRanges, op`totalBlocks, op.ranges, lba`dstCurrent
      ensures lba.Valid()
      ensures match Generate(config, lba.namespaceSize, old(lba.View()), rangeSize, d)
              case Rejected(a, written) =>
                && rc == -1 && lba.View() == a && op.ranges[..] == Overlay(old(op.ranges[..]), written)
              case Accepted(a, cmd, _) =>
                && rc == 0 && lba.View() == a
                && op.numRanges == |cmd.ranges| <= op.ranges.Length && op.Cmd() == cmd
                && op.ranges[..] == Overlay(old(op.ranges[..]), cmd.ranges)
    {
      op.numRanges := NumRanges(config, d);
      op.dstNsid := config.dstNsid;
      op.totalBlocks := 0;

      var srcNsid := op.dstNsid;
      if config.crossEnabled && config.crossSupported {
        srcNsid := EffectiveSource(config, d);
      }
      var nsSize := GetNsSize(srcNsid);
      if nsSize == 0 || rangeSize >= nsSize {
        return -1;
      }
      if rangeSize == 0 || rangeSize > MAX_RANGE_BLOCKS {
        return -1;
      }
      NsSizeBounded(config.namespaces, srcNsid);
      rc := FillAndPlace(op, lba, srcNsid, nsSize, rangeSize, d.lbas[..op.numRanges], spurious);
    }

    /** The part that writes the ranges and reserves the destination. */
    method FillAndPlace(op: XcopyOperation, lba: LbaManager, srcNsid: nat, nsSize: nat, rangeSize: nat, draws: seq<nat>,
                        spurious: nat) returns (rc: int)
      requires lba.Valid() && lba.namespaceSize + MAX_COMMAND_BLOCKS < U64
      requires 0 < rangeSize < nsSize < U64 && rangeSize <= MAX_RANGE_BLOCKS
      requires op.ranges != null && op.numRanges == |draws| <= op.ranges.Length <= 16
      requires op.totalBlocks == 0 && op.dstNsid == config.dstNsid
      modifies op`dstLba, op`totalBlocks, op.ranges, lba`dstCurrent
      ensures lba.Valid()
      ensures var ranges := SourceRanges(lba.namespaceSize, nsSize, rangeSize, draws);
              && op.ranges[..] == Overlay(old(op.ranges[..]), ranges)
              && (match Place(config, old(lba.View()), ranges, srcNsid)
                  case Rejected(a, written) => rc == -1 && lba.View() == a && written == ranges
                  case Accepted(a, cmd, _) => rc == 0 && lba.View() == a && op.Cmd() == cmd && cmd.ranges == ranges)
    {
      FillRanges(op, lba, nsSize, rangeSize, draws);
      TotalIsBounded(op.ranges[..op.numRanges], rangeSize);
      rc := PlaceDestination(op, lba, srcNsid, spurious);
    }

    /** Reserves the destination extent and checks it against the namespace and the source ranges. */
    method PlaceDestination(op: XcopyOperation, lba: LbaManager, srcNsid: nat, spurious: nat) returns (rc: int)
      requires lba.Valid() && lba.namespaceSize + MAX_COMMAND_BLOCKS < U64
      requires op.ranges != null && op.numRanges <= op.ranges.Length && op.dstNsid == config.dstNsid
      requires op.totalBlocks == TotalBlocks(op.ranges[..op.numRanges]) <= MAX_COMMAND_BLOCKS
      modifies op`dstLba, lba`dstCurrent
      ensures lba.Valid()
      ensures match Place(config, old(lba.View()), op.ranges[..op.numRanges], srcNsid)
              case Rejected(a, _) => rc == -1 && lba.View() == a
              case Accepted(a, cmd, _) => rc == 0 && lba.View() == a && op.Cmd() == cmd
    {
      var dstSize := GetNsSize(op.dstNsid);
      if dstSize > 0 && op.totalBlocks > dstSize {
        return -1;
      }
      var fits := ReserveDestination(op, lba, dstSize, spurious);
      if !fits {
        return -1;
      }
      var overlap := OverlapWithin(op, srcNsid);
      rc := if overlap then -1 else 0;
    }

    /** Takes the next extent, and tells whether it fits the destination namespace. */
    method ReserveDestination(op: XcopyOperation, lba: LbaManager, dstSize: nat, spurious: nat) returns (fits: bool)
      requires lba.Valid() && lba.namespaceSize + op.totalBlocks < U64
      modifies op`dstLba, lba`dstCurrent
      ensures lba.Valid() && (op.dstLba, lba.View()) == Reserve(old(lba.View()), op.totalBlocks)
      ensures fits <==> (dstSize > 0 ==> op.dstLba + op.totalBlocks <= dstSize)
    {
      ReserveStaysInWindow(lba.View(), op.totalBlocks);
      op.dstLba := lba.GetAndAdvanceDstLba(op.totalBlocks, spurious);
      fits := !(dstSize > 0 && Add64(op.dstLba, op.totalBlocks) > dstSize);
    }

    /** The overlap check, which is skipped for a copy between namespaces. */
    method OverlapWithin(op: XcopyOperation, srcNsid: nat) returns (overlap: bool)
      requires op.ranges != null && op.numRanges <= op.ranges.Length
      ensures overlap == ((!CrossNamespace(config) || srcNsid == op.dstNsid) && Overlaps(op.Cmd()))
    {
      overlap := false;
      if !config.crossEnabled || !config.crossSupported || srcNsid == op.dstNsid {
        overlap := FindOverlap(op);
      }
    }

    /** A random source LBA, moved back if the range would leave the namespace. */
    method DrawSource(lba: LbaManager, nsSize: nat, rangeSize: nat, draw: nat) returns (srcLba: nat)
      requires lba.Valid() && 0 < rangeSize < nsSize && rangeSize <= MAX_RANGE_BLOCKS
      requires lba.namespaceSize + MAX_COMMAND_BLOCKS < U64
      ensures SourceRange(srcLba, rangeSize - 1) == SourceRangeFor(lba.namespaceSize, nsSize, rangeSize, draw)
    {
      var drawn := lba.GetRandomSrcLba(rangeSize, draw);
      srcLba := MoveBack(drawn, nsSize, rangeSize);
    }

    method MoveBack(lba: nat, nsSize: nat, rangeSize: nat) returns (srcLba: nat)
      requires rangeSize < nsSize && lba + rangeSize < U64
      ensures srcLba == MovedBack(lba, nsSize, rangeSize)
    {
      srcLba := lba;
      if Add64(srcLba, rangeSize) > nsSize {
        srcLba := nsSize - rangeSize;
      }
    }

    /** The 0's based block count, cut off at 16 bits. */
    method BlockCountField(rangeSize: nat) returns (nlb: nat)
      requires 0 < rangeSize < U64
      ensures nlb == Min(rangeSize - 1, 0xFFFF)
    {
      nlb := if rangeSize > MAX_RANGE_BLOCKS then 0xFFFF else rangeSize - 1;
    }

    /** The loop that draws the source ranges and adds up the block count. */
    method FillRanges(op: XcopyOperation, lba: LbaManager, nsSize: nat, rangeSize: nat, draws: seq<nat>)
      requires lba.Valid() && 0 < rangeSize < nsSize < U64 && rangeSize <= MAX_RANGE_BLOCKS
      requires lba.namespaceSize + MAX_COMMAND_BLOCKS < U64
      requires op.ranges != null && op.numRanges == |draws| <= op.ranges.Length && op.totalBlocks == 0
      modifies op`totalBlocks, op.ranges
      ensures op.ranges[..op.numRanges] == SourceRanges(lba.namespaceSize, nsSize, rangeSize, draws)
      ensures op.totalBlocks == TotalBlocks(op.ranges[..op.numRanges])
      ensures op.ranges[..] == Overlay(old(op.ranges[..]), op.ranges[..op.numRanges])
    {
      var nlb := BlockCountField(rangeSize);
      var buffer := op.ranges;
      ghost var before := buffer[..];
      for i := 0 to op.numRanges
        invariant op.ranges == buffer && op.numRanges == |draws|
        invariant forall k :: i <= k < buffer.Length ==> buffer[k] == before[k]
        invariant forall k :: 0 <= k < i ==> buffer[k] == SourceRangeFor(lba.namespaceSize, nsSize, rangeSize, draws[k])
        invariant op.totalBlocks == TotalBlocks(buffer[..i])
      {
        var srcLba := DrawSource(lba, nsSize, rangeSize, draws[i]);
        buffer[i] := SourceRange(srcLba, nlb);
        op.totalBlocks := op.totalBlocks + (nlb + 1);
        assert buffer[..i + 1][..i] == buffer[..i];
      }
      assert buffer[..op.numRanges] == SourceRanges(lba.namespaceSize, nsSize, rangeSize, draws);
      OverlayMeaning(before, buffer[..op.numRanges], buffer[..]);
    }

    /** The loop that tests every source range against the destination extent. */
    method FindOverlap(op: XcopyOperation) returns (overlap: bool)
      requires op.ranges != null && op.numRanges <= op.ranges.Length
      ensures overlap == Overlaps(op.Cmd())
    {
      var dstEnd := op.dstLba + op.totalBlocks;
      for i := 0 to op.numRanges
        invariant forall k :: 0 <= k < i ==> !RangeOverlaps(op.ranges[k], op.dstLba, op.totalBlocks)
      {
        var srcLba := op.ranges[i].slba;
        var srcEnd := srcLba + (op.ranges[i].nlb + 1);
        if srcLba < dstEnd && srcEnd > op.dstLba {
          assert RangeOverlaps(op.Cmd().ranges[i], op.dstLba, op.totalBlocks);
          return true;
        }
      }
      overlap := false;
    }
  }

  lemma TotalIsBounded(rs: seq<SourceRange>, size: nat)
    requires 0 < size <= MAX_RANGE_BLOCKS && |rs| <= 16
    requires forall i :: 0 <= i < |rs| ==> rs[i].Blocks() == size
    ensures TotalBlocks(rs) <= MAX_COMMAND_BLOCKS
  {
    EqualRangesTotal(rs, size);
    MulMono(|rs|, 16, size);
  }
}
