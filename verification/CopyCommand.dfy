/** The NVMe Copy command as the generator builds it: source ranges of one namespace, and one destination. */
module CopyCommand {
  datatype Option<+T> = None | Some(value: T)

  /** One source range; nlb is 0's-based, so the range covers nlb + 1 blocks. */
  datatype SourceRange = SourceRange(slba: nat, nlb: nat) {
    function Blocks(): nat {
      nlb + 1
    }
  }

  const ZERO_RANGE := SourceRange(0, 0)

  /** A buffer just allocated, or wiped. */
  function ZeroRanges(n: nat): (rs: seq<SourceRange>)
    ensures |rs| == n && forall i :: 0 <= i < n ==> rs[i] == ZERO_RANGE
  {
    seq(n, _ => ZERO_RANGE)
  }

  datatype Command = Command(dstNsid: nat, dstLba: nat, ranges: seq<SourceRange>, totalBlocks: nat)

  function TotalBlocks(ranges: seq<SourceRange>): nat {
    if ranges == [] then 0 else TotalBlocks(ranges[..|ranges| - 1]) + ranges[|ranges| - 1].Blocks()
  }
}
