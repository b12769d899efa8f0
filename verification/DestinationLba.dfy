/** The wrap-around extent allocator that all workers share (src/lba_manager.cpp). */
module DestinationLba {
  import opened Words

  /** The allocator as a value: the destination window [start, end) and the cursor in it. */
  datatype Allocator = Allocator(start: nat, end: nat, cursor: nat) {
    ghost predicate Valid() {
      start <= cursor < end
    }

    function Span(): int {
      end - start
    }
  }

  datatype Extent = Extent(lba: nat, blocks: nat)

  ghost predicate Disjoint(a: Extent, b: Extent) {
    a.blocks == 0 || b.blocks == 0 || a.lba + a.blocks <= b.lba || b.lba + b.blocks <= a.lba
  }

  /** The cursor never rests at or past the end of the window. */
  function Settle(a: Allocator, next: nat): nat {
    if next >= a.end then a.start else next
  }

  /** One allocation: the LBA handed out and the allocator afterwards. */
  function Reserve(a: Allocator, blocks: nat): (nat, Allocator) {
    if blocks == 0 then
      (a.cursor, a)
    else if a.cursor + blocks > a.end then
      (a.start, a.(cursor := Settle(a, if blocks > a.end - a.start then a.start else a.start + blocks)))
    else
      (a.cursor, a.(cursor := Settle(a, a.cursor + blocks)))
  }

  function ResetCursor(a: Allocator): Allocator {
    a.(cursor := a.start)
  }

  // ---------------------------------------------------------------- one allocation

  /** The cursor stays inside the window, and a non-empty extent does exactly when it can fit at all. */
  lemma ReserveStaysInWindow(a: Allocator, blocks: nat)
    requires a.Valid()
    ensures var (lba, a') := Reserve(a, blocks);
            && a'.Valid() && a'.start == a.start && a'.end == a.end
            && a.start <= lba < a.end
            && (blocks > 0 ==> (lba + blocks <= a.end <==> blocks <= a.Span()))
  {
  }

  /** Two allocations in a row abut, or the second starts the next lap. At such a wrap the space
      left over at the end of the window is smaller than the request that wrapped. */
  lemma ConsecutiveExtentsAbutOrWrap(a: Allocator, t0: nat, t1: nat)
    requires a.Valid() && 0 < t0 <= a.Span() && 0 < t1
    ensures var (lba0, a1) := Reserve(a, t0);
            var (lba1, _) := Reserve(a1, t1);
            || (lba1 == lba0 + t0 && lba1 + t1 <= a.end)
            || (lba1 == a.start && (a.end - (lba0 + t0) < t1))
  {
  }

  /** A window that ends where it starts, or before, is never advanced in: every request gets its start. */
  lemma EmptyWindowRepeats(a: Allocator, blocks: nat)
    requires a.end <= a.start == a.cursor
    ensures Reserve(a, blocks) == (a.start, a)
  {
  }

  // ---------------------------------------------------------------- runs of allocations

  /** The extents handed out to a sequence of requests, in order. */
  function Extents(a: Allocator, ts: seq<nat>): (es: seq<Extent>)
    requires a.start <= a.end
    ensures |es| == |ts| && forall i :: 0 <= i < |ts| ==> es[i].blocks == ts[i]
    decreases |ts|
  {
    if ts == [] then []
    else
      var (lba, a') := Reserve(a, ts[0]);
      [Extent(lba, ts[0])] + Extents(a', ts[1..])
  }

  /** The allocator after a sequence of requests. */
  function After(a: Allocator, ts: seq<nat>): (a': Allocator)
    requires a.start <= a.end
    ensures a'.start == a.start && a'.end == a.end
    decreases |ts|
  {
    if ts == [] then a else After(Reserve(a, ts[0]).1, ts[1..])
  }

  lemma {:induction false} AfterValid(a: Allocator, ts: seq<nat>)
    requires a.Valid()
    ensures After(a, ts).Valid()
    decreases |ts|
  {
    if ts != [] {
      AfterValid(Reserve(a, ts[0]).1, ts[1..]);
    }
  }

  /** A run can be cut anywhere. */
  lemma {:induction false} ExtentsSplit(a: Allocator, ts: seq<nat>, us: seq<nat>)
    requires a.start <= a.end
    ensures Extents(a, ts + us) == Extents(a, ts) + Extents(After(a, ts), us)
    ensures After(a, ts + us) == After(After(a, ts), us)
    decreases |ts|
  {
    if ts == [] {
      assert ts + us == us;
    } else {
      assert (ts + us)[1..] == ts[1..] + us;
      ExtentsSplit(Reserve(a, ts[0]).1, ts[1..], us);
    }
  }

  lemma AfterOneMore(a: Allocator, ts: seq<nat>, t: nat)
    requires a.start <= a.end
    ensures After(a, ts + [t]) == Reserve(After(a, ts), t).1
  {
    ExtentsSplit(a, ts, [t]);
    assert [t][1..] == [];
  }

  /** The k-th extent is what the allocator hands out after the requests before it. */
  lemma {:induction false} ExtentAt(a: Allocator, ts: seq<nat>, k: nat)
    requires a.start <= a.end && k < |ts|
    ensures Extents(a, ts)[k] == Extent(Reserve(After(a, ts[..k]), ts[k]).0, ts[k])
    decreases k
  {
    if k > 0 {
      assert ts[..k][1..] == ts[1..][..k - 1];
      ExtentAt(Reserve(a, ts[0]).1, ts[1..], k - 1);
    }
  }

  ghost predicate AtMost(ts: seq<nat>, m: nat) {
    forall i :: 0 <= i < |ts| ==> ts[i] <= m
  }

  /** Requests that fit below a limit are served without a wrap and below that limit. */
  lemma {:induction false} BelowLimit(a: Allocator, ts: seq<nat>, limit: nat, i: nat)
    requires a.Valid() && limit <= a.end
    requires a.cursor + Sum(ts) <= limit
    requires i < |ts| && ts[i] > 0
    ensures Extents(a, ts)[i].lba + ts[i] <= limit
    decreases |ts|
  {
    if i > 0 {
      var a' := Reserve(a, ts[0]).1;
      if ts[0] > 0 && a.cursor + ts[0] >= a.end {
        ElementBelowSum(ts[1..], i - 1);
        assert false;
      }
      BelowLimit(a', ts[1..], limit, i - 1);
    } else {
      SumTail(ts);
    }
  }

  lemma {:induction false} ElementBelowSum(ts: seq<nat>, i: nat)
    requires i < |ts|
    ensures ts[i] <= Sum(ts)
    decreases |ts|
  {
    if i > 0 {
      ElementBelowSum(ts[1..], i - 1);
    }
  }

  lemma SumTail(ts: seq<nat>)
    requires ts != []
    ensures Sum(ts) == ts[0] + Sum(ts[1..])
  {
  }

  /** An extent that starts at x and ends at or before the cursor is not touched by further requests,
      as long as they cannot bring the cursor around to x again. */
  lemma {:induction false} EarlierExtentSurvives(a: Allocator, x: Extent, ts: seq<nat>, m: nat, i: nat)
    requires a.Valid() && a.start <= x.lba && x.lba + x.blocks <= a.cursor
    requires AtMost(ts, m)
    requires (a.cursor - x.lba) + Sum(ts) + m <= a.Span() + 1
    requires i < |ts|
    ensures Disjoint(x, Extents(a, ts)[i])
    decreases |ts|
  {
    var t := ts[0];
    var a' := Reserve(a, t).1;
    SumTail(ts);
    if t == 0 {
      if i > 0 {
        EarlierExtentSurvives(a', x, ts[1..], m, i - 1);
      }
    } else if a.cursor + t > a.end {
      // The request wraps; from the start of the window everything fits below x.
      if ts[i] > 0 {
        var b := a.(cursor := a.start);
        assert Reserve(b, t) == Reserve(a, t);
        assert Extents(b, ts) == Extents(a, ts);
        BelowLimit(b, ts, x.lba, i);
      }
    } else if a.cursor + t == a.end {
      if i > 0 && ts[i] > 0 {
        BelowLimit(a', ts[1..], x.lba, i - 1);
      }
    } else if i > 0 {
      EarlierExtentSurvives(a', x, ts[1..], m, i - 1);
    }
  }

  /** Sliding window: requests in a row whose sizes add up to S, none larger than m, with
      S + m <= span + 1, get pairwise disjoint extents, wherever the window wraps. */
  lemma {:induction false} WindowDisjoint(a: Allocator, ts: seq<nat>, m: nat, i: nat, j: nat)
    requires a.Valid() && AtMost(ts, m)
    requires Sum(ts) + m <= a.Span() + 1
    requires i < j < |ts|
    ensures Disjoint(Extents(a, ts)[i], Extents(a, ts)[j])
    decreases |ts|
  {
    SumTail(ts);
    if i > 0 {
      WindowDisjoint(Reserve(a, ts[0]).1, ts[1..], m, i - 1, j - 1);
    } else {
      FirstApart(a, ts[0], ts[1..], m, j - 1);
    }
  }

  /** The first extent, and one of those that follow it. */
  lemma FirstApart(a: Allocator, t: nat, ts: seq<nat>, m: nat, j: nat)
    requires a.Valid() && AtMost(ts, m) && t <= m && t + Sum(ts) + m <= a.Span() + 1 && j < |ts|
    ensures Disjoint(Extent(Reserve(a, t).0, t), Extents(Reserve(a, t).1, ts)[j])
  {
    if t > 0 && ts[j] > 0 {
      var (lba, a') := Reserve(a, t);
      if lba + t < a.end {
        EarlierExtentSurvives(a', Extent(lba, t), ts, m, j);
      } else {
        ElementBelowSum(ts, j);
        BelowLimit(a', ts, lba, j);
      }
    }
  }

  /** The bound is the best possible: for every size m >= 2 there is a window in which two requests
      of m blocks miss it by one and overlap. */
  lemma WindowBoundIsTight(m: nat, start: nat) returns (a: Allocator)
    requires m >= 2
    ensures a.Valid() && a.start == start
    ensures Sum([m, m]) + m == a.Span() + 2
    ensures !Disjoint(Extents(a, [m, m])[0], Extents(a, [m, m])[1])
  {
    var span := 3 * m - 2;
    a := Allocator(start, start + span, start + (span - 2 * m + 1));
    assert [m, m][1..] == [m];
    SumTail([m, m]);
    SumTail([m]);
    var (lba, a') := Reserve(a, m);
    assert Extents(a, [m, m])[0] == Extent(lba, m);
    assert Extents(a, [m, m])[1] == Extents(a', [m])[0];
    assert lba == a.cursor && a'.cursor == lba + m;
    assert Extents(a', [m])[0] == Extent(a.start, m);
  }

  // ---------------------------------------------------------------- equal sizes

  /** k requests of the same size. */
  function Repeat(t: nat, k: nat): (ts: seq<nat>)
    ensures |ts| == k && forall i :: 0 <= i < k ==> ts[i] == t
  {
    seq(k, _ => t)
  }

  /** Where the cursor stands after k equal requests that started at the beginning of the window. */
  ghost predicate UniformCursor(a: Allocator, t: nat, laps: nat, k: nat)
    requires laps > 0
  {
    || a.cursor == a.start + (k % laps) * t
    || (k % laps == 0 && a.cursor == a.start + laps * t)
  }

  /** One request of size t from the tile at offset `tile`, of whole tiles up to `whole`. */
  lemma TileStep(a: Allocator, t: nat, tile: nat, whole: nat)
    requires a.Valid() && t > 0
    requires tile + t <= whole <= a.Span() < whole + t
    requires tile + t == whole || tile + t + t <= whole
    requires a.cursor == a.start + tile || (tile == 0 && a.cursor == a.start + whole)
    ensures var (lba, a') := Reserve(a, t);
            && lba == a.start + tile
            && (|| a'.cursor == a.start + tile + t
                || (tile + t == whole && a'.cursor == a.start))
  {
  }

  lemma UniformStep(a: Allocator, t: nat, laps: nat, k: nat)
    requires a.Valid() && t > 0 && laps > 0
    requires laps * t <= a.Span() < laps * t + t
    requires UniformCursor(a, t, laps, k)
    ensures Reserve(a, t).0 == a.start + (k % laps) * t
    ensures UniformCursor(Reserve(a, t).1, t, laps, k + 1)
  {
    var j := k % laps;
    NextRemainder(k, laps);
    NextTile(j, laps, t);
    TileStep(a, t, j * t, laps * t);
  }

  lemma NextRemainder(k: nat, laps: nat)
    requires laps > 0
    ensures (k + 1) % laps == if k % laps + 1 < laps then k % laps + 1 else 0
  {
    if k % laps + 1 < laps {
      RemainderUnique(k + 1, laps, k / laps, k % laps + 1);
    } else {
      assert (k / laps + 1) * laps == (k / laps) * laps + laps;
      RemainderUnique(k + 1, laps, k / laps + 1, 0);
    }
  }

  /** Tile j ends where the next one starts, which is the last one's end or has room for a tile. */
  lemma NextTile(j: nat, laps: nat, t: nat)
    requires j < laps
    ensures (j + 1) * t == j * t + t
    ensures j + 1 < laps ==> j * t + t + t <= laps * t
    ensures j + 1 == laps ==> j * t + t == laps * t
  {
    assert (j + 1) * t == j * t + t && (j + 2) * t == j * t + t + t;
    if j + 1 < laps {
      MulMono(j + 2, laps, t);
    }
  }

  /** Closed form: equal requests tile the window; the k-th one (from 0) gets tile k modulo the
      number of whole tiles, whether or not the size divides the window. */
  lemma {:induction false} UniformClosedForm(a: Allocator, t: nat, n: nat, k: nat)
    requires a.start < a.end && a.cursor == a.start && 0 < t <= a.Span()
    requires k < n
    ensures a.Span() / t > 0
    ensures Extents(a, Repeat(t, n))[k] == Extent(a.start + (k % (a.Span() / t)) * t, t)
  {
    WholeTiles(a.Span(), t);
    UniformFrom(a, t, a.Span() / t, 0, n, k);
  }

  lemma WholeTiles(span: nat, t: nat)
    requires 0 < t <= span
    ensures span / t > 0 && (span / t) * t <= span < (span / t) * t + t
  {
    if span / t <= 0 {
      MulMono(span / t, 0, t);
      assert false;
    }
  }

  lemma {:induction false} UniformFrom(a: Allocator, t: nat, laps: nat, k0: nat, n: nat, k: nat)
    requires a.Valid() && t > 0 && laps > 0
    requires laps * t <= a.Span() < laps * t + t
    requires UniformCursor(a, t, laps, k0)
    requires k < n
    ensures Extents(a, Repeat(t, n))[k] == Extent(a.start + ((k0 + k) % laps) * t, t)
    decreases k
  {
    UniformStep(a, t, laps, k0);
    assert Repeat(t, n)[1..] == Repeat(t, n - 1);
    if k > 0 {
      UniformFrom(Reserve(a, t).1, t, laps, k0 + 1, n - 1, k - 1);
    }
  }

  /** Hence allocations fewer than one lap apart never overlap, and allocations a whole lap apart coincide. */
  lemma UniformLap(a: Allocator, t: nat, n: nat, i: nat, j: nat)
    requires a.start < a.end && a.cursor == a.start && 0 < t <= a.Span()
    requires i < j < n
    ensures a.Span() / t > 0
    ensures j - i < a.Span() / t ==> Disjoint(Extents(a, Repeat(t, n))[i], Extents(a, Repeat(t, n))[j])
    ensures j - i == a.Span() / t ==> Extents(a, Repeat(t, n))[i] == Extents(a, Repeat(t, n))[j]
  {
    UniformClosedForm(a, t, n, i);
    UniformClosedForm(a, t, n, j);
    TilesApart(a.start, t, a.Span() / t, i, j);
  }

  lemma TilesApart(start: nat, t: nat, laps: nat, i: nat, j: nat)
    requires laps > 0 && i < j
    ensures j - i == laps ==> i % laps == j % laps
    ensures j - i < laps ==> Disjoint(Extent(start + (i % laps) * t, t), Extent(start + (j % laps) * t, t))
  {
    if j - i == laps {
      assert (i / laps + 1) * laps == (i / laps) * laps + laps;
      RemainderUnique(j, laps, i / laps + 1, i % laps);
    } else if j - i < laps {
      NoCommonRemainder(i, j, laps);
      TilesDisjoint(start, t, i % laps, j % laps);
    }
  }

  lemma TilesDisjoint(start: nat, t: nat, i: nat, j: nat)
    requires i != j
    ensures Disjoint(Extent(start + i * t, t), Extent(start + j * t, t))
  {
    if i < j {
      assert (i + 1) * t == i * t + t;
      MulMono(i + 1, j, t);
    } else {
      assert (j + 1) * t == j * t + t;
      MulMono(j + 1, i, t);
    }
  }

  // ---------------------------------------------------------------- random source addresses

  /** The part of the namespace in which source ranges are drawn. */
  function SafeSize(namespaceSize: nat, rangeSize: nat): (size: nat)
    requires rangeSize <= namespaceSize < U64
    ensures rangeSize <= size <= namespaceSize
    ensures namespaceSize * 90 < U64 && rangeSize <= namespaceSize * 90 / 100 ==> size == namespaceSize * 90 / 100
  {
    var nineTenths := Mul64(namespaceSize, 90) / 100;
    if nineTenths < rangeSize then namespaceSize else nineTenths
  }

  /** A source LBA from one 64-bit random draw (src/lba_manager.cpp:91-107). The product with 90 is
      a 64-bit product and wraps for very large namespaces. */
  function RandomSrcLba(namespaceSize: nat, rangeSize: nat, draw: nat): (lba: nat)
    requires namespaceSize < U64
    ensures rangeSize <= namespaceSize ==> lba + rangeSize <= namespaceSize
    ensures rangeSize >= namespaceSize ==> lba == 0
  {
    if rangeSize >= namespaceSize then 0
    else draw % (SafeSize(namespaceSize, rangeSize) - rangeSize + 1)
  }

  /** The addresses that can be drawn are exactly those whose range lies in the safe part: the first nine
      tenths, cut by the wrapping product, or the whole namespace if the range needs more. */
  lemma SourceAddressesExactly(namespaceSize: nat, rangeSize: nat, x: nat)
    requires rangeSize < namespaceSize < U64
    ensures (exists draw: nat :: RandomSrcLba(namespaceSize, rangeSize, draw) == x) <==>
            x + rangeSize <= SafeSize(namespaceSize, rangeSize)
  {
    var size := SafeSize(namespaceSize, rangeSize);
    forall draw: nat
      ensures RandomSrcLba(namespaceSize, rangeSize, draw) < size - rangeSize + 1
      ensures draw == x < size - rangeSize + 1 ==> RandomSrcLba(namespaceSize, rangeSize, draw) == x
    {
      RemainderBelow(draw, size - rangeSize + 1);
    }
    assert x + rangeSize <= size ==> RandomSrcLba(namespaceSize, rangeSize, x) == x;
  }

  lemma RemainderBelow(x: nat, n: nat)
    requires n > 0
    ensures x % n < n && (x < n ==> x % n == x)
  {
  }

  // ---------------------------------------------------------------- the class

  class LbaManager {
    const namespaceSize: nat
    var dstStart: nat
    var dstEnd: nat
    var dstCurrent: nat

    ghost predicate Valid()
      reads this
    {
      && namespaceSize < U64
      && dstEnd <= namespaceSize
      && View().Valid()
    }

    function View(): Allocator
      reads this
    {
      Allocator(dstStart, dstEnd, dstCurrent)
    }

    /** An end of zero, or one past the namespace, means the end of the namespace. */
    constructor (namespaceSize: nat, startLba: nat, endLba: nat)
      requires namespaceSize < U64
      ensures this.namespaceSize == namespaceSize && dstEnd <= namespaceSize
      ensures Valid() <==> dstStart < dstEnd
      ensures View() == Allocator(startLba, if endLba == 0 then namespaceSize else Min(endLba, namespaceSize), startLba)
    {
      this.namespaceSize := namespaceSize;
      dstStart := startLba;
      dstEnd := if endLba == 0 then namespaceSize else endLba;
      dstCurrent := startLba;
      new;
      var end := dstEnd;
      if end > namespaceSize {
        dstEnd := namespaceSize;
      }
    }

    /** A weak compare-exchange on the cursor; it may also fail for no reason. */
    method CompareExchangeWeak(expected: nat, desired: nat, spurious: bool) returns (ok: bool)
      modifies this`dstCurrent
      ensures ok == (!spurious && old(dstCurrent) == expected)
      ensures dstCurrent == if ok then desired else old(dstCurrent)
    {
      ok := !spurious && dstCurrent == expected;
      if ok {
        dstCurrent := desired;
      }
    }

    /** Result and next cursor for a loaded cursor, in 64-bit arithmetic. */
    method Choose(start: nat, end: nat, current: nat, totalBlocks: nat) returns (result: nat, next: nat)
      requires totalBlocks > 0 && start + totalBlocks < U64 && end + totalBlocks < U64 && current + totalBlocks < U64
      ensures (result, Allocator(start, end, next)) == Reserve(Allocator(start, end, current), totalBlocks)
    {
      var rangeSize := Sub64(end, start);
      if Add64(current, totalBlocks) > end {
        result := start;
        next := Add64(start, totalBlocks);
        if totalBlocks > rangeSize {
          next := start;
        }
      } else {
        result := current;
        next := Add64(current, totalBlocks);
      }
      if next >= end {
        next := start;
      }
    }

    /** The compare-exchange loop, run by one thread, with a number of spurious failures first. */
    method GetAndAdvanceDstLba(totalBlocks: nat, spurious: nat) returns (lba: nat)
      requires dstStart + totalBlocks < U64 && dstEnd + totalBlocks < U64 && dstCurrent + totalBlocks < U64
      modifies this`dstCurrent
      ensures old(Valid()) ==> Valid()
      ensures (lba, View()) == Reserve(old(View()), totalBlocks)
    {
      if totalBlocks == 0 {
        return dstCurrent;
      }
      var start := dstStart;
      var end := dstEnd;
      ghost var a := View();
      if a.Valid() {
        ReserveStaysInWindow(a, totalBlocks);
      }
      var failures := spurious;
      var done := false;
      lba := start;
      while !done
        invariant !done ==> View() == a
        invariant done ==> (lba, View()) == Reserve(a, totalBlocks)
        decreases if done then 0 else 1 + failures
      {
        var current := dstCurrent;
        var result, next := Choose(start, end, current, totalBlocks);
        lba := result;
        done := CompareExchangeWeak(current, next, failures > 0);
        if !done {
          failures := failures - 1;
        }
      }
    }

    method ResetDstLba()
      modifies this`dstCurrent
      ensures old(Valid()) ==> Valid()
      ensures View() == ResetCursor(old(View()))
    {
      dstCurrent := dstStart;
    }

    /** Replaces the window while no allocation is in progress. */
    method SetDstRange(start: nat, end: nat)
      requires namespaceSize < U64
      modifies this
      ensures Valid() <==> dstStart < dstEnd
      ensures View() == Allocator(start, if end == 0 || end > namespaceSize then namespaceSize else end, start)
    {
      var newEnd := if end == 0 || end > namespaceSize then namespaceSize else end;
      dstEnd := newEnd;
      dstStart := start;
      dstCurrent := start;
    }

    method GetRandomSrcLba(rangeSize: nat, draw: nat) returns (lba: nat)
      requires namespaceSize < U64
      ensures lba == RandomSrcLba(namespaceSize, rangeSize, draw)
      ensures rangeSize <= namespaceSize ==> lba + rangeSize <= namespaceSize
    {
      lba := RandomSrcLba(namespaceSize, rangeSize, draw);
    }
  }
}
