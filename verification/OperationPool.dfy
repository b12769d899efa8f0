/** The per-worker pool of operations (include/operation_pool.h): a wrapping ticket counter picks the
    slot to try, and a flag per slot says who may use it. */
module OpPool {
  import opened Words
  import opened CopyCommand

  /** One slot as a value: the flag, the operation, and the contents of its own range buffer. */
  datatype Slot = Slot(inUse: bool, dstNsid: nat, dstLba: nat, numRanges: nat, totalBlocks: nat,
                       hasContext: bool, ranges: seq<SourceRange>)

  datatype Pool = Pool(next: nat, slots: seq<Slot>)

  /** A slot as acquire leaves it: taken and wiped. */
  function Taken(s: Slot): Slot {
    Slot(true, 0, 0, 0, 0, false, ZeroRanges(|s.ranges|))
  }

  /** The scan of acquire with some attempts left. */
  function Scan(p: Pool, attempts: nat): (r: (Pool, Option<nat>))
    ensures |r.0.slots| == |p.slots| && (r.1.Some? ==> r.1.value < |p.slots|)
    decreases attempts
  {
    if attempts == 0 || p.slots == [] then (p, None)
    else
      var idx := p.next % |p.slots|;
      var p' := p.(next := Add32(p.next, 1));
      if !p.slots[idx].inUse then (p'.(slots := p.slots[idx := Taken(p.slots[idx])]), Some(idx))
      else Scan(p', attempts - 1)
  }

  function AcquireSlot(p: Pool): (r: (Pool, Option<nat>))
    ensures |r.0.slots| == |p.slots| && (r.1.Some? ==> r.1.value < |p.slots|)
  {
    Scan(p, |p.slots|)
  }

  function ReleaseSlot(p: Pool, i: nat): Pool {
    if i < |p.slots| then p.(slots := p.slots[i := p.slots[i].(inUse := false)]) else p
  }

  function InUse(slots: seq<Slot>): set<nat> {
    set i: nat | i < |slots| && slots[i].inUse
  }

  // ---------------------------------------------------------------- which slots a scan visits

  /** The slot tried at attempt a of a scan that starts with the counter at c. */
  function Ticket(c: nat, n: nat, a: nat): nat
    requires n > 0
  {
    Add32(c, a) % n
  }

  ghost predicate Visits(c: nat, n: nat, i: nat)
    requires n > 0
  {
    exists a: nat :: a < n && Ticket(c, n, a) == i
  }

  lemma AddThenAdd(c: nat, a: nat)
    ensures Add32(Add32(c, 1), a) == Add32(c, a + 1)
  {
  }

  /** What a scan does: it takes the first free slot it tries, touches no other, and comes back empty
      only when everything it tried was in use. The counter moves once per attempt. */
  lemma {:induction false} ScanOutcome(p: Pool, attempts: nat) returns (failed: nat)
    requires p.slots != [] && p.next < U32
    ensures failed <= attempts && AllTriedInUse(p, failed)
    ensures var (p', found) := Scan(p, attempts);
            && (found.Some? ==>
                && failed < attempts && Ticket(p.next, |p.slots|, failed) == found.value < |p.slots|
                && !p.slots[found.value].inUse
                && p' == Pool(Add32(p.next, failed + 1), p.slots[found.value := Taken(p.slots[found.value])]))
            && (found.None? ==> failed == attempts && p' == Pool(Add32(p.next, attempts), p.slots))
    decreases attempts
  {
    failed := 0;
    if attempts > 0 {
      var n := |p.slots|;
      FirstTicket(p.next, n);
      if p.slots[p.next % n].inUse {
        var p' := p.(next := Add32(p.next, 1));
        failed := ScanOutcome(p', attempts - 1);
        TriedOneMore(p, failed);
        AddThenAdd(p.next, failed);
        AddThenAdd(p.next, failed + 1);
        failed := failed + 1;
      }
    }
  }

  lemma TriedOneMore(p: Pool, failed: nat)
    requires p.slots != [] && p.next < U32 && p.slots[p.next % |p.slots|].inUse
    requires AllTriedInUse(p.(next := Add32(p.next, 1)), failed)
    ensures AllTriedInUse(p, failed + 1)
  {
    FirstTicket(p.next, |p.slots|);
    forall a: nat | a < failed + 1
      ensures p.slots[Ticket(p.next, |p.slots|, a)].inUse
    {
      if a > 0 {
        AddThenAdd(p.next, a - 1);
        assert Ticket(p.next, |p.slots|, a) == Ticket(Add32(p.next, 1), |p.slots|, a - 1);
      }
    }
  }

  ghost predicate AllTriedInUse(p: Pool, attempts: nat)
    requires p.slots != []
  {
    forall a: nat :: a < attempts ==> p.slots[Ticket(p.next, |p.slots|, a)].inUse
  }

  lemma FirstTicket(c: nat, n: nat)
    requires c < U32 && n > 0
    ensures Ticket(c, n, 0) == c % n
  {
  }

  /** The slots tried at attempts lo, lo + 1, ..., hi - 1. */
  function Tickets(c: nat, n: nat, lo: nat, hi: nat): (s: seq<nat>)
    requires n > 0 && lo <= hi
    ensures |s| == hi - lo && forall k :: 0 <= k < hi - lo ==> s[k] == Ticket(c, n, lo + k)
  {
    seq<nat>(hi - lo, (k: nat) => Ticket(c, n, lo + k))
  }

  ghost predicate Distinct(s: seq<nat>) {
    forall i, j :: 0 <= i < j < |s| ==> s[i] != s[j]
  }

  function Elements(s: seq<nat>): set<nat> {
    set x | x in s
  }

  lemma {:induction false} DistinctCardinality(s: seq<nat>)
    requires Distinct(s)
    ensures |Elements(s)| == |s|
    decreases |s|
  {
    if s != [] {
      var init, last := s[..|s| - 1], s[|s| - 1];
      DistinctCardinality(init);
      assert s == init + [last];
      assert last !in Elements(init);
      assert Elements(s) == Elements(init) + {last};
    }
  }

  /** No slot is tried twice in a stretch of at most n attempts that the counter does not wrap in. */
  lemma TicketsDistinct(c: nat, n: nat, lo: nat, hi: nat)
    requires c < U32 && 0 < n < U32 && lo <= hi <= n
    requires c + hi <= U32 || c + lo >= U32
    ensures Distinct(Tickets(c, n, lo, hi))
  {
    var s := Tickets(c, n, lo, hi);
    var x := if c + hi <= U32 then c + lo else c + lo - U32;
    forall k | 0 <= k < |s|
      ensures s[k] == CountedFrom(x, n, k)
    {
      TicketSplit(c, n, lo + k);
    }
    CountingIsDistinct(x, n, s);
  }

  function CountedFrom(x: nat, n: nat, k: nat): nat
    requires n > 0
  {
    (x + k) % n
  }

  lemma CountingIsDistinct(x: nat, n: nat, s: seq<nat>)
    requires n > 0 && |s| <= n && forall k :: 0 <= k < |s| ==> s[k] == CountedFrom(x, n, k)
    ensures Distinct(s)
  {
    forall i, j | 0 <= i < j < |s|
      ensures s[i] != s[j]
    {
      assert s[i] == CountedFrom(x, n, i) && s[j] == CountedFrom(x, n, j);
      NoCommonRemainder(x + i, x + j, n);
    }
  }

  /** Before the counter wraps a scan counts up from c, after it from zero. */
  lemma TicketSplit(c: nat, n: nat, a: nat)
    requires c < U32 && 0 < n < U32 && a < n
    ensures Ticket(c, n, a) == if c + a < U32 then (c + a) % n else (c + a - U32) % n
  {
  }

  /** A scan tries at least half of the slots, even if the counter wraps in the middle of it. */
  lemma ScanVisitsHalf(c: nat, n: nat) returns (visited: set<nat>)
    requires c < U32 && 0 < n < U32
    ensures 2 * |visited| >= n
    ensures forall i :: i in visited ==> exists a: nat :: a < n && Ticket(c, n, a) == i
  {
    var before := if c + n <= U32 then n else U32 - c;
    var lo, hi := if 2 * before >= n then 0 else before, if 2 * before >= n then before else n;
    var s := Tickets(c, n, lo, hi);
    TicketsDistinct(c, n, lo, hi);
    DistinctCardinality(s);
    visited := Elements(s);
  }

  lemma SubsetCardinality(a: set<nat>, b: set<nat>)
    requires a <= b
    ensures |a| <= |b|
  {
    assert b == a + (b - a);
  }

  lemma EmptyScanMeansHalfInUse(p: Pool)
    requires 0 < |p.slots| < U32 && p.next < U32
    requires AllTriedInUse(p, |p.slots|)
    ensures 2 * |InUse(p.slots)| >= |p.slots|
  {
    var visited := ScanVisitsHalf(p.next, |p.slots|);
    SubsetCardinality(visited, InUse(p.slots));
  }

  /** Never exhausted: while fewer than half of the slots are in use, acquire returns one, wherever the
      counter stands and whether or not the pool size divides 2^32. */
  lemma AcquireSucceeds(p: Pool)
    requires 0 < |p.slots| < U32 && p.next < U32
    requires 2 * |InUse(p.slots)| < |p.slots|
    ensures AcquireSlot(p).1.Some?
  {
    var failed := ScanOutcome(p, |p.slots|);
    if AcquireSlot(p).1.None? {
      EmptyScanMeansHalfInUse(p);
      assert false;
    }
  }

  /** A scan reaches every slot exactly when the counter does not wrap during it or the pool size
      divides 2^32. In every other case some slot is not tried at all. */
  lemma ScanCoversPool(c: nat, n: nat)
    requires c < U32 && 0 < n < U32
    ensures (forall i: nat :: i < n ==> Visits(c, n, i)) <==> (c + n <= U32 || U32 % n == 0)
  {
    if c + n <= U32 || U32 % n == 0 {
      forall i: nat | i < n
        ensures Visits(c, n, i)
      {
        var a := AttemptFor(c, n, i);
      }
    } else {
      var i := SlotMissed(c, n);
    }
  }

  /** The attempt that reaches slot i. */
  lemma AttemptFor(c: nat, n: nat, i: nat) returns (a: nat)
    requires c < U32 && 0 < n < U32 && i < n
    requires c + n <= U32 || U32 % n == 0
    ensures a < n && Ticket(c, n, a) == i
  {
    a := StepsTo(c, n, i);
    TicketSplit(c, n, a);
    if c + a >= U32 {
      DropMultiple(c + a, U32, n);
    }
  }

  lemma StepsTo(c: nat, n: nat, i: nat) returns (a: nat)
    requires 0 < n && i < n
    ensures a < n && (c + a) % n == i
  {
    var j := c % n;
    if i >= j {
      a := i - j;
      RemainderUnique(c + a, n, c / n, i);
    } else {
      a := i + n - j;
      assert (c / n + 1) * n == (c / n) * n + n;
      RemainderUnique(c + a, n, c / n + 1, i);
    }
  }

  lemma DropMultiple(x: nat, m: nat, n: nat)
    requires n > 0 && m % n == 0 && m <= x
    ensures (x - m) % n == x % n
  {
    var d := x / n - m / n;
    assert (x / n) * n - (m / n) * n == d * n;
    RemainderUnique(x - m, n, d, x % n);
  }

  lemma SlotMissed(c: nat, n: nat) returns (i: nat)
    requires c < U32 && 0 < n < U32
    requires c + n > U32 && U32 % n != 0
    ensures i < n && !Visits(c, n, i)
  {
    var before, r := U32 - c, U32 % n;
    i := Max(n - before, r);
    forall a: nat | a < n
      ensures Ticket(c, n, a) != i
    {
      TicketSplit(c, n, a);
      if c + a < U32 {
        RemainderBefore(U32, before - a, n);
      } else {
        RemainderUnique(c + a - U32, n, 0, c + a - U32);
      }
    }
  }

  /** The remainder b steps before m: counted back from that of m, or from n if it passes zero. */
  lemma RemainderBefore(m: nat, b: nat, n: nat)
    requires 0 < b <= n <= m
    ensures (m - b) % n == if b <= m % n then m % n - b else m % n - b + n
  {
    if b <= m % n {
      RemainderUnique(m - b, n, m / n, m % n - b);
    } else {
      assert (m / n - 1) * n == (m / n) * n - n;
      RemainderUnique(m - b, n, m / n - 1, m % n - b + n);
    }
  }

  // ---------------------------------------------------------------- the class

  /** The operation struct; `ranges` points to the buffer that belongs to the slot. */
  datatype PooledOperation = PooledOperation(
    dstNsid: nat, dstLba: nat, numRanges: nat, maxRanges: nat, ranges: array?<SourceRange>,
    totalBlocks: nat, hasContext: bool, inUse: bool, poolIndex: nat)

  const EMPTY_OPERATION := PooledOperation(0, 0, 0, 0, null, 0, false, false, 0)

  /** The slots of a pool that was just set up. */
  function FreshSlots(poolSize: nat, maxRanges: nat): (slots: seq<Slot>)
    ensures |slots| == poolSize
    ensures forall i :: 0 <= i < poolSize ==> slots[i] == Slot(false, 0, 0, 0, 0, false, ZeroRanges(maxRanges))
  {
    seq(poolSize, _ => Slot(false, 0, 0, 0, 0, false, ZeroRanges(maxRanges)))
  }

  class OperationPool {
    var poolSize: nat
    var maxRanges: nat
    var operations: array?<PooledOperation>
    var nextIndex: nat
    /** The range buffers, slot by slot, and the slots as values. */
    ghost var buffers: seq<array<SourceRange>>
    ghost var slots: seq<Slot>

    ghost predicate Shape()
      reads this, operations
    {
      && operations != null && operations.Length == poolSize == |buffers| == |slots|
      && nextIndex < U32
      && (forall i :: 0 <= i < poolSize ==>
            && operations[i].poolIndex == i && operations[i].maxRanges == maxRanges
            && operations[i].ranges == buffers[i] && buffers[i].Length == maxRanges
            && buffers[i] as object != operations)
      && (forall i, j :: 0 <= i < j < poolSize ==> buffers[i] != buffers[j])
    }

    ghost function SlotAt(i: nat): Slot
      reads this, operations, if i < |buffers| then {buffers[i]} else {}
      requires Shape() && i < poolSize
    {
      var op := operations[i];
      Slot(op.inUse, op.dstNsid, op.dstLba, op.numRanges, op.totalBlocks, op.hasContext, buffers[i][..])
    }

    /** Everything but slot k is in step with `slots`. */
    ghost predicate ValidBut(k: nat)
      reads this, operations, buffers
    {
      Shape() && forall i :: 0 <= i < poolSize && i != k ==> SlotAt(i) == slots[i]
    }

    ghost predicate Valid()
      reads this, operations, buffers
    {
      Shape() && forall i :: 0 <= i < poolSize ==> SlotAt(i) == slots[i]
    }

    ghost function View(): Pool
      reads this
    {
      Pool(nextIndex, slots)
    }

    constructor ()
      ensures operations == null && poolSize == 0 && nextIndex == 0
    {
      poolSize, maxRanges, nextIndex := 0, 0, 0;
      operations := null;
      buffers, slots := [], [];
    }

    /** Allocates the slots and their buffers; mallocOk[i] says whether the i-th buffer allocation
        succeeds. A pool that is already set up is left alone; after a failure nothing is set up. */
    method Init(poolSize: nat, maxRanges: nat, mallocOk: seq<bool>) returns (rc: int)
      requires nextIndex < U32 && |mallocOk| == poolSize
      modifies this
      ensures old(operations) != null ==> rc == 0 && unchanged(this)
      ensures old(operations) == null ==> (rc == 0 <==> forall i :: 0 <= i < poolSize ==> mallocOk[i])
      ensures old(operations) == null && rc == 0 ==>
                && Valid() && fresh(operations) && (forall b :: b in buffers ==> fresh(b))
                && this.poolSize == poolSize && this.maxRanges == maxRanges
                && View() == Pool(old(nextIndex), FreshSlots(poolSize, maxRanges))
      ensures old(operations) == null && rc != 0 ==> rc == -1 && operations == null && this.poolSize == 0
    {
      if operations != null {
        return 0;
      }
      this.poolSize := poolSize;
      this.maxRanges := maxRanges;
      operations := new PooledOperation[poolSize](_ => EMPTY_OPERATION);
      buffers, slots := [], FreshSlots(poolSize, maxRanges);
      for i := 0 to poolSize
        invariant operations != null && fresh(operations) && operations.Length == poolSize
        invariant this.poolSize == poolSize && this.maxRanges == maxRanges && nextIndex == old(nextIndex)
        invariant slots == FreshSlots(poolSize, maxRanges)
        invariant |buffers| == i
        invariant forall k :: 0 <= k < i ==> mallocOk[k]
        invariant forall k :: 0 <= k < i ==>
                    && fresh(buffers[k]) && buffers[k].Length == maxRanges
                    && operations[k] == EMPTY_OPERATION.(poolIndex := k, maxRanges := maxRanges, ranges := buffers[k])
                    && buffers[k][..] == ZeroRanges(maxRanges)
        invariant forall j, k :: 0 <= j < k < i ==> buffers[j] != buffers[k]
      {
        if !mallocOk[i] {
          operations := null;
          this.poolSize := 0;
          return -1;
        }
        var buffer := new SourceRange[maxRanges](_ => ZERO_RANGE);
        operations[i] := EMPTY_OPERATION.(poolIndex := i, maxRanges := maxRanges, ranges := buffer);
        buffers := buffers + [buffer];
        assert buffer[..] == ZeroRanges(maxRanges);
      }
      rc := 0;
    }

    /** Brings `slots` back in step after a change of one slot. */
    ghost method Refresh(i: nat)
      requires ValidBut(i) && i < poolSize
      modifies this`slots
      ensures Valid() && slots == old(slots)[i := SlotAt(i)]
    {
      slots := slots[i := SlotAt(i)];
    }

    /** Takes a slot, wipes its operation and its buffer. */
    method Acquire() returns (found: Option<nat>)
      requires Valid()
      modifies this`nextIndex, this`slots, operations, buffers
      ensures Valid()
      ensures (View(), found) == AcquireSlot(old(View()))
    {
      var attempts := 0;
      while attempts < poolSize
        invariant attempts <= poolSize && Valid() && slots == old(slots)
        invariant AcquireSlot(old(View())) == Scan(View(), poolSize - attempts)
      {
        found := TryNext();
        if found.Some? {
          return;
        }
        attempts := attempts + 1;
      }
      found := None;
    }

    /** One attempt: draws a ticket and tries the flag of its slot. */
    method TryNext() returns (found: Option<nat>)
      requires Valid() && poolSize > 0
      modifies this`nextIndex, this`slots, operations, buffers
      ensures Valid()
      ensures var p := old(View());
              var idx := p.next % |p.slots|;
              && found == (if p.slots[idx].inUse then None else Some(idx))
              && View() == Pool(Add32(p.next, 1), if found.Some? then p.slots[idx := Taken(p.slots[idx])] else p.slots)
    {
      var idx := nextIndex % poolSize;
      nextIndex := Add32(nextIndex, 1);
      var taken := TryTake(idx);
      found := if taken then Some(idx) else None;
    }

    /** The compare-exchange of one flag, and the wipe that follows when it succeeds. */
    method TryTake(i: nat) returns (taken: bool)
      requires Valid() && i < poolSize
      modifies this`slots, operations, buffers[i]
      ensures Valid() && taken == !old(slots)[i].inUse
      ensures slots == if taken then old(slots)[i := Taken(old(slots)[i])] else old(slots)
    {
      taken := !operations[i].inUse;
      assert SlotAt(i) == slots[i];
      if taken {
        operations[i] := operations[i].(inUse := true);
        Reset(i);
      }
    }

    /** PooledOperation::reset on slot i. */
    method Reset(i: nat)
      requires ValidBut(i) && i < poolSize
      modifies this`slots, operations, buffers[i]
      ensures Valid() && slots == old(slots)[i := Taken(old(SlotAt(i))).(inUse := old(operations[i].inUse))]
    {
      ghost var before := SlotAt(i);
      operations[i] := operations[i].(dstNsid := 0, dstLba := 0, numRanges := 0, totalBlocks := 0, hasContext := false);
      var buffer := operations[i].ranges;
      if buffer != null && maxRanges > 0 {
        for k := 0 to maxRanges
          modifies buffer
          invariant forall j :: 0 <= j < k ==> buffer[j] == ZERO_RANGE
        {
          buffer[k] := ZERO_RANGE;
        }
      }
      assert buffers[i][..] == ZeroRanges(|before.ranges|);
      Refresh(i);
    }

    method Release(i: nat)
      requires Valid()
      modifies this`slots, operations
      ensures Valid() && View() == ReleaseSlot(old(View()), i)
    {
      if i < poolSize {
        operations[i] := operations[i].(inUse := false);
        Refresh(i);
      }
    }
  }
}
