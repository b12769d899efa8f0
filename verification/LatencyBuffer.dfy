/** The ring of the most recent latency samples (include/statistics.h:14-68). */
module LatencyRing {
  import opened Words

  const BUFFER_SIZE: nat := 65536

  /** The slot that a record goes to. */
  function SlotOf(index: nat): nat {
    index % BUFFER_SIZE
  }

  /** The program masks the index; the buffer size is a power of two, so that is the remainder. */
  lemma SlotIsMasked(index: nat)
    ensures BitAnd(index, BUFFER_SIZE - 1) == SlotOf(index)
  {
    assert Pow2(8) == 256;
    assert Pow2(16) == BUFFER_SIZE;
    LowMaskIsModulo(index, 16);
  }

  /** What slot i holds after a history of records: the latest one that went there, or zero. */
  function SlotValue(history: seq<nat>, i: nat): nat
    requires i < BUFFER_SIZE
  {
    var k := |history|;
    var r := k % BUFFER_SIZE;
    if i < r then history[k - r + i]
    else if k < BUFFER_SIZE then 0
    else history[k - r - BUFFER_SIZE + i]
  }

  ghost predicate LaidOut(samples: seq<nat>, history: seq<nat>) {
    |samples| == BUFFER_SIZE && forall i :: 0 <= i < BUFFER_SIZE ==> samples[i] == SlotValue(history, i)
  }

  lemma RecordLaysOut(samples: seq<nat>, history: seq<nat>, v: nat)
    requires LaidOut(samples, history)
    ensures LaidOut(samples[|history| % BUFFER_SIZE := v], history + [v])
  {
    var samples', history' := samples[|history| % BUFFER_SIZE := v], history + [v];
    forall i | 0 <= i < BUFFER_SIZE
      ensures samples'[i] == SlotValue(history', i)
    {
      assert samples[i] == SlotValue(history, i);
    }
  }

  /** The values of a sequence that are not zero, in order. */
  function NonZero(s: seq<nat>): seq<nat>
    decreases |s|
  {
    if s == [] then []
    else NonZero(s[..|s| - 1]) + if s[|s| - 1] > 0 then [s[|s| - 1]] else []
  }

  lemma {:induction false} NonZeroConcat(a: seq<nat>, b: seq<nat>)
    ensures NonZero(a + b) == NonZero(a) + NonZero(b)
    decreases |b|
  {
    if b == [] {
      assert a + b == a;
    } else {
      assert (a + b)[..|a + b| - 1] == a + b[..|b| - 1];
      NonZeroConcat(a, b[..|b| - 1]);
    }
  }

  function Last(s: seq<nat>, n: nat): seq<nat> {
    if |s| <= n then s else s[|s| - n..]
  }

  /** The occupied part of the ring is the last records, rotated; so, as a multiset, the samples read
      from it are the nonzero ones among the last records. */
  lemma SamplesAreTheLastRecords(samples: seq<nat>, history: seq<nat>)
    requires LaidOut(samples, history)
    ensures var k := Min(|history|, BUFFER_SIZE);
            multiset(NonZero(samples[..k])) == multiset(NonZero(Last(history, BUFFER_SIZE)))
    ensures |history| <= BUFFER_SIZE ==> samples[..|history|] == history
  {
    var k := |history|;
    if k <= BUFFER_SIZE {
      assert samples[..k] == history;
    } else {
      RotatedSamples(samples, history, BUFFER_SIZE, k % BUFFER_SIZE);
    }
  }

  lemma RotatedSamples(samples: seq<nat>, history: seq<nat>, size: nat, r: nat)
    requires |samples| == size < |history| && r < size
    requires forall i :: 0 <= i < size ==> samples[i] == RingEntry(history, size, r, i)
    ensures multiset(NonZero(samples[..size])) == multiset(NonZero(Last(history, size)))
  {
    var newer, older := history[|history| - r..], history[|history| - size..|history| - r];
    Rotated(samples, history, size, r);
    NonZeroConcat(newer, older);
    NonZeroConcat(older, newer);
  }

  /** A ring whose first r slots hold the newest records, and the others those before, in order. */
  lemma Rotated(samples: seq<nat>, history: seq<nat>, size: nat, r: nat)
    requires |samples| == size < |history| && r < size
    requires forall i :: 0 <= i < size ==> samples[i] == RingEntry(history, size, r, i)
    ensures samples[..size] == history[|history| - r..] + history[|history| - size..|history| - r]
    ensures Last(history, size) == history[|history| - size..|history| - r] + history[|history| - r..]
  {
    var newer, older := history[|history| - r..], history[|history| - size..|history| - r];
    forall i | 0 <= i < size
      ensures samples[i] == (newer + older)[i]
    {
      assert samples[i] == RingEntry(history, size, r, i);
    }
    assert samples[..size] == newer + older;
    assert Last(history, size) == older + newer;
  }

  function RingEntry(history: seq<nat>, size: nat, r: nat, i: nat): nat
    requires i < size < |history| && r < size
  {
    if i < r then history[|history| - r + i] else history[|history| - r - size + i]
  }

  class LockFreeLatencyBuffer {
    const samples: array<nat>
    var writeIndex: nat
    var sampleCount: nat
    /** The records since construction or the last reset. */
    ghost var history: seq<nat>

    ghost predicate Valid()
      reads this, samples
    {
      && |history| < U64
      && writeIndex == sampleCount == |history|
      && samples.Length == BUFFER_SIZE
      && LaidOut(samples[..], history)
    }

    constructor ()
      ensures Valid() && history == [] && fresh(samples)
    {
      samples := new nat[BUFFER_SIZE](_ => 0);
      writeIndex, sampleCount := 0, 0;
      history := [];
    }

    /** The slot of a record, taken from its index by a mask. */
    method MaskedIndex(index: nat) returns (idx: nat)
      ensures idx == SlotOf(index) < BUFFER_SIZE
    {
      SlotIsMasked(index);
      idx := BitAnd(index, BUFFER_SIZE - 1);
    }

    method Record(latencyNs: nat)
      requires Valid() && |history| + 1 < U64
      modifies this, samples
      ensures Valid() && history == old(history) + [latencyNs]
    {
      RecordLaysOut(samples[..], history, latencyNs);
      var idx := MaskedIndex(writeIndex);
      writeIndex := Add64(writeIndex, 1);
      ghost var before := samples[..];
      samples[idx] := latencyNs;
      assert samples[..] == before[idx := latencyNs];
      sampleCount := Add64(sampleCount, 1);
      history := history + [latencyNs];
    }

    method GetSamples() returns (result: seq<nat>)
      requires Valid()
      ensures multiset(result) == multiset(NonZero(Last(history, BUFFER_SIZE)))
      ensures |history| <= BUFFER_SIZE ==> result == NonZero(history)
    {
      var count := Min(sampleCount, BUFFER_SIZE);
      result := [];
      for i := 0 to count
        invariant result == NonZero(samples[..i])
      {
        var val := samples[i];
        assert samples[..i + 1][..i] == samples[..i];
        if val > 0 {
          result := result + [val];
        }
      }
      SamplesAreTheLastRecords(samples[..], history);
      assert samples[..][..count] == samples[..count];
    }

    method Reset()
      requires Valid()
      modifies this, samples
      ensures Valid() && history == []
    {
      writeIndex, sampleCount := 0, 0;
      for i := 0 to BUFFER_SIZE
        invariant writeIndex == sampleCount == 0
        invariant forall k :: 0 <= k < i ==> samples[k] == 0
      {
        samples[i] := 0;
      }
      history := [];
    }
  }
}
