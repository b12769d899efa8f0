/** The statistics object (src/statistics.cpp): counters, extremes, the sample ring and the error counter. */
module Statistic {
  import opened Words
  import opened ErrorAccounting
  import opened LatencyRing
  import opened Percentiles

  /** The counters as a value; each is a 64-bit word. */
  datatype Counters = Counters(completed: nat, failed: nat, bytes: nat, totalLatency: nat,
                               minLatency: nat, maxLatency: nat)

  const NO_COUNTS := Counters(0, 0, 0, 0, U64 - 1, 0)

  function CountCompletion(c: Counters, bytes: nat, latency: nat): Counters {
    Counters(Add64(c.completed, 1), c.failed, Add64(c.bytes, bytes), Add64(c.totalLatency, latency),
             Min(c.minLatency, latency), Max(c.maxLatency, latency))
  }

  function CountFailure(c: Counters): Counters {
    c.(failed := Add64(c.failed, 1))
  }

  /** Completions, each with its bytes and latency, counted one after the other. */
  function CountAll(cs: seq<(nat, nat)>): Counters
    decreases |cs|
  {
    if cs == [] then NO_COUNTS
    else CountCompletion(CountAll(cs[..|cs| - 1]), cs[|cs| - 1].0, cs[|cs| - 1].1)
  }

  function BytesIn(cs: seq<(nat, nat)>): nat
    decreases |cs|
  {
    if cs == [] then 0 else BytesIn(cs[..|cs| - 1]) + cs[|cs| - 1].0
  }

  function LatencyIn(cs: seq<(nat, nat)>): nat
    decreases |cs|
  {
    if cs == [] then 0 else LatencyIn(cs[..|cs| - 1]) + cs[|cs| - 1].1
  }

  function Latencies(cs: seq<(nat, nat)>): (ls: seq<nat>)
    ensures |ls| == |cs| && forall i :: 0 <= i < |cs| ==> ls[i] == cs[i].1
  {
    seq(|cs|, i requires 0 <= i < |cs| => cs[i].1)
  }

  /** After any sequence of completions the counters hold their number, bytes and latencies modulo 2^64,
      no failure, and the least and the greatest latency. */
  lemma {:induction false} CountersAreExact(cs: seq<(nat, nat)>)
    requires forall i :: 0 <= i < |cs| ==> cs[i].1 < U64
    ensures var c := CountAll(cs);
            && c.completed == |cs| % U64 && c.failed == 0
            && c.bytes == BytesIn(cs) % U64 && c.totalLatency == LatencyIn(cs) % U64
            && (cs != [] ==> IsMin(Latencies(cs), c.minLatency) && IsMax(Latencies(cs), c.maxLatency))
    decreases |cs|
  {
    if cs != [] {
      var init, last := cs[..|cs| - 1], cs[|cs| - 1];
      CountersAreExact(init);
      CountUp(CountAll(init).completed, |init|, 1);
      CountUp(CountAll(init).bytes, BytesIn(init), last.0);
      CountUp(CountAll(init).totalLatency, LatencyIn(init), last.1);
      assert Latencies(cs) == Latencies(init) + [last.1];
    }
  }

  class Statistics {
    var operationsCompleted: nat
    var operationsFailed: nat
    var bytesCopied: nat
    var totalLatencyNs: nat
    var minLatencyNs: nat
    var maxLatencyNs: nat
    const latencyBuffer: LockFreeLatencyBuffer
    const errorCounter: ErrorCounter
    var latencySamples: seq<nat>

    function View(): Counters
      reads this
    {
      Counters(operationsCompleted, operationsFailed, bytesCopied, totalLatencyNs, minLatencyNs, maxLatencyNs)
    }

    /** The failure counter agrees with the error counter, which agrees with its own histogram. */
    ghost predicate Valid()
      reads this, latencyBuffer, latencyBuffer.samples, errorCounter
    {
      && latencyBuffer.Valid() && errorCounter.Valid()
      && operationsFailed == errorCounter.View().Total() % U64
    }

    ghost function Footprint(): set<object> {
      {this, latencyBuffer, latencyBuffer.samples, errorCounter}
    }

    constructor ()
      ensures Valid() && fresh(Footprint())
      ensures View() == NO_COUNTS && latencyBuffer.history == [] && errorCounter.View() == NO_ERRORS
    {
      operationsCompleted, operationsFailed, bytesCopied, totalLatencyNs := 0, 0, 0, 0;
      minLatencyNs, maxLatencyNs := U64 - 1, 0;
      latencySamples := [];
      latencyBuffer := new LockFreeLatencyBuffer();
      errorCounter := new ErrorCounter();
    }

    /** Records a completion; the two loops may first see some spurious compare-exchange failures. */
    method RecordCompletion(bytes: nat, latencyNs: nat, spuriousMin: nat, spuriousMax: nat)
      requires Valid() && |latencyBuffer.history| + 1 < U64
      modifies this, latencyBuffer, latencyBuffer.samples
      ensures Valid()
      ensures View() == CountCompletion(old(View()), bytes, latencyNs)
      ensures latencyBuffer.history == old(latencyBuffer.history) + [latencyNs]
    {
      operationsCompleted := Add64(operationsCompleted, 1);
      bytesCopied := Add64(bytesCopied, bytes);
      totalLatencyNs := Add64(totalLatencyNs, latencyNs);
      LowerMin(latencyNs, spuriousMin);
      RaiseMax(latencyNs, spuriousMax);
      latencyBuffer.Record(latencyNs);
    }

    method LowerMin(latencyNs: nat, spurious: nat)
      modifies this`minLatencyNs
      ensures minLatencyNs == Min(old(minLatencyNs), latencyNs)
    {
      var current := minLatencyNs;
      var failures, swapped := spurious, false;
      while latencyNs < current && !swapped
        invariant current == old(minLatencyNs)
        invariant minLatencyNs == if swapped then latencyNs else current
        invariant swapped ==> latencyNs < current
        decreases if swapped then 0 else 1 + failures
      {
        if failures == 0 && minLatencyNs == current {
          minLatencyNs := latencyNs;
          swapped := true;
        } else {
          current := minLatencyNs;
          failures := failures - 1;
        }
      }
    }

    method RaiseMax(latencyNs: nat, spurious: nat)
      modifies this`maxLatencyNs
      ensures maxLatencyNs == Max(old(maxLatencyNs), latencyNs)
    {
      var current := maxLatencyNs;
      var failures, swapped := spurious, false;
      while latencyNs > current && !swapped
        invariant current == old(maxLatencyNs)
        invariant maxLatencyNs == if swapped then latencyNs else current
        invariant swapped ==> latencyNs > current
        decreases if swapped then 0 else 1 + failures
      {
        if failures == 0 && maxLatencyNs == current {
          maxLatencyNs := latencyNs;
          swapped := true;
        } else {
          current := maxLatencyNs;
          failures := failures - 1;
        }
      }
    }

    method RecordFailure(statusCode: nat)
      requires Valid() && statusCode < CODES
      modifies this, errorCounter
      ensures Valid()
      ensures View() == CountFailure(old(View()))
      ensures errorCounter.View() == Record(old(errorCounter.View()), statusCode)
    {
      operationsFailed := Add64(operationsFailed, 1);
      RecordAgrees(errorCounter.View(), statusCode);
      errorCounter.RecordError(statusCode);
    }

    /** The percentile of the nonzero samples among the last 65536 records. */
    method GetPercentile(p: real) returns (r: real)
      requires Valid()
      ensures r == Percentile(NonZero(Last(latencyBuffer.history, BUFFER_SIZE)), p)
    {
      var samples := latencyBuffer.GetSamples();
      PercentileIgnoresOrder(samples, NonZero(Last(latencyBuffer.history, BUFFER_SIZE)), p);
      if samples == [] {
        return 0.0;
      }
      r := Interpolate(Sort(samples), p);
    }

    method Interpolate(sorted: seq<nat>, p: real) returns (r: real)
      requires sorted != []
      ensures r == OfSorted(sorted, p)
    {
      if p <= 0.0 {
        return sorted[0] as real;
      }
      if p >= 100.0 {
        return sorted[|sorted| - 1] as real;
      }
      PositionInRange(p, |sorted|);
      var index := Position(p, |sorted|);
      var lower := index.Floor;
      var upper := lower + 1;
      if upper >= |sorted| {
        return sorted[lower] as real;
      }
      var fraction := index - lower as real;
      r := Blend(sorted[lower] as real, sorted[upper] as real, fraction);
    }

    method GetAvgLatencyNs() returns (avg: real)
      ensures operationsCompleted == 0 ==> avg == 0.0
      ensures operationsCompleted > 0 ==> avg * operationsCompleted as real == totalLatencyNs as real
    {
      var completed := operationsCompleted;
      if completed == 0 {
        return 0.0;
      }
      avg := totalLatencyNs as real / completed as real;
    }

    method Reset()
      requires Valid()
      modifies this, latencyBuffer, latencyBuffer.samples, errorCounter
      ensures Valid() && View() == NO_COUNTS
      ensures latencyBuffer.history == [] && errorCounter.View() == NO_ERRORS && latencySamples == []
    {
      operationsCompleted, operationsFailed, bytesCopied, totalLatencyNs := 0, 0, 0, 0;
      minLatencyNs, maxLatencyNs := U64 - 1, 0;
      latencyBuffer.Reset();
      latencySamples := [];
      errorCounter.Reset();
    }

    /** Copies the counters and the samples; the ring and the error counter of the copy stay as they are. */
    method GetSnapshot(snapshot: Statistics)
      requires Valid() && snapshot != this
      modifies snapshot
      ensures snapshot.View() == View()
      ensures multiset(snapshot.latencySamples) == multiset(NonZero(Last(latencyBuffer.history, BUFFER_SIZE)))
    {
      snapshot.operationsCompleted := operationsCompleted;
      snapshot.operationsFailed := operationsFailed;
      snapshot.bytesCopied := bytesCopied;
      snapshot.totalLatencyNs := totalLatencyNs;
      snapshot.minLatencyNs := minLatencyNs;
      snapshot.maxLatencyNs := maxLatencyNs;
      snapshot.latencySamples := latencyBuffer.GetSamples();
    }
  }
}
