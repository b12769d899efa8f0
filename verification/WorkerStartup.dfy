/** Starting the workers (src/poll_thread_manager.cpp:435-511): the queue depth of each and the controller
    each one gets. */
module WorkerStartup {
  import opened Words

  const MIN_DEPTH: nat := 4
  const MAX_DEPTH: nat := 1024

  /** The configured depth divided among the cores, at least 4, at most what the controller and the
      program allow. */
  function PerThreadDepth(iodepth: nat, cores: nat, maxQueueDepth: nat): nat
    requires cores > 0
  {
    var d0 := iodepth / cores;
    var d1 := if d0 < MIN_DEPTH then MIN_DEPTH else d0;
    var d2 := if d1 > maxQueueDepth then maxQueueDepth else d1;
    if d2 > MAX_DEPTH then MAX_DEPTH else d2
  }

  /** All workers together may have at most max(iodepth, 4 * cores) commands outstanding, and a worker
      has a depth at all exactly when the controller reports one. */
  lemma DepthBudget(iodepth: nat, cores: nat, maxQueueDepth: nat)
    requires cores > 0
    ensures var depth := PerThreadDepth(iodepth, cores, maxQueueDepth);
            && cores * depth <= Max(iodepth, MIN_DEPTH * cores)
            && depth <= MAX_DEPTH && depth <= maxQueueDepth
            && (depth == 0 <==> maxQueueDepth == 0)
  {
    var depth := PerThreadDepth(iodepth, cores, maxQueueDepth);
    var d0 := iodepth / cores;
    if d0 < MIN_DEPTH {
      MulMono(depth, MIN_DEPTH, cores);
    } else {
      MulMono(depth, d0, cores);
    }
  }

  /** The documented meaning of iodepth, a global maximum, is kept exactly when there are at least four
      commands for every core, or as many as the controller allows if that is fewer. */
  lemma IodepthIsGlobalMaximumExactly(iodepth: nat, cores: nat, maxQueueDepth: nat)
    requires cores > 0
    ensures cores * PerThreadDepth(iodepth, cores, maxQueueDepth) <= iodepth <==>
            cores * Min(MIN_DEPTH, maxQueueDepth) <= iodepth
  {
    var d0 := iodepth / cores;
    MulMono(Min(MIN_DEPTH, maxQueueDepth), MIN_DEPTH, cores);
    if iodepth >= MIN_DEPTH * cores {
      DepthBudget(iodepth, cores, maxQueueDepth);
    } else {
      if d0 >= MIN_DEPTH {
        MulMono(MIN_DEPTH, d0, cores);
        assert false;
      }
    }
  }

  // ---------------------------------------------------------------- controllers

  /** The controller tried at attempt a for worker i. */
  function Candidate(i: nat, a: nat, n: nat): nat
    requires n > 0
  {
    (i % n + a) % n
  }

  function Used(workers: seq<nat>, c: nat): nat {
    multiset(workers)[c]
  }

  predicate Full(workers: seq<nat>, caps: seq<nat>, c: nat)
    requires c < |caps|
  {
    Used(workers, c) >= caps[c]
  }

  /** Worker i got the first controller, in cyclic order from i modulo n, that was not full yet. */
  ghost predicate GotFirstOpen(workers: seq<nat>, caps: seq<nat>, i: nat, a: nat)
    requires i < |workers| && |caps| > 0
  {
    && a < |caps| && workers[i] == Candidate(i, a, |caps|)
    && !Full(workers[..i], caps, workers[i])
    && forall b: nat :: b < a ==> Full(workers[..i], caps, Candidate(i, b, |caps|))
  }

  ghost predicate Placed(workers: seq<nat>, caps: seq<nat>, i: nat)
    requires i < |workers| && |caps| > 0
  {
    exists a: nat :: GotFirstOpen(workers, caps, i, a)
  }

  ghost predicate Assignment(workers: seq<nat>, caps: seq<nat>)
    requires |caps| > 0
  {
    forall i: nat :: i < |workers| ==> Placed(workers, caps, i)
  }

  lemma {:induction false} SumIncrement(s: seq<nat>, c: nat)
    requires c < |s|
    ensures Sum(s[c := s[c] + 1]) == Sum(s) + 1
    decreases |s|
  {
    if c > 0 {
      assert s[c := s[c] + 1][1..] == s[1..][c - 1 := s[c] + 1];
      SumIncrement(s[1..], c - 1);
    } else {
      assert s[c := s[c] + 1][1..] == s[1..];
    }
  }

  lemma {:induction false} SumAtMost(s: seq<nat>, t: seq<nat>)
    requires |s| == |t| && forall i :: 0 <= i < |s| ==> s[i] <= t[i]
    ensures Sum(s) <= Sum(t)
    decreases |s|
  {
    if s != [] {
      SumAtMost(s[1..], t[1..]);
    }
  }

  lemma {:induction false} SumZero(s: seq<nat>)
    requires forall i :: 0 <= i < |s| ==> s[i] == 0
    ensures Sum(s) == 0
    decreases |s|
  {
    if s != [] {
      SumZero(s[1..]);
    }
  }

  /** n candidates in a row are all controllers. */
  lemma EveryControllerIsTried(i: nat, c: nat, n: nat) returns (a: nat)
    requires c < n
    ensures a < n && Candidate(i, a, n) == c
  {
    var j := i % n;
    if c >= j {
      a := c - j;
      RemainderUnique(c, n, 0, c);
    } else {
      a := c + n - j;
      RemainderUnique(c + n, n, 1, c);
    }
  }

  /** The inner loop: try the controllers in cyclic order until one has room. */
  method FindController(workers: seq<nat>, caps: seq<nat>, perCtrlr: array<nat>)
    returns (created: bool, ctrlr: nat, attempts: nat)
    requires perCtrlr.Length == |caps| > 0
    requires forall c: nat :: c < |caps| ==> perCtrlr[c] == Used(workers, c)
    ensures forall b: nat :: b < attempts ==> Full(workers, caps, Candidate(|workers|, b, |caps|))
    ensures created ==> attempts < |caps| && ctrlr == Candidate(|workers|, attempts, |caps|)
    ensures created ==> ctrlr < |caps| && !Full(workers, caps, ctrlr)
    ensures !created ==> attempts == |caps|
  {
    var n, i := |caps|, |workers|;
    created, attempts, ctrlr := false, 0, i % n;
    RemainderUnique(i % n, n, 0, i % n);
    while !created && attempts < n
      invariant attempts <= n && ctrlr == Candidate(i, attempts, n)
      invariant forall b: nat :: b < attempts ==> Full(workers, caps, Candidate(i, b, n))
      invariant created ==> attempts < n && !Full(workers, caps, ctrlr)
      decreases if created then 0 else 1, n - attempts
    {
      if perCtrlr[ctrlr] < caps[ctrlr] {
        created := true;
      } else {
        NextCandidate(i, attempts, n);
        ctrlr := (ctrlr + 1) % n;
        attempts := attempts + 1;
      }
    }
  }

  /** The start loop, for controllers that accept queue pairs until a fixed capacity is used up. Returns
      the controller of each worker that was started, and how many each controller serves. */
  method AssignControllers(numCores: nat, caps: seq<nat>) returns (rc: int, workers: seq<nat>, perCtrlr: array<nat>)
    ensures perCtrlr.Length == |caps|
    ensures forall c: nat :: c < |caps| ==> perCtrlr[c] == Used(workers, c) <= caps[c]
    ensures |caps| > 0 ==> Assignment(workers, caps)
    ensures |caps| > 0 ==> |workers| == Min(numCores, Sum(caps))
    ensures rc == 0 <==> |caps| > 0 && |workers| > 0
    ensures rc == 0 || rc == -1
  {
    var n := |caps|;
    workers := [];
    perCtrlr := new nat[n](_ => 0);
    if n == 0 {
      return -1, workers, perCtrlr;
    }
    SumZero(perCtrlr[..]);
    var i := 0;
    while i < numCores
      invariant i == |workers| <= numCores
      invariant perCtrlr.Length == n && fresh(perCtrlr)
      invariant Sum(perCtrlr[..]) == |workers| <= Sum(caps)
      invariant forall c: nat :: c < n ==> perCtrlr[c] == Used(workers, c) <= caps[c]
      invariant Assignment(workers, caps)
    {
      var created, ctrlr, attempts := FindController(workers, caps, perCtrlr);
      if !created {
        AllFull(workers, caps, perCtrlr[..], i);
        if workers == [] {
          return -1, workers, perCtrlr;
        }
        return 0, workers, perCtrlr;
      }
      AddWorker(perCtrlr, workers, caps, ctrlr);
      ExtendAssignment(workers, caps, ctrlr, attempts);
      workers := workers + [ctrlr];
      i := i + 1;
    }
    if workers == [] {
      return -1, workers, perCtrlr;
    }
    rc := 0;
  }

  /** Counts one more queue pair of a controller that has room. */
  method AddWorker(perCtrlr: array<nat>, ghost workers: seq<nat>, ghost caps: seq<nat>, ctrlr: nat)
    requires perCtrlr.Length == |caps| && ctrlr < |caps| && !Full(workers, caps, ctrlr)
    requires forall c: nat :: c < |caps| ==> perCtrlr[c] == Used(workers, c) <= caps[c]
    modifies perCtrlr
    ensures forall c: nat :: c < |caps| ==> perCtrlr[c] == Used(workers + [ctrlr], c) <= caps[c]
    ensures Sum(perCtrlr[..]) == old(Sum(perCtrlr[..])) + 1 <= Sum(caps)
  {
    ghost var before := perCtrlr[..];
    perCtrlr[ctrlr] := perCtrlr[ctrlr] + 1;
    assert perCtrlr[..] == before[ctrlr := before[ctrlr] + 1];
    SumIncrement(before, ctrlr);
    SumAtMost(perCtrlr[..], caps);
  }

  lemma NextCandidate(i: nat, a: nat, n: nat)
    requires n > 0
    ensures Candidate(i, a + 1, n) == (Candidate(i, a, n) + 1) % n
  {
    var x := i % n + a;
    assert x + 1 == (x / n) * n + (x % n + 1);
    if x % n + 1 < n {
      RemainderUnique(x + 1, n, x / n, x % n + 1);
      RemainderUnique(x % n + 1, n, 0, x % n + 1);
    } else {
      assert (x / n + 1) * n == (x / n) * n + n;
      RemainderUnique(x + 1, n, x / n + 1, 0);
      RemainderUnique(x % n + 1, n, 1, 0);
    }
  }

  lemma AllFull(workers: seq<nat>, caps: seq<nat>, counts: seq<nat>, i: nat)
    requires |caps| == |counts| > 0
    requires forall b: nat :: b < |caps| ==> Full(workers, caps, Candidate(i, b, |caps|))
    requires forall c: nat :: c < |caps| ==> counts[c] == Used(workers, c)
    ensures Sum(counts) >= Sum(caps)
  {
    forall c: nat | c < |caps|
      ensures caps[c] <= counts[c]
    {
      var a := EveryControllerIsTried(i, c, |caps|);
    }
    SumAtMost(caps, counts);
  }

  lemma ExtendAssignment(workers: seq<nat>, caps: seq<nat>, ctrlr: nat, attempts: nat)
    requires |caps| > 0 && Assignment(workers, caps)
    requires attempts < |caps| && ctrlr == Candidate(|workers|, attempts, |caps|) && !Full(workers, caps, ctrlr)
    requires forall b: nat :: b < attempts ==> Full(workers, caps, Candidate(|workers|, b, |caps|))
    ensures Assignment(workers + [ctrlr], caps)
  {
    var workers' := workers + [ctrlr];
    forall i: nat | i < |workers'|
      ensures Placed(workers', caps, i)
    {
      assert workers'[..i] == workers[..i];
      if i < |workers| {
        assert Placed(workers, caps, i);
        var a: nat :| GotFirstOpen(workers, caps, i, a);
        assert GotFirstOpen(workers', caps, i, a);
      } else {
        assert workers[..i] == workers;
        assert GotFirstOpen(workers', caps, i, attempts);
      }
    }
  }

  // ---------------------------------------------------------------- balance

  /** How many of the first k workers a plain round robin gives to controller c. */
  function Share(k: nat, c: nat, n: nat): nat
    requires c < n
  {
    k / n + if c < k % n then 1 else 0
  }

  lemma ShareStep(k: nat, c: nat, n: nat)
    requires c < n
    ensures Share(k + 1, c, n) == Share(k, c, n) + if c == k % n then 1 else 0
  {
    if k % n + 1 < n {
      RemainderUnique(k + 1, n, k / n, k % n + 1);
    } else {
      assert (k / n + 1) * n == (k / n) * n + n;
      RemainderUnique(k + 1, n, k / n + 1, 0);
    }
  }

  lemma FirstChoiceHasRoom(workers: seq<nat>, caps: seq<nat>, numCores: nat, i: nat)
    requires |caps| > 0 && Assignment(workers, caps) && i < |workers| <= numCores
    requires forall c :: 0 <= c < |caps| ==> caps[c] * |caps| >= numCores
    requires Used(workers[..i], i % |caps|) == i / |caps|
    ensures workers[i] == i % |caps|
  {
    var n := |caps|;
    assert Placed(workers, caps, i);
    var a: nat :| GotFirstOpen(workers, caps, i, a);
    RemainderUnique(i % n, n, 0, i % n);
    if a > 0 {
      assert Full(workers[..i], caps, Candidate(i, 0, n));
      RoomForShare(caps[i % n], i, n, numCores);
      assert false;
    }
  }

  lemma RoomForShare(cap: nat, i: nat, n: nat, numCores: nat)
    requires n > 0 && i < numCores <= cap * n
    ensures i / n < cap
  {
    if cap <= i / n {
      MulMono(cap, i / n, n);
      assert false;
    }
  }

  lemma CountAppend(s: seq<nat>, k: nat, c: nat)
    requires k < |s|
    ensures Used(s[..k + 1], c) == Used(s[..k], c) + if s[k] == c then 1 else 0
  {
    assert s[..k + 1] == s[..k] + [s[k]];
  }

  lemma {:induction false} RoundRobinCounts(workers: seq<nat>, caps: seq<nat>, numCores: nat, k: nat, c: nat)
    requires |caps| > 0 && Assignment(workers, caps) && k <= |workers| <= numCores && c < |caps|
    requires forall c :: 0 <= c < |caps| ==> caps[c] * |caps| >= numCores
    ensures Used(workers[..k], c) == Share(k, c, |caps|)
    decreases k
  {
    var n := |caps|;
    if k == 0 {
      RemainderUnique(0, n, 0, 0);
    } else {
      var i := k - 1;
      RoundRobinCounts(workers, caps, numCores, i, c);
      RoundRobinCounts(workers, caps, numCores, i, i % n);
      FirstChoiceHasRoom(workers, caps, numCores, i);
      CountAppend(workers, i, c);
      ShareStep(i, c, n);
    }
  }

  /** If every controller has room for its share, the fallback is never used: the assignment is the
      round robin, and the controllers' counts differ by at most one. */
  lemma RoundRobinWhenRoomy(workers: seq<nat>, caps: seq<nat>, numCores: nat)
    requires |caps| > 0 && Assignment(workers, caps) && |workers| <= numCores
    requires forall c :: 0 <= c < |caps| ==> caps[c] * |caps| >= numCores
    ensures forall i :: 0 <= i < |workers| ==> workers[i] == i % |caps|
    ensures forall c, d :: 0 <= c < |caps| && 0 <= d < |caps| ==> Used(workers, c) <= Used(workers, d) + 1
  {
    forall i | 0 <= i < |workers|
      ensures workers[i] == i % |caps|
    {
      RoundRobinCounts(workers, caps, numCores, i, i % |caps|);
      FirstChoiceHasRoom(workers, caps, numCores, i);
    }
    assert workers[..|workers|] == workers;
    forall c, d | 0 <= c < |caps| && 0 <= d < |caps|
      ensures Used(workers, c) <= Used(workers, d) + 1
    {
      RoundRobinCounts(workers, caps, numCores, |workers|, c);
      RoundRobinCounts(workers, caps, numCores, |workers|, d);
    }
  }
}
