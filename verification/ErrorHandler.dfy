/** Error classes, and the counters and histogram that must agree (src/error_handler.cpp). */
module ErrorAccounting {
  import opened Words

  /** Status codes are 16-bit words. */
  const CODES: nat := 0x1_0000

  /** The status code proper: the low eight bits. */
  function Sc(code: nat): nat {
    code % 0x100
  }

  /** The status code type: bits 9 to 11. */
  function Sct(code: nat): nat {
    (code / 0x200) % 8
  }

  /** Both fields are taken out with masks. */
  lemma FieldsAreMasked(code: nat)
    ensures BitAnd(code, 0xFF) == Sc(code) && BitAnd(code / 0x200, 7) == Sct(code)
  {
    assert Pow2(8) == 0x100 && Pow2(3) == 8;
    LowMaskIsModulo(code, 8);
    LowMaskIsModulo(code / 0x200, 3);
  }

  predicate IsSaturationError(code: nat) {
    Sc(code) == 0x07 || Sc(code) == 0x89
  }

  predicate IsFatalError(code: nat) {
    Sct(code) >= 2 || Sc(code) == 0x01 || Sc(code) == 0x02
  }

  datatype Class = Saturation | Fatal | Other

  /** Saturation is tested first, so a code that is both counts as saturation. */
  function ClassOf(code: nat): Class {
    if IsSaturationError(code) then Saturation
    else if IsFatalError(code) then Fatal
    else Other
  }

  /** The completion callback hands over only the eight bits of the status code, without the type. On
      that path the type test can never fire: the fatal codes are exactly 0x01 and 0x02. */
  lemma EightBitCodesHaveNoType(sc: nat)
    requires sc < 0x100
    ensures Sct(sc) == 0
    ensures ClassOf(sc).Fatal? <==> sc == 0x01 || sc == 0x02
    ensures ClassOf(sc).Saturation? <==> sc == 0x07 || sc == 0x89
  {
  }

  // ---------------------------------------------------------------- counters and histogram

  type Histogram = map<nat, nat>

  function Count(h: Histogram, code: nat): nat {
    if code in h then h[code] else 0
  }

  /** The histogram added up over the codes of one class, and over all codes. */
  function ClassTotal(h: Histogram, cls: Class, n: nat): nat {
    if n == 0 then 0
    else ClassTotal(h, cls, n - 1) + if ClassOf(n - 1) == cls then Count(h, n - 1) else 0
  }

  function AllTotal(h: Histogram, n: nat): nat {
    if n == 0 then 0 else AllTotal(h, n - 1) + Count(h, n - 1)
  }

  /** Every code is in exactly one class. */
  lemma {:induction false} ClassesPartition(h: Histogram, n: nat)
    ensures AllTotal(h, n) == ClassTotal(h, Saturation, n) + ClassTotal(h, Fatal, n) + ClassTotal(h, Other, n)
  {
    if n > 0 {
      ClassesPartition(h, n - 1);
      match ClassOf(n - 1)
      case Saturation =>
      case Fatal =>
      case Other =>
    }
  }

  lemma {:induction false} IncrementTotal(h: Histogram, code: nat, cls: Class, n: nat)
    ensures ClassTotal(h[code := Count(h, code) + 1], cls, n) ==
            ClassTotal(h, cls, n) + if code < n && ClassOf(code) == cls then 1 else 0
  {
    if n > 0 {
      IncrementTotal(h, code, cls, n - 1);
    }
  }

  /** The error counter as a value. */
  datatype Errors = Errors(saturation: nat, fatal: nat, other: nat, counts: Histogram) {
    function Total(): nat {
      saturation + fatal + other
    }

    /** Each class counter is the histogram's total over the codes of that class. Totals are taken up to
        any bound that includes all 16-bit codes. */
    ghost predicate Agrees() {
      forall n: nat :: n >= CODES ==>
        && ClassTotal(counts, Saturation, n) == saturation
        && ClassTotal(counts, Fatal, n) == fatal
        && ClassTotal(counts, Other, n) == other
    }
  }

  const NO_ERRORS := Errors(0, 0, 0, map[])

  /** The first half of recording an error: the counter of its class. */
  function CountClass(e: Errors, code: nat): Errors {
    match ClassOf(code)
    case Saturation => e.(saturation := e.saturation + 1)
    case Fatal => e.(fatal := e.fatal + 1)
    case Other => e.(other := e.other + 1)
  }

  /** The second half: the histogram, under its lock. */
  function CountCode(e: Errors, code: nat): Errors {
    e.(counts := e.counts[code := Count(e.counts, code) + 1])
  }

  function Record(e: Errors, code: nat): Errors {
    CountCode(CountClass(e, code), code)
  }

  lemma RecordCounts(e: Errors, code: nat)
    ensures Record(e, code).counts == e.counts[code := Count(e.counts, code) + 1]
  {
  }

  lemma RecordAgrees(e: Errors, code: nat)
    requires e.Agrees() && code < CODES
    ensures Record(e, code).Agrees() && Record(e, code).Total() == e.Total() + 1
  {
    RecordCounts(e, code);
    forall n: nat | n >= CODES
      ensures var e' := Record(e, code);
              && ClassTotal(e'.counts, Saturation, n) == e'.saturation
              && ClassTotal(e'.counts, Fatal, n) == e'.fatal
              && ClassTotal(e'.counts, Other, n) == e'.other
    {
      IncrementTotal(e.counts, code, Saturation, n);
      IncrementTotal(e.counts, code, Fatal, n);
      IncrementTotal(e.counts, code, Other, n);
    }
  }

  lemma {:induction false} EmptyTotal(cls: Class, n: nat)
    ensures ClassTotal(map[], cls, n) == 0
  {
    if n > 0 {
      EmptyTotal(cls, n - 1);
    }
  }

  lemma EmptyAgrees()
    ensures NO_ERRORS.Agrees()
  {
    forall n: nat | n >= CODES
      ensures ClassTotal(map[], Saturation, n) == ClassTotal(map[], Fatal, n) == ClassTotal(map[], Other, n) == 0
    {
      EmptyTotal(Saturation, n);
      EmptyTotal(Fatal, n);
      EmptyTotal(Other, n);
    }
  }

  lemma AgreesOnAll(e: Errors, n: nat)
    requires e.Agrees() && n >= CODES
    ensures AllTotal(e.counts, n) == e.Total()
  {
    ClassesPartition(e.counts, n);
  }

  function RecordAll(e: Errors, codes: seq<nat>): Errors
    decreases |codes|
  {
    if codes == [] then e else Record(RecordAll(e, codes[..|codes| - 1]), codes[|codes| - 1])
  }

  lemma {:induction false} RecordAllAgrees(codes: seq<nat>)
    requires forall i :: 0 <= i < |codes| ==> codes[i] < CODES
    ensures RecordAll(NO_ERRORS, codes).Agrees()
    ensures RecordAll(NO_ERRORS, codes).Total() == |codes|
    decreases |codes|
  {
    if codes == [] {
      EmptyAgrees();
    } else {
      RecordAllAgrees(codes[..|codes| - 1]);
      RecordAgrees(RecordAll(NO_ERRORS, codes[..|codes| - 1]), codes[|codes| - 1]);
    }
  }

  lemma {:induction false} HistogramCounts(codes: seq<nat>, code: nat)
    ensures Count(RecordAll(NO_ERRORS, codes).counts, code) == multiset(codes)[code]
    decreases |codes|
  {
    if codes != [] {
      var init, last := codes[..|codes| - 1], codes[|codes| - 1];
      HistogramCounts(init, code);
      assert codes == init + [last];
      RecordCounts(RecordAll(NO_ERRORS, init), last);
    }
  }

  /** After any sequence of failures the total is their number, the histogram counts each code, and the
      class counters and the histogram agree. */
  lemma ErrorAccountsAgree(codes: seq<nat>)
    requires forall i :: 0 <= i < |codes| ==> codes[i] < CODES
    ensures var e := RecordAll(NO_ERRORS, codes);
            && e.Agrees()
            && e.Total() == |codes|
            && (forall n: nat :: n >= CODES ==> AllTotal(e.counts, n) == |codes|)
            && (forall c :: Count(e.counts, c) == multiset(codes)[c])
  {
    RecordAllAgrees(codes);
    forall n: nat | n >= CODES
      ensures AllTotal(RecordAll(NO_ERRORS, codes).counts, n) == |codes|
    {
      AgreesOnAll(RecordAll(NO_ERRORS, codes), n);
    }
    forall c
      ensures Count(RecordAll(NO_ERRORS, codes).counts, c) == multiset(codes)[c]
    {
      HistogramCounts(codes, c);
    }
  }

  // ---------------------------------------------------------------- what determines the counter

  function ClassCounter(e: Errors, cls: Class): nat {
    match cls
    case Saturation => e.saturation
    case Fatal => e.fatal
    case Other => e.other
  }

  /** How many of these codes are in a class. */
  function InClass(codes: seq<nat>, cls: Class): nat
    decreases |codes|
  {
    if codes == [] then 0
    else InClass(codes[..|codes| - 1], cls) + if ClassOf(codes[|codes| - 1]) == cls then 1 else 0
  }

  lemma InClassSnoc(codes: seq<nat>, code: nat, cls: Class)
    ensures InClass(codes + [code], cls) == InClass(codes, cls) + if ClassOf(code) == cls then 1 else 0
  {
    assert (codes + [code])[..|codes|] == codes;
  }

  lemma {:induction false} InClassPartition(codes: seq<nat>)
    ensures InClass(codes, Saturation) + InClass(codes, Fatal) + InClass(codes, Other) == |codes|
    decreases |codes|
  {
    if codes != [] {
      InClassPartition(codes[..|codes| - 1]);
      match ClassOf(codes[|codes| - 1])
      case Saturation =>
      case Fatal =>
      case Other =>
    }
  }

  ghost predicate Positive(h: Histogram) {
    forall code :: code in h ==> h[code] > 0
  }

  lemma {:induction false} RecordAllCounts(codes: seq<nat>, cls: Class)
    ensures ClassCounter(RecordAll(NO_ERRORS, codes), cls) == InClass(codes, cls)
    ensures Positive(RecordAll(NO_ERRORS, codes).counts)
    decreases |codes|
  {
    if codes != [] {
      RecordAllCounts(codes[..|codes| - 1], cls);
    }
  }

  /** An error counter whose class counters count the codes of each class, and whose histogram counts
      each code, is the one that recording these codes leads to. */
  lemma CountsDetermine(e: Errors, codes: seq<nat>)
    requires forall cls :: ClassCounter(e, cls) == InClass(codes, cls)
    requires Positive(e.counts) && forall code :: Count(e.counts, code) == multiset(codes)[code]
    ensures e == RecordAll(NO_ERRORS, codes)
  {
    var r := RecordAll(NO_ERRORS, codes);
    RecordAllCounts(codes, Saturation);
    RecordAllCounts(codes, Fatal);
    RecordAllCounts(codes, Other);
    assert ClassCounter(e, Saturation) == ClassCounter(r, Saturation);
    assert ClassCounter(e, Fatal) == ClassCounter(r, Fatal);
    assert ClassCounter(e, Other) == ClassCounter(r, Other);
    SameHistogram(e.counts, r.counts, codes);
  }

  lemma SameHistogram(h: Histogram, r: Histogram, codes: seq<nat>)
    requires Positive(h) && forall code :: Count(h, code) == multiset(codes)[code]
    requires r == RecordAll(NO_ERRORS, codes).counts && Positive(r)
    ensures h == r
  {
    forall code: nat
      ensures Count(h, code) == Count(r, code) && (code in h <==> code in r)
    {
      HistogramCounts(codes, code);
      assert code in h <==> Count(h, code) > 0;
      assert code in r <==> Count(r, code) > 0;
    }
    forall code | code in h
      ensures h[code] == r[code]
    {
      assert h[code] == Count(h, code) && r[code] == Count(r, code);
    }
    assert h.Keys == r.Keys;
  }

  class ErrorCounter {
    var saturationErrors: nat
    var fatalErrors: nat
    var otherErrors: nat
    var errorCounts: Histogram

    function View(): Errors
      reads this
    {
      Errors(saturationErrors, fatalErrors, otherErrors, errorCounts)
    }

    ghost predicate Valid()
      reads this
    {
      View().Agrees()
    }

    constructor ()
      ensures Valid() && View() == NO_ERRORS
    {
      saturationErrors, fatalErrors, otherErrors, errorCounts := 0, 0, 0, map[];
      new;
      EmptyAgrees();
    }

    method RecordError(code: nat)
      requires Valid() && code < CODES
      modifies this
      ensures Valid() && View() == Record(old(View()), code)
    {
      RecordAgrees(View(), code);
      if IsSaturationError(code) {
        saturationErrors := saturationErrors + 1;
      } else if IsFatalError(code) {
        fatalErrors := fatalErrors + 1;
      } else {
        otherErrors := otherErrors + 1;
      }
      errorCounts := errorCounts[code := Count(errorCounts, code) + 1];
    }

    method GetCount(code: nat) returns (count: nat)
      ensures count == Count(View().counts, code)
    {
      if code in errorCounts {
        count := errorCounts[code];
      } else {
        count := 0;
      }
    }

    /** The class counters added up: as many as the histogram holds. */
    method GetTotalErrors() returns (total: nat)
      requires Valid()
      ensures total == View().Total()
      ensures forall n: nat :: n >= CODES ==> AllTotal(View().counts, n) == total
    {
      forall n: nat | n >= CODES
        ensures AllTotal(errorCounts, n) == View().Total()
      {
        AgreesOnAll(View(), n);
      }
      total := saturationErrors + fatalErrors + otherErrors;
    }

    method GetAllErrors() returns (errors: Histogram)
      ensures errors == View().counts
    {
      errors := map[];
      var codes := errorCounts.Keys;
      while codes != {}
        invariant codes <= errorCounts.Keys
        invariant errors.Keys == errorCounts.Keys - codes
        invariant forall c :: c in errors ==> errors[c] == errorCounts[c]
        decreases codes
      {
        var c :| c in codes;
        errors := errors[c := errorCounts[c]];
        codes := codes - {c};
      }
    }

    method Reset()
      modifies this
      ensures Valid() && View() == NO_ERRORS
    {
      saturationErrors, fatalErrors, otherErrors, errorCounts := 0, 0, 0, map[];
      EmptyAgrees();
    }
  }
}
