/** Fixed-width machine arithmetic as the source uses it: unsigned 32- and 64-bit words that wrap. */
module Words {
  const U32: nat := 0x1_0000_0000
  const U64: nat := 0x1_0000_0000_0000_0000

  function Add32(a: nat, b: nat): nat { (a + b) % U32 }
  function Sub32(a: nat, b: nat): nat { (a - b) % U32 }
  function Add64(a: nat, b: nat): nat { (a + b) % U64 }
  function Sub64(a: nat, b: nat): nat { (a - b) % U64 }
  function Mul64(a: nat, b: nat): nat { (a * b) % U64 }

  function Min(a: nat, b: nat): nat { if a <= b then a else b }
  function Max(a: nat, b: nat): nat { if a <= b then b else a }

  function Pow2(k: nat): (p: nat)
    ensures p > 0
  {
    if k == 0 then 1 else 2 * Pow2(k - 1)
  }

  /** Bitwise and of two words, bit by bit from the lowest. */
  function BitAnd(a: nat, b: nat): nat
    decreases a
  {
    if a == 0 then 0 else (a % 2) * (b % 2) + 2 * BitAnd(a / 2, b / 2)
  }

  /** Masking with 2^k - 1 is the remainder modulo 2^k. */
  lemma {:induction false} LowMaskIsModulo(a: nat, k: nat)
    ensures BitAnd(a, Pow2(k) - 1) == a % Pow2(k)
    decreases k
  {
    if k == 0 {
      AndZero(a);
    } else if a != 0 {
      var h := Pow2(k - 1);
      OddAnd(a, h - 1);
      LowMaskIsModulo(a / 2, k - 1);
      DoubleRemainder(a, h);
    }
  }

  lemma OddAnd(a: nat, half: nat)
    ensures BitAnd(a, 2 * half + 1) == a % 2 + 2 * BitAnd(a / 2, half)
  {
    assert (2 * half + 1) % 2 == 1 && (2 * half + 1) / 2 == half;
  }

  lemma DoubleRemainder(a: nat, h: nat)
    requires h > 0
    ensures a % (2 * h) == a % 2 + 2 * ((a / 2) % h)
  {
    var q, r := (a / 2) / h, (a / 2) % h;
    TwiceProduct(q, h);
    RemainderUnique(a, 2 * h, q, 2 * r + a % 2);
  }

  lemma TwiceProduct(q: nat, h: nat)
    ensures q * (2 * h) == 2 * (q * h)
  {
  }

  lemma {:induction false} AndZero(a: nat)
    ensures BitAnd(a, 0) == 0
  {
    if a != 0 {
      AndZero(a / 2);
    }
  }

  /** Quotient and remainder are determined by n == q * d + r with 0 <= r < d. */
  lemma RemainderUnique(n: int, d: nat, q: int, r: nat)
    requires r < d && n == q * d + r
    ensures n % d == r && n / d == q
  {
    if n / d > q {
      MulMono(q + 1, n / d, d);
      assert false;
    } else if n / d < q {
      MulMono(n / d + 1, q, d);
      assert false;
    }
  }

  lemma MulMono(a: int, b: int, d: nat)
    requires a <= b
    ensures a * d <= b * d
  {
  }

  /** Different numbers less than d apart have different remainders modulo d. */
  lemma NoCommonRemainder(i: nat, j: nat, d: nat)
    requires i < j && j - i < d
    ensures i % d != j % d
  {
    if i % d == j % d {
      assert (j / d) * d - (i / d) * d == (j / d - i / d) * d;
      RemainderUnique(j - i, d, j / d - i / d, 0);
      RemainderUnique(j - i, d, 0, j - i);
      assert false;
    }
  }

  /** Congruent numbers stay congruent when the same is added to both. */
  lemma ModuloShift(a: int, b: int, x: int, m: int)
    requires m > 0 && a % m == b % m
    ensures (a + x) % m == (b + x) % m
  {
    var d := a / m - b / m;
    assert a - b == d * m;
    var q, r := (b + x) / m, (b + x) % m;
    assert a + x == (q + d) * m + r by {
      assert (q + d) * m == q * m + d * m;
    }
    RemainderUnique(a + x, m, q + d, r);
  }

  /** A 64-bit counter that holds n modulo 2^64 holds n + x after adding x. */
  lemma CountUp(counter: nat, n: nat, x: nat)
    requires counter == n % U64
    ensures Add64(counter, x) == (n + x) % U64
  {
    ModuloShift(counter, n, x, U64);
  }

  /** Sizes added up. */
  function Sum(ts: seq<nat>): nat {
    if ts == [] then 0 else ts[0] + Sum(ts[1..])
  }

  lemma {:induction false} SumGrows(ts: seq<nat>, k: nat)
    requires k < |ts|
    ensures Sum(ts[..k + 1]) == Sum(ts[..k]) + ts[k]
    decreases |ts|
  {
    if k > 0 {
      assert ts[..k + 1][1..] == ts[1..][..k] && ts[..k][1..] == ts[1..][..k - 1];
      SumGrows(ts[1..], k - 1);
    } else {
      assert ts[..1][1..] == [];
    }
  }
}
