/** Two small pieces of the nonsingular-solver test driver: nextPower2, which
    rounds a matrix dimension up to a power of two (for Hadamard matrices),
    and the rule that builds the entries of a random nonsingular diagonal
    matrix. size_t is a 64-bit unsigned word, int a 32-bit signed one. */
module SolveNonsingular {

  import opened Ring

  /** 2^64: size_t arithmetic wraps modulo this. */
  const SizeWord: int := 0x1_0000_0000_0000_0000
  /** 2^63: the largest power of two a size_t holds. */
  const TopPower: int := 0x8000_0000_0000_0000
  /** randLim for the diagonal test matrix. */
  const RandLim: int := 100000

  /** p is a power of two 2^k with k >= 0. */
  predicate IsPowerOf2(p: int)
    decreases if p < 1 then 0 else p
  {
    p == 1 || (p > 1 && p % 2 == 0 && IsPowerOf2(p / 2))
  }

  /** p <<= 1 on a size_t: the doubling loses its top bit. */
  function ShiftLeft(p: int): (q: int)
    requires 0 <= p < SizeWord
    ensures 0 <= q < SizeWord
    ensures p < TopPower ==> q == 2 * p
    ensures p == TopPower ==> q == 0
  {
    (2 * p) % SizeWord
  }

  /** The value of p after k turns of the loop in nextPower2, as written, if
      the loop kept going: 1 shifted left k times on a size_t. */
  function Shifted(k: nat): (p: int)
    ensures 0 <= p < SizeWord
  {
    if k == 0 then 1 else ShiftLeft(Shifted(k - 1))
  }

  /** 2^k. */
  function Pow2(k: nat): (p: int)
    ensures p >= 1
  {
    if k == 0 then 1 else 2 * Pow2(k - 1)
  }

  /** 2^k is a power of two. */
  lemma {:induction false} Pow2IsPower(k: nat)
    ensures IsPowerOf2(Pow2(k))
  {
    if k > 0 {
      Pow2IsPower(k - 1);
      assert Pow2(k) / 2 == Pow2(k - 1);
    }
  }

  /** 2^k grows with k. */
  lemma {:induction false} Pow2Grows(i: nat, j: nat)
    requires i < j
    ensures Pow2(i) < Pow2(j)
    decreases j
  {
    if i < j - 1 {
      Pow2Grows(i, j - 1);
    }
  }

  /** 2^(i + j) == 2^i * 2^j. */
  lemma {:induction false} Pow2Add(i: nat, j: nat)
    ensures Pow2(i + j) == Pow2(i) * Pow2(j)
    decreases j
  {
    if j > 0 {
      Pow2Add(i, j - 1);
      assert Pow2(i + j) == 2 * Pow2(i + (j - 1));
      MulRotate(2, Pow2(i), Pow2(j - 1));
    }
  }

  /** 2^63 is the top bit of a size_t. */
  lemma Pow2Top()
    ensures Pow2(63) == TopPower
  {
    // squaring 2^1 six times reaches 2^64, which is twice 2^63
    assert Pow2(1) == 2;
    Pow2Add(1, 1);
    assert Pow2(2) == 4;
    Pow2Add(2, 2);
    assert Pow2(4) == 0x10;
    Pow2Add(4, 4);
    assert Pow2(8) == 0x100;
    Pow2Add(8, 8);
    assert Pow2(16) == 0x1_0000;
    Pow2Add(16, 16);
    assert Pow2(32) == 0x1_0000_0000;
    Pow2Add(32, 32);
    assert Pow2(64) == SizeWord;
    assert Pow2(64) == 2 * Pow2(63);
  }

  /** Doubling a power of two gives a power of two. */
  lemma DoublePower(p: int)
    requires IsPowerOf2(p)
    ensures IsPowerOf2(2 * p)
  {
    assert (2 * p) / 2 == p;
  }

  /** The loop in nextPower2, as written, if it kept going: 2^k for the first
      63 turns, 2^63 after turn 63, then 0 forever once the shift has pushed
      the bit out of the word. */
  lemma {:induction false} ShiftedValue(k: nat)
    ensures Shifted(k) == if k < 64 then Pow2(k) else 0
  {
    if k > 0 {
      ShiftedValue(k - 1);
      if k - 1 < 63 {
        Pow2Grows(k - 1, 63);
      }
      Pow2Top();
    }
  }

  /** nextPower2 as written never returns for n > 2^63: the loop test p < n
      holds after every number of turns (for instance n = 2^63 + 1). */
  lemma NextPower2NeverExits(n: int, k: nat)
    requires TopPower < n < SizeWord
    ensures Shifted(k) < n
  {
    ShiftedValue(k);
    if k < 63 {
      Pow2Grows(k, 63);
    }
    Pow2Top();
  }

  /** nextPower2(n): the smallest power of two that is at least n, computed
      by doubling p from 1 while p < n. Dimensions above 2^63 are excluded:
      for them the size_t shift wraps to 0 and the loop never ends. */
  method NextPower2(n: int) returns (p: int)
    requires 0 <= n <= TopPower
    ensures IsPowerOf2(p) && n <= p
    ensures n <= 1 ==> p == 1
    ensures n >= 1 ==> p < 2 * n
  {
    p := 1;
    while p < n
      invariant IsPowerOf2(p) && 1 <= p < SizeWord
      invariant p > 1 ==> p < 2 * n
      decreases n - p
    {
      DoublePower(p);
      p := ShiftLeft(p);
    }
  }

  /** Powers of two are ordered by doubling: a smaller one is at most half a
      larger one. */
  lemma {:induction false} PowersApart(q: int, p: int)
    requires IsPowerOf2(q) && IsPowerOf2(p) && q < p
    ensures 2 * q <= p
    decreases p
  {
    if q > 1 {
      PowersApart(q / 2, p / 2);
    }
  }

  /** The result of NextPower2 is the least power of two at least n: any
      power of two q >= n is at least p (p < 2n and powers of two lie a
      factor of two apart). */
  lemma NextPower2Least(n: int, p: int, q: int)
    requires n >= 1 && IsPowerOf2(p) && n <= p < 2 * n
    requires IsPowerOf2(q) && n <= q
    ensures p <= q
  {
    if q < p {
      PowersApart(q, p);
    }
  }

  /** NextPower2 leaves a power of two unchanged: the least power of two at
      least p is p itself. */
  lemma NextPower2Idempotent(p: int, r: int)
    requires IsPowerOf2(p) && IsPowerOf2(r) && p <= r < 2 * p
    ensures r == p
  {
    NextPower2Least(p, r, p);
  }

  /** x % m on the ring's Integer type, taken to truncate toward zero as C's
      % does, so the remainder takes the sign of x. */
  function TruncRem(x: int, m: int): (r: int)
    requires m > 0
    ensures -m < r < m && (r - x) % m == 0
    ensures (r > 0 ==> x > 0) && (r < 0 ==> x < 0)
  {
    if x >= 0 then
      RemainderCongruent(x, m);
      x % m
    else
      RemainderCongruent(-x, m);
      -((-x) % m)
  }

  /** The remainder of a natural differs from it by a multiple of m. */
  lemma RemainderCongruent(x: int, m: int)
    requires m > 0 && x >= 0
    ensures 0 <= x % m < m && (x % m - x) % m == 0 && (x - x % m) % m == 0
    ensures x % m > 0 ==> x > 0
  {
    DivMod(x, m);
    DivExact(x % m - x, m, -(x / m));
    DivExact(x - x % m, m, x / m);
  }

  /** The diagonal entry built from the random value x: x % randLim, with a
      zero remainder replaced by 1. */
  function DiagonalEntry(x: int): (xx: int)
    ensures xx != 0 && -RandLim < xx < RandLim
    ensures x % RandLim == 0 ==> xx == 1
    ensures x % RandLim != 0 ==> (xx - x) % RandLim == 0 && (xx > 0 <==> x > 0)
  {
    var xx := TruncRem(x, RandLim);
    if xx == 0 then 1 else xx
  }

  /** The diagonal of the test matrix: one entry per value of d, as the loop
      over i builds them. */
  method DiagonalEntries(d: seq<int>) returns (diag: seq<int>)
    ensures |diag| == |d|
    ensures forall i :: 0 <= i < |d| ==> diag[i] == DiagonalEntry(d[i])
    ensures forall i :: 0 <= i < |d| ==> diag[i] != 0 && -RandLim < diag[i] < RandLim
  {
    diag := [];
    var i := 0;
    while i < |d|
      invariant 0 <= i <= |d| && |diag| == i
      invariant forall j :: 0 <= j < i ==> diag[j] == DiagonalEntry(d[j])
    {
      var xx := TruncRem(d[i], RandLim);
      if xx == 0 {
        xx := 1;
      }
      diag := diag + [xx];
      i := i + 1;
    }
  }
}
