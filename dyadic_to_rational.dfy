/** Scalar rational reconstruction (linbox/algorithms/dyadic-to-rational.h):
    partial_hegcd, a bounded walk along the remainder sequence of n and d, and
    the scalar dyadicToRational built on it, which rebuilds a/b from n/d and
    classifies the answer as failed (0), plausible (1) or guaranteed (2). */
module DyadicToRational {
  import opened Ring

  /** What partial_hegcd hands back: its boolean result and the remainder e
      and coefficient b it leaves in its out-parameters. */
  datatype Hegcd = Hegcd(found: bool, e: int, b: int)

  /** One turn of partial_hegcd's do-while loop and everything after it, from
      the two newest remainder/coefficient pairs (r0, b0) and (r1, b1): divide,
      shift, and stop when the new coefficient leaves the bound (handing back
      the previous pair) or when the new pair is well approximated. */
  function Walk(r0: int, b0: int, r1: int, b1: int, B: int): (h: Hegcd)
    requires r0 >= 0 && r1 > 0 && 2 * r1 > Abs(b1)
    ensures h.e >= 0
    ensures h.found <==> 2 * h.e <= Abs(h.b)
    ensures h.found ==> Abs(h.b) <= B
    ensures !h.found ==> Abs(h.b) <= B || (h.e == r1 && h.b == b1)
    decreases r1
  {
    var quo, e := r0 / r1, r0 % r1;
    var b := b0 - quo * b1;
    if Abs(b) > B then Hegcd(false, r1, b1)
    else if 2 * e <= Abs(b) then Hegcd(true, e, b)
    else Walk(r1, b1, e, b, B)
  }

  /** The result of partial_hegcd(n, d, B): the walk from (n, 1) and (d, 0). */
  function HegcdOf(n: int, d: int, B: int): Hegcd
    requires n >= 0 && d > 0
  {
    Walk(n, 1, d, 0, B)
  }

  /** partial_hegcd, as the source writes it: a do-while loop over the
      remainder sequence. e is a remainder and b its coefficient of n, so
      e - b * n is a multiple of d; the result is true exactly when the pair is
      well approximated (2e <= |b|), and then |b| is within the bound. */
  method PartialHegcd(n: int, d: int, denBound: int) returns (found: bool, e: int, b: int)
    requires n >= 0 && d > 0
    ensures Hegcd(found, e, b) == HegcdOf(n, d, denBound)
    ensures e >= 0 && (e - b * n) % d == 0
    ensures found <==> 2 * e <= Abs(b)
    ensures found ==> Abs(b) <= denBound
    ensures denBound >= 1 ==> b != 0
    ensures found <==> exists i :: i >= 1 && WellApproximatedWithin(PairOf(n, d, i), denBound)
  {
    var b0, r0 := 1, n;
    var b1, r1 := 0, d;
    // the coefficients of d that the source leaves implicit: r = b * n + c * d
    ghost var c0, c1 := 0, 1;
    ghost var turned := false;
    var withinBound, wellApproximated;
    while true
      invariant r0 >= 0 && r1 > 0 && 2 * r1 > Abs(b1)
      invariant Walk(r0, b0, r1, b1, denBound) == HegcdOf(n, d, denBound)
      invariant Combination(n, d, r0, b0, c0) && Combination(n, d, r1, b1, c1)
      invariant !turned ==> b0 == 1 && b1 == 0
      // the descent: remainders shrink, |b| grows, the signs of b alternate
      invariant turned ==> r0 > r1 && b1 != 0 && Opposite(b0, b1) && Abs(b0) <= Abs(b1)
      decreases r1
    {
      var quo := r0 / r1;
      e := r0 % r1;
      b := b0 - quo * b1;
      ghost var c := c0 - quo * c1;
      Combine(n, d, r0, b0, c0, r1, b1, c1);
      if turned {
        DescentStep(r0, b0, r1, b1, quo);
      }
      r0, b0 := r1, b1;
      r1, b1 := e, b;
      c0, c1 := c1, c;
      turned := true;
      var tmp := Abs(b1);
      withinBound := tmp <= denBound;
      wellApproximated := 2 * r1 <= tmp;
      if wellApproximated || !withinBound {
        break;
      }
    }
    if !withinBound {
      e, b := r0, b0;
      Cofactor(n, d, e, b, c0);
    } else {
      Cofactor(n, d, e, b, c1);
    }
    found := withinBound;
    HegcdZeroCoefficient(n, d, denBound);
    assert HegcdOf(n, d, denBound).found <==> exists i :: i >= 1 && WellApproximatedWithin(PairOf(n, d, i), denBound) by {
      var _ := HegcdSearch(n, d, denBound);
    }
  }

  /** r is the combination b * n + c * d. */
  ghost predicate Combination(n: int, d: int, r: int, b: int, c: int)
  {
    r == b * n + c * d
  }

  /** x and y are not both strictly of the same sign. */
  predicate Opposite(x: int, y: int)
  {
    (x > 0 ==> y <= 0) && (x < 0 ==> y >= 0)
  }

  /** A division step r0 - quo * r1 keeps remainders integer combinations of n and d. */
  lemma Combine(n: int, d: int, r0: int, b0: int, c0: int, r1: int, b1: int, c1: int)
    requires r1 > 0 && Combination(n, d, r0, b0, c0) && Combination(n, d, r1, b1, c1)
    ensures Combination(n, d, r0 % r1, b0 - (r0 / r1) * b1, c0 - (r0 / r1) * c1)
  {
    var quo := r0 / r1;
    assert r0 % r1 == r0 - quo * r1;
    assert quo * r1 == quo * b1 * n + quo * c1 * d;
  }

  /** A remainder e == b * n + c * d leaves e - b * n divisible by d, with quotient c. */
  lemma Cofactor(n: int, d: int, e: int, b: int, c: int)
    requires d > 0 && Combination(n, d, e, b, c)
    ensures (e - b * n) % d == 0 && (e - b * n) / d == c
  {
    DivExact(e - b * n, d, c);
  }

  /** One division step after the first keeps the descent: the remainder drops,
      the new coefficient has the opposite sign and at least the magnitude. */
  lemma DescentStep(r0: int, b0: int, r1: int, b1: int, quo: int)
    requires r0 > r1 > 0 && quo == r0 / r1 && b1 != 0 && Opposite(b0, b1)
    ensures b0 - quo * b1 != 0 && Opposite(b1, b0 - quo * b1) && Abs(b1) <= Abs(b0 - quo * b1)
  {
    DivMod(r0, r1);
    if quo <= 0 {
      MulLe(0, -quo, r1);
      assert false;
    }
    if b1 > 0 {
      MulLe(1, quo, b1);
    } else {
      MulLe(1, quo, -b1);
      assert quo * (-b1) == -(quo * b1);
    }
  }

  /** x and y do not have strictly opposite signs (x * y >= 0). */
  predicate Agree(x: int, y: int)
  {
    (x > 0 ==> y >= 0) && (x < 0 ==> y <= 0)
  }

  /** The 2x2 matrix with rows (b0, c0) and (b1, c1) has determinant 1 or -1. */
  ghost predicate Unimodular(b0: int, c0: int, b1: int, c1: int)
  {
    b0 * c1 - b1 * c0 == 1 || b0 * c1 - b1 * c0 == -1
  }

  /** The state of the extended Euclidean walk for N and D: both remainders are
      combinations of N and D with coefficient vectors (b, c) that form a basis
      of the integer lattice, and the signs of the coefficients alternate. */
  ghost predicate Lattice(N: int, D: int, r0: int, b0: int, c0: int, r1: int, b1: int, c1: int)
  {
    Combination(N, D, r0, b0, c0) && Combination(N, D, r1, b1, c1) &&
    Unimodular(b0, c0, b1, c1) &&
    Opposite(b0, b1) && Opposite(c0, c1) && Opposite(b0, c0) && Opposite(b1, c1) &&
    Agree(b0, c1) && Agree(b1, c0)
  }

  /** q * x has the sign of x when q >= 0. */
  lemma ScaledSign(q: int, x: int)
    requires q >= 0
    ensures (x > 0 ==> q * x >= 0) && (x < 0 ==> q * x <= 0)
  {
  }

  /** The determinant of the shifted pair is minus the old one. */
  lemma DeterminantStep(b0: int, c0: int, b1: int, c1: int, q: int)
    ensures b1 * (c0 - q * c1) - (b0 - q * b1) * c1 == -(b0 * c1 - b1 * c0)
  {
    assert b1 * (c0 - q * c1) == b1 * c0 - q * (b1 * c1);
    assert (b0 - q * b1) * c1 == b0 * c1 - q * (b1 * c1);
  }

  /** One division step of the walk keeps the lattice invariant. */
  lemma LatticeStep(N: int, D: int, r0: int, b0: int, c0: int, r1: int, b1: int, c1: int)
    requires r0 >= 0 && r1 > 0 && Lattice(N, D, r0, b0, c0, r1, b1, c1)
    ensures Lattice(N, D, r1, b1, c1, r0 % r1, b0 - (r0 / r1) * b1, c0 - (r0 / r1) * c1)
  {
    var q := r0 / r1;
    Combine(N, D, r0, b0, c0, r1, b1, c1);
    DeterminantStep(b0, c0, b1, c1, q);
    ScaledSign(q, b1);
    ScaledSign(q, c1);
  }

  /** The walk always ends on a pair that still belongs to a lattice state. */
  lemma {:induction false} WalkLattice(N: int, D: int, B: int, r0: int, b0: int, c0: int, r1: int, b1: int, c1: int)
    returns (rp: int, bp: int, cp: int, c: int)
    requires r0 >= 0 && r1 > 0 && 2 * r1 > Abs(b1) && Lattice(N, D, r0, b0, c0, r1, b1, c1)
    ensures Lattice(N, D, rp, bp, cp, Walk(r0, b0, r1, b1, B).e, Walk(r0, b0, r1, b1, B).b, c)
    decreases r1
  {
    var q, e := r0 / r1, r0 % r1;
    var b, c' := b0 - q * b1, c0 - q * c1;
    LatticeStep(N, D, r0, b0, c0, r1, b1, c1);
    if Abs(b) > B {
      rp, bp, cp, c := r0, b0, c0, c1;
    } else if 2 * e <= Abs(b) {
      rp, bp, cp, c := r1, b1, c1, c';
    } else {
      rp, bp, cp, c := WalkLattice(N, D, B, r1, b1, c1, e, b, c');
    }
  }

  /** Every result of partial_hegcd(n, d, B) is a remainder e = b * n + c * d,
      together with a neighbouring pair that makes (b, c) part of a lattice basis. */
  lemma HegcdLattice(n: int, d: int, B: int) returns (rp: int, bp: int, cp: int, c: int)
    requires n >= 0 && d > 0
    ensures Lattice(n, d, rp, bp, cp, HegcdOf(n, d, B).e, HegcdOf(n, d, B).b, c)
  {
    assert Combination(n, d, n, 1, 0) && Combination(n, d, d, 0, 1);
    rp, bp, cp, c := WalkLattice(n, d, B, n, 1, 0, d, 0, 1);
  }

  /** After the first division step the coefficient the walk stops on is never 0. */
  lemma {:induction false} WalkNonzero(r0: int, b0: int, r1: int, b1: int, B: int)
    requires r0 > r1 > 0 && 2 * r1 > Abs(b1) && b1 != 0 && Opposite(b0, b1)
    ensures Walk(r0, b0, r1, b1, B).b != 0
    decreases r1
  {
    var q, e := r0 / r1, r0 % r1;
    var b := b0 - q * b1;
    DescentStep(r0, b0, r1, b1, q);
    if Abs(b) <= B && 2 * e > Abs(b) {
      WalkNonzero(r1, b1, e, b, B);
    }
  }

  /** With a bound of at least 1, partial_hegcd never leaves b = 0; with a
      bound below 1 it leaves b = 0 and reports failure. */
  lemma HegcdZeroCoefficient(n: int, d: int, B: int)
    requires n >= 0 && d > 0
    ensures HegcdOf(n, d, B).b == 0 <==> B < 1
    ensures B < 1 ==> !HegcdOf(n, d, B).found
  {
    var q, e := n / d, n % d;
    assert 1 - q * 0 == 1;
    if B >= 1 && 2 * e > 1 {
      WalkNonzero(d, 0, e, 1, B);
    }
  }

  // ----- partial_hegcd as a search along the remainder sequence -----

  /** A remainder r_i and its coefficient q_i of n. */
  datatype Pair = Pair(r: int, b: int)

  /** The pair with index i of the remainder sequence that starts with
      (r0, b0) and (r1, b1): each further remainder is the remainder of the
      two before it, with the matching coefficient. Once a remainder is 0 the
      sequence stays on that pair. */
  function Sequence(r0: int, b0: int, r1: int, b1: int, i: nat): Pair
    decreases i
  {
    if i == 0 then Pair(r0, b0)
    else if r1 <= 0 then Pair(r1, b1)
    else Sequence(r1, b1, r0 % r1, b0 - (r0 / r1) * b1, i - 1)
  }

  /** The remainder sequence of n and d, from (n, 1) and (d, 0). */
  function PairOf(n: int, d: int, i: nat): Pair
  {
    Sequence(n, 1, d, 0, i)
  }

  /** The pair partial_hegcd looks for: well approximated (2 r <= |q|) and
      within the bound (|q| <= B). */
  predicate WellApproximatedWithin(p: Pair, B: int)
  {
    2 * p.r <= Abs(p.b) && Abs(p.b) <= B
  }

  /** A state of the walk past its first step: the remainders drop, the
      newer coefficient is nonzero and the two have opposite signs. */
  predicate Descending(r0: int, b0: int, r1: int, b1: int)
  {
    r0 > r1 >= 0 && b1 != 0 && Opposite(b0, b1)
  }

  /** Every division step, the first one from (n, 1), (d, 0) included, leads
      to a descending state. */
  lemma NextDescending(r0: int, b0: int, r1: int, b1: int)
    requires r0 >= 0 && r1 > 0 && (Descending(r0, b0, r1, b1) || (b0 == 1 && b1 == 0))
    ensures Descending(r1, b1, r0 % r1, b0 - (r0 / r1) * b1)
  {
    DivMod(r0, r1);
    if b1 != 0 {
      DescentStep(r0, b0, r1, b1, r0 / r1);
    } else {
      MulZero(r0 / r1, b1);
    }
  }

  /** From a descending state on, no coefficient is smaller in magnitude
      than the newer one. */
  lemma {:induction false} CoefficientsGrow(r0: int, b0: int, r1: int, b1: int, i: nat)
    requires Descending(r0, b0, r1, b1) && i >= 1
    ensures Abs(Sequence(r0, b0, r1, b1, i).b) >= Abs(b1)
    decreases i
  {
    if r1 > 0 && i > 1 {
      var q := r0 / r1;
      DivMod(r0, r1);
      DescentStep(r0, b0, r1, b1, q);
      CoefficientsGrow(r1, b1, r0 % r1, b0 - q * b1, i - 1);
    }
  }

  /** The walk from (r0, b0), (r1, b1) stops on the pair with index k of the
      sequence. When it succeeds, that pair is the first one from index 1 on
      that is well approximated within the bound. When it fails, no pair is,
      and every pair after index k has a coefficient beyond the bound. */
  lemma {:induction false} WalkSearch(r0: int, b0: int, r1: int, b1: int, B: int) returns (k: nat)
    requires r0 >= 0 && r1 > 0 && 2 * r1 > Abs(b1)
    requires Descending(r0, b0, r1, b1) || (b0 == 1 && b1 == 0)
    ensures k >= 1 && Sequence(r0, b0, r1, b1, k) == Pair(Walk(r0, b0, r1, b1, B).e, Walk(r0, b0, r1, b1, B).b)
    ensures Walk(r0, b0, r1, b1, B).found ==>
      WellApproximatedWithin(Sequence(r0, b0, r1, b1, k), B) &&
      forall j :: 1 <= j < k ==> !WellApproximatedWithin(Sequence(r0, b0, r1, b1, j), B)
    ensures !Walk(r0, b0, r1, b1, B).found ==>
      (forall j :: j >= 1 ==> !WellApproximatedWithin(Sequence(r0, b0, r1, b1, j), B)) &&
      forall j :: j > k ==> Abs(Sequence(r0, b0, r1, b1, j).b) > B
    decreases r1
  {
    var quo, e := r0 / r1, r0 % r1;
    var b := b0 - quo * b1;
    NextDescending(r0, b0, r1, b1);
    assert Sequence(r0, b0, r1, b1, 1) == Pair(r1, b1);
    if Abs(b) > B {
      k := 1;
      forall j | j > 1
        ensures Abs(Sequence(r0, b0, r1, b1, j).b) > B
      {
        CoefficientsGrow(r1, b1, e, b, j - 1);
      }
    } else if 2 * e <= Abs(b) {
      k := 2;
    } else {
      var k' := WalkSearch(r1, b1, e, b, B);
      k := k' + 1;
      assert Sequence(r0, b0, r1, b1, 2) == Pair(e, b);
    }
  }

  /** partial_hegcd(n, d, B) as a search along the remainder sequence of n
      and d. It returns true exactly when some pair of the sequence is well
      approximated within the bound, and then it stops on the first such
      pair. Otherwise it stops on the pair k after which every coefficient
      is beyond the bound, which for B >= 0 is the last pair within it. */
  lemma HegcdSearch(n: int, d: int, B: int) returns (k: nat)
    requires n >= 0 && d > 0
    ensures k >= 1 && PairOf(n, d, k) == Pair(HegcdOf(n, d, B).e, HegcdOf(n, d, B).b)
    ensures HegcdOf(n, d, B).found <==> exists i :: i >= 1 && WellApproximatedWithin(PairOf(n, d, i), B)
    ensures HegcdOf(n, d, B).found ==>
      WellApproximatedWithin(PairOf(n, d, k), B) &&
      forall i :: 1 <= i < k ==> !WellApproximatedWithin(PairOf(n, d, i), B)
    ensures !HegcdOf(n, d, B).found ==>
      (B >= 0 ==> Abs(PairOf(n, d, k).b) <= B) &&
      forall i :: i > k ==> Abs(PairOf(n, d, i).b) > B
  {
    k := WalkSearch(n, 1, d, 0, B);
  }

  /** What the scalar dyadicToRational returns: its result (0 failed,
      1 plausible, 2 guaranteed) and the a and b it leaves. */
  datatype Reconstruction = Reconstruction(ret: int, a: int, b: int)

  /** The scalar dyadicToRational(n, d, B): partial_hegcd on |n| and d,
      a = (e - b * |n|) / d, both made non-negative, a given the sign of n,
      then the classification. */
  function ReconstructionOf(n: int, d: int, B: int): Reconstruction
    requires d > 0
  {
    var an := Abs(n);
    var h := HegcdOf(an, d, B);
    var a := Abs((h.e - h.b * an) / d);
    var b := Abs(h.b);
    var guarantee := b * B < d;
    var ret :=
      if (!h.found && b > 0) || (h.found && !guarantee) then 1
      else if h.found && guarantee then 2
      else 0;
    Reconstruction(ret, if n < 0 then -a else a, b)
  }

  /** The scalar dyadicToRational, step by step as the source writes it. */
  method DyadicToRational(n: int, d: int, B: int) returns (ret: int, a: int, b: int)
    requires d > 0
    ensures Reconstruction(ret, a, b) == ReconstructionOf(n, d, B)
    ensures b >= 0 && (n < 0 ==> a <= 0) && (n >= 0 ==> a >= 0)
    ensures (ret == 0 <==> b == 0) && (ret == 0 <==> B < 1)
    ensures ret == 2 ==> 0 < b <= B && b * B < d && 2 * Abs(n * b - a * d) <= b
  {
    var an := Abs(n);
    var found, e;
    found, e, b := PartialHegcd(an, d, B);
    a := (e - b * an) / d;  // exact
    b := Abs(b);
    a := Abs(a);
    if n < 0 {
      a := -a;
    }
    var guarantee := b * B < d;
    if (!found && b > 0) || (found && !guarantee) {
      ret := 1;
    } else if found && guarantee {
      ret := 2;
    } else {
      ret := 0;
    }
    ReconstructionClassified(n, d, B);
  }

  /** The error of the normalised fraction: with a = sign(n) |c| and b made
      non-negative, |n * |b| - a * D| is the remainder e = b * |n| + c * D. */
  lemma NormalizedError(n: int, D: int, e: int, b: int, c: int)
    requires Combination(Abs(n), D, e, b, c) && Opposite(b, c) && e >= 0
    ensures Abs(n * Abs(b) - (if n < 0 then -Abs(c) else Abs(c)) * D) == e
  {
    var a := if n < 0 then -Abs(c) else Abs(c);
    if c > 0 {
      assert n * Abs(b) - a * D == (if n < 0 then e else -e) by {
        assert Abs(b) == -b;
      }
    } else if b >= 0 {
      assert n * Abs(b) - a * D == (if n < 0 then -e else e) by {
        assert Abs(c) == -c;
      }
    } else {
      assert c == 0 && Abs(n) == 0;
    }
  }

  /** The scalar result in its own terms: b >= 0 and a carries the sign of n;
      the result fails (0) exactly when b == 0, which happens exactly when the
      bound is below 1; it is guaranteed (2) exactly when a/b approximates n/d
      to within 1/2d and b * B < d; otherwise it is plausible (1), and then
      too b is within the bound. */
  lemma ReconstructionClassified(n: int, d: int, B: int)
    requires d > 0
    ensures var r := ReconstructionOf(n, d, B);
      r.b >= 0 && (n < 0 ==> r.a <= 0) && (n >= 0 ==> r.a >= 0) &&
      (r.ret == 0 <==> r.b == 0) && (r.ret == 0 <==> B < 1) &&
      (r.ret == 2 <==> 0 < r.b && 2 * Abs(n * r.b - r.a * d) <= r.b && r.b * B < d) &&
      (r.ret == 1 <==> 0 < r.b && !(2 * Abs(n * r.b - r.a * d) <= r.b && r.b * B < d)) &&
      (r.ret != 0 ==> r.b <= B)
  {
    var an := Abs(n);
    var h := HegcdOf(an, d, B);
    var rp, bp, cp, c := HegcdLattice(an, d, B);
    Cofactor(an, d, h.e, h.b, c);
    NormalizedError(n, d, h.e, h.b, c);
    HegcdZeroCoefficient(an, d, B);
  }

  /** The returned a and b are coprime: some integer combination of them is 1. */
  lemma ReconstructionCoprime(n: int, d: int, B: int) returns (x: int, y: int)
    requires d > 0
    ensures x * ReconstructionOf(n, d, B).a + y * ReconstructionOf(n, d, B).b == 1
  {
    var an := Abs(n);
    var h := HegcdOf(an, d, B);
    var rp, bp, cp, c := HegcdLattice(an, d, B);
    Cofactor(an, d, h.e, h.b, c);
    var p, q := UnimodularBezout(bp, cp, h.b, c);
    x, y := AbsBezout(c, h.b, p, q);
    if n < 0 {
      assert (-x) * (-Abs(c)) == x * Abs(c);
      x := -x;
    }
  }

  /** A row (b, c) of a unimodular matrix has coprime entries. */
  lemma UnimodularBezout(bp: int, cp: int, b: int, c: int) returns (p: int, q: int)
    requires Unimodular(bp, cp, b, c)
    ensures p * c + q * b == 1
  {
    if bp * c - b * cp == 1 {
      p, q := bp, -cp;
    } else {
      p, q := -bp, cp;
    }
  }

  /** A combination p * u + q * v == 1 gives one of |u| and |v|. */
  lemma AbsBezout(u: int, v: int, p: int, q: int) returns (x: int, y: int)
    requires p * u + q * v == 1
    ensures x * Abs(u) + y * Abs(v) == 1
  {
    x := if u < 0 then -p else p;
    y := if v < 0 then -q else q;
    assert x * Abs(u) == p * u && y * Abs(v) == q * v;
  }

  // ----- uniqueness: a well-approximated fraction with a small denominator is found -----

  /** In the basis (b1, c1), (b, c) of the lattice, (bs, cs) has the integer
      coordinates u and w. */
  lemma Decompose(b1: int, c1: int, b: int, c: int, bs: int, cs: int) returns (u: int, w: int)
    requires Unimodular(b1, c1, b, c)
    ensures bs == u * b1 + w * b && cs == u * c1 + w * c
    ensures w == (b1 * c - b * c1) * (b1 * cs - c1 * bs)
  {
    var det := b1 * c - b * c1;
    u := det * (c * bs - b * cs);
    w := det * (b1 * cs - c1 * bs);
    assert u * b1 + w * b == det * (bs * det) by {
      assert (c * bs - b * cs) * b1 + (b1 * cs - c1 * bs) * b == bs * det;
    }
    assert u * c1 + w * c == det * (cs * det) by {
      assert (c * bs - b * cs) * c1 + (b1 * cs - c1 * bs) * c == cs * det;
    }
    assert det * det == 1;
  }

  /** The combination of (bs, cs) in terms of the two remainders. */
  lemma CombinationOfCoordinates(N: int, D: int, r1: int, b1: int, c1: int, e: int, b: int, c: int,
                                 bs: int, cs: int, u: int, w: int)
    requires Combination(N, D, r1, b1, c1) && Combination(N, D, e, b, c)
    requires bs == u * b1 + w * b && cs == u * c1 + w * c
    ensures bs * N + cs * D == u * r1 + w * e
  {
    assert bs * N == u * (b1 * N) + w * (b * N);
    assert cs * D == u * (c1 * D) + w * (c * D);
  }

  /** D times the second coordinate (up to sign) in terms of the remainders. */
  lemma CoordinateIdentity(N: int, D: int, r1: int, b1: int, c1: int, bs: int, cs: int)
    requires Combination(N, D, r1, b1, c1)
    ensures D * (b1 * cs - c1 * bs) == b1 * (bs * N + cs * D) - bs * r1
  {
    assert D * (b1 * cs) == b1 * (cs * D);
    assert D * (c1 * bs) == bs * (c1 * D);
  }

  /** If (bs, cs) is a multiple of (b1, c1) then (r1, b1) is well approximated. */
  lemma MultipleOfPrevious(r1: int, b1: int, bs: int, Ls: int, u: int)
    requires bs > 0 && r1 >= 0 && bs == u * b1 && Ls == u * r1 && 2 * Abs(Ls) < bs
    ensures 2 * r1 < Abs(b1)
  {
    AbsMul(u, b1);
    AbsMul(u, r1);
    assert Abs(u) >= 1;
    assert Abs(u) * (2 * r1) < Abs(u) * Abs(b1);
  }

  /** Coordinates of opposite signs give |bs| >= |b|. */
  lemma OppositeCoordinates(b1: int, b: int, bs: int, u: int, w: int)
    requires bs == u * b1 + w * b && w != 0 && Opposite(u, w) && Opposite(b1, b)
    ensures Abs(bs) >= Abs(b)
  {
    OppositeProductsAgree(u, w, b1, b);
    AbsMul(w, b);
    MulLe(1, Abs(w), Abs(b));
  }

  /** Products of two opposite pairs agree in sign. */
  lemma OppositeProductsAgree(u: int, w: int, x: int, y: int)
    requires Opposite(u, w) && Opposite(x, y)
    ensures Agree(u * x, w * y)
  {
    if u * x > 0 {
      if u > 0 { assert x > 0 && w <= 0 && y <= 0; MulLe(0, -w, -y); }
      else { assert x < 0 && w >= 0 && y >= 0; MulLe(0, w, y); }
    } else if u * x < 0 {
      if u > 0 { assert x < 0 && w <= 0 && y >= 0; MulLe(0, -w, y); }
      else { assert x > 0 && w >= 0 && y <= 0; MulLe(0, w, -y); }
    }
  }

  /** Coordinates of the same strict sign give |Ls| >= r1. */
  lemma SameSignCoordinates(r1: int, e: int, Ls: int, u: int, w: int)
    requires Ls == u * r1 + w * e && r1 >= 0 && e >= 0 && u * w > 0
    ensures r1 <= Abs(Ls)
  {
    if u > 0 {
      assert w > 0;
      assert u * r1 >= r1 && w * e >= 0;
    } else {
      assert w < 0;
      assert u * r1 <= -r1 && w * e <= 0;
    }
  }

  /** The size argument: a well-approximating (bs, cs) with bs * bs <= D has
      second coordinate 0. */
  lemma SecondCoordinateVanishes(D: int, X: int, b1: int, bs: int, r1: int, Ls: int)
    requires D > 0 && D * X == b1 * Ls - bs * r1
    requires 0 <= r1 <= Abs(Ls) && Abs(b1) <= bs && 2 * Abs(Ls) < bs && bs * bs <= D
    ensures X == 0
  {
    var L := Abs(Ls);
    AbsMul(b1, Ls);
    AbsMul(D, X);
    AbsSub(b1 * Ls, bs * r1);
    MulLe(Abs(b1), bs, L);
    MulLe(r1, L, bs);
    MulLt(2 * L, bs, bs);
    Double(L, bs);
    MulLe(0, r1, bs);
    MulRotate(bs, r1, 1);
    assert Abs(D) == D && Abs(bs * r1) == r1 * bs;
    BelowOneChain(D, Abs(X), Abs(b1) * L, r1 * bs, L * bs, bs * bs);
  }

  /** The linear chain closing the size arguments. */
  lemma BelowOneChain(D: int, AX: int, T1: int, T2: int, LB: int, BB: int)
    requires D > 0 && AX >= 0 && D * AX <= T1 + T2 && T1 <= LB && T2 <= LB
    requires LB + LB < BB && BB <= D
    ensures AX == 0
  {
    BelowOne(D, AX);
  }

  /** From a lattice state whose newer pair is not well approximated and has
      |b1| <= bs, the next coefficient b still has |b| <= bs, provided
      (bs, cs) approximates with 2 |bs * N + cs * D| < bs and bs * bs <= D. */
  lemma NextWithinTarget(N: int, D: int, r1: int, b1: int, c1: int, e: int, b: int, c: int, bs: int, cs: int)
    requires D > 0 && r1 >= 0 && e >= 0 && Lattice(N, D, r1, b1, c1, e, b, c)
    requires 2 * r1 > Abs(b1) && Abs(b1) <= bs && bs * bs <= D
    requires 2 * Abs(bs * N + cs * D) < bs
    ensures Abs(b) <= bs
  {
    var u, w := Decompose(b1, c1, b, c, bs, cs);
    var Ls := bs * N + cs * D;
    CombinationOfCoordinates(N, D, r1, b1, c1, e, b, c, bs, cs, u, w);
    if w == 0 {
      MultipleOfPrevious(r1, b1, bs, Ls, u);
      assert false;
    } else if u * w > 0 {
      SameSignCoordinates(r1, e, Ls, u, w);
      CoordinateIdentity(N, D, r1, b1, c1, bs, cs);
      SecondCoordinateVanishes(D, b1 * cs - c1 * bs, b1, bs, r1, Ls);
      MulZero(b1 * c - b * c1, b1 * cs - c1 * bs);
      assert false;
    } else {
      OppositeCoordinates(b1, b, bs, u, w);
    }
  }

  /** The walk reaches a well-approximated pair with |b| <= bs when such a
      (bs, cs) exists, bs is within the bound and bs * bs <= D. */
  lemma {:induction false} WalkFinds(N: int, D: int, B: int, r0: int, b0: int, c0: int, r1: int, b1: int, c1: int,
                                     bs: int, cs: int)
    requires D > 0 && r0 >= 0 && r1 > 0 && Lattice(N, D, r0, b0, c0, r1, b1, c1)
    requires 2 * r1 > Abs(b1) && Abs(b1) <= bs <= B && bs * bs <= D
    requires 2 * Abs(bs * N + cs * D) < bs
    ensures Walk(r0, b0, r1, b1, B).found && Abs(Walk(r0, b0, r1, b1, B).b) <= bs
    decreases r1
  {
    var q, e := r0 / r1, r0 % r1;
    var b, c := b0 - q * b1, c0 - q * c1;
    LatticeStep(N, D, r0, b0, c0, r1, b1, c1);
    NextWithinTarget(N, D, r1, b1, c1, e, b, c, bs, cs);
    if 2 * e > Abs(b) {
      WalkFinds(N, D, B, r1, b1, c1, e, b, c, bs, cs);
    }
  }

  /** partial_hegcd finds a well-approximated pair whenever a fraction with
      denominator bs <= B, bs * bs <= d, lies within 1/2d of n/d. */
  lemma HegcdFindsTarget(n: int, d: int, B: int, bs: int, cs: int)
    requires n >= 0 && d > 0 && 0 < bs <= B && bs * bs <= d
    requires 2 * Abs(bs * n + cs * d) < bs
    ensures HegcdOf(n, d, B).found && Abs(HegcdOf(n, d, B).b) <= bs
  {
    assert Combination(n, d, n, 1, 0) && Combination(n, d, d, 0, 1);
    WalkFinds(n, d, B, n, 1, 0, d, 0, 1, bs, cs);
  }

  /** Two fractions within 1/2d of n/d (one of them strictly) whose
      denominators multiply to at most d are equal: if they differed they
      would be at least 1/(b bs) >= 1/d apart. */
  lemma WellApproximatedUnique(n: int, d: int, a: int, b: int, at: int, bt: int)
    requires d > 0 && b > 0 && bt > 0 && b * bt <= d
    requires 2 * Abs(n * b - a * d) <= b && 2 * Abs(n * bt - at * d) < bt
    ensures a * bt == at * b
  {
    CrossIdentity(n, d, a, b, at, bt);
    CrossVanishes(d, a * bt - at * b, n * b - a * d, n * bt - at * d, b, bt);
  }

  /** WellApproximatedUnique with the errors s1, s2 and the cross term X
      named: d X == s2 b - s1 bt with small errors forces X == 0. */
  lemma CrossVanishes(d: int, X: int, s1: int, s2: int, b: int, bt: int)
    requires d > 0 && b > 0 && bt > 0 && b * bt <= d && d * X == s2 * b - s1 * bt
    requires 2 * Abs(s1) <= b && 2 * Abs(s2) < bt
    ensures X == 0
  {
    AbsMul(s2, b);
    AbsMul(s1, bt);
    AbsMul(d, X);
    AbsSub(s2 * b, s1 * bt);
    MulLt(2 * Abs(s2), bt, b);
    MulLe(2 * Abs(s1), b, bt);
    Double(Abs(s2), b);
    Double(Abs(s1), bt);
    assert Abs(d) == d;
    StrictHalfChain(d, Abs(X), Abs(s2) * b, Abs(s1) * bt, bt * b);
  }

  /** The difference of two approximations of n/d, times d. */
  lemma CrossIdentity(n: int, d: int, a: int, b: int, at: int, bt: int)
    ensures d * (a * bt - at * b) == (n * bt - at * d) * b - (n * b - a * d) * bt
  {
    assert d * (a * bt - at * b) == (a * d) * bt - (at * d) * b;
    assert (n * bt - at * d) * b == n * bt * b - (at * d) * b;
    assert (n * b - a * d) * bt == n * b * bt - (a * d) * bt;
  }

  /** The linear chain closing WellApproximatedUnique. */
  lemma StrictHalfChain(d: int, AX: int, T1: int, T2: int, P: int)
    requires d > 0 && AX >= 0 && d * AX <= T1 + T2 && T1 + T1 < P && T2 + T2 <= P && P <= d
    ensures AX == 0
  {
    BelowOne(d, AX);
  }
  /** When partial_hegcd finds a well-approximated pair, the scalar result
      a/b lies within 1/2d of n/d, with b the magnitude of the found coefficient. */
  lemma FoundWellApproximated(n: int, d: int, B: int)
    requires d > 0 && HegcdOf(Abs(n), d, B).found
    ensures var r := ReconstructionOf(n, d, B);
      r.b == Abs(HegcdOf(Abs(n), d, B).b) && 2 * Abs(n * r.b - r.a * d) <= r.b
  {
    var an := Abs(n);
    var h := HegcdOf(an, d, B);
    var rp, bp, cp, c := HegcdLattice(an, d, B);
    Cofactor(an, d, h.e, h.b, c);
    NormalizedError(n, d, h.e, h.b, c);
  }

  /** The target fraction at/bt in the terms partial_hegcd works in: with
      N = |n|, the remainder bt * N + ct * d is the error of at/bt up to sign. */
  lemma TargetCombination(n: int, d: int, at: int, bt: int) returns (ct: int)
    ensures Abs(bt * Abs(n) + ct * d) == Abs(n * bt - at * d)
  {
    ct := if n < 0 then at else -at;
    if n < 0 {
      assert bt * Abs(n) + ct * d == -(n * bt - at * d);
    } else {
      assert bt * Abs(n) + ct * d == n * bt - at * d;
    }
  }

  /** The uniqueness theorem of the scalar dyadicToRational: when a fraction
      at/bt with 0 < bt <= B and bt * B <= d lies strictly within 1/2d of n/d,
      the reconstruction succeeds with a/b equal to at/bt and b <= bt; it is
      classified as guaranteed when moreover bt * B < d. */
  lemma ReconstructionUnique(n: int, d: int, B: int, at: int, bt: int)
    requires d > 0 && 0 < bt <= B && bt * B <= d
    requires 2 * Abs(n * bt - at * d) < bt
    ensures var r := ReconstructionOf(n, d, B);
      r.ret != 0 && 0 < r.b <= bt && r.a * bt == at * r.b && (bt * B < d ==> r.ret == 2)
  {
    var ct := TargetCombination(n, d, at, bt);
    MulLe(bt, B, bt);
    HegcdFindsTarget(Abs(n), d, B, bt, ct);
    FoundWellApproximated(n, d, B);
    HegcdZeroCoefficient(Abs(n), d, B);
    var r := ReconstructionOf(n, d, B);
    MulLe(r.b, bt, bt);
    WellApproximatedUnique(n, d, r.a, r.b, at, bt);
    if bt * B < d {
      MulLe(r.b, bt, B);
    }
  }
}
