/** Vector rational reconstruction (the vector dyadicToRational of
    linbox/algorithms/dyadic-to-rational.h): numerators num[i] over one shared
    denominator den are rebuilt from approximations numx[i] / denx. The shared
    denominator is tried first; a coordinate it fails is reconstructed on its
    own and den grows to an lcm. Each growth factor is pushed on a stack, and a
    final backward pass ("fix shorties") rescales the numerators written before
    each growth, so that all of them end up over the final den. */
module DyadicVector {
  import opened Ring
  import opened DyadicToRational

  /** A stack entry: the coordinate at which den grew, and the factor by which
      it grew. The stack starts with the sentinel Growth(0, 1). */
  datatype Growth = Growth(at: int, factor: int)

  /** The state of the forward pass after a prefix of the coordinates: the
      running result (2 guaranteed, 1 plausible, 0 failed), the shared
      denominator, the numerators as written before the final rescaling, and
      the stack of growth factors. */
  datatype Pass = Pass(ret: int, den: int, raw: seq<int>, stack: seq<Growth>)

  /** A quotient and remainder t == quo * denx + rem. */
  datatype Division = Division(quo: int, rem: int)

  /** Division with a balanced remainder: the quotient of t by denx rounded so
      that the remainder lies in [denx/2 - denx, denx/2); a remainder of
      exactly denx/2 is rounded up (the source tests e >= denx/2). */
  function Balanced(t: int, denx: int): (qe: Division)
    requires denx > 0
    ensures t == qe.quo * denx + qe.rem && denx / 2 - denx <= qe.rem < denx / 2
    ensures t >= 0 ==> qe.quo >= 0
  {
    var quo, rem := t / denx, t % denx;
    if rem >= denx / 2 then Division(quo + 1, rem - denx) else Division(quo, rem)
  }

  /** v carrying the sign of x, for a v computed from |x|. */
  function Signed(x: int, v: int): int
  {
    if x < 0 then -v else v
  }

  /** The product of all growth factors. */
  function Prod(S: seq<Growth>): int
  {
    if |S| == 0 then 1 else Prod(S[..|S| - 1]) * S[|S| - 1].factor
  }

  /** The product of the growth factors recorded at coordinates after i: the
      factor by which a numerator written at coordinate i is still short. */
  function Later(S: seq<Growth>, i: int): int
  {
    if |S| == 0 then 1
    else Later(S[..|S| - 1], i) * (if S[|S| - 1].at > i then S[|S| - 1].factor else 1)
  }

  /** The product of the growth factors recorded at coordinates up to i: the
      shared denominator a numerator written at coordinate i was expressed over. */
  function Earlier(S: seq<Growth>, i: int): int
  {
    if |S| == 0 then 1
    else Earlier(S[..|S| - 1], i) * (if S[|S| - 1].at <= i then S[|S| - 1].factor else 1)
  }

  /** The stack records growth at non-decreasing coordinates, with positive factors. */
  ghost predicate WellFormed(S: seq<Growth>)
  {
    (forall j, k :: 0 <= j < k < |S| ==> S[j].at <= S[k].at) &&
    (forall j :: 0 <= j < |S| ==> S[j].factor > 0)
  }

  /** The numerators after the fix-up pass: each raw numerator times the
      growth that happened after it was written. */
  function FixUp(raw: seq<int>, S: seq<Growth>): (num: seq<int>)
    ensures |num| == |raw|
  {
    seq(|raw|, i requires 0 <= i < |raw| => raw[i] * Later(S, i))
  }

  /** Coordinate i of the forward pass, from state st and approximation x: the
      balanced quotient of |x| * den by denx is accepted when 2 |e| <= den;
      otherwise |x| / denx is reconstructed on its own and den grows to the lcm
      of den and the new denominator. A failed reconstruction, or a grown den
      beyond the bound, ends the pass with 0, leaving in raw[i] what the source
      leaves in num[i]: the unsigned quotient or the unsigned rescaled numerator. */
  function Step(st: Pass, x: int, i: int, denx: int, B: int): (next: Pass)
    requires denx > 0 && st.den > 0
    ensures |next.raw| == |st.raw| + 1 && next.raw[..|st.raw|] == st.raw && next.den > 0
  {
    var nx := Abs(x);
    var qe := Balanced(nx * st.den, denx);
    if 2 * Abs(qe.rem) <= st.den then
      Pass(st.ret, st.den, st.raw + [Signed(x, qe.quo)], st.stack)
    else
      var r := ReconstructionOf(nx, denx, B);
      if r.ret == 0 then Pass(0, st.den, st.raw + [qe.quo], st.stack)
      else
        ReconstructionClassified(nx, denx, B);
        var L := Lcm(r.b, st.den);
        var v := r.a * (L / r.b);
        var g := Growth(i, L / st.den);
        if L > B then Pass(0, L, st.raw + [v], st.stack + [g])
        else Pass(if r.ret == 1 then 1 else st.ret, L, st.raw + [Signed(x, v)], st.stack + [g])
  }

  /** The forward pass of the vector dyadicToRational over the first n
      coordinates; once it has failed it stays as it was. */
  function Forward(numx: seq<int>, denx: int, B: int, n: nat): (p: Pass)
    requires denx > 0 && n <= |numx|
    ensures p.den > 0 && |p.raw| <= n && (p.ret != 0 ==> |p.raw| == n)
  {
    if n == 0 then Pass(2, 1, [], [Growth(0, 1)])
    else
      var st := Forward(numx, denx, B, n - 1);
      if st.ret == 0 then st else Step(st, numx[n - 1], n - 1, denx, B)
  }

  /** The shape of the forward pass: the result is 0, 1 or 2; the stack starts
      with the sentinel, is well formed, records growth only at coordinates
      already written, and den is the product of its factors. */
  lemma {:induction false} ForwardStack(numx: seq<int>, denx: int, B: int, n: nat)
    requires denx > 0 && n <= |numx|
    ensures var p := Forward(numx, denx, B, n);
      p.ret in {0, 1, 2} && |p.stack| >= 1 && p.stack[0] == Growth(0, 1) && WellFormed(p.stack) &&
      (forall j :: 1 <= j < |p.stack| ==> 0 <= p.stack[j].at < |p.raw|) &&
      p.den == Prod(p.stack)
  {
    if n > 0 {
      ForwardStack(numx, denx, B, n - 1);
      var st := Forward(numx, denx, B, n - 1);
      if st.ret != 0 {
        StepStack(st, numx[n - 1], n - 1, denx, B);
        var p := Forward(numx, denx, B, n);
        assert p.stack == st.stack || p.stack[..|st.stack|] == st.stack;
        ShapeKept(st, p, n - 1);
      }
    }
  }

  /** The shape ForwardStack states survives a step that keeps the stack or
      pushes one entry at the coordinate it writes. */
  lemma ShapeKept(st: Pass, p: Pass, i: int)
    requires st.ret in {0, 1, 2} && |st.stack| >= 1 && st.stack[0] == Growth(0, 1)
    requires forall j :: 1 <= j < |st.stack| ==> 0 <= st.stack[j].at < |st.raw|
    requires i == |st.raw| && |p.raw| == |st.raw| + 1
    requires p.stack == st.stack || (|p.stack| == |st.stack| + 1 && p.stack[..|st.stack|] == st.stack && p.stack[|st.stack|].at == i)
    ensures |p.stack| >= 1 && p.stack[0] == Growth(0, 1)
    ensures forall j :: 1 <= j < |p.stack| ==> 0 <= p.stack[j].at < |p.raw|
  {
  }

  /** Growing den to lcm(b, den) and pushing the factor keeps den the product
      of a well-formed stack. */
  lemma GrowthPush(S: seq<Growth>, den: int, b: int, i: int)
    requires den > 0 && b > 0 && den == Prod(S) && WellFormed(S)
    requires forall j :: 0 <= j < |S| ==> S[j].at <= i
    ensures var L := Lcm(b, den);
      L % den == 0 && L / den > 0 && Prod(S + [Growth(i, L / den)]) == L &&
      WellFormed(S + [Growth(i, L / den)])
  {
    var L := Lcm(b, den);
    var f := L / den;
    DivMod(L, den);
    if f <= 0 {
      MulLe(0, -f, den);
      assert false;
    }
    var S' := S + [Growth(i, f)];
    assert S'[..|S'| - 1] == S;
    assert Prod(S') == den * f;
  }

  /** A step keeps the stack well formed, pushes at most one entry, at the
      current coordinate, and keeps den the product of the factors. */
  lemma StepStack(st: Pass, x: int, i: int, denx: int, B: int)
    requires denx > 0 && st.den > 0 && st.den == Prod(st.stack) && WellFormed(st.stack)
    requires st.ret in {0, 1, 2} && |st.stack| >= 1 && i == |st.raw|
    requires forall j :: 0 <= j < |st.stack| ==> st.stack[j].at <= i
    ensures var next := Step(st, x, i, denx, B);
      next.ret in {0, 1, 2} &&
      next.den == Prod(next.stack) && WellFormed(next.stack) &&
      (next.stack == st.stack || next.stack == st.stack + [Growth(i, next.den / st.den)])
    ensures var next := Step(st, x, i, denx, B);
      next.stack != st.stack ==> next.den % st.den == 0 && next.den / st.den > 0
  {
    var nx := Abs(x);
    var r := ReconstructionOf(nx, denx, B);
    if r.ret != 0 {
      ReconstructionClassified(nx, denx, B);
      GrowthPush(st.stack, st.den, r.b, i);
    }
  }

  // ----- products of growth factors -----

  /** A factor pushed after coordinate i leaves Earlier(S, i) alone. */
  lemma EarlierPush(S: seq<Growth>, g: Growth, i: int)
    requires g.at > i
    ensures Earlier(S + [g], i) == Earlier(S, i)
  {
    assert (S + [g])[..|S|] == S;
  }

  /** When every factor was recorded at or before i, Earlier(S, i) is all of den. */
  lemma {:induction false} EarlierAll(S: seq<Growth>, i: int)
    requires forall j :: 0 <= j < |S| ==> S[j].at <= i
    ensures Earlier(S, i) == Prod(S)
  {
    if |S| > 0 {
      EarlierAll(S[..|S| - 1], i);
    }
  }

  /** den splits into the part a numerator was written over and the part it
      is still short by. */
  lemma {:induction false} ProdSplit(S: seq<Growth>, i: int)
    ensures Prod(S) == Earlier(S, i) * Later(S, i)
  {
    if |S| > 0 {
      var S', g := S[..|S| - 1], S[|S| - 1];
      ProdSplit(S', i);
      MulRotate(Earlier(S', i), Later(S', i), g.factor);
    }
  }

  /** Products of positive factors are positive. */
  lemma {:induction false} LaterPositive(S: seq<Growth>, i: int)
    requires WellFormed(S)
    ensures Later(S, i) > 0
  {
    if |S| > 0 {
      var S' := S[..|S| - 1];
      assert WellFormed(S');
      LaterPositive(S', i);
      MulLt(0, Later(S', i), if S[|S| - 1].at > i then S[|S| - 1].factor else 1);
    }
  }

  /** For a well-formed stack whose first m entries were recorded at or before
      i and whose others after i, the shortfall of coordinate i is the product
      of the last |S| - m factors. */
  lemma {:induction false} LaterSuffix(S: seq<Growth>, m: int, i: int)
    requires 0 <= m <= |S|
    requires forall j :: 0 <= j < m ==> S[j].at <= i
    requires forall j :: m <= j < |S| ==> S[j].at > i
    ensures Later(S, i) == Prod(S[m..])
  {
    if |S| > 0 {
      var S' := S[..|S| - 1];
      if m == |S| {
        LaterSuffix(S', m - 1, i);
        assert S'[m - 1..] == [];
      } else {
        LaterSuffix(S', m, i);
        assert S[m..][..|S[m..]| - 1] == S'[m..];
      }
    }
  }

  // ----- what each coordinate satisfies -----

  /** v / den reproduces x / denx to within 1/2denx: 2 |x den - v denx| <= den. */
  predicate Within(x: int, v: int, den: int, denx: int)
  {
    2 * Abs(x * den - v * denx) <= den
  }

  /** v has the sign of x (v is 0 or of the same strict sign). */
  predicate SameSign(x: int, v: int)
  {
    (x < 0 ==> v <= 0) && (x >= 0 ==> v >= 0)
  }

  /** What the vector reconstruction promises of coordinate x with numerator v
      over den, given r, the scalar reconstruction of x / denx: v has the sign
      of x, and either v / den approximates x / denx to within 1/2denx, or the
      overall result is only plausible and v / den is the plausible a / b of r,
      whose denominator divides den. */
  predicate Consistent(x: int, v: int, den: int, denx: int, ret: int, r: Reconstruction)
  {
    SameSign(x, v) &&
    (Within(x, v, den, denx) ||
     (ret == 1 && r.ret == 1 && r.b > 0 && den % r.b == 0 && v * r.b == r.a * den))
  }

  /** The scalar reconstruction of x is that of |x| with the sign of x on a. */
  lemma ReconstructionOfAbs(x: int, d: int, B: int)
    requires d > 0
    ensures var r, r' := ReconstructionOf(x, d, B), ReconstructionOf(Abs(x), d, B);
      r.ret == r'.ret && r.b == r'.b && r'.a >= 0 && r.a == Signed(x, r'.a)
  {
    ReconstructionClassified(Abs(x), d, B);
  }

  /** Scaling numerator and denominator by a positive k keeps the half-unit
      approximation. */
  lemma WithinScale(x: int, v: int, den: int, denx: int, k: int)
    requires k > 0 && Within(x, v, den, denx)
    ensures Within(x, v * k, den * k, denx)
  {
    var E := x * den - v * denx;
    assert x * (den * k) - (v * k) * denx == E * k;
    AbsMul(E, k);
    MulLe(2 * Abs(E), den, k);
  }

  /** Scaling numerator and denominator by a positive k keeps v / den equal
      to a / b with b dividing den. */
  lemma RatioScale(v: int, den: int, a: int, b: int, k: int)
    requires b > 0 && den % b == 0 && v * b == a * den
    ensures (den * k) % b == 0 && (v * k) * b == a * (den * k)
  {
    var c := den / b;
    assert den == b * c;
    assert den * k == b * (c * k);
    DivExact(den * k, b, c * k);
    assert (v * k) * b == (v * b) * k;
  }

  /** Scaling numerator and denominator by a positive k keeps a coordinate consistent. */
  lemma ConsistentScale(x: int, v: int, den: int, denx: int, ret: int, r: Reconstruction, k: int)
    requires k > 0 && Consistent(x, v, den, denx, ret, r)
    ensures Consistent(x, v * k, den * k, denx, ret, r)
  {
    if Within(x, v, den, denx) {
      WithinScale(x, v, den, denx, k);
    } else {
      RatioScale(v, den, r.a, r.b, k);
    }
  }

  /** An accepted coordinate: the balanced quotient q of |x| den by denx with
      2 |e| <= den, given the sign of x, is consistent with x. */
  lemma AcceptedConsistent(x: int, den: int, denx: int, B: int, ret: int)
    requires denx > 0 && den > 0
    requires 2 * Abs(Balanced(Abs(x) * den, denx).rem) <= den
    ensures Consistent(x, Signed(x, Balanced(Abs(x) * den, denx).quo), den, denx, ret, ReconstructionOf(x, denx, B))
  {
    var qe := Balanced(Abs(x) * den, denx);
    MulLe(0, Abs(x), den);
    if x < 0 {
      assert x * den - (-qe.quo) * denx == -qe.rem;
    } else {
      assert x * den - qe.quo * denx == qe.rem;
    }
  }

  /** A scalar reconstruction r of x, rescaled to a multiple L of r.b, is
      consistent with x: within half a unit when r is guaranteed, equal to
      r.a / r.b when the overall result is plausible. */
  lemma RescaledConsistent(x: int, r: Reconstruction, L: int, denx: int, ret: int)
    requires r.b > 0 && L > 0 && L % r.b == 0
    requires SameSign(x, r.a) && (r.ret == 2 ==> Within(x, r.a, r.b, denx))
    requires (ret == 1 && r.ret == 1) || r.ret == 2
    ensures Consistent(x, r.a * (L / r.b), L, denx, ret, r)
  {
    var k := L / r.b;
    assert L == r.b * k && k > 0;
    if r.a >= 0 {
      MulLe(0, r.a, k);
    } else {
      MulLe(0, -r.a, k);
    }
    if r.ret == 2 {
      WithinScale(x, r.a, r.b, denx, k);
    } else {
      assert (r.a * k) * r.b == r.a * L;
    }
  }

  /** A reconstructed coordinate: the scalar result a/b of |x| / denx rescaled
      to L = lcm(b, den), given the sign of x, is consistent with x. */
  lemma ReconstructedConsistent(x: int, den: int, denx: int, B: int, ret: int)
    requires denx > 0 && den > 0 && ReconstructionOf(Abs(x), denx, B).ret != 0
    requires ret == 1 || ReconstructionOf(Abs(x), denx, B).ret == 2
    ensures var r := ReconstructionOf(Abs(x), denx, B);
      r.b > 0 &&
      Consistent(x, Signed(x, r.a * (Lcm(r.b, den) / r.b)), Lcm(r.b, den), denx, ret, ReconstructionOf(x, denx, B))
  {
    ReconstructionOfAbs(x, denx, B);
    ReconstructionClassified(x, denx, B);
    var r, r' := ReconstructionOf(x, denx, B), ReconstructionOf(Abs(x), denx, B);
    var L := Lcm(r.b, den);
    RescaledConsistent(x, r, L, denx, ret);
    SignedMul(x, r'.a, L / r.b);
  }

  /** The sign can be given before or after scaling. */
  lemma SignedMul(x: int, v: int, k: int)
    ensures Signed(x, v * k) == Signed(x, v) * k
  {
    if x < 0 {
      assert -(v * k) == (-v) * k;
    }
  }

  /** One step of the forward pass writes a consistent coordinate, never raises
      the running result, and keeps a plausible result plausible. */
  lemma StepConsistent(st: Pass, x: int, i: int, denx: int, B: int)
    requires denx > 0 && st.den > 0 && st.ret in {1, 2}
    ensures var next := Step(st, x, i, denx, B);
      next.ret != 0 ==>
        next.ret <= st.ret && (st.ret == 1 ==> next.ret == 1) &&
        Consistent(x, next.raw[|st.raw|], next.den, denx, next.ret, ReconstructionOf(x, denx, B))
  {
    var nx := Abs(x);
    var qe := Balanced(nx * st.den, denx);
    var next := Step(st, x, i, denx, B);
    if 2 * Abs(qe.rem) <= st.den {
      AcceptedConsistent(x, st.den, denx, B, st.ret);
    } else if next.ret != 0 {
      ReconstructedConsistent(x, st.den, denx, B, next.ret);
    }
  }

  /** The stack after coordinate k: the one before it, possibly with one
      growth recorded at k. */
  ghost predicate Extends(S': seq<Growth>, S: seq<Growth>, k: int)
  {
    S' == S || (|S'| == |S| + 1 && S'[..|S|] == S && S'[|S|].at == k)
  }

  /** A coordinate i before k keeps its denominator when the stack only grows at k. */
  lemma EarlierExtends(S': seq<Growth>, S: seq<Growth>, k: int, i: int)
    requires Extends(S', S, k) && i < k
    ensures Earlier(S', i) == Earlier(S, i)
  {
    if S' != S {
      assert S' == S + [S'[|S|]];
      EarlierPush(S, S'[|S|], i);
    }
  }

  /** The first k raw numerators of pass p are consistent with their
      approximations, each over the denominator it was written over. */
  ghost predicate RawOk(numx: seq<int>, denx: int, B: int, p: Pass, k: int)
    requires denx > 0 && 0 <= k <= |numx| && k <= |p.raw|
  {
    forall i :: 0 <= i < k ==>
      Consistent(numx[i], p.raw[i], Earlier(p.stack, i), denx, p.ret, ReconstructionOf(numx[i], denx, B))
  }

  /** Extending a pass by coordinate k keeps the earlier coordinates
      consistent, and with a consistent coordinate k the first k + 1 are. */
  lemma ExtendConsistent(numx: seq<int>, denx: int, B: int, st: Pass, p: Pass, k: int)
    requires denx > 0 && k == |st.raw| < |p.raw| && k < |numx| && p.raw[..k] == st.raw
    requires Extends(p.stack, st.stack, k) && p.ret in {1, 2} && (st.ret == 1 ==> p.ret == 1)
    requires RawOk(numx, denx, B, st, k)
    requires Consistent(numx[k], p.raw[k], Earlier(p.stack, k), denx, p.ret, ReconstructionOf(numx[k], denx, B))
    ensures RawOk(numx, denx, B, p, k + 1)
  {
    forall i | 0 <= i < k
      ensures Consistent(numx[i], p.raw[i], Earlier(p.stack, i), denx, p.ret, ReconstructionOf(numx[i], denx, B))
    {
      assert p.raw[i] == p.raw[..k][i];
      EarlierExtends(p.stack, st.stack, k, i);
    }
  }

  /** The raw numerators of a pass that has not failed: each is consistent
      with its approximation over the denominator it was written over. */
  lemma {:induction false} RawConsistent(numx: seq<int>, denx: int, B: int, n: nat)
    requires denx > 0 && n <= |numx|
    ensures var p := Forward(numx, denx, B, n);
      p.ret != 0 ==> RawOk(numx, denx, B, p, n)
  {
    if n > 0 {
      var st := Forward(numx, denx, B, n - 1);
      var p := Forward(numx, denx, B, n);
      RawConsistent(numx, denx, B, n - 1);
      ForwardStack(numx, denx, B, n - 1);
      if st.ret != 0 && p.ret != 0 {
        StepConsistent(st, numx[n - 1], n - 1, denx, B);
        StepStack(st, numx[n - 1], n - 1, denx, B);
        EarlierAll(p.stack, n - 1);
        ExtendConsistent(numx, denx, B, st, p, n - 1);
      }
    }
  }

  /** The result of the vector dyadicToRational, when it does not fail: every
      final numerator, over the final den, is consistent with its approximation. */
  lemma VectorConsistent(numx: seq<int>, denx: int, B: int, n: nat)
    requires denx > 0 && n <= |numx|
    ensures var p := Forward(numx, denx, B, n);
      p.ret != 0 ==> forall i :: 0 <= i < n ==>
        Consistent(numx[i], FixUp(p.raw, p.stack)[i], p.den, denx, p.ret, ReconstructionOf(numx[i], denx, B))
  {
    var p := Forward(numx, denx, B, n);
    RawConsistent(numx, denx, B, n);
    ForwardStack(numx, denx, B, n);
    if p.ret != 0 {
      forall i | 0 <= i < n
        ensures Consistent(numx[i], FixUp(p.raw, p.stack)[i], p.den, denx, p.ret, ReconstructionOf(numx[i], denx, B))
      {
        ProdSplit(p.stack, i);
        LaterPositive(p.stack, i);
        ConsistentScale(numx[i], p.raw[i], Earlier(p.stack, i), denx, p.ret, ReconstructionOf(numx[i], denx, B), Later(p.stack, i));
      }
    }
  }

  // ----- the shared denominator and the overall result -----

  /** A pass that has not failed has den = 1 (nothing was reconstructed) or
      den within the bound. */
  lemma {:induction false} ForwardDenBound(numx: seq<int>, denx: int, B: int, n: nat)
    requires denx > 0 && n <= |numx|
    ensures var p := Forward(numx, denx, B, n); p.ret != 0 ==> p.den == 1 || p.den <= B
  {
    if n > 0 {
      ForwardDenBound(numx, denx, B, n - 1);
    }
  }

  /** den never decreases: a later den is a multiple of an earlier one. */
  lemma {:induction false} ForwardDenGrows(numx: seq<int>, denx: int, B: int, m: nat, n: nat)
    requires denx > 0 && m <= n <= |numx|
    ensures var dm, dn := Forward(numx, denx, B, m).den, Forward(numx, denx, B, n).den;
      dn % dm == 0 && dm <= dn
  {
    var dm := Forward(numx, denx, B, m).den;
    if m == n {
      DivExact(dm, dm, 1);
    } else {
      ForwardDenGrows(numx, denx, B, m, n - 1);
      var st := Forward(numx, denx, B, n - 1);
      var p := Forward(numx, denx, B, n);
      ForwardStack(numx, denx, B, n - 1);
      if st.ret != 0 {
        StepStack(st, numx[n - 1], n - 1, denx, B);
        if p.stack != st.stack {
          DividesTrans(p.den, st.den, dm);
          var f := p.den / st.den;
          assert p.den == st.den * f;
          MulLe(1, f, st.den);
        }
      }
    }
  }

  /** The stack entry j past the sentinel records a coordinate whose scalar
      reconstruction succeeded, with a denominator that divides den, and (in a
      pass that has not failed) a classification no lower than the result. */
  ghost predicate Recorded(numx: seq<int>, denx: int, B: int, p: Pass, j: int)
    requires denx > 0 && 1 <= j < |p.stack|
  {
    0 <= p.stack[j].at < |numx| &&
    var r := ReconstructionOf(numx[p.stack[j].at], denx, B);
    r.ret != 0 && r.b > 0 && p.den % r.b == 0 && (p.ret != 0 ==> r.ret >= p.ret)
  }

  /** A recorded entry stays recorded when den grows by a factor and the
      result does not rise. */
  lemma RecordedGrows(numx: seq<int>, denx: int, B: int, st: Pass, p: Pass, j: int)
    requires denx > 0 && 1 <= j < |st.stack| <= |p.stack| && p.stack[j] == st.stack[j]
    requires Recorded(numx, denx, B, st, j)
    requires st.den > 0 && p.den % st.den == 0 && (p.ret != 0 ==> st.ret != 0 && p.ret <= st.ret)
    ensures Recorded(numx, denx, B, p, j)
  {
    var r := ReconstructionOf(numx[st.stack[j].at], denx, B);
    DividesTrans(p.den, st.den, r.b);
  }

  /** A step only grows den, to a multiple of it, and never raises the result. */
  lemma StepMonotone(st: Pass, x: int, i: int, denx: int, B: int)
    requires denx > 0 && st.den > 0 && st.ret in {1, 2}
    ensures var next := Step(st, x, i, denx, B);
      next.den % st.den == 0 && (next.ret != 0 ==> next.ret <= st.ret) &&
      (next.stack == st.stack ==> next.den == st.den)
  {
    var next := Step(st, x, i, denx, B);
    if next.den != st.den {
      var r := ReconstructionOf(Abs(x), denx, B);
      ReconstructionClassified(Abs(x), denx, B);
      assert next.den == Lcm(r.b, st.den);
    } else {
      DivExact(st.den, st.den, 1);
    }
  }

  /** Every growth of den comes from a coordinate whose scalar reconstruction
      succeeded and whose denominator divides den, and is classified no lower
      than the result. */
  lemma {:induction false} ForwardRecorded(numx: seq<int>, denx: int, B: int, n: nat)
    requires denx > 0 && n <= |numx|
    ensures var p := Forward(numx, denx, B, n);
      forall j :: 1 <= j < |p.stack| ==> Recorded(numx, denx, B, p, j)
  {
    if n > 0 {
      ForwardRecorded(numx, denx, B, n - 1);
      ForwardStack(numx, denx, B, n - 1);
      var st := Forward(numx, denx, B, n - 1);
      var p := Forward(numx, denx, B, n);
      if st.ret != 0 {
        StepMonotone(st, numx[n - 1], n - 1, denx, B);
        StepRecorded(st, numx, n - 1, denx, B);
        RecordedKept(numx, denx, B, st, p);
      }
    }
  }

  /** The entries recorded before a step stay recorded after it, and with the
      entry the step may push, every entry is. */
  lemma RecordedKept(numx: seq<int>, denx: int, B: int, st: Pass, p: Pass)
    requires denx > 0 && st.den > 0 && p.den % st.den == 0 && |st.stack| >= 1
    requires p.ret != 0 ==> st.ret != 0 && p.ret <= st.ret
    requires forall j :: 1 <= j < |st.stack| ==> Recorded(numx, denx, B, st, j)
    requires p.stack == st.stack ||
      (|p.stack| == |st.stack| + 1 && p.stack[..|st.stack|] == st.stack && Recorded(numx, denx, B, p, |st.stack|))
    ensures forall j :: 1 <= j < |p.stack| ==> Recorded(numx, denx, B, p, j)
  {
    var k := |st.stack|;
    forall j | 1 <= j < k
      ensures Recorded(numx, denx, B, p, j)
    {
      if p.stack != st.stack {
        assert p.stack[j] == p.stack[..k][j];
      }
      RecordedGrows(numx, denx, B, st, p, j);
    }
  }

  /** Some entry of stack S past the sentinel records a coordinate whose
      scalar reconstruction is only plausible. */
  ghost predicate SomePlausible(numx: seq<int>, denx: int, B: int, S: seq<Growth>)
    requires denx > 0
  {
    exists j :: 1 <= j < |S| && 0 <= S[j].at < |numx| && ReconstructionOf(numx[S[j].at], denx, B).ret == 1
  }

  /** A plausible result (1) comes from some coordinate whose scalar
      reconstruction was only plausible. */
  lemma {:induction false} ForwardPlausible(numx: seq<int>, denx: int, B: int, n: nat)
    requires denx > 0 && n <= |numx|
    ensures var p := Forward(numx, denx, B, n); p.ret == 1 ==> SomePlausible(numx, denx, B, p.stack)
  {
    if n > 0 {
      ForwardPlausible(numx, denx, B, n - 1);
      ForwardStack(numx, denx, B, n - 1);
      var st := Forward(numx, denx, B, n - 1);
      var p := Forward(numx, denx, B, n);
      if st.ret != 0 && p.ret == 1 {
        StepRecorded(st, numx, n - 1, denx, B);
        PlausibleKept(numx, denx, B, st, p, n - 1);
      }
    }
  }

  /** A plausible entry survives a step that keeps the stack or pushes one
      entry, and a step that lowers the result to 1 pushes one. */
  lemma PlausibleKept(numx: seq<int>, denx: int, B: int, st: Pass, p: Pass, i: int)
    requires denx > 0 && 0 <= i < |numx| && |st.stack| >= 1 && p.ret == 1
    requires st.ret == 1 ==> SomePlausible(numx, denx, B, st.stack)
    requires p.stack != st.stack ==>
      |p.stack| == |st.stack| + 1 && p.stack[..|st.stack|] == st.stack && p.stack[|st.stack|].at == i
    requires st.ret != 1 ==> p.stack != st.stack && ReconstructionOf(numx[i], denx, B).ret == 1
    ensures SomePlausible(numx, denx, B, p.stack)
  {
    var k := |st.stack|;
    if st.ret != 1 {
      assert 1 <= k < |p.stack| && p.stack[k].at == i;
    } else {
      var j :| 1 <= j < k && 0 <= st.stack[j].at < |numx| &&
        ReconstructionOf(numx[st.stack[j].at], denx, B).ret == 1;
      if p.stack != st.stack {
        assert p.stack[j] == p.stack[..k][j];
      }
    }
  }

  /** A step that grows den records its coordinate; a step that lowers the
      result to 1 is such a step, with a plausible reconstruction. */
  lemma StepRecorded(st: Pass, numx: seq<int>, i: int, denx: int, B: int)
    requires denx > 0 && st.den > 0 && st.ret in {1, 2} && 0 <= i < |numx| && |st.stack| >= 1
    ensures var p := Step(st, numx[i], i, denx, B);
      (p.stack != st.stack ==> |p.stack| == |st.stack| + 1 && p.stack[..|st.stack|] == st.stack && p.stack[|st.stack|].at == i) &&
      (p.stack != st.stack ==> Recorded(numx, denx, B, p, |st.stack|)) &&
      (p.ret == 1 && st.ret != 1 ==> p.stack != st.stack && ReconstructionOf(numx[i], denx, B).ret == 1)
  {
    var x := numx[i];
    var p := Step(st, x, i, denx, B);
    ReconstructionOfAbs(x, denx, B);
    if p.stack != st.stack {
      var r := ReconstructionOf(Abs(x), denx, B);
      ReconstructionClassified(Abs(x), denx, B);
      assert p.stack[..|st.stack|] == st.stack;
      assert p.den == Lcm(r.b, st.den);
    }
  }

  /** M is a multiple of the denominator of every coordinate recorded on S. */
  ghost predicate CommonMultiple(numx: seq<int>, denx: int, B: int, S: seq<Growth>, M: int)
    requires denx > 0
  {
    forall j :: 1 <= j < |S| && 0 <= S[j].at < |numx| && ReconstructionOf(numx[S[j].at], denx, B).b > 0 ==>
      M % ReconstructionOf(numx[S[j].at], denx, B).b == 0
  }

  /** den is the least common multiple of the recorded denominators: it
      divides every common multiple of them (and, by ForwardRecorded, is one). */
  lemma {:induction false} ForwardDenLeast(numx: seq<int>, denx: int, B: int, n: nat, M: int)
    requires denx > 0 && n <= |numx|
    requires CommonMultiple(numx, denx, B, Forward(numx, denx, B, n).stack, M)
    ensures M % Forward(numx, denx, B, n).den == 0
  {
    if n == 0 {
      DivExact(M, 1, M);
    } else {
      ForwardStack(numx, denx, B, n - 1);
      var st := Forward(numx, denx, B, n - 1);
      var p := Forward(numx, denx, B, n);
      if st.ret == 0 {
        ForwardDenLeast(numx, denx, B, n - 1, M);
      } else {
        StepRecorded(st, numx, n - 1, denx, B);
        CommonMultiplePrefix(numx, denx, B, p.stack, st.stack, M);
        ForwardDenLeast(numx, denx, B, n - 1, M);
        if p.stack != st.stack {
          StepDenIsLcm(st, numx, n - 1, denx, B);
          var r := ReconstructionOf(numx[n - 1], denx, B);
          LcmLeast(r.b, st.den, M);
        }
      }
    }
  }

  /** A common multiple of the denominators recorded on a stack is one of
      those recorded on any prefix of it. */
  lemma CommonMultiplePrefix(numx: seq<int>, denx: int, B: int, S': seq<Growth>, S: seq<Growth>, M: int)
    requires denx > 0 && |S| <= |S'| && S'[..|S|] == S
    requires CommonMultiple(numx, denx, B, S', M)
    ensures CommonMultiple(numx, denx, B, S, M)
  {
    forall j | 1 <= j < |S| ensures S[j] == S'[j] {
      assert S[j] == S'[..|S|][j];
    }
  }

  /** A step that grows den takes it to the lcm of den and the denominator of
      the coordinate's scalar reconstruction. */
  lemma StepDenIsLcm(st: Pass, numx: seq<int>, i: int, denx: int, B: int)
    requires denx > 0 && st.den > 0 && 0 <= i < |numx|
    ensures var p, r := Step(st, numx[i], i, denx, B), ReconstructionOf(numx[i], denx, B);
      p.stack != st.stack ==> r.b > 0 && p.den == Lcm(r.b, st.den)
  {
    ReconstructionOfAbs(numx[i], denx, B);
    ReconstructionClassified(Abs(numx[i]), denx, B);
  }

  /** Once the pass has failed it stays as it was. */
  lemma {:induction false} ForwardFailed(numx: seq<int>, denx: int, B: int, m: nat, n: nat)
    requires denx > 0 && m <= n <= |numx| && Forward(numx, denx, B, m).ret == 0
    ensures Forward(numx, denx, B, n) == Forward(numx, denx, B, m)
  {
    if m < n {
      ForwardFailed(numx, denx, B, m, n - 1);
    }
  }

  /** The product of a stack with one more entry below. */
  lemma {:induction false} ProdCons(g: Growth, T: seq<Growth>)
    ensures Prod([g] + T) == g.factor * Prod(T)
  {
    if |T| > 0 {
      var T' := T[..|T| - 1];
      ProdCons(g, T');
      assert ([g] + T)[..|T|] == [g] + T';
    }
  }

  // ----- the imperative routine -----

  /** The forward pass, one coordinate further, while it has not failed. */
  lemma ForwardNext(numx: seq<int>, denx: int, B: int, i: nat)
    requires denx > 0 && i < |numx| && Forward(numx, denx, B, i).ret != 0
    ensures Forward(numx, denx, B, i + 1) == Step(Forward(numx, denx, B, i), numx[i], i, denx, B)
  {
  }

  /** A step whose balanced remainder is small enough keeps den and the stack. */
  lemma StepAccepted(st: Pass, x: int, i: int, denx: int, B: int)
    requires denx > 0 && st.den > 0
    requires 2 * Abs(Balanced(Abs(x) * st.den, denx).rem) <= st.den
    ensures Step(st, x, i, denx, B) ==
      Pass(st.ret, st.den, st.raw + [Signed(x, Balanced(Abs(x) * st.den, denx).quo)], st.stack)
  {
  }

  /** A step whose own reconstruction fails fails the pass. */
  lemma StepRejected(st: Pass, x: int, i: int, denx: int, B: int)
    requires denx > 0 && st.den > 0
    requires 2 * Abs(Balanced(Abs(x) * st.den, denx).rem) > st.den
    requires ReconstructionOf(Abs(x), denx, B).ret == 0
    ensures Step(st, x, i, denx, B) ==
      Pass(0, st.den, st.raw + [Balanced(Abs(x) * st.den, denx).quo], st.stack)
  {
  }

  /** A step whose own reconstruction succeeds moves den to the lcm of den and
      the new denominator and records the growth factor. */
  lemma StepGrown(st: Pass, x: int, i: int, denx: int, B: int)
    requires denx > 0 && st.den > 0
    requires 2 * Abs(Balanced(Abs(x) * st.den, denx).rem) > st.den
    requires ReconstructionOf(Abs(x), denx, B).ret != 0
    ensures var r := ReconstructionOf(Abs(x), denx, B);
      r.b > 0 &&
      var L := Lcm(r.b, st.den);
      var v := r.a * (L / r.b);
      Step(st, x, i, denx, B) ==
        if L > B then Pass(0, L, st.raw + [v], st.stack + [Growth(i, L / st.den)])
        else Pass(if r.ret == 1 then 1 else st.ret, L, st.raw + [Signed(x, v)], st.stack + [Growth(i, L / st.den)])
  {
    ReconstructionClassified(Abs(x), denx, B);
  }

  /** What the forward pass leaves for the backward loop and the caller. */
  lemma ForwardDone(numx: seq<int>, denx: int, B: int, n: nat)
    requires denx > 0 && n <= |numx|
    ensures var p := Forward(numx, denx, B, n);
      p.ret in {0, 1, 2} && (p.ret != 0 ==> p.den == 1 || p.den <= B) &&
      |p.stack| >= 1 && p.stack[0].at == 0 && WellFormed(p.stack) &&
      (forall j :: 1 <= j < |p.stack| ==> p.stack[j].at <= |p.raw|) &&
      (p.ret != 0 ==> forall i :: 0 <= i < n ==>
        Consistent(numx[i], FixUp(p.raw, p.stack)[i], p.den, denx, p.ret, ReconstructionOf(numx[i], denx, B)))
  {
    ForwardStack(numx, denx, B, n);
    ForwardDenBound(numx, denx, B, n);
    VectorConsistent(numx, denx, B, n);
  }

  /** One turn of the forward loop of the vector dyadicToRational: the
      balanced approximation of |x| * den / denx, and when it is too far off,
      the scalar reconstruction of |x| / denx and the growth of den to the
      lcm. Returns the numerator written at coordinate i and the new ret, den
      and stack; ret' == 0 when the turn fails the pass. */
  method Coordinate(x: int, i: int, ret: int, den: int, S: seq<Growth>,
                    denx: int, denx2: int, denBound: int, ghost raw: seq<int>)
    returns (v: int, ret': int, den': int, S': seq<Growth>)
    requires denx > 0 && denx2 == denx / 2 && den > 0
    ensures Step(Pass(ret, den, raw, S), x, i, denx, denBound) == Pass(ret', den', raw + [v], S')
  {
    ghost var st := Pass(ret, den, raw, S);
    var nx := Abs(x);
    var tmp := nx * den;
    v := tmp / denx;
    var e := tmp % denx;
    if e >= denx2 {
      e := e - denx;
      v := v + 1;
    }
    assert Division(v, e) == Balanced(tmp, denx);
    ret', den', S' := ret, den, S;
    if 2 * Abs(e) > den {
      // the shared denominator fails: reconstruct this coordinate on its own
      var oneret, a, b := DyadicToRational.DyadicToRational(nx, denx, denBound);
      if oneret == 1 {
        ret' := 1;
      }
      if oneret == 0 {
        StepRejected(st, x, i, denx, denBound);
        return v, oneret, den', S';
      }
      StepGrown(st, x, i, denx, denBound);
      v := a;
      var denLcm := Lcm(b, den);
      v := v * (denLcm / b);
      S' := S + [Growth(i, denLcm / den)];
      den' := denLcm;
      if den' > denBound {
        return v, 0, den', S';
      }
    } else {
      StepAccepted(st, x, i, denx, denBound);
    }
    if x < 0 {
      v := -v;
    }
  }

  /** The vector dyadicToRational: num[i] for i < num.Length is filled from
      numx[i] / denx, den and the stack of growth factors are updated, and the
      backward loop rescales the short numerators. Returns 2 (guaranteed),
      1 (plausible) or 0 (failed). */
  method VectorDyadicToRational(num: array<int>, numx: seq<int>, denx: int, denBound: int)
    returns (ret: int, den: int)
    requires denx > 0 && num.Length <= |numx|
    modifies num
    ensures var p := Forward(numx, denx, denBound, num.Length);
      ret == p.ret && den == p.den &&
      (ret != 0 ==> num[..] == FixUp(p.raw, p.stack)) &&
      (ret == 0 ==> num[..] == p.raw + old(num[..])[|p.raw|..])
    ensures ret in {0, 1, 2} && den > 0 && (ret != 0 ==> den == 1 || den <= denBound)
    ensures ret != 0 ==> forall i :: 0 <= i < num.Length ==>
      Consistent(numx[i], num[i], den, denx, ret, ReconstructionOf(numx[i], denx, denBound))
  {
    var n := num.Length;
    var denx2 := denx / 2;  // for balancing remainders
    var S := [Growth(0, 1)];
    den := 1;
    ret := 2;
    var i := 0;
    while i < n
      invariant 0 <= i <= n && ret != 0
      invariant Forward(numx, denx, denBound, i) == Pass(ret, den, num[..i], S)
      invariant num[i..] == old(num[..])[i..]
    {
      ForwardNext(numx, denx, denBound, i);
      var v, ret', den', S' := Coordinate(numx[i], i, ret, den, S, denx, denx2, denBound, num[..i]);
      num[i] := v;
      assert num[..i + 1] == num[..i] + [v];
      if ret' == 0 {
        ForwardFailed(numx, denx, denBound, i + 1, n);
        return 0, den';
      }
      ret, den, S := ret', den', S';
      i := i + 1;
    }
    assert num[..n] == num[..];
    ForwardDone(numx, denx, denBound, n);
    FixShorties(num, S);
  }

  /** The numerators cur are fixed from coordinate lo on: those at or after lo
      carry their final scale, those before it are still raw. */
  ghost predicate FixedFrom(cur: seq<int>, raw: seq<int>, S: seq<Growth>, lo: int)
  {
    |cur| == |raw| &&
    forall x :: 0 <= x < |raw| ==> cur[x] == if x >= lo then raw[x] * Later(S, x) else raw[x]
  }

  /** Before the backward loop, the coordinates from the last growth on are
      already final: nothing was recorded after them. */
  lemma FixedFromStart(raw: seq<int>, S: seq<Growth>)
    requires |S| >= 1 && WellFormed(S)
    ensures FixedFrom(raw, raw, S, S[|S| - 1].at)
  {
    forall x | x >= S[|S| - 1].at ensures Later(S, x) == 1 {
      LaterSuffix(S, |S|, x);
    }
  }

  /** One turn of the backward loop: with t the product of the factors from
      entry m on, scaling the coordinates between entries m - 1 and m by t
      extends the fixed part down to entry m - 1. */
  lemma FixedFromStep(cur: seq<int>, cur': seq<int>, raw: seq<int>, S: seq<Growth>, m: int, t: int)
    requires 1 <= m < |S| && WellFormed(S) && FixedFrom(cur, raw, S, S[m].at)
    requires t == Prod(S[m..]) && |cur'| == |cur|
    requires forall x :: 0 <= x < |cur| ==>
      cur'[x] == if S[m - 1].at <= x < S[m].at then cur[x] * t else cur[x]
    ensures FixedFrom(cur', raw, S, S[m - 1].at)
  {
    forall x | S[m - 1].at <= x < S[m].at ensures Later(S, x) == t {
      LaterSuffix(S, m, x);
    }
  }

  /** The inner loop of the backward pass: num[i] *= t for i from k - 1 down to j. */
  method ScaleDown(num: array<int>, j: int, k: int, t: int)
    requires 0 <= j <= k <= num.Length
    modifies num
    ensures forall x :: 0 <= x < num.Length ==>
      num[x] == if j <= x < k then old(num[x]) * t else old(num[x])
  {
    var i := k - 1;
    while i >= j
      invariant j - 1 <= i <= k - 1
      invariant forall x :: 0 <= x < num.Length ==>
        num[x] == if i < x < k then old(num[x]) * t else old(num[x])
      decreases i + 1 - j
    {
      num[i] := num[i] * t;
      i := i - 1;
    }
  }

  /** The state of the backward loop: the stack is a prefix of S, t is the
      product of the factors already popped, and the coordinates from the
      current top on carry their final scale. */
  ghost predicate Popping(stack: seq<Growth>, t: int, cur: seq<int>, raw: seq<int>, S: seq<Growth>)
  {
    1 <= |stack| <= |S| && stack == S[..|stack|] &&
    t == Prod(S[|stack|..]) && FixedFrom(cur, raw, S, S[|stack| - 1].at)
  }

  /** The two positions one turn of the backward loop scales between. */
  lemma PoppingBounds(stack: seq<Growth>, t: int, cur: seq<int>, raw: seq<int>, S: seq<Growth>, n: int)
    requires Popping(stack, t, cur, raw, S) && |stack| > 1 && WellFormed(S)
    requires S[0].at == 0 && forall j :: 1 <= j < |S| ==> S[j].at <= n
    ensures 0 <= stack[|stack| - 2].at <= stack[|stack| - 1].at <= n
  {
    var m := |stack| - 1;
    if m - 1 > 0 {
      assert S[0].at <= S[m - 1].at;
    }
  }

  /** One turn of the backward loop keeps its state. */
  lemma PoppingStep(stack: seq<Growth>, t: int, cur: seq<int>, cur': seq<int>, raw: seq<int>, S: seq<Growth>)
    requires Popping(stack, t, cur, raw, S) && |stack| > 1 && WellFormed(S)
    requires |cur'| == |cur|
    requires forall x :: 0 <= x < |cur| ==>
      cur'[x] == if stack[|stack| - 2].at <= x < stack[|stack| - 1].at
                 then cur[x] * (t * stack[|stack| - 1].factor) else cur[x]
    ensures Popping(stack[..|stack| - 1], t * stack[|stack| - 1].factor, cur', raw, S)
  {
    var m := |stack| - 1;
    assert S[m..] == [S[m]] + S[m + 1..];
    ProdCons(S[m], S[m + 1..]);
    FixedFromStep(cur, cur', raw, S, m, t * S[m].factor);
  }

  /** The backward "fix shorties" loop: pops the stack down to its sentinel,
      multiplying each numerator by the product of the factors recorded after
      it was written. */
  method FixShorties(num: array<int>, S: seq<Growth>)
    requires |S| >= 1 && S[0].at == 0 && WellFormed(S)
    requires forall j :: 1 <= j < |S| ==> S[j].at <= num.Length
    modifies num
    ensures num[..] == FixUp(old(num[..]), S)
  {
    ghost var raw := num[..];
    var stack := S;
    var t := 1;
    FixedFromStart(raw, S);
    while |stack| > 1
      invariant Popping(stack, t, num[..], raw, S)
      decreases |stack|
    {
      PoppingBounds(stack, t, num[..], raw, S, num.Length);
      ghost var cur := num[..];
      ghost var before, t0 := stack, t;
      t := t * stack[|stack| - 1].factor;
      var k := stack[|stack| - 1].at;
      stack := stack[..|stack| - 1];
      var j := stack[|stack| - 1].at;
      ScaleDown(num, j, k, t);
      PoppingStep(before, t0, cur, num[..], raw, S);
    }
    assert num[..] == FixUp(raw, S);
  }
}
