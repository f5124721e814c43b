/** The delayed-reduction accumulator FieldAXPY over the prime fields
    GivaroZpz<Std32> and GivaroZpz<Std16>: products a * x of field elements
    are added into an unsigned machine word (64 bits for Std32, 32 bits for
    Std16) without reducing modulo p; when the word wraps around, the lost
    2^64 (or 2^32) is put back modulo p by adding Corr, the residue of the
    word size. Only get reduces. Machine words are modelled as `int` with the
    wrap-around written out. */
module GivaroZpzAxpy {

  import opened Ring

  /** 2^64: the accumulator word of the Std32 specialisation. */
  const Word64: int := 0x1_0000_0000_0000_0000
  /** 2^32: the accumulator word of the Std16 specialisation. */
  const Word32: int := 0x1_0000_0000
  /** The largest characteristic a GivaroZpz<Std32> element (a signed 32-bit
      integer) can hold: 2^31 - 1. The documented getMaxModulus, 46339, is
      smaller, but nothing enforces it. */
  const ElementMax32: int := 0x7FFF_FFFF
  /** The largest characteristic a GivaroZpz<Std16> element (a signed 16-bit
      integer) can hold: 2^15 - 1; the documented getMaxModulus is 255. */
  const ElementMax16: int := 0x7FFF

  /** Corr for word size W and characteristic p: (W - 1) mod p, plus one, as
      the source computes it with unsigned arithmetic (W - 1 is the all-ones
      word). It lies in [1, p] and is congruent to W modulo p, so adding it
      after a wrap-around restores the residue of the lost W. */
  function CorrOf(W: int, p: int): (c: int)
    requires W >= 1 && p >= 1
    ensures 1 <= c <= p && (c - W) % p == 0
  {
    var c := (W - 1) % p + 1;
    DivMod(W - 1, p);
    assert c - W == p * (-((W - 1) / p));
    DivExact(c - W, p, -((W - 1) / p));
    c
  }

  /** Unsigned addition on a W-bit word (`+=` on uint64_t or uint32_t). */
  function WrapAdd(W: int, y: int, t: int): (r: int)
    requires W >= 1 && 0 <= y < W && 0 <= t < W
    ensures 0 <= r < W
    ensures r < t <==> y + t >= W
    ensures r == if y + t >= W then y + t - W else y + t
  {
    var s := y + t;
    DivUnique(s, W, if s >= W then 1 else 0);
    s % W
  }

  /** One accumulation step of mulacc and accumulate: add t into the word y,
      and when that wraps around, add Corr. When t leaves room for Corr
      (t + p <= W), Corr cannot wrap again and the word stays y + t modulo p. */
  function CorrectedAdd(W: int, p: int, y: int, t: int): (r: int)
    requires 1 <= p < W && 0 <= y < W && 0 <= t < W
    ensures 0 <= r < W
    ensures t + p <= W ==> (r - (y + t)) % p == 0
    ensures y + t < W ==> r == y + t
    ensures t + p <= W && y + t >= W ==> r == y + t - W + CorrOf(W, p)
  {
    var s := WrapAdd(W, y, t);
    if s < t then
      var r := WrapAdd(W, s, CorrOf(W, p));
      WrappedCongruent(W, p, y, t, r);
      r
    else
      DivExact(s - (y + t), p, 0);
      s
  }

  /** After a wrap-around, adding Corr does not wrap again when t leaves room
      for it, and the word is then y + t modulo p. */
  lemma WrappedCongruent(W: int, p: int, y: int, t: int, r: int)
    requires 1 <= p < W && 0 <= y < W && 0 <= t < W && y + t >= W
    requires r == WrapAdd(W, WrapAdd(W, y, t), CorrOf(W, p))
    ensures t + p <= W ==> r == y + t - W + CorrOf(W, p) && (r - (y + t)) % p == 0
  {
    if t + p <= W {
      assert r == y + t - W + CorrOf(W, p);
    }
  }

  /** The exact sum of a sequence of products. */
  function Sum(ts: seq<int>): int
  {
    if |ts| == 0 then 0 else Sum(ts[..|ts| - 1]) + ts[|ts| - 1]
  }

  /** The word after accumulating ts into y one by one. */
  function Fold(W: int, p: int, y: int, ts: seq<int>): (r: int)
    requires 1 <= p < W && 0 <= y < W
    requires forall i :: 0 <= i < |ts| ==> 0 <= ts[i] < W
    ensures 0 <= r < W
  {
    if |ts| == 0 then y
    else CorrectedAdd(W, p, Fold(W, p, y, ts[..|ts| - 1]), ts[|ts| - 1])
  }

  /** Delayed reduction is sound: however many wrap-arounds happen, the word
      stays congruent to the exact sum modulo p, provided each term leaves
      room for Corr. */
  lemma {:induction false} FoldCongruent(W: int, p: int, y: int, ts: seq<int>)
    requires 1 <= p < W && 0 <= y < W
    requires forall i :: 0 <= i < |ts| ==> 0 <= ts[i] && ts[i] + p <= W
    ensures (Fold(W, p, y, ts) - (y + Sum(ts))) % p == 0
  {
    if |ts| == 0 {
      DivExact(0, p, 0);
    } else {
      var ts' := ts[..|ts| - 1];
      var t := ts[|ts| - 1];
      FoldCongruent(W, p, y, ts');
      var f := Fold(W, p, y, ts');
      Shift(f, CorrectedAdd(W, p, f, t), y + Sum(ts'), t, p);
    }
  }

  /** As long as the exact sum fits the word, the word is the exact sum. */
  lemma {:induction false} FoldExact(W: int, p: int, y: int, ts: seq<int>)
    requires 1 <= p < W && 0 <= y < W
    requires forall i :: 0 <= i < |ts| ==> 0 <= ts[i] < W
    requires y + Sum(ts) < W
    ensures Fold(W, p, y, ts) == y + Sum(ts)
  {
    if |ts| > 0 {
      FoldExact(W, p, y, ts[..|ts| - 1]);
    }
  }

  /** The int64_t (or int32_t) reading of a W-bit word, as get tests it. */
  function ToSigned(W: int, y: int): (s: int)
    requires W >= 2 && W % 2 == 0 && 0 <= y < W
    ensures -(W / 2) <= s < W / 2 && (s == y || s == y - W)
    ensures s < 0 <==> y >= W / 2
  {
    if y >= W / 2 then y - W else y
  }

  /** FieldAXPY<GivaroZpz<Std32>> (W = 2^64) and FieldAXPY<GivaroZpz<Std16>>
      (W = 2^32): the accumulator word y, the characteristic p of the field
      and Corr. The ghost total is the exact value accumulated since the last
      reset or assign; y stays congruent to it modulo p. */
  class FieldAxpy {
    /** Size of the accumulator word. */
    const W: int
    /** Size of the word get casts the result to (2^32 or 2^16). */
    const E: int
    /** Largest characteristic an element of the field can hold. */
    const ElementMax: int
    /** _F.characteristic(). */
    var p: int
    /** _y. */
    var y: int
    /** Corr. */
    var corr: int
    ghost var total: int

    ghost predicate Valid()
      reads this
    {
      ((W == Word64 && E == 0x1_0000_0000 && ElementMax == ElementMax32) ||
       (W == Word32 && E == 0x1_0000 && ElementMax == ElementMax16)) &&
      2 <= p <= ElementMax && 0 <= y < W && corr == CorrOf(W, p) &&
      (y - total) % p == 0
    }

    /** An element of the field, as stored: in [0, p). */
    predicate IsElement(v: int)
      reads this
    {
      0 <= v < p
    }

    /** FieldAXPY(const GivaroZpz<Std32> &F). */
    constructor Std32(characteristic: int)
      requires 2 <= characteristic <= ElementMax32
      ensures Valid() && p == characteristic && y == 0 && total == 0 && W == Word64
    {
      W, E, ElementMax := Word64, 0x1_0000_0000, ElementMax32;
      p := characteristic;
      corr := CorrOf(Word64, characteristic);
      y := 0;
      total := 0;
      DivExact(0, characteristic, 0);
    }

    /** FieldAXPY(const GivaroZpz<Std16> &F). */
    constructor Std16(characteristic: int)
      requires 2 <= characteristic <= ElementMax16
      ensures Valid() && p == characteristic && y == 0 && total == 0 && W == Word32
    {
      W, E, ElementMax := Word32, 0x1_0000, ElementMax16;
      p := characteristic;
      corr := CorrOf(Word32, characteristic);
      y := 0;
      total := 0;
      DivExact(0, characteristic, 0);
    }

    /** The copy constructor: same field and Corr, but an empty accumulator. */
    constructor Copy(other: FieldAxpy)
      requires other.Valid()
      ensures Valid() && W == other.W && p == other.p && corr == other.corr
      ensures y == 0 && total == 0
    {
      W, E, ElementMax := other.W, other.E, other.ElementMax;
      p := other.p;
      y := 0;
      corr := other.corr;
      total := 0;
      DivExact(0, other.p, 0);
    }

    /** operator=: takes over the field, the accumulator and Corr of other. */
    method CopyFrom(other: FieldAxpy)
      requires Valid() && other.Valid() && other.W == W
      modifies this
      ensures Valid()
      ensures p == other.p && y == other.y && corr == other.corr && total == other.total
    {
      p := other.p;
      y := other.y;
      corr := other.corr;
      total := other.total;
    }

    /** mulacc(a, x): adds the product a * x, computed on the word (it never
        wraps for two elements), and returns the word. */
    method MulAcc(a: int, x: int) returns (r: int)
      requires Valid() && IsElement(a) && IsElement(x)
      modifies this
      ensures p == old(p) && corr == old(corr) && Valid() && r == y
      ensures y == CorrectedAdd(W, p, old(y), (a * x) % W) && total == old(total) + a * x
      ensures (y - (old(y) + a * x)) % p == 0
    {
      ProductFits(a, x, p, ElementMax, W);
      DivUnique(a * x, W, 0);
      var t := (a * x) % W;
      assert t == a * x && t + p <= W;
      y := WrapAdd(W, y, t);
      if y < t {
        y := WrapAdd(W, y, corr);
      }
      assert y == CorrectedAdd(W, p, old(y), t);
      Shift(old(y), y, total, t, p);
      total := total + a * x;
      r := y;
    }

    /** accumulate(t): adds an element t and returns the word. */
    method Accumulate(t: int) returns (r: int)
      requires Valid() && IsElement(t)
      modifies this
      ensures p == old(p) && corr == old(corr) && Valid() && r == y
      ensures y == CorrectedAdd(W, p, old(y), t) && total == old(total) + t
      ensures (y - (old(y) + t)) % p == 0
    {
      y := WrapAdd(W, y, t);
      if y < t {
        y := WrapAdd(W, y, corr);
      }
      assert y == CorrectedAdd(W, p, old(y), t);
      Shift(old(y), y, total, t, p);
      total := total + t;
      r := y;
    }

    /** get(y): reduces the word modulo p and returns it as an element. */
    method Get() returns (v: int)
      requires Valid()
      modifies this
      ensures Valid() && total == old(total) && p == old(p) && corr == old(corr)
      ensures v == y && IsElement(v) && v == old(y) % p && v == old(total) % p
    {
      var z := y % p;
      if ToSigned(W, z) < 0 {
        // never taken: z < p <= ElementMax < W / 2
        z := z + p;
      }
      ReduceKeeps(y, total, p);
      y := z;
      v := z % E;
      DivUnique(z, E, 0);
    }

    /** assign(y): sets the accumulator to an element. */
    method Assign(v: int)
      requires Valid() && IsElement(v)
      modifies this
      ensures Valid() && y == v && total == v && p == old(p) && corr == old(corr)
    {
      y := v;
      total := v;
      DivExact(0, p, 0);
    }

    /** reset(): empties the accumulator. */
    method Reset()
      requires Valid()
      modifies this
      ensures Valid() && y == 0 && total == 0 && p == old(p) && corr == old(corr)
    {
      y := 0;
      total := 0;
      DivExact(0, p, 0);
    }
  }

  /** The sign test of get never fires: the reduced word is below p, which
      is far below half the word. */
  lemma ReducedNonNegative(W: int, p: int, m: int, z: int)
    requires (m == ElementMax32 && W == Word64) || (m == ElementMax16 && W == Word32)
    requires 1 <= p <= m && 0 <= z < p
    ensures ToSigned(W, z) == z
  {
  }

  /** The product of two elements fits the word with room for one Corr. */
  lemma ProductFits(a: int, x: int, p: int, m: int, W: int)
    requires 0 <= a < p && 0 <= x < p && p <= m
    requires (m == ElementMax32 && W == Word64) || (m == ElementMax16 && W == Word32)
    ensures 0 <= a * x && a * x + p <= W
  {
    MulLe(0, a, x);
    MulLe(a, m, x);
    MulLe(x, m, m);
    if m == ElementMax32 {
      assert m * m + m <= W;
    } else {
      assert m * m + m <= W;
    }
  }

  /** Adding t to both the word and the total keeps them congruent. */
  lemma Shift(y0: int, y1: int, total0: int, t: int, p: int)
    requires p >= 1 && (y0 - total0) % p == 0 && (y1 - (y0 + t)) % p == 0
    ensures (y1 - (total0 + t)) % p == 0
  {
    var k1, k2 := (y0 - total0) / p, (y1 - (y0 + t)) / p;
    assert y0 - total0 == p * k1;
    assert y1 - (y0 + t) == p * k2;
    assert y1 - (total0 + t) == p * (k1 + k2);
    DivExact(y1 - (total0 + t), p, k1 + k2);
  }

  /** The reduced word is the residue of the total, and stays congruent to it. */
  lemma ReduceKeeps(y: int, total: int, p: int)
    requires p >= 1 && (y - total) % p == 0
    ensures y % p == total % p && (y % p - total) % p == 0
  {
    var k, q := (y - total) / p, total / p;
    DivMod(y - total, p);
    DivMod(total, p);
    assert y - p * (q + k) == total % p;
    DivUnique(y, p, q + k);
    DivExact(y % p - total, p, -q);
  }
}
