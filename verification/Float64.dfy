/**
 * Rounding to double precision, for numbers from 0 to 2^53: round to nearest, ties
 * to even, with gradual underflow.  A number of this range is a double when some
 * power of two up to 2^1074 scales it to an integer of at most 53 bits.
 */
module Float64 {

  const P52: int := 0x10_0000_0000_0000
  const P53: int := 0x20_0000_0000_0000
  const MAX_SCALE: nat := 1074

  function Pow2(e: nat): (p: int)
    ensures 1 <= p
  {
    if e == 0 then 1 else 2 * Pow2(e - 1)
  }

  lemma {:induction false} Pow2Sum(d: nat, e: nat)
    ensures Pow2(d + e) == Pow2(d) * Pow2(e)
  {
    if d > 0 {
      Pow2Sum(d - 1, e);
    }
  }

  function Scaled(x: real, e: nat): real
  {
    x * Pow2(e) as real
  }

  function Abs(x: real): real
  {
    if x < 0.0 then -x else x
  }

  /** `m / 2^k` in 53 bits. */
  predicate Is(z: real, m: int, k: nat)
  {
    Scaled(z, k) == m as real && -P53 <= m <= P53 && k <= MAX_SCALE
  }

  ghost predicate IsFloat(z: real)
  {
    exists m: int, k: nat :: Is(z, m, k)
  }

  lemma IntegerIsFloat(n: int)
    requires -P53 <= n <= P53
    ensures IsFloat(n as real)
  {
    assert Is(n as real, n, 0);
  }

  /** The nearest integer, ties to even. */
  function Nearest(r: real): int
  {
    var n := r.Floor;
    var f := r - n as real;
    if f < 0.5 || (f == 0.5 && n % 2 == 0) then n else n + 1
  }

  lemma NearestInteger(r: real, m: int)
    ensures Abs(r - Nearest(r) as real) <= Abs(r - m as real)
    ensures r <= m as real ==> Nearest(r) <= m
    ensures m as real <= r ==> m <= Nearest(r)
  {
    var n := r.Floor;
    if m <= n {
      assert m as real <= n as real;
    } else {
      assert (n + 1) as real <= m as real;
    }
  }

  /** A tie goes to the even neighbour. */
  lemma NearestEven(n: int)
    ensures Nearest(n as real + 0.5) % 2 == 0
  {
    assert (n as real + 0.5).Floor == n;
  }

  /** The scale that brings `x` to 53 bits, as far as the exponent range goes. */
  function Scale(x: real, e: nat): (r: nat)
    requires 0.0 <= x && Scaled(x, e) <= P53 as real && e <= MAX_SCALE
    ensures r <= MAX_SCALE && Scaled(x, r) <= P53 as real
    ensures r < MAX_SCALE ==> P52 as real <= Scaled(x, r)
    decreases MAX_SCALE - e
  {
    if P52 as real <= Scaled(x, e) || e == MAX_SCALE then e
    else
      assert Scaled(x, e + 1) == 2.0 * Scaled(x, e);
      Scale(x, e + 1)
  }

  /** The nearest multiple of `1 / 2^e`. */
  function RoundAt(x: real, e: nat): real
  {
    Nearest(Scaled(x, e)) as real / Pow2(e) as real
  }

  function Round(x: real): real
    requires 0.0 <= x <= P53 as real
  {
    RoundAt(x, Scale(x, 0))
  }

  /** Scales multiply. */
  lemma {:induction false} ScaledUp(z: real, k: nat, e: nat)
    requires k <= e
    ensures Scaled(z, e) == Scaled(z, k) * Pow2(e - k) as real
  {
    Pow2Sum(k, e - k);
  }

  lemma DistanceScaled(x: real, y: real, e: nat)
    ensures Abs(Scaled(x, e) - Scaled(y, e)) == Scaled(Abs(x - y), e)
  {
    assert Scaled(x, e) - Scaled(y, e) == Scaled(x - y, e);
    SignScaled(x - y, e);
  }

  lemma SignScaled(d: real, e: nat)
    ensures d < 0.0 <==> Scaled(d, e) < 0.0
    ensures Scaled(-d, e) == -Scaled(d, e)
  {
    if d < 0.0 {
      assert d * Pow2(e) as real <= d;
    } else {
      assert 0.0 <= d * Pow2(e) as real;
    }
  }

  lemma SmallerWhenScaled(a: real, b: real, e: nat)
    requires Scaled(a, e) <= Scaled(b, e)
    ensures a <= b
  {
    SignScaled(b - a, e);
    assert Scaled(b - a, e) == Scaled(b, e) - Scaled(a, e);
  }

  /** On the grid of `Round`, no double is nearer than the nearest integer. */
  lemma NearestOnGrid(x: real, e: nat, z: real, m: int, k: nat)
    requires 0.0 <= x && Is(z, m, k)
    requires k <= e || P52 as real <= Scaled(x, e)
    ensures Abs(Scaled(x, e) - Nearest(Scaled(x, e)) as real) <= Abs(Scaled(x, e) - Scaled(z, e))
  {
    if k <= e {
      ScaledUp(z, k, e);
      assert Scaled(z, e) == (m * Pow2(e - k)) as real;
      NearestInteger(Scaled(x, e), m * Pow2(e - k));
    } else {
      ScaledUp(z, e, k);
      HalfAtMost(Scaled(z, e), Pow2(k - e));
      NearestInteger(Scaled(x, e), P52);
    }
  }

  lemma HalfAtMost(w: real, p: int)
    requires 2 <= p && w * p as real <= P53 as real
    ensures w <= P52 as real
  {
    if 0.0 < w {
      assert w * 2.0 <= w * p as real;
    }
  }

  lemma RoundAtIs(x: real, e: nat)
    requires 0.0 <= x && Scaled(x, e) <= P53 as real && e <= MAX_SCALE
    ensures Is(RoundAt(x, e), Nearest(Scaled(x, e)), e)
  {
    NearestInteger(Scaled(x, e), P53);
    NearestInteger(Scaled(x, e), 0);
    QuotientScaled(Nearest(Scaled(x, e)), Pow2(e));
  }

  lemma QuotientScaled(n: int, p: int)
    requires 1 <= p
    ensures n as real / p as real * p as real == n as real
  {
  }

  lemma RoundAtNearest(x: real, e: nat, z: real)
    requires 0.0 <= x && Scaled(x, e) <= P53 as real && e <= MAX_SCALE
    requires e < MAX_SCALE ==> P52 as real <= Scaled(x, e)
    requires IsFloat(z)
    ensures IsFloat(RoundAt(x, e)) && Abs(x - RoundAt(x, e)) <= Abs(x - z)
  {
    var y := RoundAt(x, e);
    RoundAtIs(x, e);
    assert IsFloat(y);
    assert Abs(Scaled(x, e) - Scaled(y, e)) <= Abs(Scaled(x, e) - Scaled(z, e)) by {
      var m: int, k: nat :| Is(z, m, k);
      NearestOnGrid(x, e, z, m, k);
    }
    Nearer(x, y, z, e);
  }

  /** `Round` gives a double, and no other is nearer. */
  lemma RoundNearest(x: real, z: real)
    requires 0.0 <= x <= P53 as real && IsFloat(z)
    ensures IsFloat(Round(x)) && Abs(x - Round(x)) <= Abs(x - z)
  {
    RoundAtNearest(x, Scale(x, 0), z);
  }

  lemma Nearer(x: real, y: real, z: real, e: nat)
    requires Abs(Scaled(x, e) - Scaled(y, e)) <= Abs(Scaled(x, e) - Scaled(z, e))
    ensures Abs(x - y) <= Abs(x - z)
  {
    DistanceScaled(x, y, e);
    DistanceScaled(x, z, e);
    SmallerWhenScaled(Abs(x - y), Abs(x - z), e);
  }

  /** Rounding does not cross a double. */
  lemma RoundMonotone(x: real, z: real)
    requires 0.0 <= x <= P53 as real && IsFloat(z)
    ensures x <= z ==> Round(x) <= z
    ensures z <= x ==> z <= Round(x)
  {
    RoundNearest(x, z);
  }

  /** Between two integers rounding stays between them. */
  lemma RoundBetween(x: real, lo: int, hi: int)
    requires 0 <= lo <= hi <= P53 && lo as real <= x <= hi as real
    ensures IsFloat(Round(x)) && lo as real <= Round(x) <= hi as real
  {
    IntegerIsFloat(lo);
    IntegerIsFloat(hi);
    RoundMonotone(x, lo as real);
    RoundMonotone(x, hi as real);
    RoundNearest(x, lo as real);
  }

  lemma {:induction false} Pow2Ordered(d: nat, e: nat)
    requires d < e
    ensures Pow2(d) < Pow2(e)
  {
    if d + 1 < e {
      Pow2Ordered(d, e - 1);
    }
  }

  /** A double of at least `2^j` has no finer grid than `2^j` allows. */
  lemma GridOf(z: real, m: int, k: nat, j: nat)
    requires Is(z, m, k) && Pow2(j) as real <= z
    ensures Pow2(k + j) <= P53
  {
    Pow2Sum(k, j);
    SmallerScaled(Pow2(j) as real, z, k);
  }

  lemma SmallerScaled(a: real, b: real, e: nat)
    requires a <= b
    ensures Scaled(a, e) <= Scaled(b, e)
  {
    SignScaled(b - a, e);
    assert Scaled(b - a, e) == Scaled(b, e) - Scaled(a, e);
  }
}
