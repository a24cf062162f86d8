/**
 * The two numeric helpers of the wheel: `clamp` and the non-negative
 * `modulo`.  JavaScript numbers are modelled as exact reals; the source's
 * `%` operator on numbers is the truncating remainder, written out here as
 * `JsRem`, so that `Modulo` is the source's formula and not Dafny's own.
 */
module Utils {

  /** Degrees in a whole turn: the only modulus the wheel ever uses. */
  const FullTurn: real := 360.0

  function Min(a: real, b: real): real { if a <= b then a else b }

  function Max(a: real, b: real): real { if a >= b then a else b }

  /** `Math.max(lo, Math.min(v, hi))`. */
  function Clamp(lo: real, v: real, hi: real): (r: real)
    ensures lo <= hi ==> lo <= r <= hi
    ensures lo <= v <= hi ==> r == v
    ensures v < lo ==> r == lo
    ensures lo <= hi < v ==> r == hi
    ensures hi < lo ==> r == lo
  {
    Max(lo, Min(v, hi))
  }

  /** Rounding toward zero: the quotient JavaScript's `%` is based on. */
  function Trunc(x: real): (t: int)
    ensures 0.0 <= x ==> 0.0 <= t as real <= x < t as real + 1.0
    ensures x < 0.0 ==> t as real - 1.0 < x <= t as real <= 0.0
  {
    if x >= 0.0 then x.Floor else -((-x).Floor)
  }

  /** JavaScript's `n % m` on numbers: the remainder takes the sign of `n`. */
  function JsRem(n: real, m: real): (r: real)
    requires m > 0.0
    ensures -m < r < m
    ensures 0.0 <= n ==> 0.0 <= r
    ensures n <= 0.0 ==> r <= 0.0
  {
    var q := n / m;
    var t := Trunc(q);
    DivCancel(n, m);
    GapAbove(n, q, m, t);
    GapBelow(n, q, m, t);
    QuotientSign(n, m);
    n - t as real * m
  }

  /**
   * What `JsRem` takes away from `n` is a whole number of copies of `m`:
   * with the bounds and the sign above, this pins down JavaScript's `%`.
   */
  lemma JsRemWholeMultiple(n: real, m: real) returns (k: int)
    requires m > 0.0
    ensures n - JsRem(n, m) == k as real * m
  {
    k := Trunc(n / m);
  }

  /**
   * The mathematical modulo, the reference definition: `n` less the largest
   * whole multiple of `m` not above it.
   */
  function FloorMod(n: real, m: real): (r: real)
    requires m > 0.0
    ensures 0.0 <= r < m
  {
    var q := n / m;
    var k := q.Floor;
    DivCancel(n, m);
    GapAbove(n, q, m, k);
    GapBelow(n, q, m, k);
    n - k as real * m
  }

  /** The source's `modulo(n, m) = ((n % m) + m) % m`. */
  function Modulo(n: real, m: real): (r: real)
    requires m > 0.0
    ensures 0.0 <= r < m
  {
    JsRem(JsRem(n, m) + m, m)
  }

  // ---- arithmetic facts the solver needs spelled out ----

  /** Multiplying by a positive factor keeps a strict order. */
  lemma MulStrict(m: real, a: real, b: real)
    requires m > 0.0 && a < b
    ensures a * m < b * m
  {
  }

  lemma MulLe(m: real, a: real, b: real)
    requires m > 0.0 && a <= b
    ensures a * m <= b * m
  {
  }

  lemma DivCancel(n: real, m: real)
    requires m > 0.0
    ensures (n / m) * m == n
  {
  }

  /** The quotient has the sign of the dividend. */
  lemma QuotientSign(n: real, m: real)
    requires m > 0.0
    ensures 0.0 <= n ==> 0.0 <= n / m
    ensures n <= 0.0 ==> n / m <= 0.0
  {
  }

  /** Taking `k` copies of `m` from `n = q * m` leaves more than `-m`, or at least 0, as `q - k` is above -1, or at least 0. */
  lemma GapAbove(n: real, q: real, m: real, k: int)
    requires m > 0.0 && q * m == n
    ensures -1.0 < q - k as real ==> -m < n - k as real * m
    ensures 0.0 <= q - k as real ==> 0.0 <= n - k as real * m
  {
    GapAboveStrict(n, q, m, k);
    GapAboveLe(n, q, m, k);
  }

  lemma GapAboveStrict(n: real, q: real, m: real, k: int)
    requires m > 0.0 && q * m == n
    ensures -1.0 < q - k as real ==> -m < n - k as real * m
  {
    var kr := k as real;
    if kr - 1.0 < q {
      MulStrict(m, kr - 1.0, q);
      assert (kr - 1.0) * m == kr * m - m;
    }
  }

  lemma GapAboveLe(n: real, q: real, m: real, k: int)
    requires m > 0.0 && q * m == n
    ensures 0.0 <= q - k as real ==> 0.0 <= n - k as real * m
  {
    if k as real <= q {
      MulLe(m, k as real, q);
    }
  }

  /** Taking `k` copies of `m` from `n = q * m` leaves less than `m`, or at most 0, as `q - k` is below 1, or at most 0. */
  lemma GapBelow(n: real, q: real, m: real, k: int)
    requires m > 0.0 && q * m == n
    ensures q - k as real < 1.0 ==> n - k as real * m < m
    ensures q - k as real <= 0.0 ==> n - k as real * m <= 0.0
  {
    var kr := k as real;
    if q < kr + 1.0 {
      MulStrict(m, q, kr + 1.0);
      assert (kr + 1.0) * m == kr * m + m;
    }
    if q < kr {
      MulStrict(m, q, kr);
    }
  }

  // ---- properties of the modulo on a whole turn ----

  /** The source's double-remainder formula computes the floor-based modulo. */
  lemma ModuloIsFloorMod(n: real)
    ensures Modulo(n, FullTurn) == FloorMod(n, FullTurn)
  {
  }

  /** `n - Modulo(n, 360)` is a whole number of turns. */
  lemma ModuloWholeTurns(n: real) returns (k: int)
    ensures n - Modulo(n, FullTurn) == k as real * FullTurn
  {
    ModuloIsFloorMod(n);
    k := (n / FullTurn).Floor;
  }

  /** Whole turns added to the input do not change the modulo. */
  lemma ModuloShift(n: real, k: int)
    ensures Modulo(n + k as real * FullTurn, FullTurn) == Modulo(n, FullTurn)
  {
    var q := n / FullTurn;
    ModuloIsFloorMod(n);
    ModuloIsFloorMod(n + k as real * FullTurn);
    assert (n + k as real * FullTurn) / FullTurn == q + k as real;
    FloorShift(q, k);
  }

  /** Adding a whole number moves the floor by that whole number. */
  lemma FloorShift(x: real, k: int)
    ensures (x + k as real).Floor == x.Floor + k
  {
  }

  /** An angle already in [0, 360) is its own modulo. */
  lemma ModuloOfRange(n: real)
    requires 0.0 <= n < FullTurn
    ensures Modulo(n, FullTurn) == n
  {
  }

  /** Renormalising an already-normalised angle changes nothing. */
  lemma ModuloIdempotent(n: real)
    ensures Modulo(Modulo(n, FullTurn), FullTurn) == Modulo(n, FullTurn)
  {
  }
}
