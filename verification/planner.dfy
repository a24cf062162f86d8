/**
 * The rotation planner: the two random draws, the slice geometry, and the
 * arithmetic that turns a chosen slice into a final rotation and an
 * animation duration.
 *
 * Angles are degrees, measured clockwise.  The wheel's conic gradient starts
 * at -90deg, so a point at wheel angle `a` (measured from the start of slice
 * 0) is drawn at screen angle `a - 90 + rotation`; the pointer sits at screen
 * angle 0, the top.
 */
module Planner {
  import opened Utils

  /** The quarter turn between the gradient's start direction and the pointer. */
  const PointerOffset: real := 90.0

  /** `chooseRandomIndex(n)`: `Math.floor(r * n)` for a draw `r` of `Math.random()`. */
  function ChooseRandomIndex(n: nat, r: real): (i: int)
    requires 0.0 <= r < 1.0
    ensures n >= 1 ==> 0 <= i < n
    ensures n == 0 ==> i == 0
  {
    if n >= 1 then
      MulLe(n as real, 0.0, r);
      MulStrict(n as real, r, 1.0);
      (r * n as real).Floor
    else
      (r * n as real).Floor
  }

  /** `2 + Math.floor(r * 3)`: the number of whole extra turns. */
  function ExtraSpins(r: real): (k: int)
    requires 0.0 <= r < 1.0
    ensures 2 <= k <= 4
    ensures k == 2 + ChooseRandomIndex(3, r)
  {
    2 + (r * 3.0).Floor
  }

  /** `clamp(2, 1.6 + extraSpins * 0.6, 4)`: seconds of animation. */
  function Duration(extraSpins: int): (d: real)
    ensures 2.0 <= d <= 4.0
    ensures 2 <= extraSpins <= 4 ==> d == 1.6 + extraSpins as real * 0.6
  {
    Clamp(2.0, 1.6 + extraSpins as real * 0.6, 4.0)
  }

  function SliceSize(n: nat): (s: real)
    requires n >= 1
    ensures 0.0 < s <= FullTurn
    ensures s * n as real == FullTurn
  {
    FullTurn / n as real
  }

  /** `selectedIdx * slice + slice / 2`: the middle of slice `idx` in wheel angles. */
  function CenterAngle(n: nat, idx: int): (c: real)
    requires n >= 1 && 0 <= idx < n
    ensures idx as real * SliceSize(n) < c < (idx + 1) as real * SliceSize(n)
    ensures 0.0 < c < FullTurn
    ensures (c / SliceSize(n)).Floor == idx
  {
    var s := SliceSize(n);
    var c := idx as real * s + s / 2.0;
    assert (idx + 1) as real * s <= n as real * s by {
      MulLe(s, (idx + 1) as real, n as real);
    }
    assert c == (idx as real + 0.5) * s;
    DivCancel(c, s);
    assert c / s == idx as real + 0.5 by {
      if c / s < idx as real + 0.5 {
        MulStrict(s, c / s, idx as real + 0.5);
      } else if c / s > idx as real + 0.5 {
        MulStrict(s, idx as real + 0.5, c / s);
      }
    }
    c
  }

  /** The slice of an `n`-slice wheel that sits under the pointer when the wheel is turned by `rotation`. */
  function SliceUnderPointer(n: nat, rotation: real): (i: int)
    requires n >= 1
    ensures 0 <= i < n
    // Slice `i` of the gradient spans wheel angles [i * s, (i + 1) * s); the pointer's wheel angle lies in it.
    ensures i as real * SliceSize(n) <= Modulo(PointerOffset - rotation, FullTurn) < (i + 1) as real * SliceSize(n)
  {
    var a := Modulo(PointerOffset - rotation, FullTurn);
    SliceOf(a, SliceSize(n), n);
    (a / SliceSize(n)).Floor
  }

  /** An angle in [0, n * s) lies in exactly the slice its quotient by `s` rounds down to. */
  lemma SliceOf(a: real, s: real, n: nat)
    requires s > 0.0 && 0.0 <= a && a < s * n as real
    ensures var i := (a / s).Floor;
      0 <= i < n && i as real * s <= a < (i + 1) as real * s
  {
    var q := a / s;
    var i := q.Floor;
    DivCancel(a, s);
    GapAbove(a, q, s, i);
    GapBelow(a, q, s, i);
    QuotientSign(a, s);
    assert q < n as real by {
      if q >= n as real {
        MulLe(s, n as real, q);
      }
    }
  }

  datatype Plan = Plan(
    centerAngle: real,
    currentNorm: real,
    extraSpins: int,
    duration: real,
    delta: real,
    finalRotation: real)

  /**
   * The planning arithmetic of `onSpin`: from the number of active slices,
   * the chosen index, the wheel's present rotation and the drawn turn count,
   * the rotation to animate to and for how long.
   */
  function PlanSpin(n: nat, idx: int, currentRotation: real, extraSpins: int): (p: Plan)
    requires n >= 1 && 0 <= idx < n
    ensures p.centerAngle == CenterAngle(n, idx) && p.currentNorm == Modulo(currentRotation, FullTurn)
    ensures p.extraSpins == extraSpins && p.duration == Duration(extraSpins)
    ensures p.finalRotation == currentRotation + p.delta
    // The wheel comes to rest with the chosen slice under the pointer, whatever it was turned by before.
    ensures Modulo(p.finalRotation, FullTurn) == Modulo(PointerOffset - CenterAngle(n, idx), FullTurn)
    ensures Modulo(p.centerAngle - PointerOffset + p.finalRotation, FullTurn) == 0.0
    ensures SliceUnderPointer(n, p.finalRotation) == idx
    // The net turn lies strictly between (extraSpins - 2) and extraSpins whole turns, plus a quarter.
    ensures (extraSpins - 2) as real * FullTurn + PointerOffset < p.delta
    ensures p.delta < extraSpins as real * FullTurn + PointerOffset
    // Counted from the start of the current whole turn, the target lies in turn `extraSpins`.
    ensures extraSpins as real * FullTurn - 270.0 < p.finalRotation - (currentRotation - p.currentNorm)
    ensures p.finalRotation - (currentRotation - p.currentNorm) < extraSpins as real * FullTurn + PointerOffset
    ensures 2.0 <= p.duration <= 4.0
  {
    var c := CenterAngle(n, idx);
    var norm := Modulo(currentRotation, FullTurn);
    var d := Duration(extraSpins);
    var delta := extraSpins as real * FullTurn + (PointerOffset - c) - norm;
    var p := Plan(c, norm, extraSpins, d, delta, currentRotation + delta);
    LandingAngle(n, idx, currentRotation, extraSpins);
    p
  }

  /**
   * The landing facts behind `PlanSpin`: the final rotation differs from
   * `PointerOffset - centerAngle` by whole turns, so the chosen slice's
   * centre is drawn exactly at the pointer.
   */
  lemma LandingAngle(n: nat, idx: int, currentRotation: real, extraSpins: int)
    requires n >= 1 && 0 <= idx < n
    ensures var c := CenterAngle(n, idx);
      var f := currentRotation + extraSpins as real * FullTurn + (PointerOffset - c) - Modulo(currentRotation, FullTurn);
      && Modulo(f, FullTurn) == Modulo(PointerOffset - c, FullTurn)
      && Modulo(c - PointerOffset + f, FullTurn) == 0.0
      && SliceUnderPointer(n, f) == idx
  {
    var c := CenterAngle(n, idx);
    var norm := Modulo(currentRotation, FullTurn);
    var f := currentRotation + extraSpins as real * FullTurn + (PointerOffset - c) - norm;
    var w := ModuloWholeTurns(currentRotation);
    var turns := w + extraSpins;
    assert f == (PointerOffset - c) + turns as real * FullTurn;
    ModuloShift(PointerOffset - c, turns);
    assert c - PointerOffset + f == 0.0 + turns as real * FullTurn;
    ModuloShift(0.0, turns);
    ModuloOfRange(0.0);
    assert PointerOffset - f == c + (-turns) as real * FullTurn;
    ModuloShift(c, -turns);
    ModuloOfRange(c);
  }

  /**
   * The index draw splits [0, 1) into `n` equal intervals, one per slice:
   * index `k` is chosen exactly when the draw lies in `[k/n, (k+1)/n)`.
   */
  lemma ChooseRandomIndexInterval(n: nat, r: real, k: int)
    requires n >= 1 && 0 <= k < n
    requires 0.0 <= r < 1.0
    ensures ChooseRandomIndex(n, r) == k <==> k as real / n as real <= r < (k + 1) as real / n as real
  {
    var nr := n as real;
    DivCancel(k as real, nr);
    DivCancel((k + 1) as real, nr);
    ScaleInterval(r, nr, k as real / nr, (k + 1) as real / nr, k as real, (k + 1) as real);
  }

  /** A positive scale maps `lo <= r < hi` onto `lo * m <= r * m < hi * m`, and back. */
  lemma ScaleInterval(r: real, m: real, lo: real, hi: real, a: real, b: real)
    requires m > 0.0 && lo * m == a && hi * m == b
    ensures lo <= r < hi <==> a <= r * m < b
  {
  }

  /** The three durations the turn counts give: 2.8, 3.4 and 4.0 seconds. */
  lemma DurationValues()
    ensures Duration(2) == 2.8 && Duration(3) == 3.4 && Duration(4) == 4.0
  {
  }

  /** More turns never animate faster. */
  lemma DurationMonotone(a: int, b: int)
    requires a <= b
    ensures Duration(a) <= Duration(b)
  {
  }

  /** Renormalising a rotation into [0, 360) keeps the same slice under the pointer. */
  lemma RenormalisePreservesSlice(n: nat, rotation: real)
    requires n >= 1
    ensures SliceUnderPointer(n, Modulo(rotation, FullTurn)) == SliceUnderPointer(n, rotation)
  {
    var w := ModuloWholeTurns(rotation);
    assert PointerOffset - Modulo(rotation, FullTurn) == (PointerOffset - rotation) + w as real * FullTurn;
    ModuloShift(PointerOffset - rotation, w);
  }

  /** Two plans for the same slice land at the same angle, whatever the prior rotation and turn count. */
  lemma LandingIndependentOfHistory(n: nat, idx: int, rotation1: real, spins1: int, rotation2: real, spins2: int)
    requires n >= 1 && 0 <= idx < n
    ensures Modulo(PlanSpin(n, idx, rotation1, spins1).finalRotation, FullTurn)
         == Modulo(PlanSpin(n, idx, rotation2, spins2).finalRotation, FullTurn)
  {
  }

  /**
   * The source's comment promises at least two full turns, but its formula
   * does not: one slice, a wheel resting at 359 degrees and two extra spins
   * give a net turn of 271 degrees.
   */
  lemma FewerThanTwoTurns()
    ensures PlanSpin(1, 0, 359.0, 2).delta == 271.0
    ensures PlanSpin(1, 0, 359.0, 2).delta < 2.0 * FullTurn
  {
  }

  /**
   * Five topics, index 2, resting at 0 and two extra spins: a 630-degree
   * turn over 2.8 seconds, short of two full turns.
   */
  lemma FiveSliceScenario()
    ensures ChooseRandomIndex(5, 0.5) == 2 && ExtraSpins(0.0) == 2
    ensures CenterAngle(5, 2) == 180.0
    ensures PlanSpin(5, 2, 0.0, 2).delta == 630.0
    ensures PlanSpin(5, 2, 0.0, 2).finalRotation == 630.0
    // The configured wheel's own first spin already turns less than the two full turns the comment promises.
    ensures PlanSpin(5, 2, 0.0, 2).delta < 2.0 * FullTurn
    ensures PlanSpin(5, 2, 0.0, 2).duration == 2.8
  {
  }
}
