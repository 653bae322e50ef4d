/** Round-to-nearest arithmetic on binary64 numbers, and exactly when it still finds an ord
    between two others. All numbers here have magnitude at most 2^53; an ord of greater size
    would take that many placements. */
module Float64 {
  import opened Model
  import opened Order
  import opened Rounding

  /** Half of 2^53: sums of two such numbers stay in range. */
  const HALF: nat := 4503599627370496

  function Distance(x: real, y: real): real {
    if x < y then y - x else x - y
  }

  ghost predicate Nearest(r: real, x: real) {
    Binary64(r) && forall z: real :: Binary64(z) ==> Distance(r, x) <= Distance(z, x)
  }

  /** Results are rounded to a nearest binary64 number (section 4.3.1 of IEEE 754-2019); how
      ties are broken is left open. */
  ghost predicate RoundsToNearest(env: Env) {
    forall x: real {:trigger env.round(x)} :: AtMost(x, LIMIT) ==> Nearest(env.round(x), x)
  }

  // ----- the numbers

  lemma {:induction false} ScaleGrows(x: real, d: nat, b: nat)
    requires AtMost(Scale(x, d), b)
    ensures AtMost(x, b)
    decreases d
  {
    if d > 0 { ScaleGrows(x, d - 1, b); }
  }

  lemma BinaryInRange(x: real)
    requires Binary64(x)
    ensures AtMost(x, LIMIT)
  {
    var d: nat :| d <= BOTTOM && OnGrid(x, d) && AtMost(Scale(x, d), LIMIT);
    ScaleGrows(x, d, LIMIT);
  }

  lemma IntIsBinary(i: int)
    requires AtMost(i as real, LIMIT)
    ensures Binary64(i as real)
  {
    GridInt(i, 0);
    assert Scale(i as real, 0) == i as real;
  }

  lemma ScaleDown(x: real, d: nat)
    requires d > 0
    ensures Scale(2.0 * x, d - 1) == Scale(x, d)
  {
    ScaleHalf(2.0 * x, d - 1);
    assert (2.0 * x) / 2.0 == x;
  }

  lemma DoubleIsBinary(x: real)
    requires Binary64(x) && AtMost(x, HALF)
    ensures Binary64(2.0 * x)
  {
    var d: nat :| d <= BOTTOM && OnGrid(x, d) && AtMost(Scale(x, d), LIMIT);
    if d > 0 {
      ScaleDown(x, d);
      assert OnGrid(2.0 * x, d - 1) && AtMost(Scale(2.0 * x, d - 1), LIMIT);
    } else {
      WholeInt(2.0 * x, 2 * x.Floor);
      assert OnGrid(2.0 * x, 0) && AtMost(Scale(2.0 * x, 0), LIMIT);
    }
  }

  // ----- rounding

  lemma RoundExact(env: Env, x: real)
    requires RoundsToNearest(env) && Binary64(x)
    ensures env.round(x) == x
  {
    BinaryInRange(x);
    assert Nearest(env.round(x), x);
    assert Distance(env.round(x), x) <= Distance(x, x);
  }

  /** Rounding to nearest leaves representable results alone. */
  lemma NearestIsCorrect(env: Env)
    requires RoundsToNearest(env)
    ensures CorrectlyRounded(env)
  {
    forall x: real | Binary64(x) ensures env.round(x) == x { RoundExact(env, x); }
  }

  lemma ClosestKeepOrder(p: real, q: real, x: real, y: real)
    requires Distance(p, x) <= Distance(q, x) && Distance(q, y) <= Distance(p, y) && x < y
    ensures p <= q
  {
  }

  lemma RoundMonotone(env: Env, x: real, y: real)
    requires RoundsToNearest(env) && AtMost(x, LIMIT) && AtMost(y, LIMIT) && x <= y
    ensures env.round(x) <= env.round(y)
  {
    hide Binary64, Distance;
    var p, q := env.round(x), env.round(y);
    assert Nearest(p, x) && Nearest(q, y);
    if x < y { ClosestKeepOrder(p, q, x, y); }
  }

  /** Rounding cannot cross a binary64 number. */
  lemma RoundBetween(env: Env, x: real, lo: real, hi: real)
    requires RoundsToNearest(env) && Binary64(lo) && Binary64(hi) && lo <= x <= hi
    ensures Binary64(env.round(x)) && lo <= env.round(x) <= hi
  {
    hide Binary64, Distance;
    BinaryInRange(lo);
    BinaryInRange(hi);
    assert Nearest(env.round(x), x);
    hide RoundsToNearest, Nearest;
    RoundMonotone(env, lo, x);
    RoundMonotone(env, x, hi);
    RoundExact(env, lo);
    RoundExact(env, hi);
  }

  // ----- the midpoint

  ghost predicate InHalfRange(x: real) {
    Binary64(x) && AtMost(x, HALF)
  }

  /** What `calcOrd` computes between two ords. */
  function Midpoint(env: Env, a: real, b: real): real {
    env.round(env.round(a + b) / 2.0)
  }

  ghost predicate NumberBetween(a: real, b: real) {
    exists c: real :: Binary64(c) && a < c < b
  }

  lemma SumBetween(env: Env, a: real, b: real)
    requires RoundsToNearest(env) && InHalfRange(a) && InHalfRange(b) && a <= b
    ensures Binary64(env.round(a + b)) && 2.0 * a <= env.round(a + b) <= 2.0 * b
  {
    hide Binary64, RoundsToNearest;
    DoubleIsBinary(a);
    DoubleIsBinary(b);
    RoundBetween(env, a + b, 2.0 * a, 2.0 * b);
  }

  /** The midpoint never leaves the interval. */
  lemma MidpointBetween(env: Env, a: real, b: real)
    requires RoundsToNearest(env) && InHalfRange(a) && InHalfRange(b) && a <= b
    ensures Binary64(Midpoint(env, a, b)) && a <= Midpoint(env, a, b) <= b
  {
    hide Binary64, RoundsToNearest;
    SumBetween(env, a, b);
    RoundBetween(env, env.round(a + b) / 2.0, a, b);
  }

  lemma CloserThanEnds(s: real, a: real, b: real, c: real)
    requires a < c < b && Distance(s, a + b) <= Distance(2.0 * c, a + b)
    ensures 2.0 * a < s < 2.0 * b
  {
  }

  /** With a number between the neighbours, the rounded sum stays off both ends. */
  lemma SumInside(env: Env, a: real, b: real, c: real)
    requires RoundsToNearest(env) && InHalfRange(a) && InHalfRange(b) && Binary64(c) && a < c < b
    ensures 2.0 * a < env.round(a + b) < 2.0 * b
  {
    hide Binary64;
    SumBetween(env, a, b);
    DoubleIsBinary(c);
    var s := env.round(a + b);
    assert Nearest(s, a + b);
    hide RoundsToNearest, InHalfRange;
    CloserThanEnds(s, a, b, c);
  }

  ghost predicate GridFit(x: real, d: nat) {
    OnGrid(x, d) && AtMost(Scale(x, d), LIMIT)
  }

  /** An odd last digit at the very bottom of the binary64 range. */
  ghost predicate OddAtBottom(s: real) {
    GridFit(s, BOTTOM) && Scale(s, BOTTOM).Floor % 2 == 1
  }

  lemma HalfFits(s: real, d: nat)
    requires GridFit(s, d) && d < BOTTOM
    ensures GridFit(s / 2.0, d + 1)
  {
    ScaleHalf(s, d);
  }

  lemma EvenHalfFits(s: real)
    requires GridFit(s, BOTTOM) && Scale(s, BOTTOM).Floor % 2 == 0
    ensures GridFit(s / 2.0, BOTTOM)
  {
    HalfScale(s, BOTTOM);
    var m := Scale(s, BOTTOM).Floor;
    hide Scale;
    WholeInt(Scale(s / 2.0, BOTTOM), m / 2);
  }

  lemma {:induction false} HalfScale(s: real, d: nat)
    ensures 2.0 * Scale(s / 2.0, d) == Scale(s, d)
    decreases d
  {
    if d > 0 { HalfScale(s, d - 1); }
  }

  lemma HalfIsBinary(s: real)
    requires Binary64(s) && !OddAtBottom(s)
    ensures Binary64(s / 2.0)
  {
    hide Scale, Whole, OnGrid, AtMost;
    var d: nat :| d <= BOTTOM && OnGrid(s, d) && AtMost(Scale(s, d), LIMIT);
    if d < BOTTOM { HalfFits(s, d); } else { EvenHalfFits(s); }
  }

  /** Halving is exact but for such numbers. */
  lemma HalfExact(env: Env, s: real)
    requires RoundsToNearest(env) && Binary64(s) && !OddAtBottom(s)
    ensures env.round(s / 2.0) == s / 2.0
  {
    hide RoundsToNearest;
    HalfIsBinary(s);
    hide Binary64, OddAtBottom;
    RoundExact(env, s / 2.0);
  }

  // ----- the bottom of the range

  /** `x` divided by 2^d. */
  function Shrink(x: real, d: nat): real {
    if d == 0 then x else Shrink(x, d - 1) / 2.0
  }

  lemma {:induction false} ScaleOfShrink(x: real, d: nat)
    ensures Scale(Shrink(x, d), d) == x
    decreases d
  {
    if d > 0 {
      ScaleOfShrink(x, d - 1);
      ScaleHalf(Shrink(x, d - 1), d - 1);
    }
  }

  lemma {:induction false} ScaleMonotone(x: real, y: real, d: nat)
    ensures x < y ==> Scale(x, d) < Scale(y, d)
    ensures x == y ==> Scale(x, d) == Scale(y, d)
    decreases d
  {
    if d > 0 { ScaleMonotone(x, y, d - 1); }
  }

  function Unit(): real {
    Shrink(1.0, BOTTOM)
  }

  lemma UnitScale()
    ensures Scale(Unit(), BOTTOM) == 1.0 && Unit() > 0.0
  {
    ScaleOfShrink(1.0, BOTTOM);
    ScaleMonotone(Unit(), 0.0, BOTTOM);
    ScaleIsProduct(0.0, BOTTOM);
  }

  lemma BinaryOnBottom(x: real)
    requires Binary64(x)
    ensures OnGrid(x, BOTTOM)
  {
    var d: nat :| d <= BOTTOM && OnGrid(x, d) && AtMost(Scale(x, d), LIMIT);
    GridFiner(x, d, BOTTOM);
  }

  lemma FitIsBinary(x: real, d: nat)
    requires GridFit(x, d) && d <= BOTTOM
    ensures Binary64(x)
  {
  }

  lemma UnitStep(s: real)
    ensures Scale(s + Unit(), BOTTOM) == Scale(s, BOTTOM) + 1.0
    ensures Scale(s - Unit(), BOTTOM) == Scale(s, BOTTOM) - 1.0
  {
    UnitScale();
    hide Scale, Unit;
    ScaleSum(s, Unit(), BOTTOM);
    ScaleDifference(Unit(), s, BOTTOM);
  }

  lemma EvenNeighbour(x: real, y: real)
    requires Whole(x) && AtMost(x, LIMIT) && x.Floor % 2 == 1 && (y == x + 1.0 || y == x - 1.0)
    ensures Whole(y) && AtMost(y, LIMIT) && y.Floor % 2 == 0
  {
    WholeInt(y, if y > x then x.Floor + 1 else x.Floor - 1);
  }

  /** The number one unit next to an odd one at the bottom, and its half. */
  lemma NextToOdd(s: real, up: bool)
    requires OddAtBottom(s)
    ensures var z := if up then s + Unit() else s - Unit();
            Binary64(z) && Binary64(z / 2.0)
  {
    hide Scale, Unit, Binary64, Whole, AtMost;
    var z := if up then s + Unit() else s - Unit();
    UnitStep(s);
    EvenNeighbour(Scale(s, BOTTOM), Scale(z, BOTTOM));
    EvenHalfFits(z);
    FitIsBinary(z, BOTTOM);
    FitIsBinary(z / 2.0, BOTTOM);
  }

  lemma WholeSteps(x: real, y: real, z: real)
    requires Whole(x) && Whole(y) && Whole(z) && x < y < z
    ensures z - x >= 2.0
  {
    assert x.Floor < y.Floor < z.Floor;
  }

  /** Numbers with another one between them are at least two units apart. */
  lemma TwoUnitsApart(a: real, b: real, c: real)
    requires Binary64(a) && Binary64(b) && Binary64(c) && a < c < b
    ensures b - a >= 2.0 * Unit()
  {
    BinaryOnBottom(a);
    BinaryOnBottom(b);
    BinaryOnBottom(c);
    UnitScale();
    hide Binary64, Scale, Unit, Whole;
    ScaleMonotone(a, c, BOTTOM);
    ScaleMonotone(c, b, BOTTOM);
    WholeSteps(Scale(a, BOTTOM), Scale(c, BOTTOM), Scale(b, BOTTOM));
    ScaleDifference(a, b, BOTTOM);
    ScaleSum(Unit(), Unit(), BOTTOM);
    ScaleMonotone(b - a, Unit() + Unit(), BOTTOM);
  }

  lemma WithinHalfUnit(r: real, x: real, z: real, y: real, u: real)
    requires Distance(r, x) <= Distance(z, x) && Distance(r, x) <= Distance(y, x)
    requires u > 0.0 && z == r - u && y == r + u
    ensures Distance(r, x) <= u / 2.0
  {
  }

  /** There, the sum is at most half a unit off, and so is the half; both together stay off
      the ends. */
  lemma OddHalfInside(env: Env, a: real, b: real, c: real)
    requires RoundsToNearest(env) && InHalfRange(a) && InHalfRange(b) && Binary64(c) && a < c < b
    requires OddAtBottom(env.round(a + b))
    ensures a < Midpoint(env, a, b) < b
  {
    hide Binary64, Distance, OddAtBottom;
    var s, u := env.round(a + b), Unit();
    TwoUnitsApart(a, b, c);
    UnitScale();
    SumBetween(env, a, b);
    NextToOdd(s, true);
    NextToOdd(s, false);
    assert Nearest(s, a + b);
    WithinHalfUnit(s, a + b, s - u, s + u, u);
    HalfRange(s);
    var r := env.round(s / 2.0);
    assert Nearest(r, s / 2.0);
    assert Distance(r, s / 2.0) <= Distance((s + u) / 2.0, s / 2.0);
    hide RoundsToNearest, Nearest, Unit, InHalfRange;
    StillInside(a, b, s, r, u);
  }

  lemma HalfRange(s: real)
    requires Binary64(s)
    ensures AtMost(s / 2.0, LIMIT)
  {
    BinaryInRange(s);
  }

  lemma StillInside(a: real, b: real, s: real, r: real, u: real)
    requires u > 0.0 && b - a >= 2.0 * u
    requires Distance(s, a + b) <= u / 2.0 && Distance(r, s / 2.0) <= Distance((s + u) / 2.0, s / 2.0)
    ensures a < r < b
  {
  }

  /** The exact condition for float64: the midpoint of two ords lies strictly between them if
      and only if any binary64 number does; otherwise it is one of the two. */
  lemma MidpointInsideIff(env: Env, a: real, b: real)
    requires RoundsToNearest(env) && InHalfRange(a) && InHalfRange(b) && a < b
    ensures a < Midpoint(env, a, b) < b <==> NumberBetween(a, b)
    ensures Midpoint(env, a, b) == a || Midpoint(env, a, b) == b || NumberBetween(a, b)
  {
    hide Binary64, RoundsToNearest, OddAtBottom;
    MidpointBetween(env, a, b);
    if NumberBetween(a, b) {
      var c: real :| Binary64(c) && a < c < b;
      SumInside(env, a, b, c);
      SumBetween(env, a, b);
      var s := env.round(a + b);
      if OddAtBottom(s) {
        OddHalfInside(env, a, b, c);
      } else {
        HalfExact(env, s);
      }
    }
  }

  // ----- the ends

  lemma IntNearby(x: real)
    requires AtMost(x, HALF)
    ensures Binary64((x - 1.0).Floor as real) && Binary64((x + 1.0).Floor as real)
    ensures AtMost(x - 1.0, LIMIT) && AtMost(x + 1.0, LIMIT)
  {
    IntIsBinary((x - 1.0).Floor);
    IntIsBinary((x + 1.0).Floor);
  }

  /** In this range a step of one never rounds back. */
  lemma EndsMove(env: Env, x: real)
    requires RoundsToNearest(env) && InHalfRange(x)
    ensures env.round(x - 1.0) < x < env.round(x + 1.0)
  {
    hide Binary64;
    IntNearby(x);
    var lo, hi := (x - 1.0).Floor as real, (x + 1.0).Floor as real;
    assert Nearest(env.round(x - 1.0), x - 1.0) && Nearest(env.round(x + 1.0), x + 1.0);
    assert Distance(env.round(x - 1.0), x - 1.0) <= Distance(lo, x - 1.0) < 1.0;
    assert Distance(env.round(x + 1.0), x + 1.0) <= Distance(hi, x + 1.0) < 1.0;
  }

  // ----- a list of ords

  /** Interior positions have a number left between their neighbours. */
  ghost predicate Room(ords: seq<real>, index: Option<int>) {
    var pos := Position(index, |ords|);
    0 < pos < |ords| ==> NumberBetween(ords[pos - 1], ords[pos])
  }

  ghost predicate Increasing(ords: seq<real>) {
    forall i, j :: 0 <= i < j < |ords| ==> ords[i] < ords[j]
  }

  ghost predicate Splits(ords: seq<real>, pos: nat, v: real) {
    && (forall k :: 0 <= k < pos && k < |ords| ==> ords[k] < v)
    && forall k :: pos <= k < |ords| ==> v < ords[k]
  }

  /** The chosen ord splits the siblings at the requested position if and only if there is
      room; without room it repeats the ord of a neighbour. */
  lemma PlaceOrdSplitsIff(env: Env, ords: seq<real>, index: Option<int>)
    requires RoundsToNearest(env) && Increasing(ords) && forall i :: 0 <= i < |ords| ==> InHalfRange(ords[i])
    ensures var pos, v := Position(index, |ords|), PlaceOrd(env, ords, index);
            && (Splits(ords, pos, v) <==> Room(ords, index))
            && (!Room(ords, index) ==> 0 < pos < |ords| && (v == ords[pos - 1] || v == ords[pos]))
  {
    hide RoundsToNearest, Binary64, NumberBetween, InHalfRange;
    var pos, v := Position(index, |ords|), PlaceOrd(env, ords, index);
    if |ords| > 0 {
      if pos == 0 {
        EndsMove(env, ords[0]);
      } else if pos == |ords| {
        EndsMove(env, ords[|ords| - 1]);
      } else {
        MidpointInsideIff(env, ords[pos - 1], ords[pos]);
        assert v == Midpoint(env, ords[pos - 1], ords[pos]);
      }
    }
  }

  // ----- such a rounding exists

  lemma ScaleNegate(x: real, d: nat)
    ensures Scale(-x, d) == -Scale(x, d)
  {
    ScaleDifference(x, 0.0, d);
    ScaleDifference(0.0, 0.0, d);
    assert 0.0 - x == -x;
  }

  lemma BinaryNegate(x: real)
    requires Binary64(x)
    ensures Binary64(-x)
  {
    var d: nat :| d <= BOTTOM && OnGrid(x, d) && AtMost(Scale(x, d), LIMIT);
    ScaleNegate(x, d);
    hide Scale;
    WholeInt(Scale(-x, d), -Scale(x, d).Floor);
  }

  /** The `i`-th multiple of the smallest unit. */
  function Units(i: int): real {
    Shrink(i as real, BOTTOM)
  }

  lemma {:induction false} SearchDown(i: int, lo: int) returns (m: int)
    requires lo <= i && Binary64(Units(lo))
    ensures m <= i && Binary64(Units(m)) && forall k: int :: m < k <= i ==> !Binary64(Units(k))
    decreases i - lo
  {
    hide Binary64, Units;
    if Binary64(Units(i)) {
      m := i;
    } else {
      assert lo != i;
      m := SearchDown(i - 1, lo);
    }
  }

  lemma StepOfBinary(z: real)
    requires Binary64(z)
    ensures z == Units(Scale(z, BOTTOM).Floor) && Whole(Scale(z, BOTTOM))
  {
    BinaryOnBottom(z);
    hide Binary64;
    var i := Scale(z, BOTTOM).Floor;
    ScaleOfShrink(i as real, BOTTOM);
    ScaleMonotone(z, Units(i), BOTTOM);
    ScaleMonotone(Units(i), z, BOTTOM);
  }

  lemma LargestBelow(x: real) returns (r: real)
    requires AtMost(x, LIMIT)
    ensures Binary64(r) && r <= x && forall z: real :: Binary64(z) && z <= x ==> z <= r
  {
    var lo := -(LIMIT as real);
    IntIsBinary(-(LIMIT as int));
    StepOfBinary(lo);
    hide Binary64, Units, Scale;
    ScaleOrder(lo, x);
    var top := Scale(x, BOTTOM).Floor;
    var m := SearchDown(top, Scale(lo, BOTTOM).Floor);
    r := Units(m);
    StepScale(m);
    ScaleOrder(r, x);
    forall z: real | Binary64(z) && z <= x ensures z <= r {
      StepOfBinary(z);
      ScaleOrder(z, x);
      ScaleOrder(r, z);
    }
  }

  lemma StepScale(m: int)
    ensures Scale(Units(m), BOTTOM) == m as real
  {
    ScaleOfShrink(m as real, BOTTOM);
  }

  lemma ScaleOrder(x: real, y: real)
    ensures x <= y <==> Scale(x, BOTTOM) <= Scale(y, BOTTOM)
  {
    ScaleMonotone(x, y, BOTTOM);
    ScaleMonotone(y, x, BOTTOM);
  }

  lemma NearestExists(x: real)
    requires AtMost(x, LIMIT)
    ensures exists r: real :: Nearest(r, x)
  {
    hide Binary64;
    var lo := LargestBelow(x);
    var up := LargestBelow(-x);
    BinaryNegate(up);
    var hi := -up;
    forall z: real | Binary64(z) ensures z <= lo || hi <= z {
      BinaryNegate(z);
    }
    var r := if Distance(lo, x) <= Distance(hi, x) then lo else hi;
    assert Nearest(r, x);
  }

  ghost function NearestTo(x: real): real {
    if AtMost(x, LIMIT) then
      NearestExists(x);
      var r: real :| Nearest(r, x);
      r
    else x
  }

  /** Every environment can be given a rounding of this kind. */
  lemma NearestRoundingExists(env: Env)
    ensures exists round: real -> real :: RoundsToNearest(env.(round := round))
  {
    hide Nearest;
    var round := (x: real) => NearestTo(x);
    forall x: real | AtMost(x, LIMIT) ensures Nearest(round(x), x) {
      NearestExists(x);
    }
    assert RoundsToNearest(env.(round := round));
  }
}
