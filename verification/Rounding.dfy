/** When float64 arithmetic computes the same ords as real arithmetic. Ords are dyadic
    rationals: each interior placement adds one binary digit, each placement at an end
    adds one to the range. As long as both fit into 53 bits, nothing is ever rounded. */
module Rounding {
  import opened Model
  import opened Order
  import opened Sqlite
  import opened Simulation

  function Pow2(d: nat): nat {
    if d == 0 then 1 else 2 * Pow2(d - 1)
  }

  /** 2^53, the number of integers a binary64 significand can hold. */
  const LIMIT: nat := 9007199254740992

  lemma {:induction false} Pow2Sum(a: nat, b: nat)
    ensures Pow2(a + b) == Pow2(a) * Pow2(b)
  {
    if a > 0 {
      Pow2Sum(a - 1, b);
      var x, y := Pow2(a - 1), Pow2(b);
      assert Pow2(a) == 2 * x && Pow2(a + b) == 2 * Pow2(a - 1 + b);
      hide Pow2;
      assert 2 * (x * y) == (2 * x) * y;
    }
  }

  lemma Pow2Values()
    ensures Pow2(5) == 32 && Pow2(10) == 1024 && Pow2(19) == 524288 && Pow2(20) == 1048576
  {
    Pow2Sum(5, 5);
    Pow2Sum(10, 10);
    assert Pow2(20) == 2 * Pow2(19);
  }

  lemma LimitIsPow2()
    ensures Pow2(53) == LIMIT
  {
    Pow2Values();
    Pow2Sum(20, 20);
    Pow2Sum(40, 10);
    assert Pow2(53) == 2 * (2 * (2 * Pow2(50)));
  }

  lemma {:induction false} Pow2Positive(d: nat)
    ensures Pow2(d) >= 1
  {
    if d > 0 { Pow2Positive(d - 1); }
  }

  lemma {:induction false} Pow2Monotone(a: nat, b: nat)
    requires a < b
    ensures 2 * Pow2(a) <= Pow2(b)
    decreases b
  {
    if a < b - 1 {
      Pow2Monotone(a, b - 1);
      Pow2Positive(b - 1);
    }
  }

  ghost predicate Whole(x: real) {
    x.Floor as real == x
  }

  /** `x` times 2^d. */
  function Scale(x: real, d: nat): real {
    if d == 0 then x else 2.0 * Scale(x, d - 1)
  }

  /** `x` is a multiple of 2^-d. */
  ghost predicate OnGrid(x: real, d: nat) {
    Whole(Scale(x, d))
  }

  ghost predicate AtMost(x: real, bound: nat) {
    -(bound as real) <= x <= bound as real
  }

  /** The smallest binary64 step is 2^-1074. */
  const BOTTOM: nat := 1074

  /** An integer of at most 53 bits, scaled down by at most 2^1074: these are exactly the
      binary64 values of magnitude at most 2^53 (section 3.3 of IEEE 754-2019). */
  ghost predicate Binary64(x: real) {
    exists d: nat :: d <= BOTTOM && OnGrid(x, d) && AtMost(Scale(x, d), LIMIT)
  }

  /** Rounding leaves representable results alone. */
  ghost predicate CorrectlyRounded(env: Env) {
    forall x: real :: Binary64(x) ==> env.round(x) == x
  }

  function ExactEnv(env: Env): Env {
    env.(round := (x: real) => x)
  }

  // ----- the grid

  lemma WholeInt(x: real, m: int)
    requires x == m as real
    ensures Whole(x)
  {
  }

  lemma {:induction false} ScaleSum(x: real, y: real, d: nat)
    ensures Scale(x + y, d) == Scale(x, d) + Scale(y, d)
    decreases d
  {
    if d > 0 { ScaleSum(x, y, d - 1); }
  }

  lemma GridSum(x: real, y: real, d: nat)
    requires OnGrid(x, d) && OnGrid(y, d)
    ensures OnGrid(x + y, d)
  {
    ScaleSum(x, y, d);
    WholeInt(Scale(x + y, d), Scale(x, d).Floor + Scale(y, d).Floor);
  }

  lemma {:induction false} ScaleHalf(x: real, d: nat)
    ensures Scale(x / 2.0, d + 1) == Scale(x, d)
    decreases d
  {
    if d > 0 {
      ScaleHalf(x, d - 1);
    } else {
      assert Scale(x / 2.0, 1) == 2.0 * Scale(x / 2.0, 0);
    }
  }

  lemma GridHalf(x: real, d: nat)
    requires OnGrid(x, d)
    ensures OnGrid(x / 2.0, d + 1)
  {
    ScaleHalf(x, d);
  }

  lemma {:induction false} GridFiner(x: real, d: nat, e: nat)
    requires OnGrid(x, d) && d <= e
    ensures OnGrid(x, e)
    decreases e
  {
    if d < e {
      GridFiner(x, d, e - 1);
      WholeInt(Scale(x, e), 2 * Scale(x, e - 1).Floor);
    }
  }

  lemma GridInt(i: int, d: nat)
    ensures OnGrid(i as real, d)
  {
    WholeInt(Scale(i as real, 0), i);
    GridFiner(i as real, 0, d);
  }

  lemma {:induction false} ScaleAtMost(x: real, b: nat, d: nat)
    requires AtMost(x, b)
    ensures AtMost(Scale(x, d), b * Pow2(d))
    decreases d
  {
    if d > 0 {
      ScaleAtMost(x, b, d - 1);
      assert b * Pow2(d) == 2 * (b * Pow2(d - 1));
    }
  }

  lemma SmallExponent(b: nat, d: nat)
    requires b >= 1 && b * Pow2(d) <= LIMIT
    ensures d <= 53
  {
    ProductMonotone(1, b, Pow2(d), Pow2(d));
    LimitIsPow2();
    if d > 53 { Pow2Monotone(53, d); }
  }

  lemma Representable(x: real, d: nat, b: nat)
    requires OnGrid(x, d) && AtMost(x, b) && b * Pow2(d) <= LIMIT
    ensures Binary64(x)
  {
    if b == 0 {
      GridInt(0, 0);
      assert AtMost(Scale(x, 0), LIMIT);
    } else {
      SmallExponent(b, d);
      ScaleAtMost(x, b, d);
    }
  }

  // ----- what placements cost

  /** Numbers of interior and of end placements, and the longest saved tab list. */
  datatype Cost = Cost(interior: nat, ends: nat, tabs: nat) {
    function Range(): nat { ends + tabs }

    function Plus(more: Cost): Cost {
      Cost(interior + more.interior, ends + more.ends, if tabs < more.tabs then more.tabs else tabs)
    }
  }

  function PlaceCost(count: nat, index: Option<int>): Cost {
    var pos := Position(index, count);
    if count == 0 then Cost(0, 0, 0)
    else if pos == 0 || pos == count then Cost(0, 1, 0)
    else Cost(1, 0, 0)
  }

  ghost function OpCost(t: Nodes, op: Op): Cost {
    match Placement(op)
    case None => Cost(0, 0, 0)
    case Some((p, index)) =>
      PlaceCost(|Ordered(t, p)|, index).Plus(Cost(0, 0, if op.SaveSession? then |op.tabs| else 0))
  }

  ghost function CostAfter(env: Env, start: Cost, t: Nodes, minted: nat, ops: seq<Op>, k: nat): Cost
    requires k <= |ops|
    decreases k
  {
    if k == 0 then start
    else
      var st := StoreAfter(env, t, minted, ops, k - 1);
      var cost := CostAfter(env, start, t, minted, ops, k - 1);
      if st.err.Some? then cost else cost.Plus(OpCost(st.rows, ops[k - 1]))
  }

  ghost predicate OrdWithin(x: real, c: Cost) {
    OnGrid(x, c.interior) && AtMost(x, c.Range())
  }

  ghost predicate Within(t: Nodes, c: Cost) {
    forall x :: x in t ==> OrdWithin(t[x].ord, c)
  }

  /** Twice the range, in units of the grid, fits into 53 bits. */
  ghost predicate Fits(c: Cost) {
    2 * c.Range() * Pow2(c.interior) <= LIMIT
  }

  lemma {:induction false} FitsLess(c: Cost, more: Cost)
    requires Fits(c.Plus(more))
    ensures Fits(c)
  {
    var d := c.Plus(more);
    if c.interior < d.interior { Pow2Monotone(c.interior, d.interior); }
    Pow2Positive(c.interior);
    ProductMonotone(2 * c.Range(), 2 * d.Range(), Pow2(c.interior), Pow2(d.interior));
  }

  lemma ProductMonotone(a: nat, b: nat, c: nat, d: nat)
    requires a <= b && c <= d
    ensures a * c <= b * d
  {
    assert a * c <= b * c;
    assert b * c <= b * d;
  }

  lemma OrdWithinMore(x: real, c: Cost, more: Cost)
    requires OrdWithin(x, c)
    ensures OrdWithin(x, c.Plus(more))
  {
    GridFiner(x, c.interior, c.Plus(more).interior);
  }

  // ----- one placement

  lemma EndPlacement(env: Env, x: real, step: int, c: Cost)
    requires CorrectlyRounded(env) && OrdWithin(x, c) && (step == 1 || step == -1)
    ensures OrdWithin(x + step as real, c.Plus(Cost(0, 1, 0)))
    ensures Fits(c.Plus(Cost(0, 1, 0))) ==> env.round(x + step as real) == x + step as real
  {
    var d := c.Plus(Cost(0, 1, 0));
    GridInt(step, c.interior);
    GridSum(x, step as real, c.interior);
    if Fits(d) {
      ProductMonotone(d.Range(), 2 * d.Range(), Pow2(d.interior), Pow2(d.interior));
      Representable(x + step as real, d.interior, d.Range());
    }
  }

  lemma MidPlacement(env: Env, x: real, y: real, c: Cost)
    requires CorrectlyRounded(env) && OrdWithin(x, c) && OrdWithin(y, c)
    ensures OrdWithin((x + y) / 2.0, c.Plus(Cost(1, 0, 0)))
    ensures Fits(c.Plus(Cost(1, 0, 0))) ==> env.round(x + y) == x + y && env.round((x + y) / 2.0) == (x + y) / 2.0
  {
    var d := c.Plus(Cost(1, 0, 0));
    var m := c.Range();
    GridSum(x, y, c.interior);
    GridHalf(x + y, c.interior);
    if Fits(d) {
      FitsLess(c, Cost(1, 0, 0));
      Representable(x + y, c.interior, 2 * m);
      ProductMonotone(m, 2 * m, Pow2(d.interior), Pow2(d.interior));
      Representable((x + y) / 2.0, d.interior, m);
    }
  }

  /** A computed ord stays within the bound; if the bound fits, it is computed exactly. */
  lemma PlacementWithin(env: Env, ords: seq<real>, index: Option<int>, c: Cost)
    requires CorrectlyRounded(env) && forall i :: 0 <= i < |ords| ==> OrdWithin(ords[i], c)
    ensures var after := c.Plus(PlaceCost(|ords|, index));
            && OrdWithin(PlaceOrd(ExactEnv(env), ords, index), after)
            && (Fits(after) ==> PlaceOrd(env, ords, index) == PlaceOrd(ExactEnv(env), ords, index))
  {
    var pos := Position(index, |ords|);
    if |ords| == 0 {
      GridInt(0, c.interior);
    } else if pos == 0 {
      EndPlacement(env, ords[0], -1, c);
    } else if pos == |ords| {
      EndPlacement(env, ords[|ords| - 1], 1, c);
    } else {
      MidPlacement(env, ords[pos - 1], ords[pos], c);
    }
  }

  lemma TabOrdWithin(env: Env, idx: nat, c: Cost)
    requires CorrectlyRounded(env) && idx <= c.tabs
    ensures OrdWithin(idx as real, c)
    ensures Fits(c) ==> env.round(idx as real) == idx as real
  {
    GridInt(idx, c.interior);
    if Fits(c) {
      ProductMonotone(c.Range(), 2 * c.Range(), Pow2(c.interior), Pow2(c.interior));
      Representable(idx as real, c.interior, c.Range());
    }
  }

  // ----- one op

  lemma PlacedOrdWithin(env: Env, t: Nodes, p: NodeId, index: Option<int>, c: Cost)
    requires CorrectlyRounded(env) && Within(t, c)
    ensures var after := c.Plus(PlaceCost(|Ordered(t, p)|, index));
            && OrdWithin(PlaceOrd(ExactEnv(env), OrdsBelow(t, p), index), after)
            && (Fits(after) ==>
                  PlaceOrd(env, OrdsBelow(t, p), index) == PlaceOrd(ExactEnv(env), OrdsBelow(t, p), index))
  {
    var q := Ordered(t, p);
    forall i | 0 <= i < |q| ensures OrdWithin(OrdsBelow(t, p)[i], c) { assert q[i] in q; }
    PlacementWithin(env, OrdsBelow(t, p), index, c);
  }

  lemma WithinMore(t: Nodes, c: Cost, more: Cost)
    requires Within(t, c)
    ensures Within(t, c.Plus(more))
  {
    forall x | x in t ensures OrdWithin(t[x].ord, c.Plus(more)) { OrdWithinMore(t[x].ord, c, more); }
  }

  ghost predicate SameWithin(env: Env, t: Nodes, minted: nat, op: Op, c: Cost) {
    var after := c.Plus(OpCost(t, op));
    && Within(ApplyOp(ExactEnv(env), t, minted, op).rows, after)
    && (Fits(after) ==> ApplyOp(env, t, minted, op) == ApplyOp(ExactEnv(env), t, minted, op))
  }

  lemma {:induction false} TabsWithin(env: Env, st: Applied, folder: NodeId, tabs: seq<Tab>, k: nat, c: Cost)
    requires CorrectlyRounded(env) && Within(st.rows, c) && |tabs| <= c.tabs && k <= |tabs|
    ensures Within(TabsAfter(ExactEnv(env), st, folder, tabs, k).rows, c)
    ensures Fits(c) ==> TabsAfter(env, st, folder, tabs, k) == TabsAfter(ExactEnv(env), st, folder, tabs, k)
    decreases k
  {
    if k > 0 {
      TabsWithin(env, st, folder, tabs, k - 1, c);
      TabOrdWithin(env, k - 1, c);
      hide OrdWithin, Fits, CorrectlyRounded;
    }
  }

  lemma AddWithin(env: Env, t: Nodes, minted: nat, p: NodeId, index: Option<int>,
                  kind: Kind, title: string, url: Option<string>, c: Cost)
    requires CorrectlyRounded(env) && Within(t, c)
    ensures var after := c.Plus(PlaceCost(|Ordered(t, p)|, index));
            && Within(AddRow(ExactEnv(env), t, minted, p, index, kind, title, url).rows, after)
            && (Fits(after) ==>
                  AddRow(env, t, minted, p, index, kind, title, url) ==
                  AddRow(ExactEnv(env), t, minted, p, index, kind, title, url))
  {
    PlacedOrdWithin(env, t, p, index, c);
    WithinMore(t, c, PlaceCost(|Ordered(t, p)|, index));
    hide OrdWithin, PlaceOrd, PlaceCost, Fits, CorrectlyRounded;
  }

  lemma SessionWithin(env: Env, t: Nodes, minted: nat, op: Op, c: Cost)
    requires CorrectlyRounded(env) && Within(t, c) && op.SaveSession?
    ensures SameWithin(env, t, minted, op, c)
  {
    var start := PlaceCost(|Ordered(t, op.parent)|, op.index);
    var mid := c.Plus(start);
    var after := c.Plus(OpCost(t, op));
    var tabsCost := Cost(0, 0, |op.tabs|);
    assert after == mid.Plus(tabsCost);
    AddWithin(env, t, minted, op.parent, op.index, Folder, op.title, None, c);
    var st := AddRow(ExactEnv(env), t, minted, op.parent, op.index, Folder, op.title, None);
    WithinMore(st.rows, mid, tabsCost);
    TabsWithin(env, st, env.newId(minted), op.tabs, |op.tabs|, after);
    if Fits(after) { FitsLess(mid, tabsCost); }
    hide Fits, Within, OpCost, PlaceCost, AddRow, TabsAfter, CorrectlyRounded;
  }

  lemma MovedRowsWithin(t: Nodes, minted: nat, n: NodeId, p: NodeId, ord: real, c: Cost)
    requires Within(t, c) && OrdWithin(ord, c)
    ensures Within(Conclude(t, minted, UpdateRow(t, n, MoveEdit(p, ord))).rows, c)
  {
    hide OrdWithin;
  }

  lemma MoveWithin(env: Env, t: Nodes, minted: nat, op: Op, c: Cost)
    requires CorrectlyRounded(env) && Within(t, c) && op.Move?
    ensures SameWithin(env, t, minted, op, c)
  {
    var n, p, index := op.node, op.newParent, op.index;
    PlacedOrdWithin(env, t, p, index, c);
    WithinMore(t, c, OpCost(t, op));
    NoTabs(PlaceCost(|Ordered(t, p)|, index));
    hide OrdWithin, Within, PlaceOrd, PlaceCost, Fits, CorrectlyRounded, UpdateRow, Conclude;
    MovedRowsWithin(t, minted, n, p, PlaceOrd(ExactEnv(env), OrdsBelow(t, p), index), c.Plus(OpCost(t, op)));
  }

  lemma AddOpWithin(env: Env, t: Nodes, minted: nat, op: Op, c: Cost)
    requires CorrectlyRounded(env) && Within(t, c) && (op.AddFolder? || op.AddBookmark?)
    ensures SameWithin(env, t, minted, op, c)
  {
    var kind := if op.AddFolder? then Folder else Bookmark;
    var url := if op.AddFolder? then None else Some(op.link);
    AddWithin(env, t, minted, op.parent, op.index, kind, op.title, url, c);
    NoTabs(c.Plus(PlaceCost(|Ordered(t, op.parent)|, op.index)));
    hide CorrectlyRounded, AddRow, PlaceCost, Within, Fits;
  }

  lemma NoTabs(c: Cost)
    ensures c.Plus(Cost(0, 0, 0)) == c
  {
  }

  lemma UnplacedWithin(env: Env, t: Nodes, minted: nat, op: Op, c: Cost)
    requires CorrectlyRounded(env) && Within(t, c) && Placement(op).None?
    ensures SameWithin(env, t, minted, op, c)
  {
    hide CorrectlyRounded, OrdWithin, Fits;
    NoTabs(c);
    assert OpCost(t, op) == Cost(0, 0, 0);
    var t' := ApplyOp(ExactEnv(env), t, minted, op).rows;
    forall x | x in t' ensures x in t && t'[x].ord == t[x].ord { }
  }

  lemma OpWithin(env: Env, t: Nodes, minted: nat, op: Op, c: Cost)
    requires CorrectlyRounded(env) && Within(t, c)
    ensures SameWithin(env, t, minted, op, c)
  {
    hide SameWithin, CorrectlyRounded, Within;
    match op
    case AddFolder(_, _, _) => AddOpWithin(env, t, minted, op, c);
    case AddBookmark(_, _, _, _) => AddOpWithin(env, t, minted, op, c);
    case SaveSession(_, _, _, _) => SessionWithin(env, t, minted, op, c);
    case Move(_, _, _) => MoveWithin(env, t, minted, op, c);
    case _ => UnplacedWithin(env, t, minted, op, c);
  }

  // ----- whole batches

  lemma {:induction false} CostGrows(env: Env, start: Cost, t: Nodes, minted: nat, ops: seq<Op>, k: nat)
    requires k < |ops| && Fits(CostAfter(env, start, t, minted, ops, k + 1))
    ensures Fits(CostAfter(env, start, t, minted, ops, k))
  {
    hide StoreAfter, Fits;
    var st, c := StoreAfter(env, t, minted, ops, k), CostAfter(env, start, t, minted, ops, k);
    if st.err.None? { FitsLess(c, OpCost(st.rows, ops[k])); }
  }

  /** Every ord of the exact machine is a multiple of 2^-d of size at most M, where d counts
      the interior placements and M the end placements plus the longest tab list. While
      2 M 2^d is at most 2^53 the float64 machine goes through the very same states. */
  lemma {:induction false} BatchWithin(env: Env, start: Cost, t: Nodes, minted: nat, ops: seq<Op>, k: nat)
    requires CorrectlyRounded(env) && Within(t, start) && k <= |ops|
    ensures var c := CostAfter(ExactEnv(env), start, t, minted, ops, k);
            && Within(StoreAfter(ExactEnv(env), t, minted, ops, k).rows, c)
            && (Fits(c) ==> StoreAfter(env, t, minted, ops, k) == StoreAfter(ExactEnv(env), t, minted, ops, k))
    decreases k
  {
    hide ApplyOp, Fits, Within, CorrectlyRounded, OpCost;
    if k > 0 {
      BatchWithin(env, start, t, minted, ops, k - 1);
      var st := StoreAfter(ExactEnv(env), t, minted, ops, k - 1);
      var c := CostAfter(ExactEnv(env), start, t, minted, ops, k - 1);
      OpWithin(env, st.rows, st.minted, ops[k - 1], c);
      if Fits(CostAfter(ExactEnv(env), start, t, minted, ops, k)) {
        CostGrows(ExactEnv(env), start, t, minted, ops, k - 1);
      }
    }
  }

  // ----- the gap between siblings

  const ORD_EPSILON: real := 0.000001

  lemma {:induction false} ScaleDifference(x: real, y: real, d: nat)
    ensures Scale(y - x, d) == Scale(y, d) - Scale(x, d)
    decreases d
  {
    if d > 0 { ScaleDifference(x, y, d - 1); }
  }

  lemma {:induction false} ScaleBelow(x: real, d: nat)
    ensures x < 0.0 ==> Scale(x, d) < 0.0
    ensures 0.0 < x ==> 0.0 < Scale(x, d)
    decreases d
  {
    if d > 0 { ScaleBelow(x, d - 1); }
  }

  /** Distinct multiples of 2^-d differ by at least 2^-d. */
  lemma GridGap(x: real, y: real, d: nat)
    requires OnGrid(x, d) && OnGrid(y, d) && x < y
    ensures Scale(y - x, d) >= 1.0
  {
    ScaleDifference(x, y, d);
    ScaleBelow(y - x, d);
    assert Scale(x, d).Floor < Scale(y, d).Floor;
  }

  lemma {:induction false} ScaleIsProduct(x: real, d: nat)
    ensures Scale(x, d) == x * Pow2(d) as real
    decreases d
  {
    if d > 0 {
      ScaleIsProduct(x, d - 1);
      var p := Pow2(d - 1) as real;
      assert Pow2(d) as real == 2.0 * p;
      assert x * (2.0 * p) == 2.0 * (x * p);
    }
  }

  /** With at most 19 interior placements, distinct ords are more than the documented
      epsilon apart. */
  lemma GapAboveEpsilon(x: real, y: real, c: Cost)
    requires OrdWithin(x, c) && OrdWithin(y, c) && x < y && c.interior <= 19
    ensures y - x > ORD_EPSILON
  {
    GridFiner(x, c.interior, 19);
    GridFiner(y, c.interior, 19);
    GridGap(x, y, 19);
    ScaleIsProduct(y - x, 19);
    Pow2Values();
  }
}
