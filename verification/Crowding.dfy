/** Where the two limits on crowding lie, on runs a client can cause: three folders are added
    to the root, and then one after another is squeezed in at index 2. */
module Crowding {
  import opened Model
  import opened Chains
  import opened Order
  import opened Validator
  import opened Sqlite
  import opened Simulation
  import opened Refinement
  import opened Rounding
  import opened Float64
  import opened Daemon
  import opened Spacing

  function CrowdIndex(i: nat): Option<int> {
    if i < 3 then None else Some(2)
  }

  function CrowdOp(i: nat): Op {
    AddFolder(ROOT, "", CrowdIndex(i))
  }

  /** `n` requests with one op each. */
  function CrowdRun(n: nat): (run: seq<Message>)
    ensures |run| == n
  {
    seq(n, i requires 0 <= i < n => ApplyOps([Request(CrowdOp(i))]))
  }

  // ----- one request

  /** A request to add a folder to the root at an index its child list allows. */
  lemma AddFolderDone(env: Env, st: State, index: Option<int>)
    requires Safe(env, st) && IndexOk(index, |Ordered(st.rows, ROOT)|)
    ensures var op := AddFolder(ROOT, "", index);
            var st1 := AddRow(env, st.rows, st.minted, ROOT, index, Folder, "", None);
            && Handle(env, st, [Request(op)]) == (State(st1.rows, st1.minted), Done)
            && st1.err.None? && st1.minted == st.minted + 1
            && Extends(st.rows, st1.rows)
            && env.newId(st.minted) !in st.rows
            && PutBelow(env, st.rows, st1.rows, env.newId(st.minted), ROOT, index)
  {
    var op := AddFolder(ROOT, "", index);
    var raws := [Request(op)];
    var t := st.rows;
    RequestDecodes(op);
    assert AllDecode(raws) && Decoded(raws) == [op];
    hide ToCoreOp, Request;
    IndexCounts(t, ROOT, Ordered(t, ROOT));
    assert ShadowAfter(env, t, [op], 1) == ValidateOp(env, t, op) == Pass(t);
    assert {} + t.Keys == t.Keys;
    AddRowGrows(env, {}, t, st.minted, ROOT, index, Folder, "", None);
    assert StoreAfter(env, t, st.minted, [op], 1) == ApplyOp(env, t, st.minted, op);
    hide PlaceOrd, IsTree, ShadowAfter, StoreAfter;
  }

  /** The ords below the root, in order. */
  ghost predicate Stands(env: Env, st: State, ords: seq<real>) {
    Safe(env, st) && Distinct(st.rows) && OrdsBelow(st.rows, ROOT) == ords
  }

  lemma InsertedOrds(t: Nodes, t': Nodes, q: seq<NodeId>, n: NodeId, pos: nat)
    requires pos <= |q| && n in t' && forall x :: x in q ==> x in t && x in t' && t'[x].ord == t[x].ord
    ensures forall x :: x in q[..pos] + [n] + q[pos..] ==> x in t'
    ensures Ords(t', q[..pos] + [n] + q[pos..]) == Ords(t, q)[..pos] + [t'[n].ord] + Ords(t, q)[pos..]
  {
    var q' := q[..pos] + [n] + q[pos..];
    forall k | 0 <= k < |q'| ensures q'[k] == if k < pos then q[k] else if k == pos then n else q[k - 1] { }
    forall x | x in q' ensures x in t' {
      var k :| 0 <= k < |q'| && q'[k] == x;
      if k != pos { assert x in q; }
    }
  }

  lemma InsertedBelow(env: Env, t: Nodes, t': Nodes, n: NodeId, p: NodeId, index: Option<int>)
    requires Distinct(t) && PutBelow(env, t, t', n, p, index) && n !in t && Separable(env, t, p, index)
    ensures var ords, pos := OrdsBelow(t, p), Position(index, |Ordered(t, p)|);
            Distinct(t') && OrdsBelow(t', p) == ords[..pos] + [t'[n].ord] + ords[pos..]
  {
    var q := Ordered(t, p);
    PutOrders(env, t, t', n, p, index);
    hide Distinct, PlaceOrd, Separable, Placed, Ords;
    assert forall x :: x in q ==> x in t && x != n && x in t' && t'[x].ord == t[x].ord;
    PlacedNew(q, n, Position(index, |q|));
    InsertedOrds(t, t', q, n, Position(index, |q|));
  }

  ghost function After(env: Env, st: State, index: Option<int>): State {
    Handle(env, st, [Request(AddFolder(ROOT, "", index))]).0
  }

  /** The new row is placed below the root. */
  ghost predicate Joined(env: Env, st: State, st': State, index: Option<int>) {
    var n := env.newId(st.minted);
    && n !in st.rows && Extends(st.rows, st'.rows) && Safe(env, st')
    && PutBelow(env, st.rows, st'.rows, n, ROOT, index)
  }

  lemma AddFolderJoins(env: Env, st: State, index: Option<int>)
    requires Safe(env, st) && IndexOk(index, |Ordered(st.rows, ROOT)|)
    ensures Joined(env, st, After(env, st, index), index)
  {
    AddFolderDone(env, st, index);
    hide Handle, AddRow, Safe, PutBelow, Request;
    StepKeepsSafe(env, st, ApplyOps([Request(AddFolder(ROOT, "", index))]));
  }

  lemma JoinedStands(env: Env, st: State, st': State, ords: seq<real>, index: Option<int>)
    requires Stands(env, st, ords) && Joined(env, st, st', index)
    requires Splits(ords, Position(index, |ords|), PlaceOrd(env, ords, index))
    ensures var pos := Position(index, |ords|);
            Stands(env, st', ords[..pos] + [PlaceOrd(env, ords, index)] + ords[pos..])
  {
    hide Safe, PlaceOrd, Splits, Distinct, Separates, SameElsewhere, Extends, Position;
    SplitsSeparates(st.rows, ROOT, Position(index, |ords|), PlaceOrd(env, ords, index));
    InsertedBelow(env, st.rows, st'.rows, env.newId(st.minted), ROOT, index);
  }

  lemma JoinedInHalf(env: Env, st: State, st': State, index: Option<int>)
    requires Joined(env, st, st', index) && InHalf(st.rows)
    requires InHalfRange(PlaceOrd(env, OrdsBelow(st.rows, ROOT), index))
    ensures InHalf(st'.rows)
  {
    hide InHalfRange, PlaceOrd, Safe, Ords;
  }

  /** One more folder, at an ord that splits those already there. */
  lemma StandsStep(env: Env, st: State, ords: seq<real>, index: Option<int>, v: real)
    requires Stands(env, st, ords) && IndexOk(index, |ords|)
    requires v == PlaceOrd(env, ords, index) && Splits(ords, Position(index, |ords|), v)
    ensures var pos := Position(index, |ords|);
            Stands(env, After(env, st, index), ords[..pos] + [v] + ords[pos..])
    ensures InHalf(st.rows) && InHalfRange(v) ==> InHalf(After(env, st, index).rows)
    ensures Exact(env) && AllApart(st.rows, ORD_EPSILON) ==>
              (AllApart(After(env, st, index).rows, ORD_EPSILON) <==> Spacious(ords, index, ORD_EPSILON))
  {
    var st' := After(env, st, index);
    AddFolderJoins(env, st, index);
    JoinedStands(env, st, st', ords, index);
    hide After, Safe, InHalfRange, InHalf, PlaceOrd, Splits, Exact, AllApart, Spacious, PutBelow, Distinct, Position;
    if InHalf(st.rows) && InHalfRange(v) { JoinedInHalf(env, st, st', index); }
    if Exact(env) && AllApart(st.rows, ORD_EPSILON) {
      PlacementGapIff(env, st.rows, st'.rows, env.newId(st.minted), ROOT, index, ORD_EPSILON);
    }
  }

  // ----- the ords of the crowd

  /** 1 + 2^-k. */
  function Narrow(k: nat): real {
    1.0 + Shrink(1.0, k)
  }

  /** 0, 1, and then from 1 + 2^-k up to 2. */
  function CrowdOrds(k: nat): seq<real> {
    [0.0, 1.0] + seq(k + 1, i requires 0 <= i < k + 1 => Narrow(k - i))
  }

  lemma {:induction false} ShrinkPositive(k: nat)
    ensures 0.0 < Shrink(1.0, k) <= 1.0
  {
    if k > 0 { ShrinkPositive(k - 1); }
  }

  lemma {:induction false} NarrowGrows(j: nat, k: nat)
    requires j < k
    ensures Narrow(k) < Narrow(j)
    decreases k
  {
    ShrinkPositive(k - 1);
    if j < k - 1 { NarrowGrows(j, k - 1); }
  }

  lemma NarrowScale(k: nat)
    ensures Scale(Narrow(k), k) == (Pow2(k) + 1) as real
  {
    ScaleSum(1.0, Shrink(1.0, k), k);
    ScaleOfShrink(1.0, k);
    ScaleIsProduct(1.0, k);
  }

  /** These are binary64 numbers up to 1 + 2^-52. */
  lemma NarrowBinary(k: nat)
    requires k <= 52
    ensures InHalfRange(Narrow(k))
  {
    NarrowScale(k);
    ShrinkPositive(k);
    LimitIsPow2();
    Pow2Monotone(k, 53);
    Pow2Positive(k);
    hide Scale, Shrink, Pow2;
    WholeInt(Scale(Narrow(k), k), Pow2(k) + 1);
    assert GridFit(Narrow(k), k);
    FitIsBinary(Narrow(k), k);
  }

  ghost predicate Rounds(env: Env, k: nat) {
    CorrectlyRounded(env) && (Exact(env) || k <= 52)
  }

  lemma NarrowSum(env: Env, k: nat)
    requires Rounds(env, k + 1)
    ensures env.round(1.0 + Narrow(k)) == 1.0 + Narrow(k)
    ensures env.round((1.0 + Narrow(k)) / 2.0) == Narrow(k + 1)
  {
    if CorrectlyRounded(env) && k + 1 <= 52 {
      NarrowBinary(k + 1);
      hide Binary64;
      DoubleIsBinary(Narrow(k + 1));
      assert 2.0 * Narrow(k + 1) == 1.0 + Narrow(k);
    }
  }

  lemma CrowdPlaced(env: Env, k: nat)
    requires Rounds(env, k + 1)
    ensures PlaceOrd(env, CrowdOrds(k), Some(2)) == Narrow(k + 1)
  {
    NarrowSum(env, k);
    hide Rounds, Narrow;
  }

  lemma CrowdSplits(k: nat)
    ensures Splits(CrowdOrds(k), 2, Narrow(k + 1))
  {
    ShrinkPositive(k + 1);
    var ords := CrowdOrds(k);
    forall i | 2 <= i < |ords| ensures Narrow(k + 1) < ords[i] {
      NarrowGrows(k - (i - 2), k + 1);
    }
  }

  lemma CrowdInsert(k: nat)
    ensures CrowdOrds(k)[..2] + [Narrow(k + 1)] + CrowdOrds(k)[2..] == CrowdOrds(k + 1)
  {
    hide Narrow;
  }

  // ----- the runs

  lemma CrowdStep(env: Env, n: nat, i: nat)
    requires i < n
    ensures RunAfter(env, CrowdRun(n), i + 1) == After(env, RunAfter(env, CrowdRun(n), i), CrowdIndex(i))
  {
    assert CrowdRun(n)[i] == ApplyOps([Request(CrowdOp(i))]);
    hide Handle, Request, CrowdRun;
  }

  /** The first folders go to the end. */
  function FirstOrds(i: nat): seq<real>
    requires i <= 3
  {
    [0.0, 1.0, 2.0][..i]
  }

  lemma EndPlaced(env: Env, i: nat)
    requires CorrectlyRounded(env) && i < 3
    ensures PlaceOrd(env, FirstOrds(i), None) == i as real && Splits(FirstOrds(i), i, i as real)
    ensures InHalfRange(i as real) && FirstOrds(i) + [i as real] == FirstOrds(i + 1)
    ensures Spacious(FirstOrds(i), None, ORD_EPSILON)
  {
    IntIsBinary(i);
    IntIsBinary(1);
    hide Binary64;
  }

  ghost predicate Begun(env: Env, st: State, i: nat) {
    && i <= 3 && Stands(env, st, FirstOrds(i)) && InHalf(st.rows)
    && (Exact(env) ==> AllApart(st.rows, ORD_EPSILON))
  }

  lemma BegunStep(env: Env, st: State, i: nat)
    requires CorrectlyRounded(env) && i < 3 && Begun(env, st, i)
    ensures Begun(env, After(env, st, None), i + 1)
  {
    EndPlaced(env, i);
    var ords := FirstOrds(i);
    assert |ords| == i;
    hide FirstOrds, After, Stands, InHalf, InHalfRange, Exact, CorrectlyRounded, AllApart, Spacious, Splits, PlaceOrd;
    StandsStep(env, st, ords, None, i as real);
    assert ords[..i] + [i as real] + ords[i..] == ords + [i as real];
  }

  lemma {:induction false} FirstFolders(env: Env, n: nat, i: nat)
    requires CorrectlyRounded(env) && GoodIds(env) && i <= 3 && i <= n
    ensures Begun(env, RunAfter(env, CrowdRun(n), i), i)
    decreases i
  {
    hide Begun, After, CorrectlyRounded, CrowdRun, InitState, Step;
    if i == 0 {
      InitCrowd(env);
    } else {
      FirstFolders(env, n, i - 1);
      CrowdStep(env, n, i - 1);
      BegunStep(env, RunAfter(env, CrowdRun(n), i - 1), i - 1);
    }
  }

  lemma InitCrowd(env: Env)
    requires GoodIds(env)
    ensures Begun(env, InitState(), 0)
  {
    InitSafe(env);
    IntIsBinary(0);
    hide Safe, Binary64;
    var t := InitState().rows;
    NoListBelow(t, ROOT);
    assert OrdsBelow(t, ROOT) == [];
  }

  lemma CrowdSpacious(k: nat)
    ensures Spacious(CrowdOrds(k), Some(2), ORD_EPSILON) <==> k <= 18
  {
    ShrinkValues();
    if k < 18 { NarrowGrows(k, 18); }
    if k > 19 { NarrowGrows(19, k); }
    hide Shrink;
  }

  lemma ShrinkTimes(k: nat)
    ensures Shrink(1.0, k) * Pow2(k) as real == 1.0
  {
    ScaleOfShrink(1.0, k);
    ScaleIsProduct(Shrink(1.0, k), k);
  }

  lemma ShrinkValues()
    ensures Shrink(1.0, 18) > 2.0 * ORD_EPSILON > Shrink(1.0, 19) && Shrink(1.0, 19) > ORD_EPSILON > Shrink(1.0, 20)
  {
    ShrinkTimes(19);
    Pow2Values();
    assert Shrink(1.0, 19) * 524288.0 == 1.0;
    assert Shrink(1.0, 18) == 2.0 * Shrink(1.0, 19) && Shrink(1.0, 20) == Shrink(1.0, 19) / 2.0;
  }

  ghost predicate Crowd(env: Env, st: State, k: nat) {
    && Stands(env, st, CrowdOrds(k)) && (k <= 52 ==> InHalf(st.rows))
    && (Exact(env) && k <= 19 ==> AllApart(st.rows, ORD_EPSILON))
  }

  lemma CrowdGrows(env: Env, st: State, k: nat)
    requires Rounds(env, k + 1) && Crowd(env, st, k)
    ensures Crowd(env, After(env, st, Some(2)), k + 1)
  {
    hide CrowdOrds, After, Stands, InHalf, InHalfRange, Exact, CorrectlyRounded;
    hide AllApart, Spacious, Splits, PlaceOrd, Narrow;
    CrowdPlaced(env, k);
    CrowdSplits(k);
    CrowdInsert(k);
    CrowdSpacious(k);
    CrowdLength(k);
    if k + 1 <= 52 { NarrowBinary(k + 1); }
    hide Rounds;
    StandsStep(env, st, CrowdOrds(k), Some(2), Narrow(k + 1));
  }

  lemma {:induction false} CrowdHolds(env: Env, n: nat, k: nat)
    requires Rounds(env, k) && GoodIds(env) && 3 + k <= n
    ensures Crowd(env, RunAfter(env, CrowdRun(n), 3 + k), k)
    decreases k
  {
    hide Crowd, After, RunAfter, Exact, CorrectlyRounded, CrowdRun;
    if k == 0 {
      FirstFolders(env, n, 3);
      BegunIsCrowd(env, RunAfter(env, CrowdRun(n), 3));
    } else {
      CrowdHolds(env, n, k - 1);
      CrowdStep(env, n, 3 + (k - 1));
      CrowdGrows(env, RunAfter(env, CrowdRun(n), 3 + (k - 1)), k - 1);
    }
  }

  lemma BegunIsCrowd(env: Env, st: State)
    requires Begun(env, st, 3)
    ensures Crowd(env, st, 0)
  {
    assert Narrow(0) == 2.0;
    assert FirstOrds(3) == CrowdOrds(0);
    hide CrowdOrds, FirstOrds, Stands, InHalf, Exact, AllApart;
  }

  lemma CrowdLength(k: nat)
    ensures |CrowdOrds(k)| == 3 + k
  {
  }

  // ----- the gap

  lemma TooClose(env: Env, st: State, k: nat)
    requires Stands(env, st, CrowdOrds(k)) && k >= 20
    ensures !AllApart(st.rows, ORD_EPSILON)
  {
    var t, q := st.rows, Ordered(st.rows, ROOT);
    ShrinkValues();
    if k > 20 { NarrowGrows(20, k); }
    ShrinkPositive(k);
    hide Safe, Shrink, Distinct;
    CrowdLength(k);
    assert OrdsBelow(t, ROOT)[1] == 1.0 && OrdsBelow(t, ROOT)[2] == Narrow(k);
    assert q[1] in q && q[2] in q && q[1] in Siblings(t, ROOT) && q[2] in Siblings(t, ROOT);
    assert q[1] != q[2];
    assert !Away(t[q[1]].ord, t[q[2]].ord, ORD_EPSILON);
  }

  /** Even in exact arithmetic the documented gap is lost at the twentieth squeeze, and not
      before. */
  lemma TwentiethTooClose(env: Env, n: nat, k: nat)
    requires Exact(env) && GoodIds(env) && 3 + k <= n
    ensures AllApart(RunAfter(env, CrowdRun(n), 3 + k).rows, ORD_EPSILON) <==> k <= 19
  {
    CrowdHolds(env, n, k);
    hide AllApart, Stands, Exact, CorrectlyRounded, RunAfter, CrowdRun, CrowdOrds;
    if k >= 20 { TooClose(env, RunAfter(env, CrowdRun(n), 3 + k), k); }
  }

  // ----- the collision

  /** Between 1 and 1 + 2^-52 there is no binary64 number. */
  lemma NothingBetween(z: real)
    requires Binary64(z)
    ensures !(1.0 < z < Narrow(52))
  {
    if 1.0 < z < Narrow(52) {
      var d: nat :| d <= BOTTOM && OnGrid(z, d) && AtMost(Scale(z, d), LIMIT);
      if d <= 52 { CoarseGrid(z, d); } else { FineGrid(z, d); }
    }
  }

  lemma CoarseGrid(z: real, d: nat)
    requires OnGrid(z, d) && d <= 52 && 1.0 < z
    ensures Narrow(52) <= z
  {
    GridFiner(z, d, 52);
    GridInt(1, 52);
    GridGap(1.0, z, 52);
    ScaleOfShrink(1.0, 52);
    ScaleMonotone(z - 1.0, Shrink(1.0, 52), 52);
  }

  lemma FineGrid(z: real, d: nat)
    requires d >= 53 && 1.0 < z
    ensures !AtMost(Scale(z, d), LIMIT)
  {
    ScaleMonotone(1.0, z, d);
    ScaleIsProduct(1.0, d);
    LimitIsPow2();
    if d > 53 { Pow2Monotone(53, d); }
  }

  lemma NoRoomLeft()
    ensures !Room(CrowdOrds(52), Some(2))
  {
    hide Binary64;
    if c: real :| Binary64(c) && 1.0 < c < Narrow(52) { NothingBetween(c); }
  }

  lemma CrowdCollides(env: Env, st: State)
    requires RoundsToNearest(env) && Crowd(env, st, 52)
    ensures !Distinct(After(env, st, Some(2)).rows)
  {
    CrowdLength(52);
    NoRoomLeft();
    hide CrowdOrds, Safe, After, RoundsToNearest, InHalf, Room, Distinct, PutBelow, AllApart, Exact;
    AddFolderJoins(env, st, Some(2));
    NewNodeCollides(env, st.rows, After(env, st, Some(2)).rows, env.newId(st.minted), ROOT, Some(2));
  }

  lemma AddOnlyExtends(env: Env, st: State, index: Option<int>)
    ensures Extends(st.rows, After(env, st, index).rows)
  {
    var op := AddFolder(ROOT, "", index);
    RequestDecodes(op);
    assert Decoded([Request(op)]) == [op];
    hide ToCoreOp, Request, ValidateOp;
    assert StoreAfter(env, st.rows, st.minted, [op], 1) == ApplyOp(env, st.rows, st.minted, op);
    hide StoreAfter, ShadowAfter, PlaceOrd;
  }

  lemma {:induction false} CrowdExtends(env: Env, n: nat, j: nat, k: nat)
    requires j <= k <= n
    ensures Extends(RunAfter(env, CrowdRun(n), j).rows, RunAfter(env, CrowdRun(n), k).rows)
    decreases k
  {
    hide RunAfter, CrowdRun, After;
    if j < k {
      CrowdExtends(env, n, j, k - 1);
      CrowdStep(env, n, k - 1);
      AddOnlyExtends(env, RunAfter(env, CrowdRun(n), k - 1), CrowdIndex(k - 1));
    }
  }

  lemma CollisionStays(t: Nodes, t': Nodes)
    requires Extends(t, t') && Distinct(t')
    ensures Distinct(t)
  {
    forall x, y | x in t && y in t && x != y && t[x].parent.Some? && t[x].parent == t[y].parent
      ensures t[x].ord != t[y].ord
    {
      assert t'[x] == t[x] && t'[y] == t[y];
    }
  }

  lemma CollidesOnce(env: Env, n: nat, k: nat)
    requires RoundsToNearest(env) && CorrectlyRounded(env) && GoodIds(env) && 53 <= k && 3 + k <= n
    ensures !Distinct(RunAfter(env, CrowdRun(n), 3 + k).rows)
  {
    hide RoundsToNearest, CorrectlyRounded, RunAfter, CrowdRun, After, Distinct, Crowd, Extends;
    CrowdHolds(env, n, 52);
    CrowdStep(env, n, 55);
    CrowdCollides(env, RunAfter(env, CrowdRun(n), 55));
    CrowdExtends(env, n, 56, 3 + k);
    if Distinct(RunAfter(env, CrowdRun(n), 3 + k).rows) {
      CollisionStays(RunAfter(env, CrowdRun(n), 56).rows, RunAfter(env, CrowdRun(n), 3 + k).rows);
    }
  }

  /** In float64 the fifty-third squeeze gives two siblings the same ord, and none before
      does. */
  lemma FiftyThirdCollides(env: Env, n: nat, k: nat)
    requires RoundsToNearest(env) && GoodIds(env) && 3 + k <= n
    ensures Distinct(RunAfter(env, CrowdRun(n), 3 + k).rows) <==> k <= 52
  {
    NearestIsCorrect(env);
    hide RoundsToNearest, CorrectlyRounded, RunAfter, CrowdRun, Distinct, InHalf, CrowdOrds, Exact;
    if k <= 52 {
      CrowdHolds(env, n, k);
    } else {
      CollidesOnce(env, n, k);
    }
  }

  // ----- such runs exist

  lemma DistinctIdsExist(env: Env)
    ensures exists ids: nat -> NodeId :: GoodIds(env.(newId := ids))
  {
    var ids := (i: nat) => seq(i + 5, _ => 'x');
    forall i: nat, j: nat | ids(i) == ids(j) ensures i == j { assert |ids(i)| == i + 5 && |ids(j)| == j + 5; }
    assert GoodIds(env.(newId := ids));
  }

  /** The assumptions on ids and on rounding are consistent, in both arithmetics. */
  lemma WorldsExist(env: Env)
    ensures exists float: Env :: GoodIds(float) && RoundsToNearest(float)
    ensures exists exact: Env :: GoodIds(exact) && Exact(exact)
  {
    DistinctIdsExist(env);
    var ids: nat -> NodeId :| GoodIds(env.(newId := ids));
    var world := env.(newId := ids);
    NearestRoundingExists(world);
    var round: real -> real :| RoundsToNearest(world.(round := round));
    hide RoundsToNearest;
    assert GoodIds(world.(round := round)) && GoodIds(ExactEnv(world)) && Exact(ExactEnv(world));
  }
}
