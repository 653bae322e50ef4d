/** Exactly when a placement keeps siblings apart, decided on the table before the call: by a
    given gap in exact arithmetic, and at all in float64. From one statement to whole ops,
    batches and runs. */
module Spacing {
  import opened Model
  import opened Chains
  import opened Order
  import opened Validator
  import opened Sqlite
  import opened Simulation
  import opened Refinement
  import opened Rounding
  import opened Float64
  import opened Daemon

  // ----- one placement

  /** Only the distances of the placed node are new. */
  lemma PutApart(t: Nodes, t': Nodes, n: NodeId, p: NodeId, gap: real)
    requires AllApart(t, gap) && n in t' && t'[n].parent == Some(p) && SameElsewhere(t, t', n)
    ensures AllApart(t', gap) <==>
            forall k :: 0 <= k < |Ordered(t, p)| && Ordered(t, p)[k] != n ==>
              Away(OrdsBelow(t, p)[k], t'[n].ord, gap)
  {
    hide Away;
    AwaySymmetric(gap);
    var q := Ordered(t, p);
    if AllApart(t', gap) {
      forall k | 0 <= k < |q| && q[k] != n ensures Away(OrdsBelow(t, p)[k], t'[n].ord, gap) {
        assert q[k] in q && q[k] in t';
      }
    }
    if forall k :: 0 <= k < |q| && q[k] != n ==> Away(OrdsBelow(t, p)[k], t'[n].ord, gap) {
      forall x | x in t' && x != n && t'[x].parent == Some(p) ensures Away(t'[x].ord, t'[n].ord, gap) {
        assert x in Siblings(t, p) && x in q;
        var k :| 0 <= k < |q| && q[k] == x;
      }
    }
  }

  lemma AwaySymmetric(gap: real)
    ensures forall x: real, y: real :: Away(x, y, gap) <==> Away(y, x, gap)
  {
  }

  /** Interior neighbours are more than twice `gap` apart. */
  ghost predicate Spacious(ords: seq<real>, index: Option<int>, gap: real) {
    var pos := Position(index, |ords|);
    0 < pos < |ords| ==> ords[pos] - ords[pos - 1] > 2.0 * gap
  }

  ghost predicate Spread(ords: seq<real>, gap: real) {
    forall i, j :: 0 <= i < j < |ords| ==> ords[j] - ords[i] > gap
  }

  lemma SiblingsSpread(t: Nodes, p: NodeId, gap: real)
    requires gap >= 0.0 && AllApart(t, gap)
    ensures Spread(OrdsBelow(t, p), gap)
  {
    var q := Ordered(t, p);
    forall i, j | 0 <= i < j < |q| ensures OrdsBelow(t, p)[j] - OrdsBelow(t, p)[i] > gap {
      assert q[i] in q && q[j] in q;
      assert Away(t[q[i]].ord, t[q[j]].ord, gap);
    }
  }

  /** Leaving out the ord at `own`, should the node come from this very list, changes nothing:
      one of the two neighbours is always another node. */
  lemma PlaceOrdAwayIff(env: Env, ords: seq<real>, index: Option<int>, gap: real, own: int)
    requires Exact(env) && 0.0 <= gap < 1.0 && Spread(ords, gap)
    ensures (forall k :: 0 <= k < |ords| && k != own ==> Away(ords[k], PlaceOrd(env, ords, index), gap))
            <==> Spacious(ords, index, gap)
  {
    var pos, v := Position(index, |ords|), PlaceOrd(env, ords, index);
    if 0 < pos < |ords| {
      var other := if pos == own then pos - 1 else pos;
      assert v == (ords[pos - 1] + ords[pos]) / 2.0;
      assert Away(ords[other], v, gap) <==> ords[pos] - ords[pos - 1] > 2.0 * gap;
    }
  }

  ghost function IndexOf(q: seq<NodeId>, n: NodeId): int {
    if n in q then
      var k :| 0 <= k < |q| && q[k] == n;
      k
    else -1
  }

  /** The exact condition for a gap, in exact arithmetic: all siblings are more than `gap` apart
      after a placement if and only if the neighbours were more than twice that. */
  lemma PlacementGapIff(env: Env, t: Nodes, t': Nodes, n: NodeId, p: NodeId, index: Option<int>, gap: real)
    requires Exact(env) && 0.0 <= gap < 1.0 && AllApart(t, gap) && PutBelow(env, t, t', n, p, index)
    ensures AllApart(t', gap) <==> Spacious(OrdsBelow(t, p), index, gap)
  {
    var q := Ordered(t, p);
    SiblingsSpread(t, p, gap);
    PutApart(t, t', n, p, gap);
    hide Exact, Spread, Away, AllApart, Spacious;
    var own := IndexOf(q, n);
    assert forall k :: 0 <= k < |q| ==> (q[k] != n <==> k != own);
    PlaceOrdAwayIff(env, OrdsBelow(t, p), index, gap, own);
  }

  /** The node is moved within its own folder and gets the ord it already had. */
  ghost predicate StaysPut(env: Env, t: Nodes, n: NodeId, p: NodeId, index: Option<int>) {
    n in Ordered(t, p) && t[n].ord == PlaceOrd(env, OrdsBelow(t, p), index)
  }

  ghost predicate InHalf(t: Nodes) {
    forall x :: x in t ==> InHalfRange(t[x].ord)
  }

  lemma SplitsSeparates(t: Nodes, p: NodeId, pos: nat, v: real)
    requires Distinct(t) && pos <= |Ordered(t, p)|
    ensures Splits(OrdsBelow(t, p), pos, v) <==> Separates(t, Ordered(t, p), pos, v)
  {
    ListedIsStrict(t, p, Ordered(t, p));
    hide Distinct;
    var q, ords := Ordered(t, p), OrdsBelow(t, p);
    assert forall k :: 0 <= k < |ords| ==> ords[k] == t[q[k]].ord && t[q[k]].ord == ords[k];
  }

  lemma SharedOrdCollides(t: Nodes, t': Nodes, n: NodeId, p: NodeId, i: nat)
    requires n in t' && t'[n].parent == Some(p) && SameElsewhere(t, t', n)
    requires i < |Ordered(t, p)| && Ordered(t, p)[i] != n && OrdsBelow(t, p)[i] == t'[n].ord
    ensures !Distinct(t')
  {
    var x := Ordered(t, p)[i];
    assert x in Ordered(t, p) && x in Siblings(t, p);
    assert t'[x].ord == t'[n].ord && t'[x].parent == t'[n].parent;
  }

  lemma OrdsInHalf(t: Nodes, p: NodeId)
    requires Distinct(t) && InHalf(t)
    ensures Increasing(OrdsBelow(t, p)) && forall i :: 0 <= i < |OrdsBelow(t, p)| ==> InHalfRange(OrdsBelow(t, p)[i])
  {
    hide InHalfRange;
    var q := Ordered(t, p);
    ListedIsStrict(t, p, q);
    forall i | 0 <= i < |q| ensures InHalfRange(OrdsBelow(t, p)[i]) { assert q[i] in q; }
  }

  /** In float64 the ord chosen below `p` separates its neighbours if and only if there is a
      number left between them; otherwise it is the ord of a neighbour. */
  lemma SeparableIff(env: Env, t: Nodes, p: NodeId, index: Option<int>)
    requires RoundsToNearest(env) && Distinct(t) && InHalf(t)
    ensures Separable(env, t, p, index) <==> Room(OrdsBelow(t, p), index)
    ensures !Room(OrdsBelow(t, p), index) ==>
              exists i: nat :: NeighbourOrd(t, p, index, i, PlaceOrd(env, OrdsBelow(t, p), index))
  {
    hide RoundsToNearest, InHalf, InHalfRange, Increasing, Room, PlaceOrd, Splits, Separates, Distinct;
    hide NoDup, Ascending, ListsChildren, Siblings;
    var ords, pos := OrdsBelow(t, p), Position(index, |Ordered(t, p)|);
    var v := PlaceOrd(env, ords, index);
    OrdsInHalf(t, p);
    PlaceOrdSplitsIff(env, ords, index);
    SplitsSeparates(t, p, pos, v);
    if !Room(ords, index) {
      assert NeighbourOrd(t, p, index, if v == ords[pos - 1] then pos - 1 else pos, v);
    }
  }

  ghost predicate NeighbourOrd(t: Nodes, p: NodeId, index: Option<int>, i: nat, v: real) {
    var q := Ordered(t, p);
    var pos := Position(index, |q|);
    0 < pos < |q| && (i == pos - 1 || i == pos) && OrdsBelow(t, p)[i] == v
  }

  lemma StayingIsDistinct(env: Env, t: Nodes, t': Nodes, n: NodeId, p: NodeId, index: Option<int>)
    requires Distinct(t) && PutBelow(env, t, t', n, p, index) && StaysPut(env, t, n, p, index)
    ensures Distinct(t')
  {
    assert n in Siblings(t, p);
    hide PlaceOrd, Ords;
    assert forall x :: x in t' ==> x in t && t'[x].ord == t[x].ord && t'[x].parent == t[x].parent;
  }

  lemma NeighbourCollides(env: Env, t: Nodes, t': Nodes, n: NodeId, p: NodeId, index: Option<int>, i: nat)
    requires PutBelow(env, t, t', n, p, index) && NeighbourOrd(t, p, index, i, t'[n].ord)
    requires !StaysPut(env, t, n, p, index)
    ensures !Distinct(t')
  {
    var q := Ordered(t, p);
    assert q[i] in q;
    hide PlaceOrd, Distinct, Position, SameElsewhere;
    SharedOrdCollides(t, t', n, p, i);
  }

  /** The exact condition for float64: ords stay distinct after a placement if and only if
      there was a number left between the neighbours, or nothing changes; and in the first
      case the node stands where it was asked to. */
  lemma PlacementDistinctIff(env: Env, t: Nodes, t': Nodes, n: NodeId, p: NodeId, index: Option<int>)
    requires RoundsToNearest(env) && Distinct(t) && InHalf(t) && PutBelow(env, t, t', n, p, index)
    ensures Distinct(t') <==> Room(OrdsBelow(t, p), index) || StaysPut(env, t, n, p, index)
    ensures Room(OrdsBelow(t, p), index) ==>
              && Ordered(t', p) == Placed(Ordered(t, p), n, Position(index, |Ordered(t, p)|))
              && forall p' :: p' != p ==> Ordered(t', p') == Without(Ordered(t, p'), n)
  {
    hide RoundsToNearest, InHalf, Room, PlaceOrd, Separable, Distinct, Placed, SameElsewhere, StaysPut, NeighbourOrd;
    SeparableIff(env, t, p, index);
    if Room(OrdsBelow(t, p), index) {
      PutOrders(env, t, t', n, p, index);
    } else if StaysPut(env, t, n, p, index) {
      StayingIsDistinct(env, t, t', n, p, index);
    } else {
      var i: nat :| NeighbourOrd(t, p, index, i, t'[n].ord);
      NeighbourCollides(env, t, t', n, p, index, i);
    }
  }

  lemma NewNodeCollides(env: Env, t: Nodes, t': Nodes, n: NodeId, p: NodeId, index: Option<int>)
    requires RoundsToNearest(env) && Distinct(t) && InHalf(t) && PutBelow(env, t, t', n, p, index)
    requires n !in t && !Room(OrdsBelow(t, p), index)
    ensures !Distinct(t')
  {
    assert !StaysPut(env, t, n, p, index);
    hide RoundsToNearest, InHalf, Room, PutBelow, Distinct, StaysPut, PlaceOrd, Ords;
    PlacementDistinctIff(env, t, t', n, p, index);
  }

  // ----- one op

  function PlacedNode(env: Env, minted: nat, op: Op): NodeId {
    if op.Move? then op.node else env.newId(minted)
  }

  /** The table right after the placement, before any tabs. */
  ghost function Midway(env: Env, t: Nodes, minted: nat, op: Op): Nodes {
    if op.SaveSession? then AddRow(env, t, minted, op.parent, op.index, Folder, op.title, None).rows
    else ApplyOp(env, t, minted, op).rows
  }

  lemma OpPuts(env: Env, t: Nodes, minted: nat, op: Op)
    requires GoodStart(env, t, minted) && Applicable(env, t, op) && Placement(op).Some?
    ensures var (p, index) := Placement(op).value;
            PutBelow(env, t, Midway(env, t, minted, op), PlacedNode(env, minted, op), p, index)
  {
    hide IsTree, PlaceOrd;
    assert env.newId(minted) !in t;
  }

  lemma SessionFolderStart(env: Env, t: Nodes, minted: nat, op: Op)
    requires GoodStart(env, t, minted) && Applicable(env, t, op) && op.SaveSession?
    ensures var n, t1 := env.newId(minted), Midway(env, t, minted, op);
            && GoodStart(env, t1, minted + 1) && IsFolder(t1, n) && Childless(t1, n)
            && AddRow(env, t, minted, op.parent, op.index, Folder, op.title, None) == Applied(t1, minted + 1, None)
  {
    assert {} + t.Keys == t.Keys;
    AddRowGrows(env, {}, t, minted, op.parent, op.index, Folder, op.title, None);
    assert {} + Midway(env, t, minted, op).Keys == Midway(env, t, minted, op).Keys;
    NobodyBelow(t, env.newId(minted));
    hide IsTree, PlaceOrd;
  }

  /** The tabs of a session do not matter: they get whole numbers below a new folder. */
  lemma TabsKeepGap(env: Env, t: Nodes, minted: nat, op: Op, gap: real)
    requires GoodStart(env, t, minted) && Applicable(env, t, op) && 0.0 <= gap < 1.0
    requires op.SaveSession? ==> WholeTabs(env, op.tabs)
    ensures AllApart(ApplyOp(env, t, minted, op).rows, gap) <==> AllApart(Midway(env, t, minted, op), gap)
  {
    if op.SaveSession? {
      var n, t1 := env.newId(minted), Midway(env, t, minted, op);
      SessionFolderStart(env, t, minted, op);
      TabsShape(env, t1, minted + 1, n, op.tabs, |op.tabs|);
      hide AllApart, Childless, TabRows, WholeTabs, AddRow, TabsAfter, IsTree;
      TabsApart(env, t1, ApplyOp(env, t, minted, op).rows, minted + 1, n, op.tabs, gap);
    }
  }

  lemma UnplacedKeepsGap(env: Env, t: Nodes, minted: nat, op: Op, gap: real)
    requires AllApart(t, gap) && Placement(op).None?
    ensures AllApart(ApplyOp(env, t, minted, op).rows, gap)
  {
    var t' := ApplyOp(env, t, minted, op).rows;
    hide Away, Under;
    assert forall x :: x in t' ==> x in t && t'[x].ord == t[x].ord && t'[x].parent == t[x].parent;
    hide ApplyOp;
  }

  ghost predicate OpSpacious(t: Nodes, op: Op, gap: real) {
    match Placement(op)
    case None => true
    case Some((p, index)) => Spacious(OrdsBelow(t, p), index, gap)
  }

  ghost predicate OpRoom(t: Nodes, op: Op) {
    match Placement(op)
    case None => true
    case Some((p, index)) => Room(OrdsBelow(t, p), index)
  }

  ghost predicate OpStaysPut(env: Env, t: Nodes, op: Op) {
    op.Move? && StaysPut(env, t, op.node, op.newParent, op.index)
  }

  /** In exact arithmetic an op keeps a gap exactly if it finds twice that gap. */
  lemma OpGapIff(env: Env, t: Nodes, minted: nat, op: Op, gap: real)
    requires Exact(env) && GoodStart(env, t, minted) && Applicable(env, t, op)
    requires 0.0 <= gap < 1.0 && AllApart(t, gap)
    ensures AllApart(ApplyOp(env, t, minted, op).rows, gap) <==> OpSpacious(t, op, gap)
  {
    hide GoodStart, Applicable, AllApart, ApplyOp, Spacious, Midway, PutBelow;
    if Placement(op).None? {
      UnplacedKeepsGap(env, t, minted, op, gap);
    } else {
      var (p, index) := Placement(op).value;
      OpPuts(env, t, minted, op);
      TabsKeepGap(env, t, minted, op, gap);
      PlacementGapIff(env, t, Midway(env, t, minted, op), PlacedNode(env, minted, op), p, index, gap);
    }
  }

  ghost predicate BatchApart(env: Env, t: Nodes, minted: nat, ops: seq<Op>, k: nat, gap: real)
    requires k <= |ops|
  {
    forall j: nat :: j <= k ==> AllApart(StoreAfter(env, t, minted, ops, j).rows, gap)
  }

  ghost predicate BatchSpacious(env: Env, t: Nodes, minted: nat, ops: seq<Op>, k: nat, gap: real)
    requires k <= |ops|
  {
    forall j: nat :: j < k ==> OpSpacious(StoreAfter(env, t, minted, ops, j).rows, ops[j], gap)
  }

  lemma BatchStarts(env: Env, t: Nodes, minted: nat, ops: seq<Op>, gap: real)
    requires AllApart(t, gap)
    ensures BatchApart(env, t, minted, ops, 0, gap) && BatchSpacious(env, t, minted, ops, 0, gap)
  {
    hide AllApart;
  }

  lemma OneBefore(env: Env, t: Nodes, minted: nat, ops: seq<Op>, k: nat)
    requires 0 < k <= |ops|
    requires ShadowAfter(env, t, ops, k).Pass? && StoreAfter(env, t, minted, ops, k).err.None?
    ensures ShadowAfter(env, t, ops, k - 1).Pass? && StoreAfter(env, t, minted, ops, k - 1).err.None?
  {
    hide ApplyOp, ValidateOp;
  }

  lemma BatchSplit(env: Env, t: Nodes, minted: nat, ops: seq<Op>, k: nat, gap: real)
    requires k < |ops|
    ensures BatchApart(env, t, minted, ops, k + 1, gap) <==>
            BatchApart(env, t, minted, ops, k, gap) && AllApart(StoreAfter(env, t, minted, ops, k + 1).rows, gap)
    ensures BatchSpacious(env, t, minted, ops, k + 1, gap) <==>
            BatchSpacious(env, t, minted, ops, k, gap) &&
            OpSpacious(StoreAfter(env, t, minted, ops, k).rows, ops[k], gap)
    ensures BatchApart(env, t, minted, ops, k, gap) ==> AllApart(StoreAfter(env, t, minted, ops, k).rows, gap)
  {
    hide StoreAfter, AllApart, OpSpacious;
  }

  /** All tables of a batch keep the gap if and only if every placement finds twice the gap. */
  lemma {:induction false} BatchGapIff(env: Env, t: Nodes, minted: nat, ops: seq<Op>, k: nat, gap: real)
    requires Exact(env) && GoodStart(env, t, minted) && 0.0 <= gap < 1.0 && AllApart(t, gap) && k <= |ops|
    requires ShadowAfter(env, t, ops, k).Pass? && StoreAfter(env, t, minted, ops, k).err.None?
    ensures BatchApart(env, t, minted, ops, k, gap) <==> BatchSpacious(env, t, minted, ops, k, gap)
    decreases k
  {
    hide AllApart, OpSpacious, Exact, GoodStart, StoreAfter, ShadowAfter, BatchApart, BatchSpacious;
    if k == 0 {
      BatchStarts(env, t, minted, ops, gap);
    } else {
      BatchSplit(env, t, minted, ops, k - 1, gap);
      OneBefore(env, t, minted, ops, k);
      BatchGapIff(env, t, minted, ops, k - 1, gap);
      if BatchApart(env, t, minted, ops, k - 1, gap) { OpInBatchGapIff(env, t, minted, ops, k - 1, gap); }
    }
  }

  lemma OpInBatchGapIff(env: Env, t: Nodes, minted: nat, ops: seq<Op>, k: nat, gap: real)
    requires Exact(env) && GoodStart(env, t, minted) && 0.0 <= gap < 1.0 && k < |ops|
    requires ShadowAfter(env, t, ops, k + 1).Pass? && StoreAfter(env, t, minted, ops, k + 1).err.None?
    requires AllApart(StoreAfter(env, t, minted, ops, k).rows, gap)
    ensures AllApart(StoreAfter(env, t, minted, ops, k + 1).rows, gap) <==>
            OpSpacious(StoreAfter(env, t, minted, ops, k).rows, ops[k], gap)
  {
    hide ApplyOp, ValidateOp, AllApart, OpSpacious, Exact, Applicable;
    BatchSimulation(env, t, minted, ops, k);
    var s, st := ShadowAfter(env, t, ops, k).state, StoreAfter(env, t, minted, ops, k);
    AcceptedIsApplicable(env, t.Keys, s, st, ops[k]);
    FreshRows(env, t.Keys, s, st);
    OpGapIff(env, st.rows, st.minted, ops[k], gap);
  }

  lemma FreshRows(env: Env, orig: set<NodeId>, s: Nodes, st: Applied)
    requires GoodIds(env) && Simulates(env, orig, s, st)
    ensures GoodStart(env, st.rows, st.minted)
  {
    hide IsTree, Anc, Acyclic;
  }

  /** New ids stand nowhere yet. */
  lemma OnlyMovesStay(env: Env, t: Nodes, minted: nat, op: Op)
    requires GoodStart(env, t, minted) && Placement(op).Some?
    ensures var (p, index) := Placement(op).value;
            StaysPut(env, t, PlacedNode(env, minted, op), p, index) <==> OpStaysPut(env, t, op)
  {
    hide IsTree, PlaceOrd, OrdsBelow;
    if !op.Move? {
      var q := Ordered(t, op.parent);
      assert env.newId(minted) !in q;
    }
  }

  lemma WholeTabsNearest(env: Env, tabs: seq<Tab>)
    requires RoundsToNearest(env) && |tabs| <= LIMIT
    ensures WholeTabs(env, tabs)
  {
    forall i: nat | i < |tabs| ensures TabOrd(env, i) == i as real {
      IntIsBinary(i);
      RoundExact(env, i as real);
    }
  }

  /** In float64 an op keeps ords distinct exactly if it finds room or moves nothing. */
  lemma OpDistinctIff(env: Env, t: Nodes, minted: nat, op: Op)
    requires RoundsToNearest(env) && GoodStart(env, t, minted) && Applicable(env, t, op)
    requires Distinct(t) && InHalf(t) && (op.SaveSession? ==> |op.tabs| <= LIMIT)
    ensures Distinct(ApplyOp(env, t, minted, op).rows) <==> OpRoom(t, op) || OpStaysPut(env, t, op)
  {
    hide GoodStart, Applicable, AllApart, Distinct, ApplyOp, Room, Midway, PutBelow, RoundsToNearest, StaysPut, InHalf;
    var t', mid := ApplyOp(env, t, minted, op).rows, Midway(env, t, minted, op);
    ApartIsDistinct(t, 0.0);
    ApartIsDistinct(t', 0.0);
    ApartIsDistinct(mid, 0.0);
    if Placement(op).None? {
      UnplacedKeepsGap(env, t, minted, op, 0.0);
    } else {
      var (p, index) := Placement(op).value;
      OpPuts(env, t, minted, op);
      if op.SaveSession? { WholeTabsNearest(env, op.tabs); }
      TabsKeepGap(env, t, minted, op, 0.0);
      PlacementDistinctIff(env, t, mid, PlacedNode(env, minted, op), p, index);
      OnlyMovesStay(env, t, minted, op);
    }
  }

  // ----- ords stay small

  ghost predicate HeldOrd(x: real, m: nat) {
    Binary64(x) && AtMost(x, m)
  }

  ghost predicate Held(t: Nodes, m: nat) {
    forall x :: x in t ==> HeldOrd(t[x].ord, m)
  }

  lemma HeldInHalf(t: Nodes, m: nat)
    requires Held(t, m) && m <= HALF
    ensures InHalf(t)
  {
    hide Binary64;
  }

  lemma HeldInt(i: int, m: nat)
    requires AtMost(i as real, m) && m <= LIMIT
    ensures HeldOrd(i as real, m)
  {
    IntIsBinary(i);
  }

  lemma RoundHeld(env: Env, y: real, m: nat)
    requires RoundsToNearest(env) && AtMost(y, m) && m <= LIMIT
    ensures HeldOrd(env.round(y), m)
  {
    hide Binary64, RoundsToNearest;
    var b: int := m;
    HeldInt(b, m);
    HeldInt(-b, m);
    RoundBetween(env, y, (-b) as real, b as real);
  }

  lemma EndHeld(env: Env, x: real, step: real, m: nat)
    requires RoundsToNearest(env) && HeldOrd(x, m) && m < HALF && -1.0 <= step <= 1.0
    ensures HeldOrd(env.round(x + step), m + 1)
  {
    assert AtMost(x + step, m + 1);
    hide HeldOrd, RoundsToNearest;
    RoundHeld(env, x + step, m + 1);
  }

  lemma PlaceOrdHeld(env: Env, ords: seq<real>, index: Option<int>, m: nat)
    requires RoundsToNearest(env) && m + PlaceCost(|ords|, index).ends <= HALF
    requires forall i :: 0 <= i < |ords| ==> HeldOrd(ords[i], m)
    requires forall i, j :: 0 <= i < j < |ords| ==> ords[i] <= ords[j]
    ensures HeldOrd(PlaceOrd(env, ords, index), m + PlaceCost(|ords|, index).ends)
  {
    hide RoundsToNearest, Binary64;
    var pos := Position(index, |ords|);
    if |ords| == 0 {
      HeldInt(0, m);
    } else if pos == 0 {
      EndHeld(env, ords[0], -1.0, m);
    } else if pos == |ords| {
      EndHeld(env, ords[|ords| - 1], 1.0, m);
    } else {
      MidpointBetween(env, ords[pos - 1], ords[pos]);
      assert PlaceOrd(env, ords, index) == Midpoint(env, ords[pos - 1], ords[pos]);
    }
  }

  /** Where the ords of a table come from: the table before, the placement, the tabs. */
  ghost predicate OrdFrom(env: Env, t: Nodes, op: Op, v: real) {
    || (exists x :: x in t && t[x].ord == v)
    || (Placement(op).Some? && v == PlaceOrd(env, OrdsBelow(t, Placement(op).value.0), Placement(op).value.1))
    || (op.SaveSession? && exists i: nat :: i < |op.tabs| && v == TabOrd(env, i))
  }

  ghost predicate OrdsFrom(env: Env, t: Nodes, op: Op, t': Nodes) {
    forall x :: x in t' ==> OrdFrom(env, t, op, t'[x].ord)
  }

  lemma InsertedOrds(env: Env, t: Nodes, op: Op, rows: Nodes, minted: nat, id: NodeId, row: Node)
    requires OrdsFrom(env, t, op, rows) && OrdFrom(env, t, op, row.ord)
    ensures OrdsFrom(env, t, op, Conclude(rows, minted, InsertRow(rows, id, row)).rows)
  {
    hide OrdFrom;
  }

  lemma {:induction false} TabOrds(env: Env, t: Nodes, op: Op, st: Applied, folder: NodeId, k: nat)
    requires op.SaveSession? && k <= |op.tabs| && OrdsFrom(env, t, op, st.rows)
    ensures OrdsFrom(env, t, op, TabsAfter(env, st, folder, op.tabs, k).rows)
    decreases k
  {
    hide OrdsFrom;
    if k > 0 {
      TabOrds(env, t, op, st, folder, k - 1);
      var at := TabsAfter(env, st, folder, op.tabs, k - 1);
      assert OrdFrom(env, t, op, TabOrd(env, k - 1));
      hide OrdFrom, InsertRow, Conclude, TabOrd;
      InsertedOrds(env, t, op, at.rows, at.minted + 1, env.newId(at.minted),
                   TabRow(env, folder, op.tabs[k - 1], k - 1));
    }
  }

  lemma AddedOrds(env: Env, t: Nodes, minted: nat, op: Op, kind: Kind, title: string, url: Option<string>)
    requires op.AddFolder? || op.AddBookmark? || op.SaveSession?
    ensures OrdsFrom(env, t, op, AddRow(env, t, minted, op.parent, op.index, kind, title, url).rows)
  {
    var v := PlaceOrd(env, OrdsBelow(t, op.parent), op.index);
    assert OrdFrom(env, t, op, v);
    assert OrdsFrom(env, t, op, t);
    hide OrdFrom, OrdsFrom, InsertRow, Conclude, PlaceOrd, OrdsBelow;
    InsertedOrds(env, t, op, t, minted + 1, env.newId(minted), Node(kind, title, url, Some(op.parent), v));
  }

  lemma EditedOrds(env: Env, t: Nodes, minted: nat, op: Op)
    requires op.Rename? || op.Move? || op.UpdateBookmark? || op.Delete?
    ensures OrdsFrom(env, t, op, ApplyOp(env, t, minted, op).rows)
  {
    hide PlaceOrd, OrdsBelow, Under;
  }

  lemma OrdsComeFrom(env: Env, t: Nodes, minted: nat, op: Op)
    ensures OrdsFrom(env, t, op, ApplyOp(env, t, minted, op).rows)
  {
    hide OrdsFrom, AddRow, DeleteRow, UpdateRow;
    match op
    case AddFolder(_, title, _) => AddedOrds(env, t, minted, op, Folder, title, None);
    case AddBookmark(_, title, link, _) => AddedOrds(env, t, minted, op, Bookmark, title, Some(link));
    case SaveSession(_, title, tabs, _) =>
      AddedOrds(env, t, minted, op, Folder, title, None);
      var st := AddRow(env, t, minted, op.parent, op.index, Folder, title, None);
      TabOrds(env, t, op, st, env.newId(minted), |tabs|);
    case _ => EditedOrds(env, t, minted, op);
  }

  lemma HeldMore(x: real, m: nat, m': nat)
    requires HeldOrd(x, m) && m <= m'
    ensures HeldOrd(x, m')
  {
    hide Binary64;
  }

  lemma OpPlacesHeld(env: Env, t: Nodes, p: NodeId, index: Option<int>, m: nat)
    requires RoundsToNearest(env) && Held(t, m) && m + PlaceCost(|Ordered(t, p)|, index).ends <= HALF
    ensures HeldOrd(PlaceOrd(env, OrdsBelow(t, p), index), m + PlaceCost(|Ordered(t, p)|, index).ends)
  {
    hide RoundsToNearest, HeldOrd, PlaceOrd, PlaceCost;
    var q := Ordered(t, p);
    forall i | 0 <= i < |q| ensures HeldOrd(OrdsBelow(t, p)[i], m) { assert q[i] in q; }
    PlaceOrdHeld(env, OrdsBelow(t, p), index, m);
  }

  lemma RangeOfOp(c: Cost, t: Nodes, op: Op)
    ensures var after := c.Plus(OpCost(t, op)).Range();
            && c.Range() <= after
            && (Placement(op).Some? ==>
                  c.Range() + PlaceCost(|Ordered(t, Placement(op).value.0)|, Placement(op).value.1).ends <= after)
            && (op.SaveSession? ==> |op.tabs| <= after)
  {
  }

  lemma OpHeld(env: Env, t: Nodes, minted: nat, op: Op, c: Cost)
    requires RoundsToNearest(env) && Held(t, c.Range()) && c.Plus(OpCost(t, op)).Range() <= HALF
    ensures Held(ApplyOp(env, t, minted, op).rows, c.Plus(OpCost(t, op)).Range())
  {
    var t', after := ApplyOp(env, t, minted, op).rows, c.Plus(OpCost(t, op)).Range();
    RangeOfOp(c, t, op);
    OrdsComeFrom(env, t, minted, op);
    hide RoundsToNearest, HeldOrd, PlaceOrd, PlaceCost, OpCost, ApplyOp, OrdsBelow;
    if Placement(op).Some? {
      var (p, index) := Placement(op).value;
      var m := c.Range() + PlaceCost(|Ordered(t, p)|, index).ends;
      OpPlacesHeld(env, t, p, index, c.Range());
      HeldMore(PlaceOrd(env, OrdsBelow(t, p), index), m, after);
    }
    if op.SaveSession? { WholeTabsNearest(env, op.tabs); }
    forall x | x in t' ensures HeldOrd(t'[x].ord, after) {
      assert OrdFrom(env, t, op, t'[x].ord);
      if y :| y in t && t[y].ord == t'[x].ord {
        HeldMore(t[y].ord, c.Range(), after);
      } else if op.SaveSession? && exists i: nat :: i < |op.tabs| && t'[x].ord == TabOrd(env, i) {
        var i: nat :| i < |op.tabs| && t'[x].ord == TabOrd(env, i);
        HeldInt(i, after);
      }
    }
  }

  lemma {:induction false} RangeGrows(env: Env, start: Cost, t: Nodes, minted: nat, ops: seq<Op>, j: nat, k: nat)
    requires j <= k <= |ops|
    ensures CostAfter(env, start, t, minted, ops, j).Range() <= CostAfter(env, start, t, minted, ops, k).Range()
    decreases k
  {
    hide StoreAfter, OpCost;
    if j < k { RangeGrows(env, start, t, minted, ops, j, k - 1); }
  }

  lemma {:induction false} BatchHeld(env: Env, start: Cost, t: Nodes, minted: nat, ops: seq<Op>, k: nat)
    requires RoundsToNearest(env) && Held(t, start.Range()) && k <= |ops|
    requires CostAfter(env, start, t, minted, ops, k).Range() <= HALF
    ensures Held(StoreAfter(env, t, minted, ops, k).rows, CostAfter(env, start, t, minted, ops, k).Range())
    decreases k
  {
    hide RoundsToNearest, Held, ApplyOp, OpCost;
    if k > 0 {
      RangeGrows(env, start, t, minted, ops, k - 1, k);
      BatchHeld(env, start, t, minted, ops, k - 1);
      var st := StoreAfter(env, t, minted, ops, k - 1);
      if st.err.None? {
        OpHeld(env, st.rows, st.minted, ops[k - 1], CostAfter(env, start, t, minted, ops, k - 1));
      }
    }
  }

  lemma StepHeld(env: Env, start: Cost, st: State, msg: Message)
    requires RoundsToNearest(env) && Held(st.rows, start.Range()) && StepCost(env, start, st, msg).Range() <= HALF
    ensures Held(Step(env, st, msg).rows, StepCost(env, start, st, msg).Range())
  {
    hide RoundsToNearest, Held, CostAfter, StoreAfter, ShadowAfter;
    if msg.ApplyOps? {
      FailureChangesNothing(env, st, msg.raws);
      if Handle(env, st, msg.raws).1 == Done {
        BatchHeld(env, start, st.rows, st.minted, Decoded(msg.raws), |msg.raws|);
      }
    }
  }

  lemma StepRangeGrows(env: Env, start: Cost, st: State, msg: Message)
    ensures start.Range() <= StepCost(env, start, st, msg).Range()
  {
    if msg.ApplyOps? && Handle(env, st, msg.raws).1 == Done {
      hide StoreAfter, ShadowAfter;
      RangeGrows(env, start, st.rows, st.minted, Decoded(msg.raws), 0, |msg.raws|);
    }
  }

  lemma {:induction false} RunRangeGrows(env: Env, run: seq<Message>, j: nat, k: nat)
    requires j <= k <= |run|
    ensures RunCost(env, run, j).Range() <= RunCost(env, run, k).Range()
    decreases k
  {
    hide StepCost, RunAfter;
    if j < k {
      RunRangeGrows(env, run, j, k - 1);
      StepRangeGrows(env, RunCost(env, run, k - 1), RunAfter(env, run, k - 1), run[k - 1]);
    }
  }

  lemma InitHeld()
    ensures Held(InitState().rows, 0)
  {
    HeldInt(0, 0);
    hide HeldOrd;
  }

  /** Every ord of a run is a binary64 number no greater than the number of placements at an
      end plus the longest tab list. */
  lemma {:induction false} RunHeld(env: Env, run: seq<Message>, k: nat)
    requires RoundsToNearest(env) && k <= |run| && RunCost(env, run, k).Range() <= HALF
    ensures Held(RunAfter(env, run, k).rows, RunCost(env, run, k).Range())
    decreases k
  {
    hide RoundsToNearest, Held, Step, StepCost, InitState;
    if k == 0 {
      InitHeld();
    } else {
      RunRangeGrows(env, run, k - 1, k);
      RunHeld(env, run, k - 1);
      StepHeld(env, RunCost(env, run, k - 1), RunAfter(env, run, k - 1), run[k - 1]);
    }
  }

  // ----- float64 runs

  /** Wherever the request meets distinct ords, the op finds room. */
  ghost predicate RoomAt(t: Nodes, op: Op) {
    Distinct(t) ==> OpRoom(t, op)
  }

  ghost predicate StepRoom(env: Env, st: State, msg: Message) {
    msg.ApplyOps? && Handle(env, st, msg.raws).1 == Done ==>
      forall j: nat :: j < |msg.raws| ==>
        RoomAt(StoreAfter(env, st.rows, st.minted, Decoded(msg.raws), j).rows, Decoded(msg.raws)[j])
  }

  ghost predicate RunRoom(env: Env, run: seq<Message>, k: nat)
    requires k <= |run|
  {
    forall i: nat :: i < k ==> StepRoom(env, RunAfter(env, run, i), run[i])
  }

  lemma ServedIffRoom(env: Env, t: Nodes, op: Op)
    requires RoundsToNearest(env) && InHalf(t) && (op.SaveSession? ==> |op.tabs| <= LIMIT)
    ensures ServedAt(env, t, op) <==> RoomAt(t, op)
  {
    hide RoundsToNearest, InHalf, Room, Separable, Distinct, PlaceOrd;
    if Distinct(t) {
      if Placement(op).Some? { SeparableIff(env, t, Placement(op).value.0, Placement(op).value.1); }
      if op.SaveSession? { WholeTabsNearest(env, op.tabs); }
    }
  }

  lemma CostOfNext(env: Env, start: Cost, t: Nodes, minted: nat, ops: seq<Op>, j: nat)
    requires j < |ops| && StoreAfter(env, t, minted, ops, j).err.None?
    ensures CostAfter(env, start, t, minted, ops, j + 1) ==
            CostAfter(env, start, t, minted, ops, j).Plus(OpCost(StoreAfter(env, t, minted, ops, j).rows, ops[j]))
  {
    hide StoreAfter, OpCost;
  }

  lemma BatchMeets(env: Env, start: Cost, t: Nodes, minted: nat, ops: seq<Op>, j: nat)
    requires RoundsToNearest(env) && Held(t, start.Range()) && j < |ops|
    requires CostAfter(env, start, t, minted, ops, |ops|).Range() <= HALF
    requires StoreAfter(env, t, minted, ops, |ops|).err.None?
    ensures var rows := StoreAfter(env, t, minted, ops, j).rows;
            InHalf(rows) && (ServedAt(env, rows, ops[j]) <==> RoomAt(rows, ops[j]))
  {
    hide RoundsToNearest, Held, ServedAt, RoomAt, InHalf, StoreAfter, CostAfter, OpCost;
    var st, c := StoreAfter(env, t, minted, ops, j), CostAfter(env, start, t, minted, ops, j);
    if st.err.Some? { StoreErrorStays(env, t, minted, ops, j, |ops|); }
    CostOfNext(env, start, t, minted, ops, j);
    RangeGrows(env, start, t, minted, ops, j, |ops|);
    RangeGrows(env, start, t, minted, ops, j + 1, |ops|);
    BatchHeld(env, start, t, minted, ops, j);
    HeldInHalf(st.rows, c.Range());
    RangeOfOp(c, st.rows, ops[j]);
    ServedIffRoom(env, st.rows, ops[j]);
  }

  lemma StepServedIffRoom(env: Env, start: Cost, st: State, msg: Message)
    requires RoundsToNearest(env) && Held(st.rows, start.Range()) && StepCost(env, start, st, msg).Range() <= HALF
    ensures StepServed(env, st, msg) <==> StepRoom(env, st, msg)
  {
    if msg.ApplyOps? && Handle(env, st, msg.raws).1 == Done {
      var ops := Decoded(msg.raws);
      assert StoreAfter(env, st.rows, st.minted, ops, |ops|).err.None?;
      hide RoundsToNearest, Held, StoreAfter, CostAfter, ShadowAfter, ServedAt, RoomAt;
      forall j: nat | j < |ops|
        ensures ServedAt(env, StoreAfter(env, st.rows, st.minted, ops, j).rows, ops[j]) <==>
                RoomAt(StoreAfter(env, st.rows, st.minted, ops, j).rows, ops[j])
      {
        BatchMeets(env, start, st.rows, st.minted, ops, j);
      }
    }
  }

  /** Of a whole run of the float64 daemon: the arithmetic serves every placement if and only
      if every interior placement found a number between its neighbours. */
  lemma RunServedIffRoom(env: Env, run: seq<Message>, k: nat)
    requires RoundsToNearest(env) && k <= |run| && RunCost(env, run, k).Range() <= HALF
    ensures RunServed(env, run, k) <==> RunRoom(env, run, k)
  {
    hide RoundsToNearest, Held, StepServed, StepRoom, StepCost, RunAfter;
    forall i: nat | i < k
      ensures StepServed(env, RunAfter(env, run, i), run[i]) <==> StepRoom(env, RunAfter(env, run, i), run[i])
    {
      RunRangeGrows(env, run, i, k);
      RunRangeGrows(env, run, i + 1, k);
      RunHeld(env, run, i);
      StepServedIffRoom(env, RunCost(env, run, i), RunAfter(env, run, i), run[i]);
    }
  }

  /** So while there is room, the float64 daemon keeps all sibling ords distinct and shows
      every client the result of the plain operations, however many placements were made. */
  lemma RoomKeepsMeaning(env: Env, run: seq<Message>, k: nat, tree: Tree)
    requires RoundsToNearest(env) && GoodIds(env) && k < |run| && run[k].ApplyOps?
    requires RunCost(env, run, k + 1).Range() <= HALF && RunRoom(env, run, k + 1)
    ensures Ordinary(env, RunAfter(env, run, k + 1))
    ensures ShowsPlainResult(env, RunAfter(env, run, k), run[k].raws, tree)
  {
    hide RoundsToNearest, RunServed, RunRoom, RunAfter, RunCost, Ordinary, ShowsPlainResult;
    RunServedIffRoom(env, run, k + 1);
    RunKeepsOrder(env, run, k + 1);
    ReplyShowsPlainResult(env, run, k, tree);
  }
}
