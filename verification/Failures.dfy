/** Exactly when an accepted batch fails in the store, and why no accepted index is ever
    clamped. */
module Failures {
  import opened Model
  import opened Chains
  import opened Order
  import opened Validator
  import opened Sqlite
  import opened Simulation

  /** The next op fails if and only if it names an id that is no longer in the table. */
  lemma NextOpFails(env: Env, t: Nodes, minted: nat, ops: seq<Op>, k: nat)
    requires GoodStart(env, t, minted) && k < |ops| && Accepted(env, t, ops)
    requires StoreAfter(env, t, minted, ops, k).err.None?
    ensures ShadowAfter(env, t, ops, k).Pass?
    ensures StoreAfter(env, t, minted, ops, k + 1).err.Some? <==>
            exists x :: x in Names(ops[k]) && x !in StoreAfter(env, t, minted, ops, k).rows
    ensures StoreAfter(env, t, minted, ops, k + 1).err.Some? <==>
            exists x :: x in Names(ops[k]) && !Anc(ShadowAfter(env, t, ops, k).state, ROOT, x)
  {
    hide ApplyOp, ValidateOp;
    AcceptedPrefix(env, t, ops, k, |ops|);
    AcceptedPrefix(env, t, ops, k + 1, |ops|);
    BatchSimulation(env, t, minted, ops, k);
    var s, st := ShadowAfter(env, t, ops, k).state, StoreAfter(env, t, minted, ops, k);
    OpFailsExactly(env, t.Keys, s, st, ops[k]);
    NamedIdsKnown(env, t.Keys, s, st, ops[k]);
  }

  lemma {:induction false} FirstFailure(env: Env, t: Nodes, minted: nat, ops: seq<Op>, k: nat) returns (j: nat)
    requires k <= |ops| && StoreAfter(env, t, minted, ops, k).err.Some?
    ensures j < k && StoreAfter(env, t, minted, ops, j).err.None? && StoreAfter(env, t, minted, ops, j + 1).err.Some?
    decreases k
  {
    hide ApplyOp, ValidateOp;
    if StoreAfter(env, t, minted, ops, k - 1).err.None? {
      j := k - 1;
    } else {
      j := FirstFailure(env, t, minted, ops, k - 1);
    }
  }

  /** Some op names a node that the shadow still has but that is cut off from the root. This
      depends on the tree and the ops only, not on the store. */
  ghost predicate NamesOrphan(env: Env, t: Nodes, ops: seq<Op>) {
    exists k: nat, x :: NamesOrphanAt(env, t, ops, k, x)
  }

  ghost predicate NamesOrphanAt(env: Env, t: Nodes, ops: seq<Op>, k: nat, x: NodeId) {
    && k < |ops| && x in Names(ops[k])
    && ShadowAfter(env, t, ops, k).Pass? && !Anc(ShadowAfter(env, t, ops, k).state, ROOT, x)
  }

  /** The exact failure condition of an accepted batch, decided before the store is called. */
  lemma FailsExactlyOnOrphans(env: Env, t: Nodes, minted: nat, ops: seq<Op>)
    requires GoodStart(env, t, minted) && Accepted(env, t, ops)
    ensures ApplyBatch(env, t, minted, ops).err.Some? <==> NamesOrphan(env, t, ops)
    ensures ApplyBatch(env, t, minted, ops).err.Some? ==> ApplyBatch(env, t, minted, ops).rows == t
  {
    hide ApplyOp, ValidateOp;
    if StoreAfter(env, t, minted, ops, |ops|).err.Some? {
      var j := FirstFailure(env, t, minted, ops, |ops|);
      NextOpFails(env, t, minted, ops, j);
      var x :| x in Names(ops[j]) && !Anc(ShadowAfter(env, t, ops, j).state, ROOT, x);
      assert NamesOrphanAt(env, t, ops, j, x);
    }
    if NamesOrphan(env, t, ops) {
      var k: nat, x :| NamesOrphanAt(env, t, ops, k, x);
      if StoreAfter(env, t, minted, ops, k).err.None? {
        NextOpFails(env, t, minted, ops, k);
        StoreErrorStays(env, t, minted, ops, k + 1, |ops|);
      } else {
        StoreErrorStays(env, t, minted, ops, k, |ops|);
      }
    }
  }

  /** Op `j` deleted `x` by cascade: `x` lay strictly below the deleted node. */
  ghost predicate CascadedAt(env: Env, t: Nodes, minted: nat, ops: seq<Op>, j: nat, x: NodeId) {
    && j < |ops| && ops[j].Delete? && x != ops[j].node
    && x in Under(StoreAfter(env, t, minted, ops, j).rows, ops[j].node)
  }

  lemma StepLoses(env: Env, orig: set<NodeId>, s: Nodes, st: Applied, op: Op, x: NodeId)
    requires Completes(env, orig, s, st, op) && x in orig
    ensures x in ApplyOp(env, st.rows, st.minted, op).rows <==>
            x in st.rows && !(op.Delete? && x in Under(st.rows, op.node))
  {
    if op.AddFolder? || op.AddBookmark? || op.SaveSession? {
      hide ApplyOp, ValidateOp;
      AddStep(env, orig, s, st, op);
    }
  }

  /** A shadow id is missing from the table if and only if an earlier delete of this batch
      took it along. */
  lemma {:induction false} MissingMeansCascaded(env: Env, t: Nodes, minted: nat, ops: seq<Op>, k: nat, x: NodeId)
    requires GoodStart(env, t, minted) && k <= |ops|
    requires ShadowAfter(env, t, ops, k).Pass? && x in ShadowAfter(env, t, ops, k).state
    requires StoreAfter(env, t, minted, ops, k).err.None?
    ensures x !in StoreAfter(env, t, minted, ops, k).rows <==>
            exists j: nat :: j < k && CascadedAt(env, t, minted, ops, j, x)
    decreases k
  {
    hide ApplyOp, ValidateOp;
    TreeIsAcyclic(t);
    ShadowKeeps(env, t, ops, k);
    if k > 0 {
      var s, st := ShadowAfter(env, t, ops, k - 1).state, StoreAfter(env, t, minted, ops, k - 1);
      ValidateOpKeepsKeys(env, s, ops[k - 1], x);
      MissingMeansCascaded(env, t, minted, ops, k - 1, x);
      BatchSimulation(env, t, minted, ops, k - 1);
      StepLoses(env, t.Keys, s, st, ops[k - 1], x);
      if x !in StoreAfter(env, t, minted, ops, k).rows && x in st.rows {
        assert CascadedAt(env, t, minted, ops, k - 1, x);
      }
      if j: nat :| j < k && CascadedAt(env, t, minted, ops, j, x) {
        if j == k - 1 { assert ops[k - 1].Delete?; }
      }
    }
  }

  lemma ValidateOpKeepsKeys(env: Env, s: Nodes, op: Op, x: NodeId)
    requires ValidateOp(env, s, op).Pass? && x in ValidateOp(env, s, op).state
    ensures x in s && !(op.Delete? && op.node == x)
  {
  }

  /** The same condition told as a story: some op that is reached names an id that an
      earlier delete removed by cascade. */
  lemma FailsExactlyAfterCascade(env: Env, t: Nodes, minted: nat, ops: seq<Op>)
    requires GoodStart(env, t, minted) && Accepted(env, t, ops)
    ensures ApplyBatch(env, t, minted, ops).err.Some? <==>
            exists k: nat, j: nat, x :: j < k < |ops| && StoreAfter(env, t, minted, ops, k).err.None? &&
                              x in Names(ops[k]) && CascadedAt(env, t, minted, ops, j, x)
  {
    hide ApplyOp, ValidateOp;
    if StoreAfter(env, t, minted, ops, |ops|).err.Some? {
      var k := FirstFailure(env, t, minted, ops, |ops|);
      NextOpFails(env, t, minted, ops, k);
      var x :| x in Names(ops[k]) && x !in StoreAfter(env, t, minted, ops, k).rows;
      NamedInShadow(env, t, minted, ops, k, x);
      MissingMeansCascaded(env, t, minted, ops, k, x);
    }
    if k: nat, j: nat, x :| (
      j < k < |ops| && StoreAfter(env, t, minted, ops, k).err.None? &&
      x in Names(ops[k]) && CascadedAt(env, t, minted, ops, j, x)
    ) {
      NextOpFails(env, t, minted, ops, k);
      NamedInShadow(env, t, minted, ops, k, x);
      MissingMeansCascaded(env, t, minted, ops, k, x);
      StoreErrorStays(env, t, minted, ops, k + 1, |ops|);
    }
  }

  lemma NamedInShadow(env: Env, t: Nodes, minted: nat, ops: seq<Op>, k: nat, x: NodeId)
    requires GoodStart(env, t, minted) && k < |ops| && Accepted(env, t, ops)
    requires StoreAfter(env, t, minted, ops, k).err.None? && x in Names(ops[k])
    ensures ShadowAfter(env, t, ops, k).Pass? && x in ShadowAfter(env, t, ops, k).state
  {
    hide ApplyOp, ValidateOp;
    AcceptedPrefix(env, t, ops, k, |ops|);
    AcceptedPrefix(env, t, ops, k + 1, |ops|);
    BatchSimulation(env, t, minted, ops, k);
    NamedIdsKnown(env, t.Keys, ShadowAfter(env, t, ops, k).state, StoreAfter(env, t, minted, ops, k), ops[k]);
  }

  /** In particular the store never fails on an accepted batch that deletes nothing. */
  lemma BatchWithoutDeletesCompletes(env: Env, t: Nodes, minted: nat, ops: seq<Op>)
    requires GoodStart(env, t, minted) && Accepted(env, t, ops)
    requires forall j :: 0 <= j < |ops| ==> !ops[j].Delete?
    ensures ApplyBatch(env, t, minted, ops).err.None?
  {
    hide ApplyBatch, StoreAfter, Accepted, GoodStart;
    FailsExactlyAfterCascade(env, t, minted, ops);
  }

  // ----- indexes

  lemma PlacementChecked(env: Env, s: Nodes, op: Op)
    requires ValidateOp(env, s, op).Pass? && Placement(op).Some?
    ensures var (p, index) := Placement(op).value;
            p in Names(op) && p in s && IndexOk(index, |Siblings(s, p)|)
  {
  }

  lemma ShadowCountsLess(env: Env, orig: set<NodeId>, s: Nodes, st: Applied, p: NodeId)
    requires Simulates(env, orig, s, st) && p in s && p in st.rows
    ensures Siblings(s, p) <= Siblings(st.rows, p)
  {
    forall x | x in Siblings(s, p) ensures x in Siblings(st.rows, p) {
      AncStep(s, ROOT, x);
    }
  }

  /** An index the validator accepted is within the table's child count when its op runs, so
      the store uses it as it stands. */
  lemma IndexNeverClamped(env: Env, t: Nodes, minted: nat, ops: seq<Op>, k: nat)
    requires GoodStart(env, t, minted) && k < |ops| && Accepted(env, t, ops)
    requires Placement(ops[k]).Some?
    requires StoreAfter(env, t, minted, ops, k + 1).err.None?
    ensures var (p, index) := Placement(ops[k]).value;
            var count := |OrdsBelow(StoreAfter(env, t, minted, ops, k).rows, p)|;
            && IndexOk(index, count)
            && Position(index, count) == if index.Some? then index.value else count
  {
    hide ApplyOp, ValidateOp;
    var (p, index) := Placement(ops[k]).value;
    NextOpFails(env, t, minted, ops, k);
    AcceptedPrefix(env, t, ops, k + 1, |ops|);
    BatchSimulation(env, t, minted, ops, k);
    var s, st := ShadowAfter(env, t, ops, k).state, StoreAfter(env, t, minted, ops, k);
    PlacementChecked(env, s, ops[k]);
    ShadowCountsLess(env, t.Keys, s, st, p);
    SubsetSize(Siblings(s, p), Siblings(st.rows, p));
    IndexCounts(st.rows, p, Ordered(st.rows, p));
  }

  // ----- the accepted batch that fails

  const F: NodeId := "f"
  const B: NodeId := "b"

  /** A folder holding one bookmark, and a batch that deletes the folder and then renames
      the bookmark: the validator accepts it, the store rolls it back. The tree is one the
      daemon can hold, whatever valid link the bookmark has. */
  lemma AcceptedYetFails(env: Env, minted: nat, link: string)
    requires GoodIds(env) && Fresh(env, minted, {ROOT, F, B}) && ValidUrl(env, link)
    ensures var t := map[ROOT := Node(Folder, "Root", None, None, 0.0),
                         F := Node(Folder, "F", None, Some(ROOT), 0.0),
                         B := Node(Bookmark, "B", Some(link), Some(F), 0.0)];
            var ops := [Delete(F, true), Rename(B, "C")];
            && GoodStart(env, t, minted) && UrlsOk(env, t) && Accepted(env, t, ops)
            && ApplyBatch(env, t, minted, ops).err == Some(NoRowsAffected)
  {
    var t0: Nodes := map[ROOT := Node(Folder, "Root", None, None, 0.0)];
    var f := Node(Folder, "F", None, Some(ROOT), 0.0);
    var b := Node(Bookmark, "B", Some(link), Some(F), 0.0);
    AncSelf(t0, ROOT);
    AddKeepsTree(t0, F, f);
    AddKeepsTree(t0[F := f], B, b);
    var t := map[ROOT := Node(Folder, "Root", None, None, 0.0), F := f, B := b];
    assert t == t0[F := f][B := b];
    assert t.Keys == {ROOT, F, B};
    var ops := [Delete(F, true), Rename(B, "C")];
    assert ShadowAfter(env, t, ops, 1) == Pass(t - {F});
    assert ShadowAfter(env, t, ops, 2) == Pass(t - {F});
    AncSelf(t, F);
    AncStep(t, F, B);
    assert B in Under(t, F);
    assert StoreAfter(env, t, minted, ops, 1) == Applied(t - Under(t, F), minted, None);
    assert StoreAfter(env, t, minted, ops, 2).err == Some(NoRowsAffected);
  }
}
