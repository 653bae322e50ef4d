/** What the client of an apply_ops request is told, in full: which requests are invalid, which
    are refused and for what, which fail in the store and how, and that all others are done. */
module Outcomes {
  import opened Model
  import opened Chains
  import opened Order
  import opened Validator
  import opened Sqlite
  import opened Simulation
  import opened Failures
  import opened Verdicts
  import opened RoseTree
  import opened Daemon

  /** `raws` asks for `ops`, one for one. */
  predicate AllAsk(raws: seq<RpcOp>, ops: seq<Op>) {
    |raws| == |ops| && forall i :: 0 <= i < |raws| ==> Asks(raws[i], ops[i])
  }

  lemma AllAskIsDecoded(raws: seq<RpcOp>, ops: seq<Op>)
    ensures AllAsk(raws, ops) <==> AllDecode(raws) && Decoded(raws) == ops
  {
    hide ToCoreOp, Asks;
    if |raws| == |ops| {
      forall i | 0 <= i < |raws| ensures Asks(raws[i], ops[i]) <==> ToCoreOp(raws[i]) == Some(ops[i]) {
        DecodesExactly(raws[i], ops[i]);
      }
    }
  }

  ghost predicate AsksNothing(raw: RpcOp) {
    forall op :: !Asks(raw, op)
  }

  /** A request is invalid if and only if there are no ops, or one of them asks for nothing. */
  lemma InvalidExactly(env: Env, st: State, raws: seq<RpcOp>)
    ensures Handle(env, st, raws).1 == InvalidRequest <==> raws == [] || forall ops :: !AllAsk(raws, ops)
    ensures (forall ops :: !AllAsk(raws, ops)) <==> exists i :: 0 <= i < |raws| && AsksNothing(raws[i])
  {
    hide ToCoreOp, Asks, ShadowAfter, ApplyBatch;
    forall ops ensures AllAsk(raws, ops) <==> AllDecode(raws) && Decoded(raws) == ops { AllAskIsDecoded(raws, ops); }
    if AllDecode(raws) { assert AllAsk(raws, Decoded(raws)); }
    hide AllAsk, Decoded;
    forall i | 0 <= i < |raws| ensures ToCoreOp(raws[i]).None? <==> AsksNothing(raws[i]) {
      UndecodableExactly(raws[i]);
    }
    hide AsksNothing;
  }

  // ----- store errors

  /** The node an op changes has been cut off from the root, in the simulation. */
  ghost predicate OwnCutOff(s: Nodes, op: Op) {
    && (op.Rename? || op.Move? || op.Delete? || (op.UpdateBookmark? && (op.newTitle.Some? || op.newUrl.Some?)))
    && !Anc(s, "root", op.node)
  }

  /** The folder an op puts something into has. */
  ghost predicate TargetCutOff(s: Nodes, op: Op) {
    Target(op).Some? && !Anc(s, "root", Target(op).value.0)
  }

  ghost predicate NoneCutOffBefore(s: Nodes, ops: seq<Op>, k: nat)
    requires k <= |ops|
  {
    forall j: nat :: j < k ==>
      && !OwnCutOff(SimulatedAfter(s, ops, j), ops[j])
      && !TargetCutOff(SimulatedAfter(s, ops, j), ops[j])
  }

  /** The op at `k` is the first that meets a node cut off, and `e` is the error it runs into. */
  ghost predicate FailsAt(s: Nodes, ops: seq<Op>, k: nat, e: DbError) {
    && k < |ops| && NoneCutOffBefore(s, ops, k)
    && var sim := SimulatedAfter(s, ops, k);
       if OwnCutOff(sim, ops[k]) then e == NoRowsAffected else TargetCutOff(sim, ops[k]) && e == ForeignKey
  }

  lemma NextError(env: Env, t: Nodes, minted: nat, ops: seq<Op>, k: nat)
    requires GoodStart(env, t, minted) && Accepted(env, t, ops) && k < |ops|
    requires StoreAfter(env, t, minted, ops, k).err.None?
    ensures var sim, err := SimulatedAfter(t, ops, k), StoreAfter(env, t, minted, ops, k + 1).err;
            err == if OwnCutOff(sim, ops[k]) then Some(NoRowsAffected)
                   else if TargetCutOff(sim, ops[k]) then Some(ForeignKey) else None
  {
    hide ApplyOp, ValidateOp;
    TreeIsAcyclic(t);
    AcceptedPrefix(env, t, ops, k, |ops|);
    AcceptedPrefix(env, t, ops, k + 1, |ops|);
    ShadowIsSimulated(env, t, ops, k);
    BatchSimulation(env, t, minted, ops, k);
    var s, st := ShadowAfter(env, t, ops, k).state, StoreAfter(env, t, minted, ops, k);
    assert StoreAfter(env, t, minted, ops, k + 1) == ApplyOp(env, st.rows, st.minted, ops[k]);
    hide StoreAfter, ShadowAfter, SimulatedAfter;
    FailureTellsWhatIsMissing(env, t.Keys, s, st, ops[k]);
    NamedIdsKnown(env, t.Keys, s, st, ops[k]);
    NamesOfOp(ops[k]);
    hide Simulates, Names, Anc;
    assert OwnCutOff(s, ops[k]) <==> OwnNode(ops[k]).Some? && OwnNode(ops[k]).value !in st.rows;
    assert TargetCutOff(s, ops[k]) <==> Placement(ops[k]).Some? && Placement(ops[k]).value.0 !in st.rows;
    hide OwnNode, Placement, OwnCutOff, TargetCutOff;
    var err := StoreAfter(env, t, minted, ops, k + 1).err;
    assert err.Some? ==> err.value.PrimaryKey? || err.value.ForeignKey? || err.value.NoRowsAffected?;
  }

  lemma NamesOfOp(op: Op)
    ensures OwnNode(op).Some? <==>
            op.Rename? || op.Move? || op.Delete? || (op.UpdateBookmark? && (op.newTitle.Some? || op.newUrl.Some?))
    ensures OwnNode(op).Some? ==> OwnNode(op).value == op.node && op.node in Names(op)
    ensures Placement(op) == Target(op)
    ensures Target(op).Some? ==> Target(op).value.0 in Names(op)
  {
  }

  lemma {:induction false} StoreStandsExactly(env: Env, t: Nodes, minted: nat, ops: seq<Op>, k: nat)
    requires GoodStart(env, t, minted) && Accepted(env, t, ops) && k <= |ops|
    ensures StoreAfter(env, t, minted, ops, k).err.None? <==> NoneCutOffBefore(t, ops, k)
    decreases k
  {
    hide ApplyOp, OwnCutOff, TargetCutOff, SimulatedAfter, Accepted, GoodStart;
    if k > 0 {
      StoreStandsExactly(env, t, minted, ops, k - 1);
      if StoreAfter(env, t, minted, ops, k - 1).err.None? { NextError(env, t, minted, ops, k - 1); }
    }
  }

  /** The error of an accepted batch, in full. */
  lemma StoreErrorExactly(env: Env, t: Nodes, minted: nat, ops: seq<Op>, e: DbError)
    requires GoodStart(env, t, minted) && Accepted(env, t, ops)
    ensures ApplyBatch(env, t, minted, ops).err == Some(e) <==> exists k: nat :: FailsAt(t, ops, k, e)
    ensures ApplyBatch(env, t, minted, ops).err.None? <==> NoneCutOffBefore(t, ops, |ops|)
  {
    hide StoreAfter, OwnCutOff, TargetCutOff, SimulatedAfter, Accepted, GoodStart;
    StoreStandsExactly(env, t, minted, ops, |ops|);
    if ApplyBatch(env, t, minted, ops).err == Some(e) {
      var k := FirstFailure(env, t, minted, ops, |ops|);
      StoreStandsExactly(env, t, minted, ops, k);
      NextError(env, t, minted, ops, k);
      StoreErrorStays(env, t, minted, ops, k + 1, |ops|);
      assert FailsAt(t, ops, k, e);
    }
    if k: nat :| FailsAt(t, ops, k, e) {
      StoreStandsExactly(env, t, minted, ops, k);
      NextError(env, t, minted, ops, k);
      StoreErrorStays(env, t, minted, ops, k + 1, |ops|);
    }
  }

  // ----- any request

  lemma HandleCases(env: Env, st: State, raws: seq<RpcOp>, ops: seq<Op>)
    requires raws != [] && AllAsk(raws, ops)
    ensures var v, err := ShadowAfter(env, st.rows, ops, |ops|), ApplyBatch(env, st.rows, st.minted, ops).err;
            Handle(env, st, raws).1 ==
            if v.Reject? then ValidationFailed(v.error) else if err.Some? then StorageError(err.value) else Done
  {
    AllAskIsDecoded(raws, ops);
    hide AllAsk, ApplyBatch, ShadowAfter;
  }

  lemma RefusedExactly(env: Env, st: State, raws: seq<RpcOp>, ops: seq<Op>, e: ValidationError)
    requires Safe(env, st) && raws != [] && AllAsk(raws, ops)
    ensures Handle(env, st, raws).1 == ValidationFailed(e) <==> exists k: nat :: RefusedAt(env, st.rows, ops, k, e)
  {
    TreeIsAcyclic(st.rows);
    hide Handle, Safe, AllAsk, ApplyBatch, ShadowAfter, RefusedAt, Acyclic;
    HandleCases(env, st, raws, ops);
    BatchVerdictExactly(env, st.rows, ops, e);
  }

  lemma FailedExactly(env: Env, st: State, raws: seq<RpcOp>, ops: seq<Op>, e: DbError)
    requires Safe(env, st) && raws != [] && AllAsk(raws, ops)
    ensures Handle(env, st, raws).1 == StorageError(e) <==>
            FaultlessBefore(env, st.rows, ops, |ops|) && exists k: nat :: FailsAt(st.rows, ops, k, e)
    ensures Handle(env, st, raws).1 == Done <==>
            FaultlessBefore(env, st.rows, ops, |ops|) && NoneCutOffBefore(st.rows, ops, |ops|)
  {
    TreeIsAcyclic(st.rows);
    assert GoodStart(env, st.rows, st.minted);
    hide Handle, Safe, GoodStart, AllAsk, ApplyBatch, ShadowAfter, FaultlessBefore, NoneCutOffBefore, FailsAt, Acyclic;
    HandleCases(env, st, raws, ops);
    BatchVerdictExactly(env, st.rows, ops, InvalidNode);
    if Accepted(env, st.rows, ops) { StoreErrorExactly(env, st.rows, st.minted, ops, e); }
  }

  /** The outcome of a request for `ops`, in full. The first faulty op decides, with its first
      fault; without faults the first op that meets a node cut off does; without either the
      request is done. */
  lemma OutcomeExactly(env: Env, st: State, raws: seq<RpcOp>, ops: seq<Op>)
    requires Safe(env, st) && raws != [] && AllAsk(raws, ops)
    ensures var told := Handle(env, st, raws).1;
            && (forall e :: told == ValidationFailed(e) <==> exists k: nat :: RefusedAt(env, st.rows, ops, k, e))
            && (forall e :: told == StorageError(e) <==>
                  FaultlessBefore(env, st.rows, ops, |ops|) && exists k: nat :: FailsAt(st.rows, ops, k, e))
            && (told == Done <==>
                  FaultlessBefore(env, st.rows, ops, |ops|) && NoneCutOffBefore(st.rows, ops, |ops|))
            && told != InvalidRequest
  {
    hide Handle, Safe, AllAsk, ApplyBatch, ShadowAfter, FaultlessBefore, NoneCutOffBefore, RefusedAt, FailsAt;
    HandleCases(env, st, raws, ops);
    var told := Handle(env, st, raws).1;
    forall e ensures told == ValidationFailed(e) <==> exists k: nat :: RefusedAt(env, st.rows, ops, k, e) {
      RefusedExactly(env, st, raws, ops, e);
    }
    forall e ensures told == StorageError(e) <==>
                     FaultlessBefore(env, st.rows, ops, |ops|) && exists k: nat :: FailsAt(st.rows, ops, k, e)
    {
      FailedExactly(env, st, raws, ops, e);
    }
    FailedExactly(env, st, raws, ops, PrimaryKey);
  }

  // ----- requests with one op, on the tree its client sees

  /** `op` has a fault of kind `e` on the tree `r`. */
  ghost predicate TreeFault(env: Env, r: Rose, op: Op, e: ValidationError) {
    match e
    case InvalidNode =>
      || ((op.Rename? || op.Move? || op.Delete?) && Find(r, op.node).None?)
      || (op.UpdateBookmark? && (Find(r, op.node).None? || Find(r, op.node).value.kind != Bookmark))
    case RootImmutable => (op.Rename? || op.Move? || op.Delete?) && op.node == "root"
    case InvalidParent =>
      Target(op).Some? && var found := Find(r, Target(op).value.0); found.None? || found.value.kind != Folder
    case CycleDetected =>
      op.Move? && Find(r, op.node).Some? && Find(Find(r, op.node).value, op.newParent).Some?
    case InvalidIndex =>
      && Target(op).Some?
      && var (p, index) := Target(op).value;
         index.Some? && (index.value < 0 || index.value > |ChildIds(r, p)|)
    case InvalidUrl => exists link :: link in Links(op) && BadLink(env, link)
  }

  lemma FindInTable(t: Nodes, x: NodeId)
    requires IsTree(t)
    ensures Find(Abs(t, ROOT), x) == if x in t then Some(Abs(t, x)) else None
    ensures x in t ==> Abs(t, x).kind == t[x].kind
    ensures |ChildIds(Abs(t, ROOT), x)| == |set y | y in t && t[y].parent == Some(x)|
  {
    AbsFind(t, ROOT, x);
    assert Siblings(t, x) == set y | y in t && t[y].parent == Some(x);
    if x in t {
      ChildIdsOfAbs(t, x);
      IndexCounts(t, x, Ordered(t, x));
    } else {
      NobodyBelowMissing(t, x);
    }
  }

  lemma NobodyBelowMissing(t: Nodes, x: NodeId)
    requires IsTree(t) && x !in t
    ensures Siblings(t, x) == {}
  {
    forall y ensures y !in Siblings(t, x) {
      if y in t && y != ROOT { assert HasFolderParent(t, y); }
    }
  }

  lemma CycleOnTree(t: Nodes, n: NodeId, p: NodeId)
    requires IsTree(t) && n in t
    ensures Find(Abs(t, n), p).Some? <==> p in t && !Acyclic(t[n := t[n].(parent := Some(p))])
  {
    AbsFind(t, n, p);
    TreeIsAcyclic(t);
    if p in t { MoveCyclicIffAncestor(t, n, p); }
  }

  lemma FaultOnTree(env: Env, t: Nodes, op: Op, e: ValidationError)
    requires IsTree(t)
    ensures Fault(env, t, op, e) <==> TreeFault(env, Abs(t, ROOT), op, e)
  {
    hide Find, Abs, ChildIds, Acyclic, IsTree, BadLink, Links;
    if Target(op).Some? { FindInTable(t, Target(op).value.0); }
    if op.Rename? || op.Move? || op.Delete? || op.UpdateBookmark? {
      FindInTable(t, op.node);
      if op.Move? && op.node in t { CycleOnTree(t, op.node, op.newParent); }
    }
  }

  /** The fault that is reported. */
  ghost predicate FirstTreeFault(env: Env, r: Rose, op: Op, e: ValidationError) {
    TreeFault(env, r, op, e) && forall e' :: Rank(e') < Rank(e) ==> !TreeFault(env, r, op, e')
  }

  ghost predicate FaultlessOnTree(env: Env, r: Rose, op: Op) {
    forall e :: !TreeFault(env, r, op, e)
  }

  lemma FaultlessMeetsNoOrphan(env: Env, t: Nodes, op: Op)
    requires IsTree(t) && Faultless(env, t, op)
    ensures !OwnCutOff(t, op) && !TargetCutOff(t, op)
  {
    assert !Fault(env, t, op, InvalidNode) && !Fault(env, t, op, InvalidParent);
    hide Acyclic, Anc;
  }

  lemma OneOpAlone(env: Env, t: Nodes, op: Op)
    requires IsTree(t)
    ensures forall e :: (exists k: nat :: RefusedAt(env, t, [op], k, e)) <==> FirstFault(env, t, op, e)
    ensures FaultlessBefore(env, t, [op], 1) <==> Faultless(env, t, op)
    ensures Faultless(env, t, op) ==> NoneCutOffBefore(t, [op], 1)
  {
    assert SimulatedAfter(t, [op], 0) == t && FaultlessBefore(env, t, [op], 0);
    if Faultless(env, t, op) { FaultlessMeetsNoOrphan(env, t, op); }
    hide Fault, FirstFault, Faultless, OwnCutOff, TargetCutOff, IsTree;
    forall e ensures (exists k: nat :: RefusedAt(env, t, [op], k, e)) <==> FirstFault(env, t, op, e) {
      if FirstFault(env, t, op, e) { assert RefusedAt(env, t, [op], 0, e); }
    }
  }

  /** A request with one op is done if and only if the op has no fault on the tree, is refused
      for its first fault otherwise, and never fails in the store. */
  lemma OneOpExactly(env: Env, st: State, raw: RpcOp, op: Op)
    requires Safe(env, st) && Asks(raw, op)
    ensures var told, r := Handle(env, st, [raw]).1, Abs(st.rows, ROOT);
            && (told == Done <==> FaultlessOnTree(env, r, op))
            && (forall e :: told == ValidationFailed(e) <==> FirstTreeFault(env, r, op, e))
            && !told.StorageError? && !told.InvalidRequest?
  {
    var t := st.rows;
    assert IsTree(t);
    forall e ensures Fault(env, t, op, e) <==> TreeFault(env, Abs(t, ROOT), op, e) { FaultOnTree(env, t, op, e); }
    hide Handle, Safe, Asks, Fault, TreeFault, Abs, IsTree;
    assert forall e :: FirstFault(env, t, op, e) <==> FirstTreeFault(env, Abs(t, ROOT), op, e);
    assert Faultless(env, t, op) <==> FaultlessOnTree(env, Abs(t, ROOT), op);
    hide Faultless, FirstFault, FirstTreeFault, FaultlessOnTree;
    hide RefusedAt, FailsAt, FaultlessBefore, NoneCutOffBefore;
    OneOpAlone(env, t, op);
    OutcomeExactly(env, st, [raw], [op]);
  }

  // ----- the same, kind by kind

  /** Whether something may be put below `p` at `index`. */
  ghost predicate Places(r: Rose, p: NodeId, index: Option<int>) {
    && Find(r, p).Some? && Find(r, p).value.kind == Folder
    && (index.Some? ==> 0 <= index.value <= |ChildIds(r, p)|)
  }

  predicate GoodLink(env: Env, link: string) {
    link != "" && (env.parseScheme(link) == Some("http") || env.parseScheme(link) == Some("https"))
  }

  predicate IsAdd(op: Op) {
    op.AddFolder? || op.AddBookmark? || op.SaveSession?
  }

  predicate IsEdit(op: Op) {
    op.Rename? || op.Delete? || op.Move? || op.UpdateBookmark?
  }

  lemma FaultlessAdd(env: Env, r: Rose, op: Op)
    requires IsAdd(op)
    ensures FaultlessOnTree(env, r, op) <==>
            Places(r, op.parent, op.index) && forall link :: link in Links(op) ==> GoodLink(env, link)
  {
    hide Find, ChildIds, Links;
    assert forall link :: GoodLink(env, link) <==> !BadLink(env, link);
    assert TreeFault(env, r, op, InvalidUrl) <==> exists link :: link in Links(op) && !GoodLink(env, link);
    hide GoodLink, BadLink;
    assert Places(r, op.parent, op.index) <==>
           !TreeFault(env, r, op, InvalidParent) && !TreeFault(env, r, op, InvalidIndex);
    assert !TreeFault(env, r, op, InvalidNode) && !TreeFault(env, r, op, RootImmutable);
    assert !TreeFault(env, r, op, CycleDetected);
    hide TreeFault, Places;
  }

  lemma FaultlessEdit(env: Env, r: Rose, op: Op)
    requires IsEdit(op)
    ensures FaultlessOnTree(env, r, op) <==>
            && Find(r, op.node).Some?
            && (op.UpdateBookmark? ==> && Find(r, op.node).value.kind == Bookmark
                                       && (op.newUrl.Some? ==> GoodLink(env, op.newUrl.value)))
            && (!op.UpdateBookmark? ==> op.node != "root")
            && (op.Move? ==> && Places(r, op.newParent, op.index)
                             && Find(Find(r, op.node).value, op.newParent).None?)
  {
    hide Find, ChildIds;
    if op.UpdateBookmark? && op.newUrl.Some? { assert op.newUrl.value in Links(op); }
    assert TreeFault(env, r, op, InvalidUrl) <==>
           op.UpdateBookmark? && op.newUrl.Some? && !GoodLink(env, op.newUrl.value);
    hide GoodLink, BadLink;
    assert op.Move? ==> (Places(r, op.newParent, op.index) <==>
                         !TreeFault(env, r, op, InvalidParent) && !TreeFault(env, r, op, InvalidIndex));
    assert !op.Move? ==> !TreeFault(env, r, op, InvalidParent) && !TreeFault(env, r, op, InvalidIndex);
    assert TreeFault(env, r, op, RootImmutable) <==> !op.UpdateBookmark? && op.node == "root";
    assert TreeFault(env, r, op, CycleDetected) <==>
           op.Move? && Find(r, op.node).Some? && Find(Find(r, op.node).value, op.newParent).Some?;
    assert TreeFault(env, r, op, InvalidNode) <==>
           Find(r, op.node).None? || (op.UpdateBookmark? && Find(r, op.node).value.kind != Bookmark);
    hide TreeFault, Places;
  }

  lemma DoneByDecoding(env: Env, st: State, raw: RpcOp)
    requires Safe(env, st)
    ensures Handle(env, st, [raw]).1 == Done <==>
            ToCoreOp(raw).Some? && FaultlessOnTree(env, Abs(st.rows, ROOT), ToCoreOp(raw).value)
  {
    hide FaultlessOnTree, TreeFault, FirstTreeFault, Asks, Abs;
    if ToCoreOp(raw).Some? {
      DecodesExactly(raw, ToCoreOp(raw).value);
      OneOpExactly(env, st, raw, ToCoreOp(raw).value);
    }
  }

  /** When something is put into a folder. */
  lemma AddDoneExactly(env: Env, st: State, raw: RpcOp)
    requires Safe(env, st)
    ensures var done, r := Handle(env, st, [raw]).1 == Done, Abs(st.rows, ROOT);
            && (raw.kind == "add_folder" ==> (done <==> raw.parentId != "" && Places(r, raw.parentId, raw.index)))
            && (raw.kind == "add_bookmark" ==>
                  (done <==> raw.parentId != "" && Places(r, raw.parentId, raw.index) && GoodLink(env, raw.url)))
            && (raw.kind == "save_session" ==>
                  (done <==> && raw.parentId != "" && Places(r, raw.parentId, raw.index)
                             && forall i :: 0 <= i < |raw.tabs| ==> GoodLink(env, raw.tabs[i].url)))
  {
    DoneByDecoding(env, st, raw);
    hide Handle, Safe, Find, Abs, ChildIds, Places, FaultlessOnTree;
    if ToCoreOp(raw).Some? && IsAdd(ToCoreOp(raw).value) {
      FaultlessAdd(env, Abs(st.rows, ROOT), ToCoreOp(raw).value);
    }
  }

  /** When a node is renamed, deleted, moved or updated. */
  lemma EditDoneExactly(env: Env, st: State, raw: RpcOp)
    requires Safe(env, st)
    ensures var done, r := Handle(env, st, [raw]).1 == Done, Abs(st.rows, ROOT);
            && (raw.kind == "rename_node" || raw.kind == "delete_node" ==>
                  (done <==> raw.nodeId != "" && raw.nodeId != "root" && Find(r, raw.nodeId).Some?))
            && (raw.kind == "move_node" ==>
                  (done <==> && raw.nodeId != "" && raw.nodeId != "root" && Find(r, raw.nodeId).Some?
                             && raw.newParentId != "" && Places(r, raw.newParentId, raw.newIndex)
                             && Find(Find(r, raw.nodeId).value, raw.newParentId).None?))
            && (raw.kind == "update_bookmark" ==>
                  (done <==> && raw.nodeId != "" && Find(r, raw.nodeId).Some?
                             && Find(r, raw.nodeId).value.kind == Bookmark
                             && (raw.url == "" || GoodLink(env, raw.url))))
  {
    DoneByDecoding(env, st, raw);
    hide Handle, Safe, Find, Abs, ChildIds, Places, FaultlessOnTree, GoodLink;
    if ToCoreOp(raw).Some? && IsEdit(ToCoreOp(raw).value) {
      FaultlessEdit(env, Abs(st.rows, ROOT), ToCoreOp(raw).value);
    }
  }
}
