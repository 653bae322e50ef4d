/** How the validator's shadow and the table stay related while both run the same batch,
    and what an accepted batch keeps. Nothing here depends on how ords are rounded. */
module Simulation {
  import opened Model
  import opened Chains
  import opened Order
  import opened Validator
  import opened Sqlite

  /** The ids an op needs to find in the table. */
  function Names(op: Op): set<NodeId> {
    match op
    case AddFolder(p, _, _) => {p}
    case AddBookmark(p, _, _, _) => {p}
    case Rename(n, _) => {n}
    case Move(n, p, _) => {n, p}
    case Delete(n, _) => {n}
    case UpdateBookmark(n, newTitle, newUrl) => if newTitle.None? && newUrl.None? then {} else {n}
    case SaveSession(p, _, _, _) => {p}
  }

  /** Where an op places a node: the folder and the index asked for. */
  function Placement(op: Op): Option<(NodeId, Option<int>)> {
    match op
    case AddFolder(p, _, index) => Some((p, index))
    case AddBookmark(p, _, _, index) => Some((p, index))
    case Move(_, p, index) => Some((p, index))
    case SaveSession(p, _, _, index) => Some((p, index))
    case _ => None
  }

  /** The simulation relation; `orig` holds the ids the batch started with. An original id
      is still in the table exactly when its shadow chain reaches the root, and then kind
      and parent agree. Everything else in the table was added by this batch. */
  ghost predicate Simulates(env: Env, orig: set<NodeId>, s: Nodes, st: Applied) {
    && IsTree(st.rows) && Acyclic(s) && ROOT in s && s[ROOT].parent.None? && s.Keys <= orig
    && (forall x :: x in orig ==> (x in st.rows <==> x in s && Anc(s, ROOT, x)))
    && (forall x :: x in s && x in st.rows ==> s[x].kind == st.rows[x].kind && s[x].parent == st.rows[x].parent)
    && Fresh(env, st.minted, orig + st.rows.Keys)
  }

  ghost predicate UrlsOk(env: Env, t: Nodes) {
    forall x :: x in t ==>
      match t[x].kind
      case Bookmark => t[x].url.Some? && ValidUrl(env, t[x].url.value)
      case Folder => t[x].url.None?
  }

  lemma SimulationStarts(env: Env, t: Nodes, minted: nat)
    requires IsTree(t) && Fresh(env, minted, t.Keys)
    ensures Simulates(env, t.Keys, t, Applied(t, minted, None))
  {
    TreeIsAcyclic(t);
    assert t.Keys + t.Keys == t.Keys;
  }

  // ----- ancestry in shadow and table

  lemma {:induction false} SharedChain(env: Env, orig: set<NodeId>, s: Nodes, st: Applied, x: NodeId, y: NodeId, k: nat)
    requires Simulates(env, orig, s, st) && x in s && x in st.rows
    requires ChainTo(st.rows, x, y, k)
    ensures y in s && y in st.rows
    decreases k
  {
    if k > 0 {
      var p := st.rows[x].parent.value;
      assert x != ROOT && HasFolderParent(st.rows, x);
      AncStep(s, ROOT, x);
      if p !in s { AncStop(s, ROOT, p); }
      SharedChain(env, orig, s, st, p, y, k - 1);
    }
  }

  /** On ids both sides know, they agree about all ancestors. */
  lemma SharedAncestry(env: Env, orig: set<NodeId>, s: Nodes, st: Applied, x: NodeId)
    requires Simulates(env, orig, s, st) && x in s && x in st.rows
    ensures forall a :: Anc(s, a, x) <==> Anc(st.rows, a, x)
  {
    forall y | Anc(st.rows, y, x) ensures SameLink(st.rows, s, y) {
      var k: nat :| ChainTo(st.rows, x, y, k);
      SharedChain(env, orig, s, st, x, y, k);
    }
    AncFrame(st.rows, s, x);
  }

  /** A node added by the batch is never the parent of an original one. */
  lemma AddedNeverParents(env: Env, orig: set<NodeId>, s: Nodes, st: Applied, x: NodeId)
    requires Simulates(env, orig, s, st) && x in orig && x in st.rows && x != ROOT
    ensures st.rows[x].parent.Some? && st.rows[x].parent.value in orig
  {
    assert HasFolderParent(st.rows, x);
    var p := st.rows[x].parent.value;
    assert ChainTo(st.rows, p, p, 0);
    assert ChainTo(st.rows, x, p, 1);
    SharedChain(env, orig, s, st, x, p, 1);
  }

  /** Ids an accepted op names are shadow ids; they are in the table exactly if rooted. */
  lemma NamedIdsKnown(env: Env, orig: set<NodeId>, s: Nodes, st: Applied, op: Op)
    requires Simulates(env, orig, s, st) && ValidateOp(env, s, op).Pass?
    ensures forall x :: x in Names(op) ==> x in s && (x in st.rows <==> Anc(s, ROOT, x))
  {
  }

  // ----- adding rows

  ghost predicate Extends(t: Nodes, t': Nodes) {
    forall y :: y in t ==> y in t' && t'[y] == t[y]
  }

  lemma FreshNext(env: Env, minted: nat, ids: set<NodeId>)
    requires GoodIds(env) && Fresh(env, minted, ids)
    ensures Fresh(env, minted + 1, ids + {env.newId(minted)})
  {
  }

  /** `t'` is `t` with rows added under ids generated from `minted` up to `minted'`. */
  ghost predicate Grown(env: Env, orig: set<NodeId>, t: Nodes, t': Nodes, minted: nat, minted': nat) {
    && IsTree(t') && Extends(t, t')
    && minted <= minted'
    && (forall x :: x in t' && x !in t ==> x !in orig)
    && Fresh(env, minted', orig + t'.Keys)
    && (UrlsOk(env, t) ==> UrlsOk(env, t'))
  }

  /** Inserting one valid row below a folder cannot fail. */
  lemma InsertGrows(env: Env, orig: set<NodeId>, t: Nodes, minted: nat, row: Node)
    requires GoodIds(env) && IsTree(t) && Fresh(env, minted, orig + t.Keys)
    requires row.parent.Some? && IsFolder(t, row.parent.value)
    requires if row.kind == Folder then row.url.None? else row.url.Some? && ValidUrl(env, row.url.value)
    ensures InsertRow(t, env.newId(minted), row).Ok?
    ensures Grown(env, orig, t, InsertRow(t, env.newId(minted), row).value, minted, minted + 1)
  {
    var id := env.newId(minted);
    assert id !in orig + t.Keys;
    AddKeepsTree(t, id, row);
    FreshNext(env, minted, orig + t.Keys);
    assert orig + t[id := row].Keys == orig + t.Keys + {id};
  }

  lemma GrownTrans(env: Env, orig: set<NodeId>, t0: Nodes, t1: Nodes, t2: Nodes, m0: nat, m1: nat, m2: nat)
    requires Grown(env, orig, t0, t1, m0, m1) && Grown(env, orig, t1, t2, m1, m2)
    ensures Grown(env, orig, t0, t2, m0, m2)
  {
  }

  ghost predicate TabsGrown(env: Env, orig: set<NodeId>, t: Nodes, minted: nat, k: nat, st: Applied) {
    st.err.None? && st.minted == minted + k && Grown(env, orig, t, st.rows, minted, st.minted)
  }

  lemma TabGrows(env: Env, orig: set<NodeId>, t: Nodes, minted: nat, k: nat, st: Applied, folder: NodeId, tab: Tab)
    requires GoodIds(env) && IsFolder(t, folder) && ValidUrl(env, tab.url) && TabsGrown(env, orig, t, minted, k, st)
    ensures TabsGrown(env, orig, t, minted, k + 1, AddTab(env, st.rows, st.minted, folder, tab, k))
  {
    var row := TabRow(env, folder, tab, k);
    assert IsFolder(st.rows, folder);
    InsertGrows(env, orig, st.rows, st.minted, row);
    hide Grown, InsertRow, GoodIds, ValidUrl;
    GrownTrans(env, orig, t, st.rows, InsertRow(st.rows, env.newId(st.minted), row).value,
               minted, st.minted, st.minted + 1);
  }

  lemma {:induction false} TabsGrow(env: Env, orig: set<NodeId>, t: Nodes, minted: nat,
                                    folder: NodeId, tabs: seq<Tab>, k: nat)
    requires GoodIds(env) && IsTree(t) && Fresh(env, minted, orig + t.Keys)
    requires IsFolder(t, folder) && UrlsValid(env, tabs) && k <= |tabs|
    ensures var st := TabsAfter(env, Applied(t, minted, None), folder, tabs, k);
            st.err.None? && st.minted == minted + k && Grown(env, orig, t, st.rows, minted, st.minted)
    decreases k
  {
    hide IsTree, GoodIds, AddTab;
    if k > 0 {
      TabsGrow(env, orig, t, minted, folder, tabs, k - 1);
      var st := TabsAfter(env, Applied(t, minted, None), folder, tabs, k - 1);
      hide Grown, IsFolder, Fresh;
      TabGrows(env, orig, t, minted, k - 1, st, folder, tabs[k - 1]);
    }
  }

  lemma AddRowGrows(env: Env, orig: set<NodeId>, t: Nodes, minted: nat, p: NodeId, index: Option<int>,
                    kind: Kind, title: string, url: Option<string>)
    requires GoodIds(env) && IsTree(t) && Fresh(env, minted, orig + t.Keys) && IsFolder(t, p)
    requires if kind == Folder then url.None? else url.Some? && ValidUrl(env, url.value)
    ensures var st := AddRow(env, t, minted, p, index, kind, title, url);
            && st.err.None? && st.minted == minted + 1 && Grown(env, orig, t, st.rows, minted, st.minted)
            && env.newId(minted) in st.rows && st.rows[env.newId(minted)].kind == kind
  {
    InsertGrows(env, orig, t, minted, Node(kind, title, url, Some(p), PlaceOrd(env, OrdsBelow(t, p), index)));
  }

  lemma SessionSteps(env: Env, t: Nodes, minted: nat, op: Op)
    requires op.SaveSession? && AddRow(env, t, minted, op.parent, op.index, Folder, op.title, None).err.None?
    ensures ApplyOp(env, t, minted, op) ==
            TabsAfter(env, AddRow(env, t, minted, op.parent, op.index, Folder, op.title, None),
                      env.newId(minted), op.tabs, |op.tabs|)
  {
    hide AddRow, TabsAfter;
  }

  lemma SessionGrows(env: Env, orig: set<NodeId>, t: Nodes, minted: nat, op: Op)
    requires GoodIds(env) && IsTree(t) && Fresh(env, minted, orig + t.Keys)
    requires op.SaveSession? && IsFolder(t, op.parent) && UrlsValid(env, op.tabs)
    ensures var st := ApplyOp(env, t, minted, op);
            st.err.None? && Grown(env, orig, t, st.rows, minted, st.minted)
  {
    hide AddRow, ApplyOp, TabsAfter, GoodIds, Fresh, IsTree, UrlsValid;
    var st := AddRow(env, t, minted, op.parent, op.index, Folder, op.title, None);
    AddRowGrows(env, orig, t, minted, op.parent, op.index, Folder, op.title, None);
    assert IsFolder(st.rows, env.newId(minted)) && st == Applied(st.rows, st.minted, None);
    TabsGrow(env, orig, st.rows, st.minted, env.newId(minted), op.tabs, |op.tabs|);
    SessionSteps(env, t, minted, op);
    var end := ApplyOp(env, t, minted, op);
    hide Grown, IsFolder;
    GrownTrans(env, orig, t, st.rows, end.rows, minted, st.minted, end.minted);
  }

  /** Every accepted op that adds rows, on a table that still has the parent. */
  lemma AddGrows(env: Env, orig: set<NodeId>, t: Nodes, minted: nat, op: Op)
    requires GoodIds(env) && IsTree(t) && Fresh(env, minted, orig + t.Keys)
    requires op.AddFolder? || op.AddBookmark? || op.SaveSession?
    requires IsFolder(t, op.parent)
    requires op.AddBookmark? ==> ValidUrl(env, op.link)
    requires op.SaveSession? ==> UrlsValid(env, op.tabs)
    ensures var st := ApplyOp(env, t, minted, op);
            st.err.None? && Grown(env, orig, t, st.rows, minted, st.minted)
  {
    match op
    case AddFolder(p, title, index) => AddRowGrows(env, orig, t, minted, p, index, Folder, title, None);
    case AddBookmark(p, title, link, index) => AddRowGrows(env, orig, t, minted, p, index, Bookmark, title, Some(link));
    case SaveSession(_, _, _, _) => SessionGrows(env, orig, t, minted, op);
  }

  lemma GrowthKeepsSimulation(env: Env, orig: set<NodeId>, s: Nodes, st: Applied, st': Applied)
    requires Simulates(env, orig, s, st)
    requires Grown(env, orig, st.rows, st'.rows, st.minted, st'.minted)
    ensures Simulates(env, orig, s, st')
  {
  }

  // ----- one op

  /** An accepted add fails, with a foreign key error, if and only if the folder is gone. */
  lemma AddFailure(env: Env, orig: set<NodeId>, s: Nodes, st: Applied, op: Op)
    requires GoodIds(env) && Simulates(env, orig, s, st) && ValidateOp(env, s, op).Pass?
    requires op.AddFolder? || op.AddBookmark? || op.SaveSession?
    ensures ApplyOp(env, st.rows, st.minted, op).err == if op.parent in st.rows then None else Some(ForeignKey)
  {
    assert op.parent in s && env.newId(st.minted) !in orig + st.rows.Keys;
    if op.parent in st.rows {
      assert IsFolder(st.rows, op.parent);
      hide Simulates, ApplyOp;
      AddGrows(env, orig, st.rows, st.minted, op);
    } else {
      assert op.parent != env.newId(st.minted);
      hide Simulates, GoodIds, PlaceOrd, ValidateOp;
    }
  }

  /** Any other accepted op fails if and only if its own node, or else the folder it moves
      to, is gone. */
  lemma EditFailure(env: Env, orig: set<NodeId>, s: Nodes, st: Applied, op: Op)
    requires GoodIds(env) && Simulates(env, orig, s, st) && ValidateOp(env, s, op).Pass?
    requires !(op.AddFolder? || op.AddBookmark? || op.SaveSession?)
    ensures ApplyOp(env, st.rows, st.minted, op).err ==
            if OwnNode(op).Some? && OwnNode(op).value !in st.rows then Some(NoRowsAffected)
            else if op.Move? && op.newParent !in st.rows then Some(ForeignKey)
            else None
  {
    if op.node in st.rows && op.node != ROOT { assert HasFolderParent(st.rows, op.node); }
    assert op.node in st.rows && st.rows[op.node].parent.Some? ==> st.rows[op.node].parent.value in st.rows;
    hide Simulates, GoodIds, PlaceOrd, ValidateOp, DeleteRow;
  }

  /** An accepted op fails in the store if and only if an id it names has left the table. */
  lemma OpFailsExactly(env: Env, orig: set<NodeId>, s: Nodes, st: Applied, op: Op)
    requires GoodIds(env) && Simulates(env, orig, s, st) && ValidateOp(env, s, op).Pass?
    ensures ApplyOp(env, st.rows, st.minted, op).err.Some? <==> exists x :: x in Names(op) && x !in st.rows
  {
    hide GoodIds, Simulates, ValidateOp, ApplyOp;
    if op.AddFolder? || op.AddBookmark? || op.SaveSession? {
      AddFailure(env, orig, s, st, op);
      assert op.parent in Names(op);
    } else {
      EditFailure(env, orig, s, st, op);
      assert OwnNode(op).Some? ==> OwnNode(op).value in Names(op);
      assert op.Move? ==> op.newParent in Names(op);
    }
  }

  /** The error names the kind of id that is missing: the op's own node, or the folder it
      puts something into. No accepted op ever clashes with an existing key. */
  lemma FailureTellsWhatIsMissing(env: Env, orig: set<NodeId>, s: Nodes, st: Applied, op: Op)
    requires GoodIds(env) && Simulates(env, orig, s, st) && ValidateOp(env, s, op).Pass?
    ensures var err := ApplyOp(env, st.rows, st.minted, op).err;
            && err != Some(PrimaryKey)
            && (err == Some(NoRowsAffected) <==> OwnNode(op).Some? && OwnNode(op).value !in st.rows)
            && (err == Some(ForeignKey) <==> (OwnNode(op).Some? ==> OwnNode(op).value in st.rows) &&
                                             Placement(op).Some? && Placement(op).value.0 !in st.rows)
  {
    hide GoodIds, Simulates, ValidateOp, ApplyOp;
    if op.AddFolder? || op.AddBookmark? || op.SaveSession? {
      AddFailure(env, orig, s, st, op);
    } else {
      EditFailure(env, orig, s, st, op);
    }
  }

  /** The node an op changes in place, if it changes one. */
  function OwnNode(op: Op): Option<NodeId> {
    match op
    case Rename(n, _) => Some(n)
    case Move(n, _, _) => Some(n)
    case Delete(n, _) => Some(n)
    case UpdateBookmark(n, newTitle, newUrl) => if newTitle.None? && newUrl.None? then None else Some(n)
    case _ => None
  }

  ghost predicate Completes(env: Env, orig: set<NodeId>, s: Nodes, st: Applied, op: Op) {
    && GoodIds(env) && Simulates(env, orig, s, st)
    && ValidateOp(env, s, op).Pass? && ApplyOp(env, st.rows, st.minted, op).err.None?
  }

  ghost predicate SimulatesAfter(env: Env, orig: set<NodeId>, s: Nodes, st: Applied, op: Op) {
    ValidateOp(env, s, op).Pass? ==>
      Simulates(env, orig, ValidateOp(env, s, op).state, ApplyOp(env, st.rows, st.minted, op))
  }

  lemma MoveKeepsSimulation(env: Env, orig: set<NodeId>, s: Nodes, st: Applied, n: NodeId, p: NodeId, t': Nodes)
    requires Simulates(env, orig, s, st) && n in s && n != ROOT && IsFolder(s, p) && !Anc(s, n, p)
    requires n in st.rows && p in st.rows && Moved(st.rows, t', n, p)
    requires forall y :: y in t' ==> t'[y].kind == st.rows[y].kind
    ensures Simulates(env, orig, Reparent(s, n, p), st.(rows := t'))
  {
    SharedAncestry(env, orig, s, st, p);
    MoveKeepsTree(st.rows, t', n, p);
    MoveKeepsAcyclic(s, n, p);
    assert n in orig && p in orig;
    RootedAlike(s, Reparent(s, n, p), n, p);
    MovedSimulates(env, orig, s, st, n, p, t');
  }

  lemma MovedSimulates(env: Env, orig: set<NodeId>, s: Nodes, st: Applied, n: NodeId, p: NodeId, t': Nodes)
    requires Simulates(env, orig, s, st) && n in s && n != ROOT && Moved(st.rows, t', n, p)
    requires forall y :: y in t' ==> t'[y].kind == st.rows[y].kind
    requires IsTree(t') && Acyclic(Reparent(s, n, p))
    requires forall x :: Anc(s, ROOT, x) <==> Anc(Reparent(s, n, p), ROOT, x)
    ensures Simulates(env, orig, Reparent(s, n, p), st.(rows := t'))
  {
    hide Anc, Acyclic, IsTree;
    assert orig + t'.Keys == orig + st.rows.Keys;
  }

  lemma RootedAlike(s: Nodes, s': Nodes, n: NodeId, p: NodeId)
    requires Moved(s, s', n, p) && !Anc(s, n, p) && Anc(s, ROOT, p) && Anc(s, ROOT, n)
    ensures forall x :: Anc(s, ROOT, x) <==> Anc(s', ROOT, x)
  {
    forall x ensures Anc(s, ROOT, x) <==> Anc(s', ROOT, x) { MoveKeepsRooted(s, s', n, p, x); }
  }

  lemma MoveStep(env: Env, orig: set<NodeId>, s: Nodes, st: Applied, op: Op)
    requires Completes(env, orig, s, st, op) && op.Move?
    ensures SimulatesAfter(env, orig, s, st, op)
  {
    var t' := ApplyOp(env, st.rows, st.minted, op).rows;
    MoveKeepsSimulation(env, orig, s, st, op.node, op.newParent, t');
  }

  lemma DeleteStep(env: Env, orig: set<NodeId>, s: Nodes, st: Applied, op: Op)
    requires Completes(env, orig, s, st, op) && op.Delete?
    ensures SimulatesAfter(env, orig, s, st, op)
  {
    var n, t := op.node, st.rows;
    var t', s' := t - Under(t, n), s - {n};
    PruneKeepsTree(t, n);
    DeleteKeepsAcyclic(s, n);
    forall x | x in orig ensures x in t' <==> x in s' && Anc(s', ROOT, x) {
      DeleteCuts(s, n, x);
      if x in t { SharedAncestry(env, orig, s, st, x); }
      AncSelf(s, n);
    }
  }

  lemma RelabelShape(env: Env, t: Nodes, minted: nat, op: Op)
    requires (op.Rename? || op.UpdateBookmark?) && ApplyOp(env, t, minted, op).err.None?
    ensures var st := ApplyOp(env, t, minted, op);
            && st.minted == minted && st.rows.Keys == t.Keys
            && forall x :: x in t ==> st.rows[x].parent == t[x].parent && st.rows[x].kind == t[x].kind
  {
  }

  lemma RelabelSimulates(env: Env, orig: set<NodeId>, s: Nodes, st: Applied, st': Applied)
    requires Simulates(env, orig, s, st) && IsTree(st'.rows) && st'.minted == st.minted
    requires st'.rows.Keys == st.rows.Keys
    requires forall x :: x in st.rows ==> st'.rows[x].parent == st.rows[x].parent && st'.rows[x].kind == st.rows[x].kind
    ensures Simulates(env, orig, s, st')
  {
    hide IsTree, Anc, Acyclic;
  }

  lemma RelabelStep(env: Env, orig: set<NodeId>, s: Nodes, st: Applied, op: Op)
    requires Completes(env, orig, s, st, op) && (op.Rename? || op.UpdateBookmark?)
    ensures SimulatesAfter(env, orig, s, st, op)
  {
    RelabelShape(env, st.rows, st.minted, op);
    var st' := ApplyOp(env, st.rows, st.minted, op);
    assert IsTree(st.rows);
    hide ApplyOp, Simulates, IsTree, GoodIds;
    RelabelKeepsTree(st.rows, st'.rows);
    RelabelSimulates(env, orig, s, st, st');
  }

  lemma AddStep(env: Env, orig: set<NodeId>, s: Nodes, st: Applied, op: Op)
    requires Completes(env, orig, s, st, op) && (op.AddFolder? || op.AddBookmark? || op.SaveSession?)
    ensures SimulatesAfter(env, orig, s, st, op)
    ensures Grown(env, orig, st.rows, ApplyOp(env, st.rows, st.minted, op).rows,
                  st.minted, ApplyOp(env, st.rows, st.minted, op).minted)
  {
    OpFailsExactly(env, orig, s, st, op);
    assert op.parent in Names(op);
    AddGrows(env, orig, st.rows, st.minted, op);
    GrowthKeepsSimulation(env, orig, s, st, ApplyOp(env, st.rows, st.minted, op));
  }

  /** One accepted op the store completes preserves the relation. */
  lemma StepKeepsSimulation(env: Env, orig: set<NodeId>, s: Nodes, st: Applied, op: Op)
    requires Completes(env, orig, s, st, op)
    ensures SimulatesAfter(env, orig, s, st, op)
  {
    hide SimulatesAfter, Completes;
    match op
    case Move(_, _, _) => MoveStep(env, orig, s, st, op);
    case Delete(_, _) => DeleteStep(env, orig, s, st, op);
    case Rename(_, _) => RelabelStep(env, orig, s, st, op);
    case UpdateBookmark(_, _, _) => RelabelStep(env, orig, s, st, op);
    case _ => AddStep(env, orig, s, st, op);
  }

  // ----- whole batches

  ghost predicate GoodStart(env: Env, t: Nodes, minted: nat) {
    GoodIds(env) && IsTree(t) && Fresh(env, minted, t.Keys)
  }

  /** After every prefix of a batch that both sides have got through, shadow and table are
      related. */
  lemma {:induction false} BatchSimulation(env: Env, t: Nodes, minted: nat, ops: seq<Op>, k: nat)
    requires GoodStart(env, t, minted) && k <= |ops|
    requires ShadowAfter(env, t, ops, k).Pass?
    requires StoreAfter(env, t, minted, ops, k).err.None?
    ensures Simulates(env, t.Keys, ShadowAfter(env, t, ops, k).state, StoreAfter(env, t, minted, ops, k))
    decreases k
  {
    hide ApplyOp, ValidateOp;
    if k == 0 {
      SimulationStarts(env, t, minted);
    } else {
      BatchSimulation(env, t, minted, ops, k - 1);
      StepKeepsSimulation(env, t.Keys, ShadowAfter(env, t, ops, k - 1).state,
                          StoreAfter(env, t, minted, ops, k - 1), ops[k - 1]);
    }
  }

  // ----- what an accepted batch keeps

  /** Besides the tree shape: valid URLs on bookmarks, none on folders, and the root row. */
  lemma StepKeepsUrlsAndRoot(env: Env, orig: set<NodeId>, s: Nodes, st: Applied, op: Op)
    requires Completes(env, orig, s, st, op) && UrlsOk(env, st.rows)
    ensures var t' := ApplyOp(env, st.rows, st.minted, op).rows;
            UrlsOk(env, t') && ROOT in t' && t'[ROOT] == st.rows[ROOT]
  {
    if op.AddFolder? || op.AddBookmark? || op.SaveSession? {
      hide ApplyOp, ValidateOp;
      AddStep(env, orig, s, st, op);
    } else if op.Delete? {
      AncStop(st.rows, op.node, ROOT);
    } else {
      EditKeepsUrlsAndRoot(env, orig, s, st, op);
    }
  }

  /** `n` is a node other than the root, and `row` may replace it without harm to the URLs. */
  ghost predicate SafeEdit(env: Env, t: Nodes, n: NodeId, row: Node) {
    && n in t && n != ROOT && row.kind == t[n].kind
    && (row.url == t[n].url || (row.kind == Bookmark && row.url.Some? && ValidUrl(env, row.url.value)))
  }

  lemma EditIsSafe(env: Env, orig: set<NodeId>, s: Nodes, st: Applied, op: Op)
    requires Completes(env, orig, s, st, op)
    requires op.Rename? || op.Move? || op.UpdateBookmark?
    ensures ApplyOp(env, st.rows, st.minted, op).rows == st.rows ||
            exists row :: SafeEdit(env, st.rows, op.node, row) &&
                          ApplyOp(env, st.rows, st.minted, op).rows == st.rows[op.node := row]
  {
    hide UrlsOk;
    var t, n := st.rows, op.node;
    if op.UpdateBookmark? && op.newTitle.None? && op.newUrl.None? {
    } else {
      assert n in t && n != ROOT && s[n].kind == t[n].kind;
      var row := ApplyOp(env, t, st.minted, op).rows[n];
      assert SafeEdit(env, t, n, row);
    }
  }

  lemma EditKeepsUrlsAndRoot(env: Env, orig: set<NodeId>, s: Nodes, st: Applied, op: Op)
    requires Completes(env, orig, s, st, op) && UrlsOk(env, st.rows)
    requires op.Rename? || op.Move? || op.UpdateBookmark?
    ensures var t' := ApplyOp(env, st.rows, st.minted, op).rows;
            UrlsOk(env, t') && ROOT in t' && t'[ROOT] == st.rows[ROOT]
  {
    EditIsSafe(env, orig, s, st, op);
    hide ApplyOp, ValidateOp;
  }

  lemma {:induction false} AcceptedBatchKeepsUrlsAndRoot(env: Env, t: Nodes, minted: nat, ops: seq<Op>, k: nat)
    requires GoodStart(env, t, minted) && UrlsOk(env, t) && k <= |ops|
    requires ShadowAfter(env, t, ops, k).Pass? && StoreAfter(env, t, minted, ops, k).err.None?
    ensures var t' := StoreAfter(env, t, minted, ops, k).rows;
            UrlsOk(env, t') && ROOT in t' && t'[ROOT] == t[ROOT]
    decreases k
  {
    hide ApplyOp, ValidateOp;
    if k > 0 {
      AcceptedBatchKeepsUrlsAndRoot(env, t, minted, ops, k - 1);
      BatchSimulation(env, t, minted, ops, k - 1);
      StepKeepsUrlsAndRoot(env, t.Keys, ShadowAfter(env, t, ops, k - 1).state,
                           StoreAfter(env, t, minted, ops, k - 1), ops[k - 1]);
    }
  }
}
