/** Running ops on the table refines running plain list operations on the rose tree:
    insert at an index, remove a subtree, move, relabel. */
module Refinement {
  import opened Model
  import opened Chains
  import opened Order
  import opened Validator
  import opened Sqlite
  import opened Simulation
  import opened RoseTree

  // ----- the plain operations

  datatype Plain = Plain(tree: Rose, minted: nat)

  function TabId(env: Env, minted: nat, i: nat): NodeId {
    env.newId(minted + i)
  }

  function TabLeaves(env: Env, minted: nat, tabs: seq<Tab>): seq<Rose> {
    seq(|tabs|, i requires 0 <= i < |tabs| =>
      Rose(TabId(env, minted, i), Bookmark, tabs[i].title, Some(tabs[i].url), []))
  }

  function SessionTree(env: Env, minted: nat, title: string, tabs: seq<Tab>): Rose {
    Rose(env.newId(minted), Folder, title, None, TabLeaves(env, minted + 1, tabs))
  }

  function PlainAdd(r: Rose, p: NodeId, index: Option<int>, sub: Rose): Rose {
    Graft(r, p, Position(index, |ChildIds(r, p)|), sub)
  }

  /** The index counts the children before the move, so within one folder a node that
      leaves a place in front of its target shifts the target by one. */
  function PlainMove(r: Rose, n: NodeId, p: NodeId, index: Option<int>): Rose {
    match Find(r, n)
    case None => r
    case Some(sub) =>
      var ids := ChildIds(r, p);
      var pos := Position(index, |ids|);
      Graft(Prune(r, n), p, if n in ids[..pos] then pos - 1 else pos, sub)
  }

  function PlainOp(env: Env, st: Plain, op: Op): Plain {
    var r, id := st.tree, env.newId(st.minted);
    match op
    case AddFolder(p, title, index) => Plain(PlainAdd(r, p, index, Rose(id, Folder, title, None, [])), st.minted + 1)
    case AddBookmark(p, title, link, index) =>
      Plain(PlainAdd(r, p, index, Rose(id, Bookmark, title, Some(link), [])), st.minted + 1)
    case Rename(n, title) => st.(tree := Relabel(r, n, Some(title), None))
    case Move(n, p, index) => st.(tree := PlainMove(r, n, p, index))
    case Delete(n, _) => st.(tree := Prune(r, n))
    case UpdateBookmark(n, newTitle, newUrl) => st.(tree := Relabel(r, n, newTitle, newUrl))
    case SaveSession(p, title, tabs, index) =>
      Plain(PlainAdd(r, p, index, SessionTree(env, st.minted, title, tabs)), st.minted + 1 + |tabs|)
  }

  function PlainAfter(env: Env, start: Plain, ops: seq<Op>, k: nat): Plain
    requires k <= |ops|
    decreases k
  {
    if k == 0 then start else PlainOp(env, PlainAfter(env, start, ops, k - 1), ops[k - 1])
  }

  // ----- tables the refinement starts from

  ghost predicate Sound(env: Env, t: Nodes, minted: nat) {
    GoodStart(env, t, minted) && Distinct(t)
  }

  /** The arithmetic serves the op: the ord it places a node at separates the neighbours, and
      tabs get their positions as ords. */
  ghost predicate Served(env: Env, t: Nodes, op: Op) {
    && (Placement(op).Some? ==> Separable(env, t, Placement(op).value.0, Placement(op).value.1))
    && (op.SaveSession? ==> WholeTabs(env, op.tabs))
  }

  /** Exact arithmetic serves every op. */
  lemma ExactServes(env: Env, t: Nodes, op: Op)
    requires Exact(env) && Distinct(t)
    ensures Served(env, t, op)
  {
    if Placement(op).Some? { ExactSeparable(env, t, Placement(op).value.0, Placement(op).value.1); }
  }

  /** Everything an op names is there, and a move closes no loop. */
  ghost predicate Applicable(env: Env, t: Nodes, op: Op) {
    match op
    case AddFolder(p, _, _) => IsFolder(t, p)
    case AddBookmark(p, _, link, _) => IsFolder(t, p) && ValidUrl(env, link)
    case SaveSession(p, _, tabs, _) => IsFolder(t, p) && UrlsValid(env, tabs)
    case Move(n, p, _) => n in t && n != ROOT && IsFolder(t, p) && !Anc(t, n, p)
    case Delete(n, _) => n in t && n != ROOT
    case Rename(n, _) => n in t
    case UpdateBookmark(n, newTitle, newUrl) => (newTitle.None? && newUrl.None?) || n in t
  }

  lemma AcceptedIsApplicable(env: Env, orig: set<NodeId>, s: Nodes, st: Applied, op: Op)
    requires Completes(env, orig, s, st, op)
    ensures Applicable(env, st.rows, op)
  {
    OpFailsExactly(env, orig, s, st, op);
    hide ApplyOp;
    forall x | x in Names(op) ensures x in s && x in st.rows { }
    match op
    case Move(n, p, _) => SharedAncestry(env, orig, s, st, p);
    case _ =>
  }

  // ----- adding

  ghost predicate Childless(t: Nodes, n: NodeId) {
    forall y :: y in t ==> t[y].parent != Some(n)
  }

  ghost predicate AddedAt(env: Env, t: Nodes, t': Nodes, minted: nat, p: NodeId, index: Option<int>) {
    && Distinct(t') && Grafted(t, t', p, env.newId(minted), Position(index, |Ordered(t, p)|))
    && Ordered(t', env.newId(minted)) == []
  }

  /** A node under a new id enters one list and leaves all others alone. */
  lemma NewNodeOrders(env: Env, t: Nodes, t': Nodes, n: NodeId, p: NodeId, index: Option<int>)
    requires Separable(env, t, p, index) && Distinct(t) && PutBelow(env, t, t', n, p, index) && n !in t
    ensures var q := Ordered(t, p);
            var pos := Position(index, |q|);
            Distinct(t') && Ordered(t', p) == q[..pos] + [n] + q[pos..]
    ensures forall y :: y != p ==> Ordered(t', y) == Ordered(t, y)
  {
    PutOrders(env, t, t', n, p, index);
    forall y ensures n !in Ordered(t, y) { assert n in Ordered(t, y) ==> n in Siblings(t, y); }
    hide PutBelow, Distinct, Separable;
    PlacedNew(Ordered(t, p), n, Position(index, |Ordered(t, p)|));
    forall y | y != p ensures Ordered(t', y) == Ordered(t, y) { WithoutAbsent(Ordered(t, y), n); }
    hide Placed, Without, Position;
  }

  lemma AddOrders(env: Env, t: Nodes, minted: nat, p: NodeId, index: Option<int>, row: Node)
    requires Sound(env, t, minted) && IsFolder(t, p) && Separable(env, t, p, index)
    requires row.parent == Some(p) && row.ord == PlaceOrd(env, OrdsBelow(t, p), index)
    ensures AddedAt(env, t, t[env.newId(minted) := row], minted, p, index)
  {
    var n := env.newId(minted);
    var t' := t[n := row];
    AddKeepsTree(t, n, row);
    NobodyBelow(t, n);
    NoListBelow(t', n);
    hide Distinct, Separable, PlaceOrd, Position;
    NewNodeOrders(env, t, t', n, p, index);
  }

  lemma NobodyBelow(t: Nodes, n: NodeId)
    requires IsTree(t) && n !in t
    ensures Childless(t, n)
  {
    forall y | y in t ensures t[y].parent != Some(n) {
      if y != ROOT { assert HasFolderParent(t, y); }
    }
  }

  lemma NoListBelow(t: Nodes, n: NodeId)
    requires Childless(t, n)
    ensures Ordered(t, n) == []
  {
    HeadListed(Ordered(t, n));
  }

  lemma HeadListed(q: seq<NodeId>)
    ensures q == [] || exists x :: x in q
  {
    if q != [] { assert q[0] in q; }
  }

  lemma AddRefines(env: Env, t: Nodes, minted: nat, p: NodeId, index: Option<int>,
                   kind: Kind, title: string, url: Option<string>)
    requires Sound(env, t, minted) && IsFolder(t, p) && Separable(env, t, p, index)
    ensures var st := AddRow(env, t, minted, p, index, kind, title, url);
            && AddedAt(env, t, st.rows, minted, p, index)
            && Abs(st.rows, ROOT) == PlainAdd(Abs(t, ROOT), p, index, Rose(env.newId(minted), kind, title, url, []))
  {
    var row := Node(kind, title, url, Some(p), PlaceOrd(env, OrdsBelow(t, p), index));
    AddOrders(env, t, minted, p, index, row);
    var n := env.newId(minted);
    var t' := t[n := row];
    assert AddRow(env, t, minted, p, index, kind, title, url).rows == t';
    ChildIdsOfAbs(t, p);
    AbsGraft(t, t', p, n, Position(index, |Ordered(t, p)|), ROOT);
    AbsKids(t', n);
    assert Abs(t', n) == Rose(n, kind, title, url, []);
  }

  // ----- saving a session

  /** `t2` is `t1` with the first `k` tabs added below `folder`. */
  ghost predicate TabRows(env: Env, t1: Nodes, t2: Nodes, minted: nat, folder: NodeId, tabs: seq<Tab>, k: nat)
    requires k <= |tabs|
  {
    && Extends(t1, t2)
    && (forall x :: x in t2 && x !in t1 ==> exists i: nat :: i < k && x == TabId(env, minted, i))
    && forall i: nat :: i < k ==> TabId(env, minted, i) !in t1 && TabId(env, minted, i) in t2
                                  && t2[TabId(env, minted, i)] == TabRow(env, folder, tabs[i], i)
  }

  lemma TabRowsStep(env: Env, t1: Nodes, t2: Nodes, minted: nat, folder: NodeId, tabs: seq<Tab>, k: nat)
    requires k < |tabs| && TabRows(env, t1, t2, minted, folder, tabs, k)
    requires TabId(env, minted, k) !in t2
    ensures TabRows(env, t1, t2[TabId(env, minted, k) := TabRow(env, folder, tabs[k], k)], minted, folder, tabs, k + 1)
  {
    var t3 := t2[TabId(env, minted, k) := TabRow(env, folder, tabs[k], k)];
    forall x | x in t3 && x !in t1 ensures exists i: nat :: i < k + 1 && x == TabId(env, minted, i) {
      if x in t2 { var i: nat :| i < k && x == TabId(env, minted, i); }
    }
    assert TabId(env, minted, k) !in t1;
  }

  ghost predicate TabsDone(env: Env, t1: Nodes, minted: nat, folder: NodeId, tabs: seq<Tab>, k: nat, st: Applied)
    requires k <= |tabs|
  {
    st == Applied(st.rows, minted + k, None) && TabRows(env, t1, st.rows, minted, folder, tabs, k)
  }

  lemma {:induction false} TabsShape(env: Env, t1: Nodes, minted: nat, folder: NodeId, tabs: seq<Tab>, k: nat)
    requires GoodStart(env, t1, minted) && IsFolder(t1, folder) && UrlsValid(env, tabs) && k <= |tabs|
    ensures TabsDone(env, t1, minted, folder, tabs, k, TabsAfter(env, Applied(t1, minted, None), folder, tabs, k))
    decreases k
  {
    hide TabsAfter, TabsDone, GoodStart, IsFolder, UrlsValid;
    if k == 0 {
      NoTabsYet(env, t1, minted, folder, tabs);
    } else {
      TabsShape(env, t1, minted, folder, tabs, k - 1);
      TabsShapeStep(env, t1, minted, folder, tabs, k - 1);
    }
  }

  lemma NoTabsYet(env: Env, t1: Nodes, minted: nat, folder: NodeId, tabs: seq<Tab>)
    ensures TabsDone(env, t1, minted, folder, tabs, 0, TabsAfter(env, Applied(t1, minted, None), folder, tabs, 0))
  {
  }

  lemma TabsShapeStep(env: Env, t1: Nodes, minted: nat, folder: NodeId, tabs: seq<Tab>, k: nat)
    requires GoodStart(env, t1, minted) && IsFolder(t1, folder) && UrlsValid(env, tabs) && k < |tabs|
    requires TabsDone(env, t1, minted, folder, tabs, k, TabsAfter(env, Applied(t1, minted, None), folder, tabs, k))
    ensures TabsDone(env, t1, minted, folder, tabs, k + 1,
                     TabsAfter(env, Applied(t1, minted, None), folder, tabs, k + 1))
  {
    hide GoodStart, IsFolder, UrlsValid, TabRows, AddTab, TabRow;
    var start := Applied(t1, minted, None);
    var st := TabsAfter(env, start, folder, tabs, k);
    assert TabsAfter(env, start, folder, tabs, k + 1) == AddTab(env, st.rows, minted + k, folder, tabs[k], k);
    NextTabIsNew(env, t1, minted, folder, tabs, k);
    hide TabsAfter;
    AddTabInserts(env, st.rows, minted, folder, tabs[k], k);
    TabRowsStep(env, t1, st.rows, minted, folder, tabs, k);
  }

  lemma AddTabInserts(env: Env, t: Nodes, minted: nat, folder: NodeId, tab: Tab, idx: nat)
    requires TabId(env, minted, idx) !in t && folder in t
    ensures AddTab(env, t, minted + idx, folder, tab, idx)
         == Applied(t[TabId(env, minted, idx) := TabRow(env, folder, tab, idx)], minted + idx + 1, None)
  {
  }

  lemma NextTabIsNew(env: Env, t1: Nodes, minted: nat, folder: NodeId, tabs: seq<Tab>, k: nat)
    requires GoodStart(env, t1, minted) && IsFolder(t1, folder) && UrlsValid(env, tabs) && k < |tabs|
    ensures TabId(env, minted, k) !in TabsAfter(env, Applied(t1, minted, None), folder, tabs, k).rows
    ensures folder in TabsAfter(env, Applied(t1, minted, None), folder, tabs, k).rows
  {
    hide TabsAfter;
    assert {} + t1.Keys == t1.Keys;
    TabsGrow(env, {}, t1, minted, folder, tabs, k);
  }

  lemma TwoTabsApart(env: Env, t1: Nodes, t2: Nodes, minted: nat, folder: NodeId, tabs: seq<Tab>, gap: real,
                     x: NodeId, y: NodeId)
    requires WholeTabs(env, tabs) && 0.0 <= gap < 1.0 && TabRows(env, t1, t2, minted, folder, tabs, |tabs|)
    requires x in t2 && y in t2 && x != y && x !in t1 && y !in t1
    ensures Away(t2[x].ord, t2[y].ord, gap)
  {
    var i: nat :| i < |tabs| && x == TabId(env, minted, i);
    var j: nat :| j < |tabs| && y == TabId(env, minted, j);
    hide TabId, TabOrd;
    assert i != j && t2[x].ord == i as real && t2[y].ord == j as real;
  }

  lemma TabsBelowFolder(env: Env, t1: Nodes, t2: Nodes, minted: nat, folder: NodeId, tabs: seq<Tab>)
    requires TabRows(env, t1, t2, minted, folder, tabs, |tabs|)
    ensures forall x :: x in t2 && x !in t1 ==> t2[x].parent == Some(folder)
  {
    hide TabOrd;
  }

  /** Tabs get consecutive whole numbers; so adding them below a new folder keeps siblings
      as far apart as they were, up to a distance of one. */
  lemma TabsApart(env: Env, t1: Nodes, t2: Nodes, minted: nat, folder: NodeId, tabs: seq<Tab>, gap: real)
    requires WholeTabs(env, tabs) && 0.0 <= gap < 1.0 && Childless(t1, folder)
    requires TabRows(env, t1, t2, minted, folder, tabs, |tabs|)
    ensures AllApart(t2, gap) <==> AllApart(t1, gap)
  {
    TabsBelowFolder(env, t1, t2, minted, folder, tabs);
    assert forall x :: x in t1 ==> x in t2 && t2[x] == t1[x];
    forall x, y | x in t2 && y in t2 && x != y && x !in t1 && y !in t1 ensures Away(t2[x].ord, t2[y].ord, gap) {
      TwoTabsApart(env, t1, t2, minted, folder, tabs, gap, x, y);
    }
    hide TabRows, WholeTabs, Away;
    if AllApart(t2, gap) {
      forall x, y | x in t1 && y in t1 && x != y && t1[x].parent.Some? && t1[x].parent == t1[y].parent
        ensures Away(t1[x].ord, t1[y].ord, gap)
      {
        assert Away(t2[x].ord, t2[y].ord, gap);
      }
    }
  }

  /** The positions of tabs are small enough to be float64 numbers. */
  ghost predicate WholeTabs(env: Env, tabs: seq<Tab>) {
    forall i: nat :: i < |tabs| ==> TabOrd(env, i) == i as real
  }

  lemma TabsDistinct(env: Env, t1: Nodes, t2: Nodes, minted: nat, folder: NodeId, tabs: seq<Tab>)
    requires WholeTabs(env, tabs) && GoodIds(env) && Distinct(t1) && Childless(t1, folder)
    requires TabRows(env, t1, t2, minted, folder, tabs, |tabs|)
    ensures Distinct(t2)
  {
    TabsApart(env, t1, t2, minted, folder, tabs, 0.0);
    ApartIsDistinct(t1, 0.0);
    ApartIsDistinct(t2, 0.0);
  }

  ghost predicate ListsTabs(env: Env, minted: nat, q: seq<NodeId>, count: nat) {
    |q| == count && forall i: nat :: i < count ==> q[i] == TabId(env, minted, i)
  }

  /** The children of the new folder are the tabs. */
  lemma TabsBelow(env: Env, t1: Nodes, t2: Nodes, minted: nat, folder: NodeId, tabs: seq<Tab>, q: seq<NodeId>)
    requires Childless(t1, folder) && ListsTabs(env, minted, q, |tabs|)
    requires TabRows(env, t1, t2, minted, folder, tabs, |tabs|)
    ensures forall x :: x in q <==> x in Siblings(t2, folder)
  {
    hide TabId;
    forall x ensures x in q <==> x in Siblings(t2, folder) {
      if x in Siblings(t2, folder) {
        var i: nat :| i < |tabs| && x == TabId(env, minted, i);
        assert q[i] == x;
      }
    }
  }

  lemma TabsStrict(env: Env, t1: Nodes, t2: Nodes, minted: nat, folder: NodeId, tabs: seq<Tab>, q: seq<NodeId>)
    requires WholeTabs(env, tabs) && ListsTabs(env, minted, q, |tabs|)
    requires TabRows(env, t1, t2, minted, folder, tabs, |tabs|)
    ensures Strict(t2, q)
  {
    hide TabId, TabOrd;
    assert forall i: nat :: i < |tabs| ==> q[i] in t2 && t2[q[i]].ord == i as real;
  }

  lemma TabsOrdered(env: Env, t1: Nodes, t2: Nodes, minted: nat, folder: NodeId, tabs: seq<Tab>)
    requires WholeTabs(env, tabs) && GoodIds(env) && Distinct(t1) && Childless(t1, folder)
    requires TabRows(env, t1, t2, minted, folder, tabs, |tabs|)
    ensures Ordered(t2, folder) == IdsOf(TabLeaves(env, minted, tabs))
  {
    var q := IdsOf(TabLeaves(env, minted, tabs));
    assert ListsTabs(env, minted, q, |tabs|);
    hide TabRows, ListsTabs, WholeTabs, TabLeaves, IdsOf, Distinct, Strict;
    TabsDistinct(env, t1, t2, minted, folder, tabs);
    TabsBelow(env, t1, t2, minted, folder, tabs, q);
    TabsStrict(env, t1, t2, minted, folder, tabs, q);
    StrictListIsOrdered(t2, folder, q);
  }

  /** Lists outside the new folder are the same before and after the tabs. */
  lemma TabsElsewhere(env: Env, t1: Nodes, t2: Nodes, minted: nat, folder: NodeId, tabs: seq<Tab>, y: NodeId)
    requires Distinct(t1) && Distinct(t2) && y != folder
    requires TabRows(env, t1, t2, minted, folder, tabs, |tabs|)
    ensures Ordered(t2, y) == Ordered(t1, y)
  {
    forall x | x in t2 && x !in t1 ensures t2[x].parent == Some(folder) {
      var i: nat :| i < |tabs| && x == TabId(env, minted, i);
    }
    assert Siblings(t2, y) == Siblings(t1, y);
    OrderedFrame(t1, t2, y);
  }

  lemma TabsAreLeaves(env: Env, t1: Nodes, t2: Nodes, minted: nat, folder: NodeId, tabs: seq<Tab>)
    requires WholeTabs(env, tabs) && GoodIds(env) && Distinct(t1) && Childless(t1, folder) && folder in t1
    requires TabRows(env, t1, t2, minted, folder, tabs, |tabs|) && IsTree(t1) && IsTree(t2)
    ensures Abs(t2, folder) ==
            Rose(folder, t1[folder].kind, t1[folder].title, t1[folder].url, TabLeaves(env, minted, tabs))
  {
    TabsDistinct(env, t1, t2, minted, folder, tabs);
    TabsOrdered(env, t1, t2, minted, folder, tabs);
    var leaves := TabLeaves(env, minted, tabs);
    AbsKids(t2, folder);
    forall i | 0 <= i < |tabs| ensures Abs(t2, folder).kids[i] == leaves[i] {
      var id := TabId(env, minted, i);
      assert Ordered(t2, folder)[i] == id;
      NobodyBelow(t1, id);
      forall x | x in t2 ensures t2[x].parent != Some(id) {
        if x !in t1 { var j: nat :| j < |tabs| && x == TabId(env, minted, j); }
      }
      NoListBelow(t2, id);
      AbsKids(t2, id);
    }
    assert Abs(t2, folder).kids == leaves;
  }

  lemma SessionRefines(env: Env, t: Nodes, minted: nat, op: Op)
    requires Sound(env, t, minted) && op.SaveSession? && Applicable(env, t, op) && Served(env, t, op)
    ensures RefinesPlainly(env, t, minted, op)
  {
    hide ApplyOp, Abs, PlainAdd, SessionTree, TabRows, AddedAt, IsTree, Distinct, Separable, PlaceOrd;
    var t1, t2 := SessionTables(env, t, minted, op);
    SessionGraft(env, t, t1, t2, minted, op);
  }

  lemma SessionTables(env: Env, t: Nodes, minted: nat, op: Op) returns (t1: Nodes, t2: Nodes)
    requires Sound(env, t, minted) && op.SaveSession? && Applicable(env, t, op) && Served(env, t, op)
    ensures AddedAt(env, t, t1, minted, op.parent, op.index) && IsTree(t2)
    ensures var n := env.newId(minted);
            n in t1 && t1[n].kind == Folder && t1[n].title == op.title && t1[n].url == None
    ensures TabRows(env, t1, t2, minted + 1, env.newId(minted), op.tabs, |op.tabs|)
    ensures ApplyOp(env, t, minted, op) == Applied(t2, minted + 1 + |op.tabs|, None)
  {
    var folder, tabs := env.newId(minted), op.tabs;
    SessionFolder(env, t, minted, op);
    t1 := AddRow(env, t, minted, op.parent, op.index, Folder, op.title, None).rows;
    TabsShape(env, t1, minted + 1, folder, tabs, |tabs|);
    hide AddedAt, TabRows, AddRow;
    TabsGrow(env, {}, t1, minted + 1, folder, tabs, |tabs|);
    t2 := TabsAfter(env, Applied(t1, minted + 1, None), folder, tabs, |tabs|).rows;
  }

  lemma SessionFolder(env: Env, t: Nodes, minted: nat, op: Op)
    requires Sound(env, t, minted) && op.SaveSession? && Applicable(env, t, op) && Served(env, t, op)
    ensures var n := env.newId(minted);
            var st1 := AddRow(env, t, minted, op.parent, op.index, Folder, op.title, None);
            && st1 == Applied(st1.rows, minted + 1, None) && {} + st1.rows.Keys == st1.rows.Keys
            && AddedAt(env, t, st1.rows, minted, op.parent, op.index)
            && GoodStart(env, st1.rows, minted + 1)
            && n in st1.rows && st1.rows[n].kind == Folder && st1.rows[n].title == op.title && st1.rows[n].url == None
  {
    hide Abs, Grafted;
    assert {} + t.Keys == t.Keys;
    AddRowGrows(env, {}, t, minted, op.parent, op.index, Folder, op.title, None);
    AddRefines(env, t, minted, op.parent, op.index, Folder, op.title, None);
    var st1 := AddRow(env, t, minted, op.parent, op.index, Folder, op.title, None);
    assert {} + st1.rows.Keys == st1.rows.Keys;
  }

  lemma SessionGraft(env: Env, t: Nodes, t1: Nodes, t2: Nodes, minted: nat, op: Op)
    requires Sound(env, t, minted) && op.SaveSession? && IsFolder(t, op.parent) && WholeTabs(env, op.tabs)
    requires AddedAt(env, t, t1, minted, op.parent, op.index) && IsTree(t2)
    requires var n := env.newId(minted);
             n in t1 && t1[n].kind == Folder && t1[n].title == op.title && t1[n].url == None
    requires TabRows(env, t1, t2, minted + 1, env.newId(minted), op.tabs, |op.tabs|)
    ensures Distinct(t2)
    ensures Abs(t2, ROOT) == PlainAdd(Abs(t, ROOT), op.parent, op.index, SessionTree(env, minted, op.title, op.tabs))
  {
    var p, folder, tabs := op.parent, env.newId(minted), op.tabs;
    var pos := Position(op.index, |Ordered(t, p)|);
    forall x | x in t1 ensures t1[x].parent != Some(folder) {
      assert x in Ordered(t1, folder) <==> x in Siblings(t1, folder);
    }
    TabsDistinct(env, t1, t2, minted + 1, folder, tabs);
    TabsAreLeaves(env, t1, t2, minted + 1, folder, tabs);
    forall y | y in t ensures Ordered(t2, y) == Ordered(t1, y) {
      TabsElsewhere(env, t1, t2, minted + 1, folder, tabs, y);
    }
    assert Grafted(t, t2, p, folder, pos);
    ChildIdsOfAbs(t, p);
    AbsGraft(t, t2, p, folder, pos, ROOT);
  }

  // ----- deleting

  lemma DeleteOrders(t: Nodes, n: NodeId)
    requires IsTree(t) && Distinct(t) && n in t && n != ROOT
    ensures Distinct(t - Under(t, n)) && Pruned(t, t - Under(t, n), n) && ROOT in t - Under(t, n)
  {
    var t' := t - Under(t, n);
    PruneKeepsTree(t, n);
    AncSelf(t, n);
    forall y | y in t' ensures Ordered(t', y) == Without(Ordered(t, y), n) {
      forall x ensures x in Siblings(t', y) <==> x in Siblings(t, y) - {n} {
        if x in Siblings(t, y) { AncStep(t, n, x); }
      }
      OrderedWithout(t, t', n, y);
    }
  }

  lemma DeleteRefines(t: Nodes, n: NodeId)
    requires IsTree(t) && Distinct(t) && n in t && n != ROOT
    ensures var t' := t - Under(t, n);
            IsTree(t') && Distinct(t') && Abs(t', ROOT) == Prune(Abs(t, ROOT), n)
  {
    DeleteOrders(t, n);
    AbsPrune(t, t - Under(t, n), n, ROOT);
  }

  // ----- moving

  /** `t'` is `t` after the update statement of a move. */
  ghost predicate MovedTo(env: Env, t: Nodes, t': Nodes, n: NodeId, p: NodeId, index: Option<int>) {
    && n in t && n != ROOT && IsFolder(t, p) && !Anc(t, n, p)
    && t' == t[n := t[n].(parent := Some(p), ord := PlaceOrd(env, OrdsBelow(t, p), index))]
  }

  function MoveTarget(q: seq<NodeId>, n: NodeId, index: Option<int>): nat {
    var pos := Position(index, |q|);
    if n in q[..pos] then pos - 1 else pos
  }

  lemma PlacedAtTarget(q: seq<NodeId>, n: NodeId, index: Option<int>)
    requires NoDup(q)
    ensures var rest, at := Without(q, n), MoveTarget(q, n, index);
            at <= |rest| && Placed(q, n, Position(index, |q|)) == rest[..at] + [n] + rest[at..]
  {
    var pos := Position(index, |q|);
    var a, b := q[..pos], q[pos..];
    assert q == a + b;
    assert NoDup(a);
    hide NoDup, Position, Without;
    WithoutConcat(a, b, n);
    WithoutLength(a, n);
    var front, back := Without(a, n), Without(b, n);
    assert (front + back)[..|front|] == front && (front + back)[|front|..] == back;
  }

  lemma MovedPuts(env: Env, t: Nodes, t': Nodes, n: NodeId, p: NodeId, index: Option<int>)
    requires MovedTo(env, t, t', n, p, index)
    ensures PutBelow(env, t, t', n, p, index)
  {
    hide PlaceOrd;
  }

  lemma MoveOrders(env: Env, t: Nodes, t': Nodes, n: NodeId, p: NodeId, index: Option<int>)
    requires Separable(env, t, p, index) && IsTree(t) && Distinct(t) && MovedTo(env, t, t', n, p, index)
    ensures IsTree(t') && Distinct(t')
    ensures var q := Ordered(t, p);
            var rest, at := Without(q, n), MoveTarget(q, n, index);
            at <= |rest| && Ordered(t', p) == rest[..at] + [n] + rest[at..]
    ensures forall y :: y != p ==> Ordered(t', y) == Without(Ordered(t, y), n)
  {
    MoveKeepsTree(t, t', n, p);
    MovedPuts(env, t, t', n, p, index);
    PutOrders(env, t, t', n, p, index);
    hide PutBelow, MovedTo, Separable, Placed, MoveTarget, Position, Without;
    PlacedAtTarget(Ordered(t, p), n, index);
  }

  lemma MoveKeepsSubtree(env: Env, t: Nodes, t': Nodes, n: NodeId, p: NodeId, index: Option<int>)
    requires Separable(env, t, p, index) && IsTree(t) && Distinct(t) && MovedTo(env, t, t', n, p, index)
    ensures IsTree(t') && Abs(t', n) == Abs(t, n)
  {
    MoveOrders(env, t, t', n, p, index);
    forall y | y in Under(t, n) ensures SameReading(t, t', y) {
      if n in Ordered(t, y) {
        assert n in Siblings(t, y);
        NoChildAbove(t, y, n);
      }
      WithoutAbsent(Ordered(t, y), n);
    }
    AbsFrame(t, t', n);
  }

  lemma MoveGrafts(env: Env, t: Nodes, t': Nodes, n: NodeId, p: NodeId, index: Option<int>)
    requires Separable(env, t, p, index) && IsTree(t) && Distinct(t) && MovedTo(env, t, t', n, p, index)
    ensures var t1 := t - Under(t, n);
            Pruned(t, t1, n) && ROOT in t1 && Grafted(t1, t', p, n, MoveTarget(Ordered(t, p), n, index))
  {
    var t1 := t - Under(t, n);
    MoveOrders(env, t, t', n, p, index);
    DeleteOrders(t, n);
    AncSelf(t, n);
    assert n !in t1;
  }

  lemma MoveRefines(env: Env, t: Nodes, t': Nodes, n: NodeId, p: NodeId, index: Option<int>)
    requires Separable(env, t, p, index) && IsTree(t) && Distinct(t) && MovedTo(env, t, t', n, p, index)
    ensures IsTree(t') && Distinct(t')
    ensures Abs(t', ROOT) == PlainMove(Abs(t, ROOT), n, p, index)
  {
    MoveOrders(env, t, t', n, p, index);
    var t1, q := t - Under(t, n), Ordered(t, p);
    MoveGrafts(env, t, t', n, p, index);
    MoveKeepsSubtree(env, t, t', n, p, index);
    AbsPrune(t, t1, n, ROOT);
    AbsGraft(t1, t', p, n, MoveTarget(q, n, index), ROOT);
    ChildIdsOfAbs(t, p);
    AbsFind(t, ROOT, n);
    assert n in Under(t, ROOT);
  }

  // ----- relabelling

  /** Only title and URL of `n` differ. */
  ghost predicate Edited(t: Nodes, t': Nodes, n: NodeId, newTitle: Option<string>, newUrl: Option<string>) {
    && n in t && t'.Keys == t.Keys
    && (forall y :: y in t && y != n ==> t'[y] == t[y])
    && t'[n] == t[n].(title := if newTitle.Some? then newTitle.value else t[n].title,
                      url := if newUrl.Some? then newUrl else t[n].url)
  }

  lemma EditedOrders(t: Nodes, t': Nodes, n: NodeId, newTitle: Option<string>, newUrl: Option<string>)
    requires Distinct(t) && Edited(t, t', n, newTitle, newUrl)
    ensures Distinct(t') && forall y :: Ordered(t', y) == Ordered(t, y)
  {
    forall y ensures Ordered(t', y) == Ordered(t, y) {
      assert Siblings(t', y) == Siblings(t, y);
      OrderedFrame(t, t', y);
    }
  }

  lemma RelabelOrders(t: Nodes, t': Nodes, n: NodeId, newTitle: Option<string>, newUrl: Option<string>)
    requires IsTree(t) && Distinct(t) && n in t
    requires t' == t[n := BookmarkEdit(newTitle, newUrl)(t[n])]
    ensures Distinct(t') && Relabelled(t, t', n, newTitle, newUrl)
  {
    assert Edited(t, t', n, newTitle, newUrl);
    hide BookmarkEdit, Distinct;
    RelabelKeepsTree(t, t');
    EditedOrders(t, t', n, newTitle, newUrl);
    hide IsTree, Ordered;
  }

  lemma RelabelRefines(t: Nodes, t': Nodes, n: NodeId, newTitle: Option<string>, newUrl: Option<string>)
    requires IsTree(t) && Distinct(t) && n in t
    requires t' == t[n := BookmarkEdit(newTitle, newUrl)(t[n])]
    ensures IsTree(t') && Distinct(t')
    ensures Abs(t', ROOT) == Relabel(Abs(t, ROOT), n, newTitle, newUrl)
  {
    RelabelOrders(t, t', n, newTitle, newUrl);
    hide BookmarkEdit, Abs, Relabel;
    AbsRelabel(t, t', n, newTitle, newUrl, ROOT);
  }

  lemma {:induction false} RelabelNothing(r: Rose, n: NodeId)
    ensures Relabel(r, n, None, None) == r
  {
    var r' := Relabel(r, n, None, None);
    forall i | 0 <= i < |r.kids| ensures r'.kids[i] == r.kids[i] { RelabelNothing(r.kids[i], n); }
    assert r'.kids == r.kids;
  }

  // ----- one op, and whole batches

  ghost predicate RefinesPlainly(env: Env, t: Nodes, minted: nat, op: Op) {
    var st := ApplyOp(env, t, minted, op);
    && IsTree(t) && IsTree(st.rows) && Distinct(st.rows)
    && Plain(Abs(st.rows, ROOT), st.minted) == PlainOp(env, Plain(Abs(t, ROOT), minted), op)
  }

  lemma EditOpRefines(env: Env, t: Nodes, minted: nat, op: Op)
    requires Sound(env, t, minted) && Applicable(env, t, op)
    requires op.Rename? || op.UpdateBookmark?
    ensures RefinesPlainly(env, t, minted, op)
  {
    hide Abs;
    var t' := ApplyOp(env, t, minted, op).rows;
    match op
    case Rename(n, title) => RelabelRefines(t, t', n, Some(title), None);
    case UpdateBookmark(n, newTitle, newUrl) =>
      if newTitle.None? && newUrl.None? {
        RelabelNothing(Abs(t, ROOT), n);
      } else {
        RelabelRefines(t, t', n, newTitle, newUrl);
      }
  }

  lemma MoveOpRefines(env: Env, t: Nodes, minted: nat, op: Op)
    requires Sound(env, t, minted) && Applicable(env, t, op) && Served(env, t, op) && op.Move?
    ensures RefinesPlainly(env, t, minted, op)
  {
    hide Abs, PlainMove;
    MoveRefines(env, t, ApplyOp(env, t, minted, op).rows, op.node, op.newParent, op.index);
  }

  lemma AddSteps(env: Env, t: Nodes, minted: nat, r: Rose, op: Op, kind: Kind, url: Option<string>)
    requires if kind == Folder then op.AddFolder? && url == None else op.AddBookmark? && url == Some(op.link)
    ensures ApplyOp(env, t, minted, op) == AddRow(env, t, minted, op.parent, op.index, kind, op.title, url)
    ensures ApplyOp(env, t, minted, op).minted == minted + 1
    ensures PlainOp(env, Plain(r, minted), op) ==
            Plain(PlainAdd(r, op.parent, op.index, Rose(env.newId(minted), kind, op.title, url, [])), minted + 1)
  {
    hide InsertRow, PlaceOrd, OrdsBelow, PlainAdd;
  }

  lemma AddOpRefines(env: Env, t: Nodes, minted: nat, op: Op)
    requires Sound(env, t, minted) && Applicable(env, t, op) && Served(env, t, op)
    requires op.AddFolder? || op.AddBookmark?
    ensures RefinesPlainly(env, t, minted, op)
  {
    assert IsTree(t) && ROOT in t;
    hide ApplyOp, PlainOp, AddRow, Abs, PlainAdd, Separable, Distinct, Fresh, GoodIds;
    var kind := if op.AddFolder? then Folder else Bookmark;
    var url := if op.AddFolder? then None else Some(op.link);
    AddSteps(env, t, minted, Abs(t, ROOT), op, kind, url);
    AddRefines(env, t, minted, op.parent, op.index, kind, op.title, url);
  }

  lemma OpRefines(env: Env, t: Nodes, minted: nat, op: Op)
    requires Sound(env, t, minted) && Applicable(env, t, op) && Served(env, t, op)
    ensures RefinesPlainly(env, t, minted, op)
  {
    match op
    case SaveSession(_, _, _, _) => SessionRefines(env, t, minted, op);
    case Move(_, _, _) => MoveOpRefines(env, t, minted, op);
    case Delete(n, _) => DeleteRefines(t, n);
    case Rename(_, _) => EditOpRefines(env, t, minted, op);
    case UpdateBookmark(_, _, _) => EditOpRefines(env, t, minted, op);
    case _ => AddOpRefines(env, t, minted, op);
  }

  /** Every op among the first `k` is served at the table it meets, if ords are distinct there. */
  ghost predicate BatchServed(env: Env, t: Nodes, minted: nat, ops: seq<Op>, k: nat)
    requires k <= |ops|
  {
    forall j: nat :: j < k ==> ServedAt(env, StoreAfter(env, t, minted, ops, j).rows, ops[j])
  }

  ghost predicate ServedAt(env: Env, t: Nodes, op: Op) {
    Distinct(t) ==> Served(env, t, op)
  }

  lemma ExactServesBatch(env: Env, t: Nodes, minted: nat, ops: seq<Op>, k: nat)
    requires Exact(env) && k <= |ops|
    ensures BatchServed(env, t, minted, ops, k)
  {
    hide StoreAfter, Exact, Served, Distinct;
    forall j: nat | j < k ensures ServedAt(env, StoreAfter(env, t, minted, ops, j).rows, ops[j]) {
      var rows := StoreAfter(env, t, minted, ops, j).rows;
      if Distinct(rows) { ExactServes(env, rows, ops[j]); }
    }
  }

  /** Whole-batch refinement: the tree of the resulting table is the initial tree after the
      plain operations, op by op, for every accepted batch the store gets through and the
      arithmetic serves. */
  lemma {:induction false} BatchRefines(env: Env, t: Nodes, minted: nat, ops: seq<Op>, k: nat)
    requires Sound(env, t, minted) && k <= |ops| && ShadowAfter(env, t, ops, k).Pass?
    requires StoreAfter(env, t, minted, ops, k).err.None? && BatchServed(env, t, minted, ops, k)
    ensures var st := StoreAfter(env, t, minted, ops, k);
            && IsTree(st.rows) && Distinct(st.rows)
            && Plain(Abs(st.rows, ROOT), st.minted) == PlainAfter(env, Plain(Abs(t, ROOT), minted), ops, k)
    decreases k
  {
    hide ApplyOp, ValidateOp, PlainOp, Abs, Served;
    if k > 0 {
      assert ServedAt(env, StoreAfter(env, t, minted, ops, k - 1).rows, ops[k - 1]);
      BatchRefines(env, t, minted, ops, k - 1);
      BatchSimulation(env, t, minted, ops, k - 1);
      var s, st := ShadowAfter(env, t, ops, k - 1).state, StoreAfter(env, t, minted, ops, k - 1);
      AcceptedIsApplicable(env, t.Keys, s, st, ops[k - 1]);
      OpRefines(env, st.rows, st.minted, ops[k - 1]);
    }
  }

  // ----- where a moved node ends up

  /** Move placement: into another folder, the node takes exactly the index and leaves its
      old list; within its own folder at position `j`, it ends at the index when that is at
      most `j` and one before it otherwise. No other list changes. */
  lemma MovePlacement(env: Env, t: Nodes, minted: nat, n: NodeId, p: NodeId, i: nat)
    requires Sound(env, t, minted) && Applicable(env, t, Move(n, p, Some(i))) && i <= |Ordered(t, p)|
    requires Separable(env, t, p, Some(i))
    ensures var t' := ApplyOp(env, t, minted, Move(n, p, Some(i))).rows;
            var q := Ordered(t, p);
            && (n !in q ==> Ordered(t', p) == q[..i] + [n] + q[i..])
            && (forall j: nat :: j < |q| && q[j] == n ==>
                  Without(q, n) == q[..j] + q[j + 1..] && |Ordered(t', p)| == |q| &&
                  Without(Ordered(t', p), n) == Without(q, n) &&
                  Ordered(t', p)[if i <= j then i else i - 1] == n)
            && (forall y :: y != p ==> Ordered(t', y) == Without(Ordered(t, y), n))
            && (forall y :: y != p && n !in Ordered(t, y) ==> Ordered(t', y) == Ordered(t, y))
  {
    var t' := ApplyOp(env, t, minted, Move(n, p, Some(i))).rows;
    assert MovedTo(env, t, t', n, p, Some(i));
    MovedPuts(env, t, t', n, p, Some(i));
    PutOrders(env, t, t', n, p, Some(i));
    hide ApplyOp, Placed, Separable, PlaceOrd, Distinct, IsTree, Anc, Siblings;
    var q := Ordered(t, p);
    assert Position(Some(i), |q|) == i && Ordered(t', p) == Placed(q, n, i);
    if n !in q { PlacedNew(q, n, i); }
    forall j: nat | j < |q| && q[j] == n
      ensures Without(q, n) == q[..j] + q[j + 1..] && |Ordered(t', p)| == |q|
      ensures Without(Ordered(t', p), n) == Without(q, n)
      ensures Ordered(t', p)[if i <= j then i else i - 1] == n
    {
      PlacedWithin(q, j, i);
    }
    forall y | y != p && n !in Ordered(t, y) ensures Ordered(t', y) == Ordered(t, y) {
      WithoutAbsent(Ordered(t, y), n);
    }
  }

  lemma PlacedWithin(q: seq<NodeId>, j: nat, i: nat)
    requires NoDup(q) && j < |q| && i <= |q|
    ensures var placed, n := Placed(q, q[j], i), q[j];
            && Without(q, n) == q[..j] + q[j + 1..] && |placed| == |q|
            && Without(placed, n) == Without(q, n)
            && placed[if i <= j then i else i - 1] == n
  {
    WithoutOne(q, j);
    PlacedOwn(q, j, i);
    PlacedRest(q, q[j], i);
    hide Placed, Without, NoDup;
  }

  lemma PlacedRest(q: seq<NodeId>, n: NodeId, i: nat)
    requires i <= |q|
    ensures Without(Placed(q, n, i), n) == Without(q, n)
  {
    var a, b := Without(q[..i], n), Without(q[i..], n);
    assert n !in a && n !in b by { WithoutElems(q[..i], n); WithoutElems(q[i..], n); }
    assert Placed(q, n, i) == a + [n] + b;
    assert Without([n], n) == [];
    hide Placed, Without;
    calc {
      Without(Placed(q, n, i), n);
      { WithoutConcat(a + [n], b, n); }
      Without(a + [n], n) + Without(b, n);
      { WithoutConcat(a, [n], n); }
      Without(a, n) + Without(b, n);
      { WithoutAbsent(a, n); WithoutAbsent(b, n); }
      a + b;
      { WithoutConcat(q[..i], q[i..], n); assert q == q[..i] + q[i..]; }
      Without(q, n);
    }
  }

  // ----- what a delete removes

  /** The cascade removes exactly the nodes whose parent chain contains the deleted one,
      whatever the recursive flag says, and keeps every other row as it is. */
  lemma CascadeExact(env: Env, t: Nodes, minted: nat, n: NodeId, recursive: bool)
    requires IsTree(t) && n in t && n != ROOT
    ensures var t' := ApplyOp(env, t, minted, Delete(n, recursive)).rows;
            && (forall x :: x in t' <==> x in t && !Anc(t, n, x))
            && (forall x :: x in t' ==> t'[x] == t[x])
            && |t'| == |t| - |Preorder(Abs(t, n))|
  {
    var t' := ApplyOp(env, t, minted, Delete(n, recursive)).rows;
    WalkVisitsOnce(t, n);
    var walk := Preorder(Abs(t, n));
    NoDupSize(walk);
    assert (set x | x in walk) == Under(t, n);
    assert t'.Keys == t.Keys - Under(t, n);
    assert |t.Keys - Under(t, n)| == |t.Keys| - |Under(t, n)|;
    assert |t'| == |t'.Keys|;
  }
}
