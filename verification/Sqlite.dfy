/** The `nodes` table and the operations on it (pkg/storage/sqlite/sqlite.go). The SQL
    engine is represented by the contract of its statements: primary key, self-referencing
    foreign key with cascading delete, ordered select, and rollback. */
module Sqlite {
  import opened Model
  import opened Chains
  import opened Order

  /** The table after some statements, the ids used up so far, and the error that stopped
      the transaction, if any. */
  datatype Applied = Applied(rows: Nodes, minted: nat, err: Option<DbError>)

  // ----- SQL statements

  function InsertRow(t: Nodes, id: NodeId, row: Node): Result<Nodes, DbError> {
    if id in t then Err(PrimaryKey)
    else if row.parent.Some? && row.parent.value != id && row.parent.value !in t then Err(ForeignKey)
    else Ok(t[id := row])
  }

  /** `UPDATE ... WHERE id = ?` followed by the rows-affected check. */
  function UpdateRow(t: Nodes, id: NodeId, edit: Node -> Node): Result<Nodes, DbError> {
    if id !in t then Err(NoRowsAffected)
    else
      var row := edit(t[id]);
      if row.parent.Some? && row.parent.value !in t then Err(ForeignKey)
      else Ok(t[id := row])
  }

  /** `DELETE ... WHERE id = ?` with `ON DELETE CASCADE`. */
  ghost function DeleteRow(t: Nodes, id: NodeId): Result<Nodes, DbError> {
    if id !in t then Err(NoRowsAffected) else Ok(t - Under(t, id))
  }

  ghost function OrdsBelow(t: Nodes, p: NodeId): seq<real> {
    Ords(t, Ordered(t, p))
  }

  // ----- operations

  function Conclude(t: Nodes, minted: nat, outcome: Result<Nodes, DbError>): Applied {
    match outcome
    case Ok(t') => Applied(t', minted, None)
    case Err(e) => Applied(t, minted, Some(e))
  }

  ghost function AddRow(env: Env, t: Nodes, minted: nat, p: NodeId, index: Option<int>,
                        kind: Kind, title: string, url: Option<string>): Applied
  {
    var row := Node(kind, title, url, Some(p), PlaceOrd(env, OrdsBelow(t, p), index));
    Conclude(t, minted + 1, InsertRow(t, env.newId(minted), row))
  }

  function TabOrd(env: Env, idx: nat): real {
    env.round(idx as real)
  }

  function TabRow(env: Env, folder: NodeId, tab: Tab, idx: nat): Node {
    Node(Bookmark, tab.title, Some(tab.url), Some(folder), TabOrd(env, idx))
  }

  function AddTab(env: Env, t: Nodes, minted: nat, folder: NodeId, tab: Tab, idx: nat): Applied {
    Conclude(t, minted + 1, InsertRow(t, env.newId(minted), TabRow(env, folder, tab, idx)))
  }

  /** The state after the first `k` tabs of a session have been inserted. */
  function TabsAfter(env: Env, start: Applied, folder: NodeId, tabs: seq<Tab>, k: nat): Applied
    requires k <= |tabs|
    decreases k
  {
    if k == 0 then start
    else
      var st := TabsAfter(env, start, folder, tabs, k - 1);
      if st.err.Some? then st else AddTab(env, st.rows, st.minted, folder, tabs[k - 1], k - 1)
  }

  function AddTabs(env: Env, st: Applied, folder: NodeId, tabs: seq<Tab>): Applied {
    if st.err.Some? then st else TabsAfter(env, st, folder, tabs, |tabs|)
  }

  function MoveEdit(p: NodeId, ord: real): Node -> Node {
    (row: Node) => row.(parent := Some(p), ord := ord)
  }

  function TitleEdit(title: string): Node -> Node {
    (row: Node) => row.(title := title)
  }

  function BookmarkEdit(newTitle: Option<string>, newUrl: Option<string>): Node -> Node {
    (row: Node) => row.(title := if newTitle.Some? then newTitle.value else row.title,
                        url := if newUrl.Some? then newUrl else row.url)
  }

  ghost function ApplyOp(env: Env, t: Nodes, minted: nat, op: Op): Applied {
    match op
    case AddFolder(p, title, index) => AddRow(env, t, minted, p, index, Folder, title, None)
    case AddBookmark(p, title, link, index) => AddRow(env, t, minted, p, index, Bookmark, title, Some(link))
    case Rename(n, title) => Conclude(t, minted, UpdateRow(t, n, TitleEdit(title)))
    case Move(n, p, index) =>
      Conclude(t, minted, UpdateRow(t, n, MoveEdit(p, PlaceOrd(env, OrdsBelow(t, p), index))))
    case Delete(n, _) => Conclude(t, minted, DeleteRow(t, n))
    case UpdateBookmark(n, newTitle, newUrl) =>
      if newTitle.None? && newUrl.None? then Applied(t, minted, None)
      else Conclude(t, minted, UpdateRow(t, n, BookmarkEdit(newTitle, newUrl)))
    case SaveSession(p, title, tabs, index) =>
      var st := AddRow(env, t, minted, p, index, Folder, title, None);
      AddTabs(env, st, env.newId(minted), tabs)
  }

  /** The transaction after its first `k` ops; it stands still after an error. */
  ghost function StoreAfter(env: Env, t: Nodes, minted: nat, ops: seq<Op>, k: nat): Applied
    requires k <= |ops|
    decreases k
  {
    if k == 0 then Applied(t, minted, None)
    else
      var st := StoreAfter(env, t, minted, ops, k - 1);
      if st.err.Some? then st else ApplyOp(env, st.rows, st.minted, ops[k - 1])
  }

  /** The whole batch: all of it is committed, or the table is as it was. */
  ghost function ApplyBatch(env: Env, t: Nodes, minted: nat, ops: seq<Op>): Applied {
    var st := StoreAfter(env, t, minted, ops, |ops|);
    if st.err.Some? then st.(rows := t) else st
  }

  lemma {:induction false} StoreErrorStays(env: Env, t: Nodes, minted: nat, ops: seq<Op>, j: nat, k: nat)
    requires j <= k <= |ops| && StoreAfter(env, t, minted, ops, j).err.Some?
    ensures StoreAfter(env, t, minted, ops, k) == StoreAfter(env, t, minted, ops, j)
    decreases k
  {
    hide ApplyOp;
    if j < k {
      StoreErrorStays(env, t, minted, ops, j, k - 1);
      assert StoreAfter(env, t, minted, ops, k - 1).err.Some?;
    }
  }

  // ----- loading

  /** `tree` is a faithful reading of the table: the same nodes, and for exactly the parents
      that have children, a list of them by ascending ord. */
  ghost predicate LoadedFrom(tree: Tree, t: Nodes) {
    && tree.nodes == t
    && (forall p :: p in tree.children <==> Siblings(t, p) != {})
    && forall p :: p in tree.children ==> ListsChildren(t, p, tree.children[p])
  }

  /** A result of the loading query: every row once, siblings by ascending ord. */
  ghost predicate RowOrder(t: Nodes, q: seq<NodeId>) {
    && NoDup(q)
    && (forall x :: x in q <==> x in t)
    && forall i, j :: 0 <= i < j < |q| && t[q[i]].parent == t[q[j]].parent ==> t[q[i]].ord <= t[q[j]].ord
  }

  ghost predicate LoadedSoFar(t: Nodes, seen: seq<NodeId>, p: NodeId, list: seq<NodeId>) {
    && NoDup(list) && Ascending(t, list)
    && forall x :: x in list <==> x in seen && x in t && t[x].parent == Some(p)
  }

  lemma {:induction false} ClosedHoldsSubtree(t: Nodes, n: NodeId, dead: set<NodeId>, x: NodeId, k: nat)
    requires n in dead && x in t && ChainTo(t, x, n, k)
    requires forall y :: y in t && t[y].parent.Some? && t[y].parent.value in dead ==> y in dead
    ensures x in dead
    decreases k
  {
    if k > 0 {
      var p := t[x].parent.value;
      if k > 1 {
        ClosedHoldsSubtree(t, n, dead, p, k - 1);
      }
    }
  }

  /** `q` holds the rows selected so far, `todo` those still to come, none of a smaller ord. */
  ghost predicate Selecting(t: Nodes, parent: Option<NodeId>, q: seq<NodeId>, todo: set<NodeId>) {
    && (forall x :: x in todo ==> x in t && t[x].parent == parent)
    && (forall x :: x in t && t[x].parent == parent ==> x in todo || x in q)
    && (forall x :: x in q ==> x in t && t[x].parent == parent && x !in todo)
    && (forall x, y :: x in q && y in todo ==> t[x].ord <= t[y].ord)
    && NoDup(q) && Ascending(t, q)
  }

  lemma SelectNext(t: Nodes, parent: Option<NodeId>, q: seq<NodeId>, todo: set<NodeId>, m: NodeId)
    requires Selecting(t, parent, q, todo)
    requires m in todo && forall y :: y in todo ==> t[m].ord <= t[y].ord
    ensures Selecting(t, parent, q + [m], todo - {m})
  {
    assert forall i :: 0 <= i < |q| ==> q[i] in q;
  }

  class Store {
    var rows: Nodes
    var minted: nat

    /** Opens an empty table and makes sure the root row exists. */
    constructor ()
      ensures rows == map[ROOT := Node(Folder, "Root", None, None, 0.0)] && minted == 0
    {
      rows := map[];
      minted := 0;
      new;
      EnsureRoot();
    }

    /** `INSERT OR IGNORE` of the root row. */
    method EnsureRoot()
      modifies this`rows
      ensures ROOT in old(rows) ==> rows == old(rows)
      ensures ROOT !in old(rows) ==> rows == old(rows)[ROOT := Node(Folder, "Root", None, None, 0.0)]
    {
      if ROOT !in rows {
        rows := rows[ROOT := Node(Folder, "Root", None, None, 0.0)];
      }
    }

    method NewNodeId(env: Env) returns (id: NodeId)
      modifies this`minted
      ensures id == env.newId(old(minted)) && minted == old(minted) + 1
    {
      id := env.newId(minted);
      minted := minted + 1;
    }

    /** The rows with a given parent, by ascending ord; ties come in any order. */
    method SelectByParent(parent: Option<NodeId>) returns (q: seq<NodeId>)
      ensures NoDup(q) && Ascending(rows, q)
      ensures forall x :: x in q <==> x in rows && rows[x].parent == parent
    {
      q := [];
      var todo := set x | x in rows && rows[x].parent == parent;
      while todo != {}
        invariant Selecting(rows, parent, q, todo)
        decreases todo
      {
        ghost var least := LeastOrd(rows, todo);
        var m :| m in todo && forall y :: y in todo ==> rows[m].ord <= rows[y].ord;
        SelectNext(rows, parent, q, todo, m);
        q := q + [m];
        todo := todo - {m};
      }
    }

    /** Scans the ordered select into a slice of ords. */
    method ScanOrds(p: NodeId) returns (ords: seq<real>)
      ensures ords == OrdsBelow(rows, p)
    {
      var q := SelectByParent(Some(p));
      ords := [];
      for i := 0 to |q|
        invariant |ords| == i && forall k :: 0 <= k < i ==> ords[k] == rows[q[k]].ord
      {
        assert q[i] in q;
        ords := ords + [rows[q[i]].ord];
      }
      OrdsUnique(rows, q, Ordered(rows, p));
      assert ords == Ords(rows, q);
    }

    /** Chooses the ord for a new child at `index` from the ords already below `p`. */
    method CalcOrd(env: Env, p: NodeId, index: Option<int>) returns (ord: real)
      ensures ord == PlaceOrd(env, OrdsBelow(rows, p), index)
    {
      var ords := ScanOrds(p);
      var pos := |ords|;
      if index.Some? {
        pos := index.value;
        if pos < 0 {
          pos := 0;
        }
        if pos > |ords| {
          pos := |ords|;
        }
      }
      if |ords| == 0 {
        return 0.0;
      }
      if pos == 0 {
        return env.round(ords[0] - 1.0);
      }
      if pos == |ords| {
        return env.round(ords[|ords| - 1] + 1.0);
      }
      return env.round(env.round(ords[pos - 1] + ords[pos]) / 2.0);
    }

    method Insert(id: NodeId, row: Node) returns (err: Option<DbError>)
      modifies this`rows
      ensures Applied(rows, minted, err) == Conclude(old(rows), minted, InsertRow(old(rows), id, row))
    {
      var outcome := InsertRow(rows, id, row);
      if outcome.Err? {
        return Some(outcome.error);
      }
      rows := outcome.value;
      return None;
    }

    method Update(id: NodeId, edit: Node -> Node) returns (err: Option<DbError>)
      modifies this`rows
      ensures Applied(rows, minted, err) == Conclude(old(rows), minted, UpdateRow(old(rows), id, edit))
    {
      var outcome := UpdateRow(rows, id, edit);
      if outcome.Err? {
        return Some(outcome.error);
      }
      rows := outcome.value;
      return None;
    }

    /** The closure computed by the cascade: children of deleted rows, round by round. */
    method Cascade(n: NodeId) returns (dead: set<NodeId>)
      requires n in rows
      ensures dead == Under(rows, n)
    {
      dead := {n};
      AncSelf(rows, n);
      var next := set x | x in rows && x !in dead && rows[x].parent.Some? && rows[x].parent.value in dead;
      while next != {}
        invariant n in dead && dead <= Under(rows, n)
        invariant next == set x | x in rows && x !in dead && rows[x].parent.Some? && rows[x].parent.value in dead
        decreases rows.Keys - dead
      {
        forall x | x in next ensures x in Under(rows, n) { AncStep(rows, n, x); }
        var x :| x in next;
        assert x in rows.Keys - dead;
        dead := dead + next;
        next := set x | x in rows && x !in dead && rows[x].parent.Some? && rows[x].parent.value in dead;
      }
      forall x | x in Under(rows, n) ensures x in dead {
        var k: nat :| ChainTo(rows, x, n, k);
        forall y | y in rows && rows[y].parent.Some? && rows[y].parent.value in dead ensures y in dead {
          assert y !in next;
        }
        ClosedHoldsSubtree(rows, n, dead, x, k);
      }
    }

    method ApplyDelete(n: NodeId) returns (err: Option<DbError>)
      modifies this`rows
      ensures Applied(rows, minted, err) == Conclude(old(rows), minted, DeleteRow(old(rows), n))
      ensures err == if n in old(rows) then None else Some(NoRowsAffected)
      ensures forall x :: x in rows <==> x in old(rows) && (n in old(rows) ==> !Anc(old(rows), n, x))
      ensures forall x :: x in rows ==> rows[x] == old(rows)[x]
    {
      if n !in rows {
        return Some(NoRowsAffected);
      }
      var dead := Cascade(n);
      rows := rows - dead;
      return None;
    }

    /** Common part of adding a folder and adding a bookmark. */
    method ApplyAdd(env: Env, p: NodeId, index: Option<int>, kind: Kind, title: string, url: Option<string>)
      returns (err: Option<DbError>)
      modifies this
      ensures Applied(rows, minted, err) == AddRow(env, old(rows), old(minted), p, index, kind, title, url)
      ensures var id := env.newId(old(minted));
              && (err == Some(PrimaryKey) <==> id in old(rows))
              && (err == Some(ForeignKey) <==> id !in old(rows) && p != id && p !in old(rows))
              && (err.Some? ==> rows == old(rows))
              && (err.None? ==>
                    rows == old(rows)[id := Node(kind, title, url, Some(p),
                                                 PlaceOrd(env, OrdsBelow(old(rows), p), index))])
    {
      var ord := CalcOrd(env, p, index);
      var id := NewNodeId(env);
      err := Insert(id, Node(kind, title, url, Some(p), ord));
    }

    method ApplyMove(env: Env, n: NodeId, p: NodeId, index: Option<int>) returns (err: Option<DbError>)
      modifies this`rows
      ensures Applied(rows, minted, err) == ApplyOp(env, old(rows), minted, Move(n, p, index))
      ensures err == Some(NoRowsAffected) <==> n !in old(rows)
      ensures err == Some(ForeignKey) <==> n in old(rows) && p !in old(rows)
    {
      var ord := CalcOrd(env, p, index);
      err := Update(n, MoveEdit(p, ord));
    }

    method ApplyUpdateBookmark(env: Env, n: NodeId, newTitle: Option<string>, newUrl: Option<string>)
      returns (err: Option<DbError>)
      modifies this`rows
      ensures Applied(rows, minted, err) == ApplyOp(env, old(rows), minted, UpdateBookmark(n, newTitle, newUrl))
      ensures newTitle.None? && newUrl.None? ==> err.None? && rows == old(rows)
      ensures err == Some(NoRowsAffected) <==> n !in old(rows) && (newTitle.Some? || newUrl.Some?)
    {
      if newTitle.None? && newUrl.None? {
        return None;
      }
      err := Update(n, BookmarkEdit(newTitle, newUrl));
    }

    method InsertTab(env: Env, folder: NodeId, tab: Tab, idx: nat) returns (err: Option<DbError>)
      modifies this
      ensures Applied(rows, minted, err) == AddTab(env, old(rows), old(minted), folder, tab, idx)
    {
      var id := NewNodeId(env);
      err := Insert(id, TabRow(env, folder, tab, idx));
    }

    method InsertTabs(env: Env, folder: NodeId, tabs: seq<Tab>) returns (err: Option<DbError>)
      modifies this
      ensures Applied(rows, minted, err) == AddTabs(env, Applied(old(rows), old(minted), None), folder, tabs)
    {
      hide AddTab;
      ghost var start := Applied(rows, minted, None);
      for i := 0 to |tabs|
        invariant Applied(rows, minted, None) == TabsAfter(env, start, folder, tabs, i)
      {
        err := InsertTab(env, folder, tabs[i], i);
        if err.Some? {
          TabErrorStays(env, start, folder, tabs, i + 1, |tabs|);
          return;
        }
      }
      return None;
    }

    method ApplySaveSession(env: Env, p: NodeId, title: string, tabs: seq<Tab>, index: Option<int>)
      returns (err: Option<DbError>)
      modifies this
      ensures Applied(rows, minted, err) ==
              AddTabs(env, AddRow(env, old(rows), old(minted), p, index, Folder, title, None),
                      env.newId(old(minted)), tabs)
    {
      var ord := CalcOrd(env, p, index);
      var folder := NewNodeId(env);
      err := Insert(folder, Node(Folder, title, None, Some(p), ord));
      if err.None? {
        err := InsertTabs(env, folder, tabs);
      }
    }

    method ApplyOne(env: Env, op: Op) returns (err: Option<DbError>)
      modifies this
      ensures Applied(rows, minted, err) == ApplyOp(env, old(rows), old(minted), op)
    {
      match op
      case AddFolder(p, title, index) => err := ApplyAdd(env, p, index, Folder, title, None);
      case AddBookmark(p, title, link, index) => err := ApplyAdd(env, p, index, Bookmark, title, Some(link));
      case Rename(n, title) => err := Update(n, TitleEdit(title));
      case Move(n, p, index) => err := ApplyMove(env, n, p, index);
      case Delete(n, _) => err := ApplyDelete(n);
      case UpdateBookmark(n, newTitle, newUrl) => err := ApplyUpdateBookmark(env, n, newTitle, newUrl);
      case SaveSession(p, title, tabs, index) => err := ApplySaveSession(env, p, title, tabs, index);
    }

    /** One transaction: commits all ops and reads the tree back, or rolls back. */
    method ApplyOps(env: Env, ops: seq<Op>) returns (outcome: Result<Tree, DbError>)
      modifies this
      ensures var done := ApplyBatch(env, old(rows), old(minted), ops);
              && rows == done.rows && minted == done.minted
              && (outcome.Ok? <==> done.err.None?)
              && (outcome.Err? ==> done.err == Some(outcome.error))
      ensures outcome.Err? ==> rows == old(rows)
      ensures outcome.Ok? ==> LoadedFrom(outcome.value, rows)
    {
      var begin := rows;
      for i := 0 to |ops|
        invariant Applied(rows, minted, None) == StoreAfter(env, old(rows), old(minted), ops, i)
      {
        var err := ApplyOne(env, ops[i]);
        if err.Some? {
          StoreErrorStays(env, old(rows), old(minted), ops, i + 1, |ops|);
          rows := begin;
          return Err(err.value);
        }
      }
      var tree := LoadTree();
      return Ok(tree);
    }

    /** Runs the loading query: rows without parent first, then one parent after another.
        The order among parents is left open; nothing depends on it. */
    method QueryAll() returns (q: seq<NodeId>)
      ensures RowOrder(rows, q)
    {
      q := SelectByParent(None);
      var todo := set x | x in rows && rows[x].parent.Some? :: rows[x].parent.value;
      ghost var all := todo;
      while todo != {}
        invariant todo <= all
        invariant forall x :: x in rows && rows[x].parent.Some? ==> rows[x].parent.value in all
        invariant forall x :: x in q <==> x in rows && (rows[x].parent.Some? ==> rows[x].parent.value !in todo)
        invariant NoDup(q)
        invariant forall i, j :: 0 <= i < j < |q| && rows[q[i]].parent == rows[q[j]].parent
                                 ==> rows[q[i]].ord <= rows[q[j]].ord
        decreases todo
      {
        var p :| p in todo;
        var group := SelectByParent(Some(p));
        assert forall i :: 0 <= i < |q| ==> q[i] in q;
        assert forall i :: 0 <= i < |group| ==> group[i] in group;
        q := q + group;
        todo := todo - {p};
      }
    }

    method LoadTree() returns (tree: Tree)
      ensures LoadedFrom(tree, rows)
    {
      var q := QueryAll();
      var nodes: Nodes := map[];
      var children: map<NodeId, seq<NodeId>> := map[];
      for i := 0 to |q|
        invariant forall x :: x in nodes <==> x in q[..i]
        invariant forall x :: x in nodes ==> x in rows && nodes[x] == rows[x]
        invariant AllLoadedSoFar(rows, q[..i], children)
      {
        var id := q[i];
        assert id in q;
        assert q[..i + 1] == q[..i] + [id];
        nodes := nodes[id := rows[id]];
        LoadOneMore(rows, q, i, children);
        if rows[id].parent.Some? {
          var p := rows[id].parent.value;
          children := children[p := Kids(children, p) + [id]];
        }
      }
      assert q[..|q|] == q;
      assert nodes == rows;
      AllLoaded(rows, q, children);
      tree := Tree(nodes, children);
    }
  }

  ghost predicate AllLoadedSoFar(t: Nodes, seen: seq<NodeId>, children: map<NodeId, seq<NodeId>>) {
    && (forall p :: LoadedSoFar(t, seen, p, Kids(children, p)))
    && forall p :: p in children ==> children[p] != []
  }

  lemma AppendLoaded(t: Nodes, q: seq<NodeId>, i: nat, p: NodeId, list: seq<NodeId>)
    requires RowOrder(t, q) && i < |q| && t[q[i]].parent == Some(p)
    requires LoadedSoFar(t, q[..i], p, list)
    ensures LoadedSoFar(t, q[..i + 1], p, list + [q[i]])
  {
    assert q[..i + 1] == q[..i] + [q[i]];
    assert q[i] !in q[..i];
    forall k | 0 <= k < |list| ensures t[list[k]].ord <= t[q[i]].ord {
      assert list[k] in list;
      var m :| 0 <= m < i && q[m] == list[k];
    }
  }

  lemma LoadOneMore(t: Nodes, q: seq<NodeId>, i: nat, children: map<NodeId, seq<NodeId>>)
    requires RowOrder(t, q) && i < |q| && q[i] in t
    requires AllLoadedSoFar(t, q[..i], children)
    ensures var parent := t[q[i]].parent;
            AllLoadedSoFar(t, q[..i + 1],
                           if parent.None? then children
                           else children[parent.value := Kids(children, parent.value) + [q[i]]])
  {
    var id := q[i];
    var parent := t[id].parent;
    var after := if parent.None? then children else children[parent.value := Kids(children, parent.value) + [id]];
    assert q[..i + 1] == q[..i] + [id];
    forall p ensures LoadedSoFar(t, q[..i + 1], p, Kids(after, p)) {
      assert LoadedSoFar(t, q[..i], p, Kids(children, p));
      if parent == Some(p) { AppendLoaded(t, q, i, p, Kids(children, p)); }
    }
  }

  lemma AllLoaded(t: Nodes, q: seq<NodeId>, children: map<NodeId, seq<NodeId>>)
    requires RowOrder(t, q) && AllLoadedSoFar(t, q, children)
    ensures LoadedFrom(Tree(t, children), t)
  {
    forall p ensures p in children <==> Siblings(t, p) != {} {
      assert LoadedSoFar(t, q, p, Kids(children, p));
      if p in children {
        assert children[p][0] in Kids(children, p);
        assert children[p][0] in Siblings(t, p);
      }
      if Siblings(t, p) != {} {
        var x :| x in Siblings(t, p);
        assert x in Kids(children, p);
      }
    }
    forall p | p in children ensures ListsChildren(t, p, children[p]) {
      assert LoadedSoFar(t, q, p, Kids(children, p));
    }
  }

  lemma {:induction false} TabErrorStays(env: Env, start: Applied, folder: NodeId, tabs: seq<Tab>, j: nat, k: nat)
    requires j <= k <= |tabs| && TabsAfter(env, start, folder, tabs, j).err.Some?
    ensures TabsAfter(env, start, folder, tabs, k) == TabsAfter(env, start, folder, tabs, j)
    decreases k
  {
    hide AddTab;
    if j < k {
      TabErrorStays(env, start, folder, tabs, j, k - 1);
      assert TabsAfter(env, start, folder, tabs, k - 1).err.Some?;
    }
  }
}
