/** Rounding touches ords and nothing else: two machines that differ only in how they round
    accept the same batches, fail in the same way, mint the same ids, and hold tables that
    differ at most in ords. */
module Structure {
  import opened Model
  import opened Chains
  import opened Order
  import opened Validator
  import opened Sqlite

  ghost predicate SameButRounding(e: Env, e': Env) {
    e' == e.(round := e'.round)
  }

  ghost predicate SameButOrds(t: Nodes, t': Nodes) {
    && t.Keys == t'.Keys
    && forall x :: x in t ==> t'[x] == t[x].(ord := t'[x].ord)
  }

  ghost predicate SameVerdict(v: Verdict, v': Verdict) {
    match v
    case Reject(e) => v' == Reject(e)
    case Pass(s) => v'.Pass? && SameButOrds(s, v'.state)
  }

  ghost predicate SameApplied(a: Applied, a': Applied) {
    SameButOrds(a.rows, a'.rows) && a.minted == a'.minted && a.err == a'.err
  }

  // ----- chains and child counts

  lemma SameChains(t: Nodes, t': Nodes)
    requires SameButOrds(t, t')
    ensures forall a, x :: Anc(t, a, x) <==> Anc(t', a, x)
    ensures forall n :: Under(t, n) == Under(t', n)
    ensures forall p :: Siblings(t, p) == Siblings(t', p)
  {
    forall a, x ensures Anc(t, a, x) <==> Anc(t', a, x) {
      forall y | Anc(t, y, x) ensures SameLink(t, t', y) { }
      AncFrame(t, t', x);
    }
    forall n ensures Under(t, n) == Under(t', n) {
      hide Anc;
      forall x ensures x in Under(t, n) <==> x in Under(t', n) { }
    }
    forall p ensures Siblings(t, p) == Siblings(t', p) {
      forall x ensures x in Siblings(t, p) <==> x in Siblings(t', p) { }
    }
  }

  // ----- validation

  lemma OpVerdict(e: Env, e': Env, s: Nodes, s': Nodes, op: Op)
    requires SameButRounding(e, e') && SameButOrds(s, s')
    ensures SameVerdict(ValidateOp(e, s, op), ValidateOp(e', s', op))
  {
    SameChains(s, s');
    hide Anc, Siblings, Under, ValidUrl;
    assert forall tabs :: UrlsValid(e, tabs) == UrlsValid(e', tabs);
  }

  lemma {:induction false} BatchVerdict(e: Env, e': Env, s: Nodes, s': Nodes, ops: seq<Op>, k: nat)
    requires SameButRounding(e, e') && SameButOrds(s, s') && k <= |ops|
    ensures SameVerdict(ShadowAfter(e, s, ops, k), ShadowAfter(e', s', ops, k))
    decreases k
  {
    hide ValidateOp, SameButOrds, SameButRounding;
    if k > 0 {
      BatchVerdict(e, e', s, s', ops, k - 1);
      var v, v' := ShadowAfter(e, s, ops, k - 1), ShadowAfter(e', s', ops, k - 1);
      if v.Pass? { OpVerdict(e, e', v.state, v'.state, ops[k - 1]); }
    }
  }

  // ----- the store

  lemma SameInsert(t: Nodes, t': Nodes, minted: nat, id: NodeId, row: Node, row': Node)
    requires SameButOrds(t, t') && row' == row.(ord := row'.ord)
    ensures SameApplied(Conclude(t, minted, InsertRow(t, id, row)), Conclude(t', minted, InsertRow(t', id, row')))
  {
  }

  lemma SameUpdate(t: Nodes, t': Nodes, minted: nat, id: NodeId, edit: Node -> Node, edit': Node -> Node)
    requires SameButOrds(t, t')
    requires id in t ==> edit'(t'[id]) == edit(t[id]).(ord := edit'(t'[id]).ord)
    ensures SameApplied(Conclude(t, minted, UpdateRow(t, id, edit)), Conclude(t', minted, UpdateRow(t', id, edit')))
  {
  }

  lemma SameDelete(t: Nodes, t': Nodes, minted: nat, n: NodeId)
    requires SameButOrds(t, t')
    ensures SameApplied(Conclude(t, minted, DeleteRow(t, n)), Conclude(t', minted, DeleteRow(t', n)))
  {
    SameChains(t, t');
    hide Under;
  }

  lemma SameAdd(e: Env, e': Env, t: Nodes, t': Nodes, minted: nat, p: NodeId, index: Option<int>,
                kind: Kind, title: string, url: Option<string>)
    requires SameButRounding(e, e') && SameButOrds(t, t')
    ensures SameApplied(AddRow(e, t, minted, p, index, kind, title, url),
                        AddRow(e', t', minted, p, index, kind, title, url))
  {
    hide SameButOrds, SameApplied, PlaceOrd;
    SameInsert(t, t', minted + 1, e.newId(minted),
               Node(kind, title, url, Some(p), PlaceOrd(e, OrdsBelow(t, p), index)),
               Node(kind, title, url, Some(p), PlaceOrd(e', OrdsBelow(t', p), index)));
  }

  lemma {:induction false} SameTabs(e: Env, e': Env, st: Applied, st': Applied, folder: NodeId, tabs: seq<Tab>, k: nat)
    requires SameButRounding(e, e') && SameApplied(st, st') && k <= |tabs|
    ensures SameApplied(TabsAfter(e, st, folder, tabs, k), TabsAfter(e', st', folder, tabs, k))
    decreases k
  {
    if k > 0 {
      SameTabs(e, e', st, st', folder, tabs, k - 1);
      var a, a' := TabsAfter(e, st, folder, tabs, k - 1), TabsAfter(e', st', folder, tabs, k - 1);
      assert SameButOrds(a.rows, a'.rows) && a.minted == a'.minted && a.err == a'.err;
      hide SameButOrds, InsertRow, Conclude;
      SameInsert(a.rows, a'.rows, a.minted + 1, e.newId(a.minted),
                 TabRow(e, folder, tabs[k - 1], k - 1), TabRow(e', folder, tabs[k - 1], k - 1));
    }
  }

  lemma SameEdit(e: Env, e': Env, t: Nodes, t': Nodes, minted: nat, op: Op)
    requires SameButRounding(e, e') && SameButOrds(t, t')
    requires op.Rename? || op.Move? || op.UpdateBookmark?
    ensures SameApplied(ApplyOp(e, t, minted, op), ApplyOp(e', t', minted, op))
  {
    hide PlaceOrd, UpdateRow, Conclude;
    match op
    case Rename(n, title) => SameUpdate(t, t', minted, n, TitleEdit(title), TitleEdit(title));
    case Move(n, p, index) =>
      SameUpdate(t, t', minted, n, MoveEdit(p, PlaceOrd(e, OrdsBelow(t, p), index)),
                 MoveEdit(p, PlaceOrd(e', OrdsBelow(t', p), index)));
    case UpdateBookmark(n, newTitle, newUrl) =>
      SameUpdate(t, t', minted, n, BookmarkEdit(newTitle, newUrl), BookmarkEdit(newTitle, newUrl));
  }

  lemma SameSession(e: Env, e': Env, t: Nodes, t': Nodes, minted: nat, op: Op)
    requires SameButRounding(e, e') && SameButOrds(t, t') && op.SaveSession?
    ensures SameApplied(ApplyOp(e, t, minted, op), ApplyOp(e', t', minted, op))
  {
    SameAdd(e, e', t, t', minted, op.parent, op.index, Folder, op.title, None);
    var st := AddRow(e, t, minted, op.parent, op.index, Folder, op.title, None);
    var st' := AddRow(e', t', minted, op.parent, op.index, Folder, op.title, None);
    SameTabs(e, e', st, st', e.newId(minted), op.tabs, |op.tabs|);
    hide AddRow, TabsAfter, SameButOrds;
  }

  lemma SameOp(e: Env, e': Env, t: Nodes, t': Nodes, minted: nat, op: Op)
    requires SameButRounding(e, e') && SameButOrds(t, t')
    ensures SameApplied(ApplyOp(e, t, minted, op), ApplyOp(e', t', minted, op))
  {
    hide SameApplied, SameButOrds, AddRow, DeleteRow;
    match op
    case AddFolder(p, title, index) => SameAdd(e, e', t, t', minted, p, index, Folder, title, None);
    case AddBookmark(p, title, link, index) => SameAdd(e, e', t, t', minted, p, index, Bookmark, title, Some(link));
    case SaveSession(_, _, _, _) => SameSession(e, e', t, t', minted, op);
    case Delete(n, _) => SameDelete(t, t', minted, n);
    case _ => SameEdit(e, e', t, t', minted, op);
  }

  lemma {:induction false} SameStore(e: Env, e': Env, t: Nodes, t': Nodes, minted: nat, ops: seq<Op>, k: nat)
    requires SameButRounding(e, e') && SameButOrds(t, t') && k <= |ops|
    ensures SameApplied(StoreAfter(e, t, minted, ops, k), StoreAfter(e', t', minted, ops, k))
    decreases k
  {
    hide ApplyOp, SameButOrds, SameButRounding;
    if k > 0 {
      SameStore(e, e', t, t', minted, ops, k - 1);
      var st, st' := StoreAfter(e, t, minted, ops, k - 1), StoreAfter(e', t', minted, ops, k - 1);
      SameOp(e, e', st.rows, st'.rows, st.minted, ops[k - 1]);
    }
  }

  /** A whole batch: same verdict, same error, same ids used up, same rows up to ords. */
  lemma SameBatch(e: Env, e': Env, t: Nodes, t': Nodes, minted: nat, ops: seq<Op>)
    requires SameButRounding(e, e') && SameButOrds(t, t')
    ensures SameVerdict(ShadowAfter(e, t, ops, |ops|), ShadowAfter(e', t', ops, |ops|))
    ensures SameApplied(ApplyBatch(e, t, minted, ops), ApplyBatch(e', t', minted, ops))
  {
    hide StoreAfter, ShadowAfter, SameButOrds;
    BatchVerdict(e, e', t, t', ops, |ops|);
    SameStore(e, e', t, t', minted, ops, |ops|);
  }
}
