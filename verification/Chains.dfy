/** Parent chains in a node map: ancestors, subtrees, acyclicity, and what adding,
    deleting and moving a node do to them. Chains may end at a dangling parent, as
    they do in the validator's state after a delete. */
module Chains {
  import opened Model

  /** From `x`, exactly `n` parent steps lead to `a`. The last id need not be a node. */
  ghost predicate ChainTo(s: Nodes, x: NodeId, a: NodeId, n: nat)
    decreases n
  {
    if n == 0 then x == a
    else x in s && s[x].parent.Some? && ChainTo(s, s[x].parent.value, a, n - 1)
  }

  /** `a` is `x` itself or lies on the parent chain of `x`. */
  ghost predicate Anc(s: Nodes, a: NodeId, x: NodeId) {
    exists n: nat :: ChainTo(s, x, a, n)
  }

  /** The parent chain of `x` stops after `n` steps: at a node without parent, or at an
      id that is not a node. */
  ghost predicate Ends(s: Nodes, x: NodeId, n: nat)
    decreases n
  {
    if n == 0 then x !in s || s[x].parent.None?
    else x in s && s[x].parent.Some? && Ends(s, s[x].parent.value, n - 1)
  }

  ghost predicate Terminates(s: Nodes, x: NodeId) {
    exists n: nat :: Ends(s, x, n)
  }

  ghost predicate Acyclic(s: Nodes) {
    forall x :: x in s ==> Terminates(s, x)
  }

  /** The subtree of `n`: the nodes whose chain contains `n`. */
  ghost function Under(s: Nodes, n: NodeId): set<NodeId> {
    set x | x in s && Anc(s, n, x)
  }

  ghost function Siblings(s: Nodes, p: NodeId): set<NodeId> {
    set x | x in s && s[x].parent == Some(p)
  }

  /** A rooted tree of folders and bookmarks: every parent is a folder of the map and every
      chain reaches the root. */
  ghost predicate IsTree(t: Nodes) {
    && ROOT in t && t[ROOT].parent == None && t[ROOT].kind == Folder
    && (forall x :: x in t && x != ROOT ==> HasFolderParent(t, x))
    && (forall x :: x in t ==> Anc(t, ROOT, x))
  }

  ghost predicate HasFolderParent(t: Nodes, x: NodeId)
    requires x in t
  {
    t[x].parent.Some? && t[x].parent.value in t && t[t[x].parent.value].kind == Folder
  }

  // ----- ancestry

  lemma AncSelf(s: Nodes, x: NodeId)
    ensures Anc(s, x, x)
  {
    assert ChainTo(s, x, x, 0);
  }

  lemma AncStep(s: Nodes, a: NodeId, x: NodeId)
    requires x in s && s[x].parent.Some?
    ensures Anc(s, a, x) <==> x == a || Anc(s, a, s[x].parent.value)
  {
    var p := s[x].parent.value;
    if x == a { AncSelf(s, x); }
    if Anc(s, a, p) {
      var n: nat :| ChainTo(s, p, a, n);
      assert ChainTo(s, x, a, n + 1);
    }
    if Anc(s, a, x) && x != a {
      var n: nat :| ChainTo(s, x, a, n);
      assert ChainTo(s, p, a, n - 1);
    }
  }

  lemma AncStop(s: Nodes, a: NodeId, x: NodeId)
    requires x !in s || s[x].parent.None?
    ensures Anc(s, a, x) <==> x == a
  {
    AncSelf(s, x);
    if Anc(s, a, x) {
      var n: nat :| ChainTo(s, x, a, n);
    }
  }

  lemma {:induction false} ChainJoin(s: Nodes, x: NodeId, y: NodeId, z: NodeId, m: nat, n: nat)
    requires ChainTo(s, x, y, m) && ChainTo(s, y, z, n)
    ensures ChainTo(s, x, z, m + n)
    decreases m
  {
    if m > 0 { ChainJoin(s, s[x].parent.value, y, z, m - 1, n); }
  }

  lemma AncTrans(s: Nodes, a: NodeId, b: NodeId, x: NodeId)
    requires Anc(s, b, x) && Anc(s, a, b)
    ensures Anc(s, a, x)
  {
    var m: nat :| ChainTo(s, x, b, m);
    var n: nat :| ChainTo(s, b, a, n);
    ChainJoin(s, x, b, a, m, n);
  }

  /** A chain prefix spends exactly its length of the steps to the end. */
  lemma {:induction false} EndsAfter(s: Nodes, x: NodeId, y: NodeId, m: nat, n: nat)
    requires ChainTo(s, x, y, m) && Ends(s, x, n)
    ensures m <= n && Ends(s, y, n - m)
    decreases m
  {
    if m > 0 { EndsAfter(s, s[x].parent.value, y, m - 1, n - 1); }
  }

  lemma {:induction false} EndsOnce(s: Nodes, x: NodeId, m: nat, n: nat)
    requires Ends(s, x, m) && Ends(s, x, n)
    ensures m == n
    decreases m
  {
    if m > 0 && n > 0 { EndsOnce(s, s[x].parent.value, m - 1, n - 1); }
  }

  lemma NoLoop(s: Nodes, x: NodeId, n: nat)
    requires Terminates(s, x) && ChainTo(s, x, x, n)
    ensures n == 0
  {
    var m: nat :| Ends(s, x, m);
    EndsAfter(s, x, x, n, m);
    EndsOnce(s, x, m, m - n);
  }

  lemma {:induction false} TreeChainStays(t: Nodes, x: NodeId, a: NodeId, n: nat)
    requires IsTree(t) && x in t && ChainTo(t, x, a, n)
    ensures a in t
    decreases n
  {
    if n > 0 { TreeChainStays(t, t[x].parent.value, a, n - 1); }
  }

  lemma TreeAncStays(t: Nodes, x: NodeId, a: NodeId)
    requires IsTree(t) && x in t && Anc(t, a, x)
    ensures a in t
  {
    var n: nat :| ChainTo(t, x, a, n);
    TreeChainStays(t, x, a, n);
  }

  lemma {:induction false} ChainToTopEnds(s: Nodes, x: NodeId, a: NodeId, n: nat)
    requires ChainTo(s, x, a, n)
    requires a !in s || s[a].parent.None?
    ensures Ends(s, x, n)
    decreases n
  {
    if n > 0 { ChainToTopEnds(s, s[x].parent.value, a, n - 1); }
  }

  lemma TreeTerminates(t: Nodes, x: NodeId)
    requires IsTree(t) && x in t
    ensures Terminates(t, x)
  {
    var n: nat :| ChainTo(t, x, ROOT, n);
    ChainToTopEnds(t, x, ROOT, n);
  }

  lemma TreeIsAcyclic(t: Nodes)
    requires IsTree(t)
    ensures Acyclic(t)
  {
    forall x | x in t ensures Terminates(t, x) { TreeTerminates(t, x); }
  }

  // ----- subtrees

  /** Two ids on one chain: one of them is above the other. */
  lemma {:induction false} ChainCompare(s: Nodes, x: NodeId, a: NodeId, b: NodeId, m: nat, n: nat)
    requires ChainTo(s, x, a, m) && ChainTo(s, x, b, n) && m <= n
    ensures ChainTo(s, a, b, n - m)
    decreases m
  {
    if m > 0 { ChainCompare(s, s[x].parent.value, a, b, m - 1, n - 1); }
  }

  lemma NoChildAbove(t: Nodes, x: NodeId, c: NodeId)
    requires IsTree(t) && c in Siblings(t, x)
    ensures !Anc(t, c, x)
  {
    if Anc(t, c, x) {
      var n: nat :| ChainTo(t, x, c, n);
      assert ChainTo(t, c, c, n + 1);
      TreeTerminates(t, c);
      NoLoop(t, c, n + 1);
    }
  }

  /** The subtree of a child is a proper part of the subtree of its parent. */
  lemma ChildUnder(t: Nodes, x: NodeId, c: NodeId)
    requires IsTree(t) && c in Siblings(t, x)
    ensures x in t && x in Under(t, x) && x !in Under(t, c) && Under(t, c) < Under(t, x)
  {
    assert c != ROOT && HasFolderParent(t, c);
    NoChildAbove(t, x, c);
    AncSelf(t, x);
    AncStep(t, x, c);
    forall y | y in Under(t, c) ensures y in Under(t, x) { AncTrans(t, x, c, y); }
  }

  /** Subtrees of different children do not overlap. */
  lemma SiblingsApart(t: Nodes, x: NodeId, c: NodeId, d: NodeId)
    requires IsTree(t) && c in Siblings(t, x) && d in Siblings(t, x) && c != d
    ensures Under(t, c) !! Under(t, d)
  {
    forall y | y in Under(t, c) && y in Under(t, d) ensures false {
      var m: nat :| ChainTo(t, y, c, m);
      var n: nat :| ChainTo(t, y, d, n);
      if m <= n {
        ChainCompare(t, y, c, d, m, n);
        assert Anc(t, d, c);
        AncStep(t, d, c);
        NoChildAbove(t, x, d);
      } else {
        ChainCompare(t, y, d, c, n, m);
        assert Anc(t, c, d);
        AncStep(t, c, d);
        NoChildAbove(t, x, c);
      }
    }
  }

  /** A subtree is its top together with the subtrees of the children. */
  lemma UnderSplits(t: Nodes, x: NodeId, y: NodeId)
    requires IsTree(t) && x in t && y in Under(t, x) && y != x
    ensures exists c :: c in Siblings(t, x) && y in Under(t, c)
  {
    var n: nat :| ChainTo(t, y, x, n);
    var c := ChildOnChain(t, y, x, n);
  }

  lemma {:induction false} ChildOnChain(t: Nodes, y: NodeId, x: NodeId, n: nat) returns (c: NodeId)
    requires y in t && x in t && ChainTo(t, y, x, n) && n > 0
    requires IsTree(t)
    ensures c in Siblings(t, x) && Anc(t, c, y)
    decreases n
  {
    var p := t[y].parent.value;
    if n == 1 {
      AncSelf(t, y);
      c := y;
    } else {
      assert HasFolderParent(t, y);
      c := ChildOnChain(t, p, x, n - 1);
      AncStep(t, c, y);
    }
  }

  // ----- two maps that agree along a chain

  ghost predicate SameLink(s: Nodes, s': Nodes, y: NodeId) {
    (y in s <==> y in s') && (y in s ==> s[y].parent == s'[y].parent)
  }

  lemma {:induction false} ChainFrame(s: Nodes, s': Nodes, x: NodeId, a: NodeId, n: nat)
    requires forall y :: Anc(s, y, x) ==> SameLink(s, s', y)
    ensures ChainTo(s, x, a, n) <==> ChainTo(s', x, a, n)
    decreases n
  {
    AncSelf(s, x);
    assert SameLink(s, s', x);
    if n > 0 && x in s && s[x].parent.Some? {
      var p := s[x].parent.value;
      forall y | Anc(s, y, p) ensures SameLink(s, s', y) { AncStep(s, y, x); }
      ChainFrame(s, s', p, a, n - 1);
    }
  }

  lemma AncFrame(s: Nodes, s': Nodes, x: NodeId)
    requires forall y :: Anc(s, y, x) ==> SameLink(s, s', y)
    ensures forall a :: Anc(s, a, x) <==> Anc(s', a, x)
  {
    forall a ensures Anc(s, a, x) <==> Anc(s', a, x) {
      if Anc(s, a, x) {
        var n: nat :| ChainTo(s, x, a, n);
        ChainFrame(s, s', x, a, n);
      }
      if Anc(s', a, x) {
        var n: nat :| ChainTo(s', x, a, n);
        ChainFrame(s, s', x, a, n);
      }
    }
  }

  /** Nodes may be added and relabelled without touching the ancestry of old nodes. */
  lemma TreeAncFrame(t: Nodes, t': Nodes, x: NodeId)
    requires IsTree(t) && x in t
    requires forall y :: y in t ==> y in t' && t[y].parent == t'[y].parent
    ensures forall a :: Anc(t, a, x) <==> Anc(t', a, x)
  {
    forall y | Anc(t, y, x) ensures SameLink(t, t', y) { TreeAncStays(t, x, y); }
    AncFrame(t, t', x);
  }

  // ----- deleting

  lemma {:induction false} ChainInLarger(s: Nodes, s': Nodes, x: NodeId, a: NodeId, n: nat)
    requires forall y :: y in s' ==> y in s && s[y].parent == s'[y].parent
    requires ChainTo(s', x, a, n)
    ensures ChainTo(s, x, a, n)
    decreases n
  {
    if n > 0 { ChainInLarger(s, s', s'[x].parent.value, a, n - 1); }
  }

  lemma {:induction false} ChainAvoids(s: Nodes, s': Nodes, n: NodeId, x: NodeId, a: NodeId, k: nat)
    requires forall y :: y in s' ==> y in s && s[y].parent == s'[y].parent
    requires n !in s' && ChainTo(s', x, a, k)
    requires a !in s || s[a].parent.None?
    requires a != n
    ensures !Anc(s, n, x)
    decreases k
  {
    if k == 0 {
      AncStop(s, n, a);
    } else {
      var p := s'[x].parent.value;
      ChainAvoids(s, s', n, p, a, k - 1);
      AncStep(s, n, x);
    }
  }

  /** Dropping the entry of `n` cuts off from the root exactly the nodes under `n`. */
  lemma DeleteCuts(s: Nodes, n: NodeId, x: NodeId)
    requires ROOT in s && s[ROOT].parent.None? && n != ROOT
    ensures Anc(s - {n}, ROOT, x) <==> Anc(s, ROOT, x) && !Anc(s, n, x)
  {
    var s' := s - {n};
    if Anc(s', ROOT, x) {
      var k: nat :| ChainTo(s', x, ROOT, k);
      ChainInLarger(s, s', x, ROOT, k);
      ChainAvoids(s, s', n, x, ROOT, k);
    }
    if Anc(s, ROOT, x) && !Anc(s, n, x) {
      forall y | Anc(s, y, x) ensures SameLink(s, s', y) { }
      AncFrame(s, s', x);
    }
  }

  lemma {:induction false} EndsAfterDelete(s: Nodes, n: NodeId, x: NodeId, k: nat)
    requires Ends(s, x, k)
    ensures Terminates(s - {n}, x)
    decreases k
  {
    var s' := s - {n};
    if x !in s' || s'[x].parent.None? {
      assert Ends(s', x, 0);
    } else {
      EndsAfterDelete(s, n, s[x].parent.value, k - 1);
      var j: nat :| Ends(s', s[x].parent.value, j);
      assert Ends(s', x, j + 1);
    }
  }

  lemma DeleteKeepsAcyclic(s: Nodes, n: NodeId)
    requires Acyclic(s)
    ensures Acyclic(s - {n})
  {
    forall x | x in s - {n} ensures Terminates(s - {n}, x) {
      assert Terminates(s, x);
      var k: nat :| Ends(s, x, k);
      EndsAfterDelete(s, n, x, k);
    }
  }

  /** Removing a whole subtree leaves the ancestry of the other nodes alone. */
  lemma PruneAnc(t: Nodes, n: NodeId, x: NodeId)
    requires x !in Under(t, n) && x in t
    ensures forall a :: Anc(t, a, x) <==> Anc(t - Under(t, n), a, x)
  {
    var t' := t - Under(t, n);
    forall y | Anc(t, y, x) ensures SameLink(t, t', y) {
      if y in Under(t, n) { AncTrans(t, n, y, x); }
    }
    AncFrame(t, t', x);
  }

  lemma PruneKeepsTree(t: Nodes, n: NodeId)
    requires IsTree(t) && n in t && n != ROOT
    ensures IsTree(t - Under(t, n))
  {
    var t' := t - Under(t, n);
    AncStop(t, n, ROOT);
    forall x | x in t' ensures Anc(t', ROOT, x) { PruneAnc(t, n, x); }
    forall x | x in t' && x != ROOT ensures HasFolderParent(t', x) {
      assert HasFolderParent(t, x);
      AncStep(t, n, x);
    }
  }

  // ----- moving

  ghost function Reparent(s: Nodes, n: NodeId, p: NodeId): Nodes
    requires n in s
  {
    s[n := s[n].(parent := Some(p))]
  }

  /** `s'` is `s` with the parent of `n` set to `p`; other fields of nodes may differ. */
  ghost predicate Moved(s: Nodes, s': Nodes, n: NodeId, p: NodeId) {
    && s'.Keys == s.Keys && n in s && s'[n].parent == Some(p)
    && forall y :: y in s && y != n ==> s'[y].parent == s[y].parent
  }

  /** Away from the subtree of `n`, ancestry does not change. */
  lemma MoveAncOutside(s: Nodes, s': Nodes, n: NodeId, p: NodeId, x: NodeId)
    requires Moved(s, s', n, p) && !Anc(s, n, x)
    ensures forall a :: Anc(s, a, x) <==> Anc(s', a, x)
  {
    forall y | Anc(s, y, x) ensures SameLink(s, s', y) { }
    AncFrame(s, s', x);
  }

  lemma {:induction false} MoveKeepsRootChain(s: Nodes, s': Nodes, n: NodeId, p: NodeId, x: NodeId, k: nat)
    requires Moved(s, s', n, p) && !Anc(s, n, p)
    requires Anc(s, ROOT, p) && ChainTo(s, x, ROOT, k)
    ensures Anc(s', ROOT, x)
    decreases k
  {
    if x == n {
      MoveAncOutside(s, s', n, p, p);
      AncStep(s', ROOT, n);
    } else if k == 0 {
      AncSelf(s', x);
    } else {
      MoveKeepsRootChain(s, s', n, p, s[x].parent.value, k - 1);
      AncStep(s', ROOT, x);
    }
  }

  lemma {:induction false} MoveMakesNoRootChain(s: Nodes, s': Nodes, n: NodeId, p: NodeId, x: NodeId, k: nat)
    requires Moved(s, s', n, p) && Anc(s, ROOT, n)
    requires ChainTo(s', x, ROOT, k)
    ensures Anc(s, ROOT, x)
    decreases k
  {
    if k == 0 {
      AncSelf(s, x);
    } else if x != n {
      MoveMakesNoRootChain(s, s', n, p, s[x].parent.value, k - 1);
      AncStep(s, ROOT, x);
    }
  }

  /** Moving a rooted node below a rooted one changes nobody's connection to the root. */
  lemma MoveKeepsRooted(s: Nodes, s': Nodes, n: NodeId, p: NodeId, x: NodeId)
    requires Moved(s, s', n, p) && !Anc(s, n, p)
    requires Anc(s, ROOT, p) && Anc(s, ROOT, n)
    ensures Anc(s, ROOT, x) <==> Anc(s', ROOT, x)
  {
    if Anc(s, ROOT, x) {
      var k: nat :| ChainTo(s, x, ROOT, k);
      MoveKeepsRootChain(s, s', n, p, x, k);
    }
    if Anc(s', ROOT, x) {
      var k: nat :| ChainTo(s', x, ROOT, k);
      MoveMakesNoRootChain(s, s', n, p, x, k);
    }
  }

  lemma MoveKeepsTree(t: Nodes, t': Nodes, n: NodeId, p: NodeId)
    requires IsTree(t) && Moved(t, t', n, p) && n != ROOT
    requires p in t && t[p].kind == Folder && !Anc(t, n, p)
    requires forall y :: y in t ==> t'[y].kind == t[y].kind
    ensures IsTree(t')
  {
    forall x | x in t' ensures Anc(t', ROOT, x) { MoveKeepsRooted(t, t', n, p, x); }
    forall x | x in t' && x != ROOT ensures HasFolderParent(t', x) {
      assert HasFolderParent(t, x);
    }
  }

  lemma {:induction false} EndsFrame(s: Nodes, s': Nodes, x: NodeId, k: nat)
    requires forall y :: Anc(s, y, x) ==> SameLink(s, s', y)
    requires Ends(s, x, k)
    ensures Ends(s', x, k)
    decreases k
  {
    AncSelf(s, x);
    assert SameLink(s, s', x);
    if k > 0 {
      var p := s[x].parent.value;
      forall y | Anc(s, y, p) ensures SameLink(s, s', y) { AncStep(s, y, x); }
      EndsFrame(s, s', p, k - 1);
    }
  }

  lemma {:induction false} EndsAfterMove(s: Nodes, s': Nodes, n: NodeId, p: NodeId, x: NodeId, k: nat)
    requires Moved(s, s', n, p) && !Anc(s, n, p) && Terminates(s, p)
    requires Ends(s, x, k)
    ensures Terminates(s', x)
    decreases k
  {
    if x == n {
      var j: nat :| Ends(s, p, j);
      forall y | Anc(s, y, p) ensures SameLink(s, s', y) { }
      EndsFrame(s, s', p, j);
      assert Ends(s', n, j + 1);
    } else if k == 0 {
      assert Ends(s', x, 0);
    } else {
      var q := s[x].parent.value;
      EndsAfterMove(s, s', n, p, q, k - 1);
      var j: nat :| Ends(s', q, j);
      assert Ends(s', x, j + 1);
    }
  }

  lemma MoveKeepsAcyclic(s: Nodes, n: NodeId, p: NodeId)
    requires Acyclic(s) && n in s && !Anc(s, n, p) && p in s
    ensures Acyclic(Reparent(s, n, p))
  {
    var s' := Reparent(s, n, p);
    forall x | x in s' ensures Terminates(s', x) {
      assert Terminates(s, x);
      var k: nat :| Ends(s, x, k);
      EndsAfterMove(s, s', n, p, x, k);
    }
  }

  /** The first visit to `n` on the chain of `x` is not affected by moving `n`. */
  lemma {:induction false} ChainUpToMoved(s: Nodes, s': Nodes, n: NodeId, p: NodeId, x: NodeId, k: nat)
    requires Moved(s, s', n, p) && ChainTo(s, x, n, k)
    ensures Anc(s', n, x)
    decreases k
  {
    if x == n {
      AncSelf(s', n);
    } else {
      ChainUpToMoved(s, s', n, p, s[x].parent.value, k - 1);
      AncStep(s', n, x);
    }
  }

  /** The exact cycle condition: hanging `n` below `p` closes a loop if and only if `n` is
      `p` or one of its ancestors. */
  lemma MoveCyclicIffAncestor(s: Nodes, n: NodeId, p: NodeId)
    requires Acyclic(s) && n in s && p in s
    ensures Acyclic(Reparent(s, n, p)) <==> !Anc(s, n, p)
  {
    var s' := Reparent(s, n, p);
    if !Anc(s, n, p) {
      MoveKeepsAcyclic(s, n, p);
    } else if Acyclic(s') {
      var k: nat :| ChainTo(s, p, n, k);
      ChainUpToMoved(s, s', n, p, p, k);
      var j: nat :| ChainTo(s', p, n, j);
      assert ChainTo(s', n, n, j + 1);
      assert Terminates(s', n);
      NoLoop(s', n, j + 1);
      assert false;
    }
  }

  // ----- adding and relabelling

  lemma AddKeepsTree(t: Nodes, n: NodeId, node: Node)
    requires IsTree(t) && n !in t
    requires node.parent.Some? && node.parent.value in t && t[node.parent.value].kind == Folder
    ensures IsTree(t[n := node])
  {
    var t' := t[n := node];
    forall x | x in t' && x != ROOT ensures HasFolderParent(t', x) {
      if x != n { assert HasFolderParent(t, x); }
    }
    forall x | x in t' ensures Anc(t', ROOT, x) {
      var y := if x == n then node.parent.value else x;
      TreeAncFrame(t, t', y);
      if x == n { AncStep(t', ROOT, n); }
    }
  }

  ghost predicate SameShape(t: Nodes, t': Nodes) {
    t'.Keys == t.Keys && forall x :: x in t ==> t'[x].kind == t[x].kind && t'[x].parent == t[x].parent
  }

  lemma RelabelKeepsTree(t: Nodes, t': Nodes)
    requires IsTree(t) && SameShape(t, t')
    ensures IsTree(t')
  {
    forall x | x in t' && x != ROOT ensures HasFolderParent(t', x) { assert HasFolderParent(t, x); }
    forall x | x in t' ensures Anc(t', ROOT, x) { TreeAncFrame(t, t', x); }
  }
}
