/** Batch validation (pkg/core/validate.go). The specification runs a batch on a shadow
    copy of the nodes: adds are not simulated, deletes are shallow, moves are simulated.
    `TreeState` is the mutable state the program keeps, with its child index. */
module Validator {
  import opened Model
  import opened Chains
  import opened Order

  datatype Verdict = Pass(state: Nodes) | Reject(error: ValidationError)

  predicate IndexOk(index: Option<int>, count: nat) {
    index.Some? ==> 0 <= index.value <= count
  }

  predicate IsFolder(s: Nodes, p: NodeId) {
    p in s && s[p].kind == Folder
  }

  /** The checks shared by every op that puts something below `p`. */
  ghost function TargetError(s: Nodes, p: NodeId, index: Option<int>): Option<ValidationError> {
    if !IsFolder(s, p) then Some(InvalidParent)
    else if !IndexOk(index, |Siblings(s, p)|) then Some(InvalidIndex)
    else None
  }

  predicate UrlsValid(env: Env, tabs: seq<Tab>) {
    forall i :: 0 <= i < |tabs| ==> ValidUrl(env, tabs[i].url)
  }

  /** The node check shared by rename, move and delete. */
  function NodeError(s: Nodes, n: NodeId): Option<ValidationError> {
    if n !in s then Some(InvalidNode) else if n == ROOT then Some(RootImmutable) else None
  }

  ghost function ValidateMove(s: Nodes, n: NodeId, p: NodeId, index: Option<int>): Verdict {
    if NodeError(s, n).Some? then Reject(NodeError(s, n).value)
    else if !IsFolder(s, p) then Reject(InvalidParent)
    else if Anc(s, n, p) then Reject(CycleDetected)
    else if !IndexOk(index, |Siblings(s, p)|) then Reject(InvalidIndex)
    else Pass(Reparent(s, n, p))
  }

  ghost function ValidateOp(env: Env, s: Nodes, op: Op): Verdict {
    match op
    case AddFolder(p, _, index) =>
      if TargetError(s, p, index).Some? then Reject(TargetError(s, p, index).value) else Pass(s)
    case AddBookmark(p, _, link, index) =>
      if TargetError(s, p, index).Some? then Reject(TargetError(s, p, index).value)
      else if !ValidUrl(env, link) then Reject(InvalidUrl)
      else Pass(s)
    case Rename(n, _) =>
      if NodeError(s, n).Some? then Reject(NodeError(s, n).value) else Pass(s)
    case Move(n, p, index) => ValidateMove(s, n, p, index)
    case Delete(n, _) =>
      if NodeError(s, n).Some? then Reject(NodeError(s, n).value) else Pass(s - {n})
    case UpdateBookmark(n, _, newUrl) =>
      if n !in s || s[n].kind != Bookmark then Reject(InvalidNode)
      else if newUrl.Some? && !ValidUrl(env, newUrl.value) then Reject(InvalidUrl)
      else Pass(s)
    case SaveSession(p, _, tabs, index) =>
      if TargetError(s, p, index).Some? then Reject(TargetError(s, p, index).value)
      else if !UrlsValid(env, tabs) then Reject(InvalidUrl)
      else Pass(s)
  }

  /** The shadow after the first `k` ops, or the first rejection among them. */
  ghost function ShadowAfter(env: Env, s: Nodes, ops: seq<Op>, k: nat): Verdict
    requires k <= |ops|
    decreases k
  {
    if k == 0 then Pass(s)
    else match ShadowAfter(env, s, ops, k - 1)
      case Reject(e) => Reject(e)
      case Pass(state) => ValidateOp(env, state, ops[k - 1])
  }

  ghost predicate Accepted(env: Env, s: Nodes, ops: seq<Op>) {
    ShadowAfter(env, s, ops, |ops|).Pass?
  }

  lemma {:induction false} AcceptedPrefix(env: Env, s: Nodes, ops: seq<Op>, j: nat, k: nat)
    requires j <= k <= |ops| && ShadowAfter(env, s, ops, k).Pass?
    ensures ShadowAfter(env, s, ops, j).Pass?
    decreases k
  {
    hide ValidateOp;
    if j < k { AcceptedPrefix(env, s, ops, j, k - 1); }
  }

  lemma {:induction false} FirstRejectionStays(env: Env, s: Nodes, ops: seq<Op>, j: nat, k: nat)
    requires j <= k <= |ops| && ShadowAfter(env, s, ops, j).Reject?
    ensures ShadowAfter(env, s, ops, k) == ShadowAfter(env, s, ops, j)
    decreases k
  {
    hide ValidateOp;
    if j < k { FirstRejectionStays(env, s, ops, j, k - 1); }
  }

  // ----- properties of the shadow

  /** What every validation step keeps: no cycle, no new id, and an untouched root. */
  lemma ValidateOpKeeps(env: Env, s: Nodes, op: Op)
    requires Acyclic(s) && ValidateOp(env, s, op).Pass?
    ensures var s' := ValidateOp(env, s, op).state;
            Acyclic(s') && s'.Keys <= s.Keys && (ROOT in s ==> ROOT in s' && s'[ROOT] == s[ROOT])
  {
    match op
    case Move(n, p, _) => MoveKeepsAcyclic(s, n, p);
    case Delete(n, _) => DeleteKeepsAcyclic(s, n);
    case _ =>
  }

  lemma {:induction false} ShadowKeeps(env: Env, s: Nodes, ops: seq<Op>, k: nat)
    requires Acyclic(s) && k <= |ops| && ShadowAfter(env, s, ops, k).Pass?
    ensures var s' := ShadowAfter(env, s, ops, k).state;
            Acyclic(s') && s'.Keys <= s.Keys && (ROOT in s ==> ROOT in s' && s'[ROOT] == s[ROOT])
    decreases k
  {
    if k > 0 {
      ShadowKeeps(env, s, ops, k - 1);
      ValidateOpKeeps(env, ShadowAfter(env, s, ops, k - 1).state, ops[k - 1]);
    }
  }

  /** In every shadow state the validator reaches, a move whose node and parent checks pass
      is rejected as a cycle if and only if carrying it out would close one. */
  lemma CycleCheckExact(env: Env, tree: Nodes, ops: seq<Op>, k: nat, n: NodeId, p: NodeId, index: Option<int>)
    requires Acyclic(tree) && k <= |ops| && ShadowAfter(env, tree, ops, k).Pass?
    requires var s := ShadowAfter(env, tree, ops, k).state; NodeError(s, n).None? && IsFolder(s, p)
    ensures var s := ShadowAfter(env, tree, ops, k).state;
            ValidateMove(s, n, p, index) == Reject(CycleDetected) <==> !Acyclic(Reparent(s, n, p))
  {
    ShadowKeeps(env, tree, ops, k);
    MoveCyclicIffAncestor(ShadowAfter(env, tree, ops, k).state, n, p);
  }

  // ----- the child index

  ghost predicate Indexes(s: Nodes, p: NodeId, q: seq<NodeId>) {
    NoDup(q) && forall x :: x in q <==> x in Siblings(s, p)
  }

  /** Each child list names, without repetition, exactly the nodes with that parent. */
  ghost predicate ChildIndex(s: Nodes, children: map<NodeId, seq<NodeId>>) {
    forall p :: Indexes(s, p, Kids(children, p))
  }

  /** The lengths the index checks read do not depend on the order of the lists. */
  lemma IndexCounts(s: Nodes, p: NodeId, q: seq<NodeId>)
    requires Indexes(s, p, q)
    ensures |q| == |Siblings(s, p)|
  {
    NoDupSize(q);
    assert Siblings(s, p) == set x | x in q;
  }

  /** Linking a node below a parent it was not below. */
  lemma LinkIndexes(s: Nodes, s': Nodes, id: NodeId, p: NodeId, q: seq<NodeId>)
    requires Indexes(s, p, q) && id !in q
    requires Siblings(s', p) == Siblings(s, p) + {id}
    ensures Indexes(s', p, q + [id])
  {
  }

  lemma UnlinkIndexes(s: Nodes, s': Nodes, id: NodeId, p: NodeId, q: seq<NodeId>)
    requires Indexes(s, p, q)
    requires Siblings(s', p) == Siblings(s, p) - {id}
    ensures Indexes(s', p, Without(q, id))
  {
    WithoutElems(q, id);
    if id in q {
      var j :| 0 <= j < |q| && q[j] == id;
      WithoutOne(q, j);
    } else {
      WithoutAbsent(q, id);
    }
  }

  class TreeState {
    var nodes: Nodes
    var children: map<NodeId, seq<NodeId>>

    ghost predicate Valid()
      reads this
    {
      ChildIndex(nodes, children) && Acyclic(nodes)
    }

    /** Builds the child index; nodes are visited in no particular order. */
    constructor (tree: Tree)
      requires Acyclic(tree.nodes)
      ensures Valid() && nodes == tree.nodes
    {
      nodes := tree.nodes;
      children := map id | id in tree.nodes :: [];
      new;
      var todo := nodes.Keys;
      ghost var seen: Nodes := map[];
      while todo != {}
        invariant nodes == tree.nodes && todo <= nodes.Keys
        invariant seen == nodes - todo
        invariant ChildIndex(seen, children)
        decreases todo
      {
        var id :| id in todo;
        ghost var before := seen;
        seen := nodes - (todo - {id});
        if nodes[id].parent.Some? {
          var parent := nodes[id].parent.value;
          ghost var listed := children;
          children := children[parent := Kids(children, parent) + [id]];
          forall p ensures Indexes(seen, p, Kids(children, p)) {
            assert Indexes(before, p, Kids(listed, p));
            if p == parent {
              LinkIndexes(before, seen, id, p, Kids(listed, p));
            } else {
              assert Siblings(seen, p) == Siblings(before, p);
            }
          }
        } else {
          forall p ensures Indexes(seen, p, Kids(children, p)) {
            assert Indexes(before, p, Kids(children, p));
            assert Siblings(seen, p) == Siblings(before, p);
          }
        }
        todo := todo - {id};
      }
      assert seen == nodes;
    }

    /** Walks up the parent pointers; the walk ends because the chain does. */
    method IsDescendant(candidate: NodeId, ancestor: NodeId) returns (found: bool)
      requires Valid()
      ensures found <==> Anc(nodes, ancestor, candidate)
    {
      if candidate == ancestor {
        AncSelf(nodes, ancestor);
        return true;
      }
      var at := candidate;
      assert Terminates(nodes, at) by { if at !in nodes { assert Ends(nodes, at, 0); } }
      ghost var left: nat :| Ends(nodes, at, left);
      while true
        invariant at != ancestor && Ends(nodes, at, left)
        invariant Anc(nodes, ancestor, candidate) <==> Anc(nodes, ancestor, at)
        decreases left
      {
        if at !in nodes || nodes[at].parent.None? {
          AncStop(nodes, ancestor, at);
          return false;
        }
        AncStep(nodes, ancestor, at);
        if nodes[at].parent.value == ancestor {
          AncSelf(nodes, ancestor);
          return true;
        }
        at := nodes[at].parent.value;
        left := left - 1;
      }
    }

    /** Takes `id` out of the child list of `parent`, scanning for its first occurrence. */
    method Unlink(parent: NodeId, id: NodeId)
      requires NoDup(Kids(children, parent))
      modifies this`children
      ensures Kids(children, parent) == Without(old(Kids(children, parent)), id)
      ensures forall p :: p != parent ==> Kids(children, p) == old(Kids(children, p))
    {
      var list := Kids(children, parent);
      for i := 0 to |list|
        invariant children == old(children)
        invariant id !in list[..i]
      {
        if list[i] == id {
          WithoutOne(list, i);
          children := children[parent := list[..i] + list[i + 1..]];
          return;
        }
      }
      assert list[..|list|] == list;
      WithoutAbsent(list, id);
    }

    method MoveNode(id: NodeId, newParent: NodeId)
      requires Valid() && id in nodes && newParent in nodes && !Anc(nodes, id, newParent)
      modifies this
      ensures Valid() && nodes == Reparent(old(nodes), id, newParent)
    {
      ghost var before, listed := nodes, children;
      if nodes[id].parent.Some? {
        assert Indexes(nodes, nodes[id].parent.value, Kids(children, nodes[id].parent.value));
        Unlink(nodes[id].parent.value, id);
      }
      ghost var unlinked := before - {id};
      forall p ensures Indexes(unlinked, p, Kids(children, p)) {
        assert Indexes(before, p, Kids(listed, p));
        assert Siblings(unlinked, p) == Siblings(before, p) - {id};
        UnlinkIndexes(before, unlinked, id, p, Kids(listed, p));
        if before[id].parent != Some(p) { WithoutAbsent(Kids(listed, p), id); }
      }
      ghost var removed := children;
      nodes := nodes[id := nodes[id].(parent := Some(newParent))];
      children := children[newParent := Kids(children, newParent) + [id]];
      forall p ensures Indexes(nodes, p, Kids(children, p)) {
        assert Indexes(unlinked, p, Kids(removed, p));
        if p == newParent {
          assert Siblings(nodes, p) == Siblings(unlinked, p) + {id};
          LinkIndexes(unlinked, nodes, id, p, Kids(removed, p));
        } else {
          assert Siblings(nodes, p) == Siblings(unlinked, p);
        }
      }
      MoveKeepsAcyclic(before, id, newParent);
    }

    /** Removes the entry of `id` only: its children stay, with a dangling parent. */
    method DeleteNode(id: NodeId)
      requires Valid() && id in nodes
      modifies this
      ensures Valid() && nodes == old(nodes) - {id}
    {
      ghost var before, listed := nodes, children;
      if nodes[id].parent.Some? {
        assert Indexes(nodes, nodes[id].parent.value, Kids(children, nodes[id].parent.value));
        Unlink(nodes[id].parent.value, id);
      }
      nodes := nodes - {id};
      forall p ensures Indexes(nodes, p, Kids(children, p)) {
        assert Indexes(before, p, Kids(listed, p));
        assert Siblings(nodes, p) == Siblings(before, p) - {id};
        UnlinkIndexes(before, nodes, id, p, Kids(listed, p));
        if before[id].parent != Some(p) { WithoutAbsent(Kids(listed, p), id); }
      }
      DeleteKeepsAcyclic(before, id);
    }

    method CheckTarget(p: NodeId, index: Option<int>) returns (err: Option<ValidationError>)
      requires Valid()
      ensures err == TargetError(nodes, p, index)
      ensures err.None? <==>
              && p in nodes && nodes[p].kind == Folder
              && (index.Some? ==> 0 <= index.value <= |set x | x in nodes && nodes[x].parent == Some(p)|)
      ensures err == Some(InvalidParent) <==> p !in nodes || nodes[p].kind != Folder
    {
      assert Indexes(nodes, p, Kids(children, p));
      IndexCounts(nodes, p, Kids(children, p));
      assert Siblings(nodes, p) == set x | x in nodes && nodes[x].parent == Some(p);
      if p !in nodes || nodes[p].kind != Folder {
        return Some(InvalidParent);
      }
      if !IndexOk(index, |Kids(children, p)|) {
        return Some(InvalidIndex);
      }
      return None;
    }

    method CheckMove(n: NodeId, p: NodeId, index: Option<int>) returns (err: Option<ValidationError>)
      requires Valid()
      modifies this
      ensures Valid()
      ensures ValidateMove(old(nodes), n, p, index) == if err.Some? then Reject(err.value) else Pass(nodes)
    {
      if NodeError(nodes, n).Some? {
        return NodeError(nodes, n);
      }
      if p !in nodes || nodes[p].kind != Folder {
        return Some(InvalidParent);
      }
      if p == n {
        AncSelf(nodes, n);
        return Some(CycleDetected);
      }
      var below := IsDescendant(p, n);
      if below {
        return Some(CycleDetected);
      }
      assert Indexes(nodes, p, Kids(children, p));
      IndexCounts(nodes, p, Kids(children, p));
      if !IndexOk(index, |Kids(children, p)|) {
        return Some(InvalidIndex);
      }
      MoveNode(n, p);
      return None;
    }

    method CheckTabs(env: Env, tabs: seq<Tab>) returns (err: Option<ValidationError>)
      ensures err == if UrlsValid(env, tabs) then None else Some(InvalidUrl)
    {
      for i := 0 to |tabs|
        invariant UrlsValid(env, tabs[..i])
      {
        if !ValidUrl(env, tabs[i].url) {
          return Some(InvalidUrl);
        }
      }
      assert tabs[..|tabs|] == tabs;
      return None;
    }

    /** One turn of the validation loop. */
    method CheckOp(env: Env, op: Op) returns (err: Option<ValidationError>)
      requires Valid()
      modifies this
      ensures Valid()
      ensures ValidateOp(env, old(nodes), op) == if err.Some? then Reject(err.value) else Pass(nodes)
    {
      match op
      case AddFolder(p, _, index) =>
        err := CheckTarget(p, index);
      case AddBookmark(p, _, link, index) =>
        err := CheckTarget(p, index);
        if err.None? && !ValidUrl(env, link) {
          err := Some(InvalidUrl);
        }
      case Rename(n, _) =>
        err := NodeError(nodes, n);
      case Move(n, p, index) =>
        err := CheckMove(n, p, index);
      case Delete(n, _) =>
        err := NodeError(nodes, n);
        if err.None? {
          DeleteNode(n);
        }
      case UpdateBookmark(n, _, newUrl) =>
        if n !in nodes || nodes[n].kind != Bookmark {
          return Some(InvalidNode);
        }
        err := if newUrl.Some? && !ValidUrl(env, newUrl.value) then Some(InvalidUrl) else None;
      case SaveSession(p, _, tabs, index) =>
        err := CheckTarget(p, index);
        if err.None? {
          err := CheckTabs(env, tabs);
        }
    }
  }

  /** Validates a batch. The verdict is a function of the nodes alone, so it cannot depend
      on the order in which the child index was filled. */
  method ValidateOps(env: Env, tree: Tree, ops: seq<Op>) returns (err: Option<ValidationError>)
    requires Acyclic(tree.nodes)
    ensures err.None? <==> Accepted(env, tree.nodes, ops)
    ensures err.Some? ==> ShadowAfter(env, tree.nodes, ops, |ops|) == Reject(err.value)
  {
    var state := new TreeState(tree);
    for i := 0 to |ops|
      invariant fresh(state) && state.Valid()
      invariant ShadowAfter(env, tree.nodes, ops, i) == Pass(state.nodes)
    {
      var rejected := state.CheckOp(env, ops[i]);
      if rejected.Some? {
        FirstRejectionStays(env, tree.nodes, ops, i + 1, |ops|);
        return rejected;
      }
    }
    return None;
  }
}
