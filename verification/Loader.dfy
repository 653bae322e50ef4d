/** What a loaded tree tells its reader (LoadTree and the snapshot's child lists). */
module Loader {
  import opened Model
  import opened Chains
  import opened Order
  import opened Sqlite
  import opened RoseTree

  /** Every node but the root stands in exactly one child list, at exactly one place. */
  lemma ListsPartitionNodes(tree: Tree, t: Nodes, x: NodeId)
    requires IsTree(t) && LoadedFrom(tree, t) && x in t && x != ROOT
    ensures exists p, i :: ListedAt(tree, x, p, i)
    ensures forall p, i, p', i' :: ListedAt(tree, x, p, i) && ListedAt(tree, x, p', i') ==> p == p' && i == i'
  {
    assert HasFolderParent(t, x);
    var p := t[x].parent.value;
    assert x in Siblings(t, p) && x in tree.children[p];
    var i :| 0 <= i < |tree.children[p]| && tree.children[p][i] == x;
    assert ListedAt(tree, x, p, i);
    forall q, k | ListedAt(tree, x, q, k) ensures q == p && k == i {
      assert tree.children[q][k] in tree.children[q];
      assert x in Siblings(t, q);
    }
  }

  ghost predicate ListedAt(tree: Tree, x: NodeId, p: NodeId, i: int) {
    p in tree.children && 0 <= i < |tree.children[p]| && tree.children[p][i] == x
  }

  /** Nothing but nodes is listed, the root never, and lists of siblings with distinct ords
      ascend strictly. */
  lemma ListsHoldOnlyNodes(tree: Tree, t: Nodes, p: NodeId)
    requires IsTree(t) && LoadedFrom(tree, t) && p in tree.children
    ensures p in t && t[p].kind == Folder && tree.children[p] != []
    ensures forall x :: x in tree.children[p] ==> x in t && x != ROOT
    ensures Distinct(t) ==> Strict(t, tree.children[p])
  {
    var q := tree.children[p];
    assert Siblings(t, p) != {};
    var x :| x in Siblings(t, p);
    assert x in q && HasFolderParent(t, x);
    if Distinct(t) { ListedIsStrict(t, p, q); }
  }

  /** With distinct ords a loaded tree holds exactly the ordered lists. */
  lemma LoadedListsAreOrdered(tree: Tree, t: Nodes, p: NodeId)
    requires Distinct(t) && LoadedFrom(tree, t)
    ensures Kids(tree.children, p) == Ordered(t, p)
  {
    if p in tree.children {
      OrderedUnique(t, p, tree.children[p]);
    } else {
      assert ListsChildren(t, p, []);
      OrderedUnique(t, p, []);
    }
  }

  /** The rose tree a client builds by following the child lists of a loaded tree. */
  ghost function ClientView(tree: Tree, x: NodeId): Rose
    requires IsTree(tree.nodes) && LoadedFrom(tree, tree.nodes) && x in tree.nodes
    decreases Under(tree.nodes, x)
  {
    var q, node := Kids(tree.children, x), tree.nodes[x];
    Rose(x, node.kind, node.title, node.url,
         seq(|q|, i requires 0 <= i < |q| =>
           (ListedIsChild(tree, x, i); ChildUnder(tree.nodes, x, q[i]); ClientView(tree, q[i]))))
  }

  lemma ListedIsChild(tree: Tree, x: NodeId, i: nat)
    requires LoadedFrom(tree, tree.nodes) && i < |Kids(tree.children, x)|
    ensures Kids(tree.children, x)[i] in Siblings(tree.nodes, x)
  {
    assert Kids(tree.children, x)[i] in tree.children[x];
  }

  /** Loading loses nothing: the client rebuilds the tree of the table. */
  lemma {:induction false} ClientSeesTree(tree: Tree, x: NodeId)
    requires IsTree(tree.nodes) && LoadedFrom(tree, tree.nodes) && Distinct(tree.nodes) && x in tree.nodes
    ensures ClientView(tree, x) == Abs(tree.nodes, x)
    decreases Under(tree.nodes, x)
  {
    var q := Ordered(tree.nodes, x);
    LoadedListsAreOrdered(tree, tree.nodes, x);
    forall i | 0 <= i < |q| ensures q[i] in tree.nodes && ClientView(tree, q[i]) == Abs(tree.nodes, q[i]) {
      ListedChild(tree.nodes, x, i);
      ChildUnder(tree.nodes, x, q[i]);
      ClientSeesTree(tree, q[i]);
    }
    assert ClientView(tree, x).kids == Abs(tree.nodes, x).kids;
  }

  /** A depth-first walk over the loaded lists from the root meets every node exactly once. */
  lemma WalkCoversTable(tree: Tree)
    requires IsTree(tree.nodes) && LoadedFrom(tree, tree.nodes) && Distinct(tree.nodes)
    ensures VisitsOnce(Preorder(ClientView(tree, ROOT)), tree.nodes.Keys)
  {
    ClientSeesTree(tree, ROOT);
    WalkVisitsOnce(tree.nodes, ROOT);
    assert Under(tree.nodes, ROOT) == tree.nodes.Keys;
  }

  // ----- the snapshot

  /** Copies the child list of every node, with an empty list where there is none. */
  method NormalizeChildren(tree: Tree) returns (children: map<NodeId, seq<NodeId>>)
    ensures children.Keys == tree.nodes.Keys
    ensures forall id :: id in tree.nodes ==> children[id] == Kids(tree.children, id)
  {
    children := map[];
    var todo := tree.nodes.Keys;
    while todo != {}
      invariant todo <= tree.nodes.Keys && children.Keys == tree.nodes.Keys - todo
      invariant forall id :: id in children ==> children[id] == Kids(tree.children, id)
      decreases todo
    {
      var id :| id in todo;
      if id in tree.children {
        children := children[id := tree.children[id]];
      } else {
        children := children[id := []];
      }
      todo := todo - {id};
    }
  }

  /** For a loaded tree nothing is lost: all lists survive, and the added ones are exactly
      the empty lists of the nodes without children. */
  lemma NormalizedKeepsLists(tree: Tree, t: Nodes, children: map<NodeId, seq<NodeId>>)
    requires IsTree(t) && LoadedFrom(tree, t)
    requires children.Keys == tree.nodes.Keys
    requires forall id :: id in tree.nodes ==> children[id] == Kids(tree.children, id)
    ensures forall p :: p in tree.children ==> p in children && children[p] == tree.children[p]
    ensures forall p :: p in children && p !in tree.children ==> children[p] == [] && Siblings(t, p) == {}
    ensures forall p :: p in children ==> ListsChildren(t, p, children[p])
  {
    forall p | p in tree.children ensures p in children && children[p] == tree.children[p] {
      ListsHoldOnlyNodes(tree, t, p);
    }
  }
}
