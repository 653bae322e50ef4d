/** The bookmark tree as its users see it: an ordered rose tree, with the plain list
    operations on it. `Abs` reads such a tree off the table. */
module RoseTree {
  import opened Model
  import opened Chains
  import opened Order

  datatype Rose = Rose(id: NodeId, kind: Kind, title: string, url: Option<string>, kids: seq<Rose>)

  // ----- plain operations

  function InsertAt(kids: seq<Rose>, pos: nat, sub: Rose): seq<Rose> {
    if pos <= |kids| then kids[..pos] + [sub] + kids[pos..] else kids + [sub]
  }

  /** Hangs `sub` below `p`, at position `pos` of its children. */
  function Graft(r: Rose, p: NodeId, pos: nat, sub: Rose): Rose {
    if r.id == p then r.(kids := InsertAt(r.kids, pos, sub))
    else r.(kids := seq(|r.kids|, i requires 0 <= i < |r.kids| => Graft(r.kids[i], p, pos, sub)))
  }

  /** Removes the subtree of `n`. */
  function Prune(r: Rose, n: NodeId): Rose {
    r.(kids := PruneAll(r.kids, n))
  }

  function PruneAll(kids: seq<Rose>, n: NodeId): seq<Rose> {
    if kids == [] then []
    else (if kids[0].id == n then [] else [Prune(kids[0], n)]) + PruneAll(kids[1..], n)
  }

  /** Changes title and URL of `n` where new values are given. */
  function Relabel(r: Rose, n: NodeId, newTitle: Option<string>, newUrl: Option<string>): Rose {
    var kids := seq(|r.kids|, i requires 0 <= i < |r.kids| => Relabel(r.kids[i], n, newTitle, newUrl));
    if r.id != n then r.(kids := kids)
    else r.(kids := kids,
            title := if newTitle.Some? then newTitle.value else r.title,
            url := if newUrl.Some? then newUrl else r.url)
  }

  function Find(r: Rose, n: NodeId): Option<Rose> {
    if r.id == n then Some(r) else FindIn(r.kids, n)
  }

  function FindIn(kids: seq<Rose>, n: NodeId): Option<Rose> {
    if kids == [] then None
    else match Find(kids[0], n)
      case Some(sub) => Some(sub)
      case None => FindIn(kids[1..], n)
  }

  function IdsOf(kids: seq<Rose>): (ids: seq<NodeId>)
    ensures |ids| == |kids|
  {
    seq(|kids|, i requires 0 <= i < |kids| => kids[i].id)
  }

  function ChildIds(r: Rose, p: NodeId): seq<NodeId> {
    match Find(r, p)
    case None => []
    case Some(sub) => IdsOf(sub.kids)
  }

  /** Depth-first walk, parents before children. */
  function Preorder(r: Rose): seq<NodeId> {
    [r.id] + PreorderAll(r.kids)
  }

  function PreorderAll(kids: seq<Rose>): seq<NodeId> {
    if kids == [] then [] else Preorder(kids[0]) + PreorderAll(kids[1..])
  }

  // ----- the tree of a table

  ghost function Abs(t: Nodes, x: NodeId): (r: Rose)
    requires IsTree(t) && x in t
    ensures r.id == x
    decreases Under(t, x)
  {
    var q := Ordered(t, x);
    Rose(x, t[x].kind, t[x].title, t[x].url,
         seq(|q|, i requires 0 <= i < |q| => (ListedChild(t, x, i); ChildUnder(t, x, q[i]); Abs(t, q[i]))))
  }

  lemma ListedChild(t: Nodes, x: NodeId, i: nat)
    requires i < |Ordered(t, x)|
    ensures Ordered(t, x)[i] in Siblings(t, x)
  {
    assert Ordered(t, x)[i] in Ordered(t, x);
  }

  ghost function AbsList(t: Nodes, q: seq<NodeId>): (rs: seq<Rose>)
    requires IsTree(t) && forall c :: c in q ==> c in t
    ensures |rs| == |q| && forall i :: 0 <= i < |q| ==> rs[i] == Abs(t, q[i])
  {
    seq(|q|, i requires 0 <= i < |q| => Abs(t, q[i]))
  }

  lemma AbsKids(t: Nodes, x: NodeId)
    requires IsTree(t) && x in t
    ensures forall c :: c in Ordered(t, x) ==> c in t
    ensures Abs(t, x).kids == AbsList(t, Ordered(t, x))
  {
  }

  /** Sameness of the parts of a table that `Abs` reads at `y`. */
  ghost predicate SameReading(t: Nodes, t': Nodes, y: NodeId) {
    && y in t && y in t'
    && t'[y].kind == t[y].kind && t'[y].title == t[y].title && t'[y].url == t[y].url
    && Ordered(t', y) == Ordered(t, y)
  }

  lemma {:induction false} AbsFrame(t: Nodes, t': Nodes, x: NodeId)
    requires IsTree(t) && IsTree(t') && x in t
    requires forall y :: y in Under(t, x) ==> SameReading(t, t', y)
    ensures x in t' && Abs(t', x) == Abs(t, x)
    decreases Under(t, x)
  {
    AncSelf(t, x);
    assert SameReading(t, t', x);
    var q := Ordered(t, x);
    forall i | 0 <= i < |q| ensures q[i] in t' && Abs(t', q[i]) == Abs(t, q[i]) {
      ListedChild(t, x, i);
      ChildUnder(t, x, q[i]);
      AbsFrame(t, t', q[i]);
    }
    assert Abs(t', x).kids == Abs(t, x).kids;
  }

  // ----- grafting

  /** `t2` is `t1` with a subtree, topped by `n`, placed at `pos` below `p`. */
  ghost predicate Grafted(t1: Nodes, t2: Nodes, p: NodeId, n: NodeId, pos: nat) {
    && IsTree(t1) && IsTree(t2) && p in t1 && n in t2
    && (forall y :: y in t1 ==>
          y in t2 && t2[y].kind == t1[y].kind && t2[y].title == t1[y].title && t2[y].url == t1[y].url)
    && (forall y :: y in t1 && y != p ==> Ordered(t2, y) == Ordered(t1, y))
    && pos <= |Ordered(t1, p)|
    && Ordered(t2, p) == Ordered(t1, p)[..pos] + [n] + Ordered(t1, p)[pos..]
  }

  lemma GraftKeepsChildren(t1: Nodes, t2: Nodes, p: NodeId, n: NodeId, pos: nat)
    requires Grafted(t1, t2, p, n, pos)
    ensures forall c :: c in Ordered(t1, p) ==> c in t1 && c in t2 && Abs(t2, c) == Abs(t1, c)
  {
    forall c | c in Ordered(t1, p) ensures c in t1 && c in t2 && Abs(t2, c) == Abs(t1, c) {
      assert c in Siblings(t1, p);
      ChildUnder(t1, p, c);
      assert forall y :: y in Under(t1, c) ==> SameReading(t1, t2, y);
      AbsFrame(t1, t2, c);
    }
  }

  lemma AbsListConcat(t: Nodes, a: seq<NodeId>, b: seq<NodeId>)
    requires IsTree(t) && (forall c :: c in a ==> c in t) && forall c :: c in b ==> c in t
    ensures forall c :: c in a + b ==> c in t
    ensures AbsList(t, a + b) == AbsList(t, a) + AbsList(t, b)
  {
    hide Abs, IsTree;
  }

  lemma InsertedList(t: Nodes, q: seq<NodeId>, n: NodeId, pos: nat)
    requires IsTree(t) && n in t && pos <= |q| && forall c :: c in q ==> c in t
    ensures forall c :: c in q[..pos] + [n] + q[pos..] ==> c in t
    ensures AbsList(t, q[..pos] + [n] + q[pos..]) == InsertAt(AbsList(t, q), pos, Abs(t, n))
  {
    hide Abs, IsTree;
    var a, b := q[..pos], q[pos..];
    assert q == a + b;
    assert forall c :: c in a || c in b ==> c in q;
    assert AbsList(t, [n]) == [Abs(t, n)];
    hide AbsList;
    AbsListConcat(t, a, b);
    AbsListConcat(t, a, [n]);
    AbsListConcat(t, a + [n], b);
    SplitsAt(AbsList(t, a), AbsList(t, b), pos);
  }

  lemma SplitsAt(a: seq<Rose>, b: seq<Rose>, pos: nat)
    requires pos == |a|
    ensures (a + b)[..pos] == a && (a + b)[pos..] == b
  {
  }

  lemma GraftAtFolder(t1: Nodes, t2: Nodes, p: NodeId, n: NodeId, pos: nat)
    requires Grafted(t1, t2, p, n, pos)
    ensures Abs(t2, p) == Graft(Abs(t1, p), p, pos, Abs(t2, n))
  {
    var q := Ordered(t1, p);
    GraftKeepsChildren(t1, t2, p, n, pos);
    AbsKids(t1, p);
    AbsKids(t2, p);
    assert Abs(t2, p) == Rose(p, t1[p].kind, t1[p].title, t1[p].url, Abs(t2, p).kids);
    assert Abs(t1, p) == Rose(p, t1[p].kind, t1[p].title, t1[p].url, Abs(t1, p).kids);
    hide Abs, InsertAt;
    assert AbsList(t1, q) == AbsList(t2, q);
    InsertedList(t2, q, n, pos);
  }

  lemma {:induction false} AbsGraft(t1: Nodes, t2: Nodes, p: NodeId, n: NodeId, pos: nat, x: NodeId)
    requires Grafted(t1, t2, p, n, pos) && x in t1
    ensures Abs(t2, x) == Graft(Abs(t1, x), p, pos, Abs(t2, n))
    decreases Under(t1, x)
  {
    if x == p {
      GraftAtFolder(t1, t2, p, n, pos);
    } else {
      var q := Ordered(t1, x);
      forall i | 0 <= i < |q| ensures q[i] in t2 && Abs(t2, q[i]) == Graft(Abs(t1, q[i]), p, pos, Abs(t2, n)) {
        ListedChild(t1, x, i);
        ChildUnder(t1, x, q[i]);
        AbsGraft(t1, t2, p, n, pos, q[i]);
      }
      assert Abs(t2, x).kids == Graft(Abs(t1, x), p, pos, Abs(t2, n)).kids;
    }
  }

  // ----- pruning

  ghost predicate Pruned(t: Nodes, t': Nodes, n: NodeId) {
    && IsTree(t) && IsTree(t') && n in t && t' == t - Under(t, n)
    && forall y :: y in t' ==> Ordered(t', y) == Without(Ordered(t, y), n)
  }

  lemma AbsListCons(t: Nodes, c: NodeId, q: seq<NodeId>)
    requires IsTree(t) && c in t && forall x :: x in q ==> x in t
    ensures AbsList(t, [c] + q) == [Abs(t, c)] + AbsList(t, q)
  {
  }

  lemma PruneAllCons(k: Rose, kids: seq<Rose>, n: NodeId)
    ensures PruneAll([k] + kids, n) == (if k.id == n then [] else [Prune(k, n)]) + PruneAll(kids, n)
  {
    assert ([k] + kids)[1..] == kids;
  }

  lemma {:induction false} PruneAllAbs(t: Nodes, t': Nodes, n: NodeId, q: seq<NodeId>)
    requires Pruned(t, t', n) && forall c :: c in q ==> c in t
    requires forall c :: c in q && c != n ==> c in t' && Abs(t', c) == Prune(Abs(t, c), n)
    ensures forall c :: c in Without(q, n) ==> c in t'
    ensures AbsList(t', Without(q, n)) == PruneAll(AbsList(t, q), n)
  {
    hide Abs, Prune;
    WithoutElems(q, n);
    if q != [] {
      var c, rest := q[0], q[1..];
      assert q == [c] + rest && c in q;
      WithoutElems(rest, n);
      PruneAllAbs(t, t', n, rest);
      AbsListCons(t, c, rest);
      PruneAllCons(Abs(t, c), AbsList(t, rest), n);
      if c != n { AbsListCons(t', c, Without(rest, n)); }
    }
  }

  lemma {:induction false} AbsPrune(t: Nodes, t': Nodes, n: NodeId, x: NodeId)
    requires Pruned(t, t', n) && x in t'
    ensures Abs(t', x) == Prune(Abs(t, x), n)
    decreases Under(t, x)
  {
    var q := Ordered(t, x);
    AbsKids(t, x);
    forall c | c in q && c != n ensures c in t' && Abs(t', c) == Prune(Abs(t, c), n) {
      assert c in Siblings(t, x);
      AncStep(t, n, c);
      ChildUnder(t, x, c);
      AbsPrune(t, t', n, c);
    }
    PruneAllAbs(t, t', n, q);
    AbsKids(t', x);
  }

  // ----- relabelling

  ghost predicate Relabelled(t: Nodes, t': Nodes, n: NodeId, newTitle: Option<string>, newUrl: Option<string>) {
    && IsTree(t) && IsTree(t') && n in t && n in t' && SameShape(t, t')
    && (forall y :: y in t && y != n ==> t'[y].title == t[y].title && t'[y].url == t[y].url)
    && t'[n].title == (if newTitle.Some? then newTitle.value else t[n].title)
    && t'[n].url == (if newUrl.Some? then newUrl else t[n].url)
    && forall y :: y in t ==> Ordered(t', y) == Ordered(t, y)
  }

  lemma {:induction false} AbsRelabel(t: Nodes, t': Nodes, n: NodeId, newTitle: Option<string>,
                                      newUrl: Option<string>, x: NodeId)
    requires Relabelled(t, t', n, newTitle, newUrl) && x in t
    ensures Abs(t', x) == Relabel(Abs(t, x), n, newTitle, newUrl)
    decreases Under(t, x)
  {
    var q := Ordered(t, x);
    forall i | 0 <= i < |q| ensures q[i] in t' && Abs(t', q[i]) == Relabel(Abs(t, q[i]), n, newTitle, newUrl) {
      ListedChild(t, x, i);
      ChildUnder(t, x, q[i]);
      AbsRelabel(t, t', n, newTitle, newUrl, q[i]);
    }
    assert Abs(t', x).kids == Relabel(Abs(t, x), n, newTitle, newUrl).kids;
  }

  // ----- finding

  lemma {:induction false} FindInAbs(t: Nodes, q: seq<NodeId>, y: NodeId)
    requires IsTree(t) && forall c :: c in q ==> c in t
    requires forall c :: c in q ==> Find(Abs(t, c), y) == if y in Under(t, c) then Some(Abs(t, y)) else None
    ensures FindIn(AbsList(t, q), y) ==
            if (exists c :: c in q && y in Under(t, c)) then Some(Abs(t, y)) else None
  {
    if q != [] {
      assert q[0] in q;
      FindInAbs(t, q[1..], y);
      assert AbsList(t, q)[1..] == AbsList(t, q[1..]);
      if c :| c in q[1..] && y in Under(t, c) { assert c in q; }
      if c :| c in q && y in Under(t, c) { assert c == q[0] || c in q[1..]; }
    }
  }

  /** Looking an id up in the tree finds its subtree, wherever it is. */
  lemma {:induction false} AbsFind(t: Nodes, x: NodeId, y: NodeId)
    requires IsTree(t) && x in t
    ensures Find(Abs(t, x), y) == if y in Under(t, x) then Some(Abs(t, y)) else None
    decreases Under(t, x)
  {
    var q := Ordered(t, x);
    AbsKids(t, x);
    AncSelf(t, x);
    if x != y {
      forall c | c in q
        ensures Find(Abs(t, c), y) == if y in Under(t, c) then Some(Abs(t, y)) else None
      {
        assert c in Siblings(t, x);
        ChildUnder(t, x, c);
        AbsFind(t, c, y);
      }
      FindInAbs(t, q, y);
      if y in Under(t, x) {
        UnderSplits(t, x, y);
        var c :| c in Siblings(t, x) && y in Under(t, c);
        assert c in q;
      }
      if c :| c in q && y in Under(t, c) {
        assert c in Siblings(t, x);
        ChildUnder(t, x, c);
      }
    }
  }

  lemma ChildIdsOfAbs(t: Nodes, p: NodeId)
    requires IsTree(t) && p in t
    ensures ChildIds(Abs(t, ROOT), p) == Ordered(t, p)
  {
    AbsFind(t, ROOT, p);
    AbsKids(t, p);
    assert IdsOf(Abs(t, p).kids) == Ordered(t, p);
  }

  // ----- walking

  ghost predicate VisitsOnce(walk: seq<NodeId>, ids: set<NodeId>) {
    NoDup(walk) && forall y :: y in walk <==> y in ids
  }

  lemma JoinWalks(a: seq<NodeId>, b: seq<NodeId>)
    requires NoDup(a) && NoDup(b) && forall y :: y in a ==> y !in b
    ensures NoDup(a + b)
  {
    forall i, j | 0 <= i < j < |a + b| ensures (a + b)[i] != (a + b)[j] {
      if i < |a| <= j { assert a[i] in a && b[j - |a|] in b; }
    }
  }

  lemma {:induction false} WalkChildren(t: Nodes, x: NodeId, q: seq<NodeId>)
    requires IsTree(t) && NoDup(q) && forall c :: c in q ==> c in t && c in Siblings(t, x)
    requires forall c :: c in q ==> VisitsOnce(Preorder(Abs(t, c)), Under(t, c))
    ensures NoDup(PreorderAll(AbsList(t, q)))
    ensures forall y :: y in PreorderAll(AbsList(t, q)) <==> exists c :: c in q && y in Under(t, c)
  {
    if q != [] {
      assert q[0] in q;
      var first, rest := Preorder(Abs(t, q[0])), PreorderAll(AbsList(t, q[1..]));
      WalkChildren(t, x, q[1..]);
      assert AbsList(t, q)[1..] == AbsList(t, q[1..]);
      forall y | y in first ensures y !in rest {
        if c :| c in q[1..] && y in Under(t, c) {
          SiblingsApart(t, x, q[0], c);
        }
      }
      JoinWalks(first, rest);
      forall y ensures y in first + rest <==> exists c :: c in q && y in Under(t, c) {
        if c :| c in q && y in Under(t, c) { assert c == q[0] || c in q[1..]; }
        if c :| c in q[1..] && y in Under(t, c) { assert c in q; }
      }
    }
  }

  /** The walk from `x` visits every node of its subtree exactly once. */
  lemma {:induction false} WalkVisitsOnce(t: Nodes, x: NodeId)
    requires IsTree(t) && x in t
    ensures VisitsOnce(Preorder(Abs(t, x)), Under(t, x))
    decreases Under(t, x)
  {
    var q := Ordered(t, x);
    AbsKids(t, x);
    forall c | c in q ensures c in Siblings(t, x) && VisitsOnce(Preorder(Abs(t, c)), Under(t, c)) {
      assert c in Siblings(t, x);
      ChildUnder(t, x, c);
      WalkVisitsOnce(t, c);
    }
    WalkChildren(t, x, q);
    var walk := PreorderAll(AbsList(t, q));
    AncSelf(t, x);
    forall y ensures y in Under(t, x) <==> y == x || y in walk {
      if y in Under(t, x) && y != x {
        UnderSplits(t, x, y);
        var c :| c in Siblings(t, x) && y in Under(t, c);
        assert c in q;
      }
      if c :| c in q && y in Under(t, c) { ChildUnder(t, x, c); }
    }
    if c :| c in q && x in Under(t, c) { ChildUnder(t, x, c); }
    JoinWalks([x], walk);
  }
}
