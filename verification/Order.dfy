/** Sibling order. Children of a folder are listed by ascending `ord`; a new position is
    made by choosing an `ord` next to or between existing ones. */
module Order {
  import opened Model
  import opened Chains

  ghost predicate NoDup<T>(q: seq<T>) {
    forall i, j :: 0 <= i < j < |q| ==> q[i] != q[j]
  }

  function Without(q: seq<NodeId>, n: NodeId): seq<NodeId> {
    if q == [] then [] else (if q[0] == n then [] else [q[0]]) + Without(q[1..], n)
  }

  ghost predicate Ascending(t: Nodes, q: seq<NodeId>) {
    && (forall x :: x in q ==> x in t)
    && forall i, j :: 0 <= i < j < |q| ==> t[q[i]].ord <= t[q[j]].ord
  }

  ghost predicate Strict(t: Nodes, q: seq<NodeId>) {
    && (forall x :: x in q ==> x in t)
    && forall i, j :: 0 <= i < j < |q| ==> t[q[i]].ord < t[q[j]].ord
  }

  /** `q` is a possible answer to "the children of `p`, by ascending ord". */
  ghost predicate ListsChildren(t: Nodes, p: NodeId, q: seq<NodeId>) {
    NoDup(q) && Ascending(t, q) && forall x :: x in q <==> x in Siblings(t, p)
  }

  /** No two siblings share an ord. */
  ghost predicate Distinct(t: Nodes) {
    forall x, y :: x in t && y in t && x != y && t[x].parent.Some? && t[x].parent == t[y].parent ==>
      t[x].ord != t[y].ord
  }

  /** The list a child map holds for `p`; a missing entry reads as the empty list. */
  function Kids(children: map<NodeId, seq<NodeId>>, p: NodeId): seq<NodeId> {
    if p in children then children[p] else []
  }

  predicate Away(x: real, y: real, gap: real) {
    x - y > gap || y - x > gap
  }

  /** Any two siblings are more than `gap` apart. */
  ghost predicate AllApart(t: Nodes, gap: real) {
    forall x, y :: x in t && y in t && x != y && t[x].parent.Some? && t[x].parent == t[y].parent ==>
      Away(t[x].ord, t[y].ord, gap)
  }

  lemma ApartIsDistinct(t: Nodes, gap: real)
    requires gap >= 0.0
    ensures AllApart(t, gap) ==> Distinct(t)
    ensures Distinct(t) ==> AllApart(t, 0.0)
  {
  }

  // ----- the child list exists, and is unique once ords are distinct

  lemma {:induction false} LeastOrd(t: Nodes, ids: set<NodeId>) returns (m: NodeId)
    requires ids != {} && ids <= t.Keys
    ensures m in ids && forall x :: x in ids ==> t[m].ord <= t[x].ord
  {
    m :| m in ids;
    if ids != {m} {
      var rest := LeastOrd(t, ids - {m});
      if t[rest].ord < t[m].ord { m := rest; }
    }
  }

  lemma {:induction false} SortExists(t: Nodes, ids: set<NodeId>) returns (q: seq<NodeId>)
    requires ids <= t.Keys
    ensures NoDup(q) && Ascending(t, q) && forall x :: x in q <==> x in ids
    decreases ids
  {
    if ids == {} {
      q := [];
    } else {
      var m := LeastOrd(t, ids);
      var rest := SortExists(t, ids - {m});
      q := [m] + rest;
    }
  }

  lemma ChildListExists(t: Nodes, p: NodeId)
    ensures exists q :: ListsChildren(t, p, q)
  {
    var q := SortExists(t, Siblings(t, p));
    assert ListsChildren(t, p, q);
  }

  /** The ordered child list of `p`. */
  ghost function Ordered(t: Nodes, p: NodeId): (q: seq<NodeId>)
    ensures ListsChildren(t, p, q)
  {
    ChildListExists(t, p);
    var q :| ListsChildren(t, p, q);
    q
  }

  lemma {:induction false} StrictUnique(t: Nodes, a: seq<NodeId>, b: seq<NodeId>)
    requires Strict(t, a) && Strict(t, b) && forall x :: x in a <==> x in b
    ensures a == b
  {
    assert a != [] ==> a[0] in a;
    assert b != [] ==> b[0] in b;
    if a != [] {
      assert a[0] in b && b != [];
      assert b[0] in a;
      assert a[0] == b[0];
      forall x ensures x in a[1..] <==> x in b[1..] {
        assert x in a <==> x == a[0] || x in a[1..];
        assert x in b <==> x == b[0] || x in b[1..];
        if a[0] in a[1..] || a[0] in b[1..] { assert false; }
      }
      StrictUnique(t, a[1..], b[1..]);
    }
  }

  lemma ListedIsStrict(t: Nodes, p: NodeId, q: seq<NodeId>)
    requires Distinct(t) && ListsChildren(t, p, q)
    ensures Strict(t, q)
  {
    forall i, j | 0 <= i < j < |q| ensures t[q[i]].ord < t[q[j]].ord {
      assert q[i] in q && q[j] in q;
    }
  }

  /** With distinct ords the child list is determined by the table. */
  lemma OrderedUnique(t: Nodes, p: NodeId, q: seq<NodeId>)
    requires Distinct(t) && ListsChildren(t, p, q)
    ensures q == Ordered(t, p)
  {
    ListedIsStrict(t, p, q);
    ListedIsStrict(t, p, Ordered(t, p));
    StrictUnique(t, q, Ordered(t, p));
  }

  lemma StrictListIsOrdered(t: Nodes, p: NodeId, q: seq<NodeId>)
    requires Distinct(t) && Strict(t, q) && forall x :: x in q <==> x in Siblings(t, p)
    ensures q == Ordered(t, p)
  {
    assert NoDup(q) && Ascending(t, q);
    OrderedUnique(t, p, q);
  }

  // ----- the ord values themselves

  ghost function Ords(t: Nodes, q: seq<NodeId>): (o: seq<real>)
    requires forall x :: x in q ==> x in t
    ensures |o| == |q| && forall i :: 0 <= i < |q| ==> o[i] == t[q[i]].ord
  {
    seq(|q|, i requires 0 <= i < |q| => t[q[i]].ord)
  }

  lemma {:induction false} NoDupSize<T>(q: seq<T>)
    requires NoDup(q)
    ensures |set x | x in q| == |q|
  {
    if q != [] {
      var last := |q| - 1;
      NoDupSize(q[..last]);
      assert (set x | x in q) == (set x | x in q[..last]) + {q[last]};
    }
  }

  lemma SubsetSize<T>(a: set<T>, b: set<T>)
    requires a <= b
    ensures |a| <= |b|
  {
    assert b == a + (b - a);
  }

  /** In a sorted list, no more than `k` members can lie at or below an ord that is
      smaller than the one at `k`. */
  lemma AscendingBelow(t: Nodes, a: seq<NodeId>, b: seq<NodeId>, k: nat)
    requires NoDup(a) && NoDup(b) && Ascending(t, a) && Ascending(t, b)
    requires forall x :: x in a <==> x in b
    requires k < |a| && k < |b|
    ensures t[b[k]].ord <= t[a[k]].ord
  {
    if t[a[k]].ord < t[b[k]].ord {
      var front, shorter := a[..k + 1], b[..k];
      var low := set x | x in front;
      var below := set x | x in shorter;
      forall x | x in low ensures x in below {
        var i :| 0 <= i < k + 1 && a[i] == x;
        assert t[x].ord <= t[a[k]].ord;
        assert x in b;
        var j :| 0 <= j < |b| && b[j] == x;
        assert j < k;
        assert shorter[j] == x;
      }
      NoDupSize(front);
      NoDupSize(shorter);
      SubsetSize(low, below);
    }
  }

  /** Even when ords tie, every answer of the query lists the same ord values. */
  lemma OrdsUnique(t: Nodes, a: seq<NodeId>, b: seq<NodeId>)
    requires NoDup(a) && NoDup(b) && Ascending(t, a) && Ascending(t, b)
    requires forall x :: x in a <==> x in b
    ensures Ords(t, a) == Ords(t, b)
  {
    NoDupSize(a);
    NoDupSize(b);
    assert (set x | x in a) == (set x | x in b);
    forall k | 0 <= k < |a| ensures t[a[k]].ord == t[b[k]].ord {
      AscendingBelow(t, a, b, k);
      AscendingBelow(t, b, a, k);
    }
  }

  // ----- choosing an ord

  /** The position asked for, clamped to the child count; no index means the end. */
  function Position(index: Option<int>, count: nat): (pos: nat)
    ensures pos <= count
    ensures index.None? ==> pos == count
    ensures index.Some? && 0 <= index.value <= count ==> pos == index.value
    ensures index.Some? && index.value < 0 ==> pos == 0
    ensures index.Some? && index.value > count ==> pos == count
  {
    match index
    case None => count
    case Some(i) => if i < 0 then 0 else if i > count then count else i
  }

  function PlaceOrd(env: Env, ords: seq<real>, index: Option<int>): real {
    var pos := Position(index, |ords|);
    if |ords| == 0 then 0.0
    else if pos == 0 then env.round(ords[0] - 1.0)
    else if pos == |ords| then env.round(ords[|ords| - 1] + 1.0)
    else env.round(env.round(ords[pos - 1] + ords[pos]) / 2.0)
  }

  /** The chosen ord lies strictly between the two neighbours of the position. */
  lemma PlaceOrdFits(env: Env, ords: seq<real>, index: Option<int>)
    requires Exact(env)
    requires forall i, j :: 0 <= i < j < |ords| ==> ords[i] < ords[j]
    ensures forall k :: 0 <= k < Position(index, |ords|) ==> ords[k] < PlaceOrd(env, ords, index)
    ensures forall k :: Position(index, |ords|) <= k < |ords| ==> PlaceOrd(env, ords, index) < ords[k]
  {
    var pos := Position(index, |ords|);
    if 0 < pos < |ords| {
      var mid := (ords[pos - 1] + ords[pos]) / 2.0;
      assert ords[pos - 1] < mid < ords[pos];
      assert PlaceOrd(env, ords, index) == mid;
    }
  }

  // ----- lists with one id taken out or put in

  lemma {:induction false} WithoutElems(q: seq<NodeId>, n: NodeId)
    ensures forall x :: x in Without(q, n) <==> x in q && x != n
  {
    if q != [] {
      WithoutElems(q[1..], n);
      assert q == [q[0]] + q[1..];
    }
  }

  lemma {:induction false} WithoutAbsent(q: seq<NodeId>, n: NodeId)
    requires n !in q
    ensures Without(q, n) == q
  {
    if q != [] { WithoutAbsent(q[1..], n); }
  }

  lemma StrictTail(t: Nodes, q: seq<NodeId>)
    requires Strict(t, q) && q != []
    ensures Strict(t, q[1..]) && q[0] in t && forall y :: y in q[1..] ==> t[q[0]].ord < t[y].ord
  {
    var rest := q[1..];
    assert forall i :: 0 <= i < |rest| ==> rest[i] == q[i + 1];
  }

  lemma {:induction false} WithoutStrict(t: Nodes, q: seq<NodeId>, n: NodeId)
    requires Strict(t, q)
    ensures Strict(t, Without(q, n))
  {
    hide Strict;
    if q != [] {
      var rest := Without(q[1..], n);
      StrictTail(t, q);
      WithoutStrict(t, q[1..], n);
      WithoutElems(q[1..], n);
      if q[0] != n {
        StrictCons(t, q[0], rest);
      } else {
        assert Without(q, n) == rest;
      }
    }
  }

  lemma StrictCons(t: Nodes, x: NodeId, rest: seq<NodeId>)
    requires Strict(t, rest) && x in t && forall y :: y in rest ==> t[x].ord < t[y].ord
    ensures Strict(t, [x] + rest)
  {
  }

  lemma {:induction false} WithoutConcat(a: seq<NodeId>, b: seq<NodeId>, n: NodeId)
    ensures Without(a + b, n) == Without(a, n) + Without(b, n)
  {
    if a == [] {
      assert a + b == b;
    } else {
      var head := if a[0] == n then [] else [a[0]];
      assert (a + b)[1..] == a[1..] + b;
      WithoutConcat(a[1..], b, n);
      calc {
        Without(a + b, n);
        head + Without(a[1..] + b, n);
        head + (Without(a[1..], n) + Without(b, n));
        (head + Without(a[1..], n)) + Without(b, n);
        Without(a, n) + Without(b, n);
      }
    }
  }

  lemma WithoutLength(q: seq<NodeId>, n: NodeId)
    requires NoDup(q)
    ensures |Without(q, n)| == if n in q then |q| - 1 else |q|
  {
    if n in q {
      var j :| 0 <= j < |q| && q[j] == n;
      WithoutOne(q, j);
    } else {
      WithoutAbsent(q, n);
    }
  }

  /** `n` placed at `pos` of `q`: the ids before it, `n`, the ids from `pos` on; an
      occurrence of `n` elsewhere in `q` disappears. */
  function Placed(q: seq<NodeId>, n: NodeId, pos: nat): seq<NodeId>
    requires pos <= |q|
  {
    Without(q[..pos], n) + [n] + Without(q[pos..], n)
  }

  /** An id not in the list yet is inserted, and takes exactly the position asked for. */
  lemma PlacedNew(q: seq<NodeId>, n: NodeId, pos: nat)
    requires n !in q && pos <= |q|
    ensures Placed(q, n, pos) == q[..pos] + [n] + q[pos..]
    ensures Placed(q, n, pos)[pos] == n
  {
    WithoutAbsent(q[..pos], n);
    WithoutAbsent(q[pos..], n);
  }

  lemma {:induction false} WithoutOne(q: seq<NodeId>, j: nat)
    requires NoDup(q) && j < |q|
    ensures Without(q, q[j]) == q[..j] + q[j + 1..]
    decreases j
  {
    if j == 0 {
      WithoutAbsent(q[1..], q[0]);
    } else {
      var rest := q[1..];
      assert rest[j - 1] == q[j];
      WithoutOne(rest, j - 1);
      assert rest[..j - 1] == q[1..j];
      assert rest[j..] == q[j + 1..];
      assert [q[0]] + q[1..j] == q[..j];
    }
  }

  lemma PlacedTowardsFront(q: seq<NodeId>, j: nat, pos: nat)
    requires NoDup(q) && pos <= j < |q|
    ensures Placed(q, q[j], pos) == q[..pos] + [q[j]] + (q[pos..j] + q[j + 1..])
  {
    var back := q[pos..];
    assert back[j - pos] == q[j];
    WithoutAbsent(q[..pos], q[j]);
    WithoutOne(back, j - pos);
    assert back[..j - pos] == q[pos..j];
    assert back[j - pos + 1..] == q[j + 1..];
  }

  lemma PlacedTowardsEnd(q: seq<NodeId>, j: nat, pos: nat)
    requires NoDup(q) && j < pos <= |q|
    ensures Placed(q, q[j], pos) == (q[..j] + q[j + 1..pos]) + [q[j]] + q[pos..]
  {
    var front := q[..pos];
    assert front[j] == q[j];
    WithoutAbsent(q[pos..], q[j]);
    WithoutOne(front, j);
    assert front[..j] == q[..j];
    assert front[j + 1..] == q[j + 1..pos];
  }

  /** An id at position `j` moved to index `pos` of its own list ends at `pos` when it moves
      towards the front or stays, and at `pos - 1` when it moves towards the end; the other
      ids keep their order. */
  lemma PlacedOwn(q: seq<NodeId>, j: nat, pos: nat)
    requires NoDup(q) && j < |q| && pos <= |q|
    ensures var at := if pos <= j then pos else pos - 1;
            var rest := q[..j] + q[j + 1..];
            Placed(q, q[j], pos) == rest[..at] + [q[j]] + rest[at..]
  {
    var rest := q[..j] + q[j + 1..];
    if pos <= j {
      PlacedTowardsFront(q, j, pos);
      assert rest[..pos] == q[..pos];
      assert rest[pos..] == q[pos..j] + q[j + 1..];
    } else {
      PlacedTowardsEnd(q, j, pos);
      assert rest[..pos - 1] == q[..j] + q[j + 1..pos];
      assert rest[pos - 1..] == q[pos..];
    }
  }

  // ----- tables that differ in one node's place

  /** `t'` is `t` with `n` put below `p` at the ord chosen for `index`; `n` may be new, or
      may come from `p` itself or from any other parent. */
  ghost predicate PutBelow(env: Env, t: Nodes, t': Nodes, n: NodeId, p: NodeId, index: Option<int>) {
    && n in t' && t'[n].parent == Some(p)
    && t'[n].ord == PlaceOrd(env, Ords(t, Ordered(t, p)), index)
    && SameElsewhere(t, t', n)
  }

  ghost predicate SameElsewhere(t: Nodes, t': Nodes, n: NodeId) {
    forall y :: y != n ==> (y in t <==> y in t') && (y in t ==> t'[y].parent == t[y].parent && t'[y].ord == t[y].ord)
  }

  /** A run of siblings other than `n` is still ascending, and lies on one side of `n`. */
  lemma PartStrict(t: Nodes, t': Nodes, n: NodeId, part: seq<NodeId>, above: bool)
    requires Strict(t, part) && n in t' && SameElsewhere(t, t', n)
    requires forall x :: x in part ==> if above then t'[n].ord < t[x].ord else t[x].ord < t'[n].ord
    ensures Strict(t', Without(part, n))
    ensures forall x :: x in Without(part, n) ==> if above then t'[n].ord < t'[x].ord else t'[x].ord < t'[n].ord
  {
    var a := Without(part, n);
    WithoutElems(part, n);
    WithoutStrict(t, part, n);
    forall i, j | 0 <= i < j < |a| ensures t'[a[i]].ord < t'[a[j]].ord {
      assert a[i] in a && a[j] in a;
    }
  }

  ghost predicate Separates(t: Nodes, q: seq<NodeId>, pos: nat, v: real) {
    && pos <= |q|
    && Strict(t, q)
    && (forall k :: 0 <= k < pos ==> t[q[k]].ord < v)
    && (forall k :: pos <= k < |q| ==> v < t[q[k]].ord)
  }

  /** The ord chosen for `index` below `p` lies strictly between its neighbours there. */
  ghost predicate Separable(env: Env, t: Nodes, p: NodeId, index: Option<int>) {
    var q := Ordered(t, p);
    Separates(t, q, Position(index, |q|), PlaceOrd(env, Ords(t, q), index))
  }

  /** In exact arithmetic that is always so. */
  lemma ExactSeparable(env: Env, t: Nodes, p: NodeId, index: Option<int>)
    requires Exact(env) && Distinct(t)
    ensures Separable(env, t, p, index)
  {
    var q := Ordered(t, p);
    ListedIsStrict(t, p, q);
    PlaceOrdFits(env, Ords(t, q), index);
  }

  lemma SeparatedStrict(t: Nodes, t': Nodes, n: NodeId, q: seq<NodeId>, pos: nat)
    requires n in t' && SameElsewhere(t, t', n)
    requires Separates(t, q, pos, t'[n].ord)
    ensures Strict(t', Placed(q, n, pos))
  {
    var front, back := q[..pos], q[pos..];
    assert forall x :: x in front ==> x in q;
    assert forall x :: x in back ==> x in q;
    PartStrict(t, t', n, front, false);
    PartStrict(t, t', n, back, true);
    StrictJoin(t', Without(front, n), n, Without(back, n));
  }

  lemma StrictJoin(t: Nodes, a: seq<NodeId>, n: NodeId, b: seq<NodeId>)
    requires Strict(t, a) && Strict(t, b) && n in t
    requires forall x :: x in a ==> t[x].ord < t[n].ord
    requires forall x :: x in b ==> t[n].ord < t[x].ord
    ensures Strict(t, a + [n] + b)
  {
    var c := a + [n] + b;
    forall i, j | 0 <= i < j < |c| ensures t[c[i]].ord < t[c[j]].ord {
      if i < |a| { assert c[i] in a; }
      if j > |a| { assert c[j] in b; }
    }
  }

  lemma PlacedElems(t: Nodes, t': Nodes, n: NodeId, p: NodeId, pos: nat)
    requires n in t' && t'[n].parent == Some(p) && SameElsewhere(t, t', n)
    requires pos <= |Ordered(t, p)|
    ensures forall x :: x in Placed(Ordered(t, p), n, pos) <==> x in Siblings(t', p)
  {
    var q := Ordered(t, p);
    WithoutElems(q[..pos], n);
    WithoutElems(q[pos..], n);
    forall x ensures x in Placed(q, n, pos) <==> x in Siblings(t', p) {
      assert q == q[..pos] + q[pos..];
      assert x in q <==> x in Siblings(t, p);
    }
  }

  /** A node with an ord of its own among the siblings leaves all ords distinct. */
  lemma SeparatedDistinct(t: Nodes, t': Nodes, n: NodeId, p: NodeId, pos: nat)
    requires Distinct(t) && n in t' && t'[n].parent == Some(p) && SameElsewhere(t, t', n)
    requires Separates(t, Ordered(t, p), pos, t'[n].ord)
    ensures Distinct(t')
  {
    var c := Placed(Ordered(t, p), n, pos);
    SeparatedStrict(t, t', n, Ordered(t, p), pos);
    PlacedElems(t, t', n, p, pos);
    forall x, y | x in t' && y in t' && x != y && t'[x].parent.Some? && t'[x].parent == t'[y].parent
      ensures t'[x].ord != t'[y].ord
    {
      if t'[x].parent == Some(p) {
        assert x in Siblings(t', p) && y in Siblings(t', p);
        assert x in c && y in c;
        StrictSeparates(t', c, x, y);
      } else {
        assert t[x].ord != t[y].ord;
      }
    }
  }

  lemma StrictSeparates(t: Nodes, c: seq<NodeId>, x: NodeId, y: NodeId)
    requires Strict(t, c) && x in c && y in c && x != y
    ensures t[x].ord != t[y].ord
  {
    var i :| 0 <= i < |c| && c[i] == x;
    var j :| 0 <= j < |c| && c[j] == y;
  }

  /** Whatever the arithmetic: an ord that separates the siblings at `pos` puts the node at
      `pos`, and every other list only loses it. */
  lemma SeparatedOrders(t: Nodes, t': Nodes, n: NodeId, p: NodeId, pos: nat)
    requires Distinct(t) && n in t' && t'[n].parent == Some(p) && SameElsewhere(t, t', n)
    requires Separates(t, Ordered(t, p), pos, t'[n].ord)
    ensures Distinct(t') && Ordered(t', p) == Placed(Ordered(t, p), n, pos)
    ensures forall p' :: p' != p ==> Ordered(t', p') == Without(Ordered(t, p'), n)
  {
    SeparatedDistinct(t, t', n, p, pos);
    SeparatedStrict(t, t', n, Ordered(t, p), pos);
    PlacedElems(t, t', n, p, pos);
    StrictListIsOrdered(t', p, Placed(Ordered(t, p), n, pos));
    forall p' | p' != p ensures Ordered(t', p') == Without(Ordered(t, p'), n) {
      assert Siblings(t', p') == Siblings(t, p') - {n};
      OrderedWithout(t, t', n, p');
    }
  }

  /** Placement, in full: below `p` the node takes the position asked for, and every other
      list only loses it. */
  lemma PutOrders(env: Env, t: Nodes, t': Nodes, n: NodeId, p: NodeId, index: Option<int>)
    requires Separable(env, t, p, index) && Distinct(t) && PutBelow(env, t, t', n, p, index)
    ensures Distinct(t')
    ensures var q := Ordered(t, p); Ordered(t', p) == Placed(q, n, Position(index, |q|))
    ensures forall p' :: p' != p ==> Ordered(t', p') == Without(Ordered(t, p'), n)
  {
    hide Separates, PlaceOrd, Placed, Distinct;
    SeparatedOrders(t, t', n, p, Position(index, |Ordered(t, p)|));
  }

  lemma OrderedWithout(t: Nodes, t': Nodes, n: NodeId, p: NodeId)
    requires Distinct(t) && Distinct(t') && Siblings(t', p) == Siblings(t, p) - {n}
    requires forall y :: y in Siblings(t', p) ==> t'[y].ord == t[y].ord
    ensures Ordered(t', p) == Without(Ordered(t, p), n)
  {
    var q := Ordered(t, p);
    var c := Without(q, n);
    ListedIsStrict(t, p, q);
    WithoutStrict(t, q, n);
    WithoutElems(q, n);
    forall x | x in c ensures x in t' && t'[x].ord == t[x].ord { assert x in Siblings(t', p); }
    forall i, j | 0 <= i < j < |c| ensures t'[c[i]].ord < t'[c[j]].ord { assert c[i] in c && c[j] in c; }
    StrictListIsOrdered(t', p, c);
  }

  /** The child lists depend only on parents and ords. */
  lemma OrderedFrame(t: Nodes, t': Nodes, p: NodeId)
    requires Distinct(t) && Distinct(t')
    requires Siblings(t, p) == Siblings(t', p)
    requires forall y :: y in Siblings(t, p) ==> t'[y].ord == t[y].ord
    ensures Ordered(t', p) == Ordered(t, p)
  {
    var q := Ordered(t, p);
    forall x | x in q ensures x in t' && t'[x].ord == t[x].ord { assert x in Siblings(t, p); }
    assert ListsChildren(t', p, q);
    OrderedUnique(t', p, q);
  }
}
