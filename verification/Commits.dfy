/** Comparing the local head with the remote one (pkg/vcs/git/git.go), over the commit
    graph. The `ahead` flag means "the remote head is not reachable from the local head". */
module Commits {
  import opened Model

  type Hash = string

  /** Each commit with the hashes of its parents. */
  type Dag = map<Hash, seq<Hash>>

  /** Parents exist, and are older by some measure of age; so there is no cycle. */
  ghost predicate WellFounded(dag: Dag, age: Hash -> nat) {
    forall h, i :: h in dag && 0 <= i < |dag[h]| ==> dag[h][i] in dag && age(dag[h][i]) < age(h)
  }

  ghost predicate Path(dag: Dag, from: Hash, to: Hash, n: nat)
    decreases n
  {
    if n == 0 then from == to
    else from in dag && exists i :: 0 <= i < |dag[from]| && Path(dag, dag[from][i], to, n - 1)
  }

  /** `to` is `from` itself or one of its ancestors. */
  ghost predicate Reaches(dag: Dag, from: Hash, to: Hash) {
    exists n: nat :: Path(dag, from, to, n)
  }

  lemma {:induction false} PathAges(dag: Dag, age: Hash -> nat, from: Hash, to: Hash, n: nat)
    requires WellFounded(dag, age) && Path(dag, from, to, n)
    ensures age(to) + n <= age(from)
    decreases n
  {
    if n > 0 {
      var i :| 0 <= i < |dag[from]| && Path(dag, dag[from][i], to, n - 1);
      PathAges(dag, age, dag[from][i], to, n - 1);
    }
  }

  /** Two commits that reach each other are the same. */
  lemma ReachAntisymmetric(dag: Dag, age: Hash -> nat, a: Hash, b: Hash)
    requires WellFounded(dag, age) && Reaches(dag, a, b) && Reaches(dag, b, a)
    ensures a == b
  {
    var m: nat :| Path(dag, a, b, m);
    var n: nat :| Path(dag, b, a, n);
    PathAges(dag, age, a, b, m);
    PathAges(dag, age, b, a, n);
  }

  lemma ReachSelf(dag: Dag, a: Hash)
    ensures Reaches(dag, a, a)
  {
    assert Path(dag, a, a, 0);
  }

  lemma {:induction false} PathExtend(dag: Dag, a: Hash, b: Hash, i: nat, n: nat)
    requires Path(dag, a, b, n) && b in dag && i < |dag[b]|
    ensures Path(dag, a, dag[b][i], n + 1)
    decreases n
  {
    if n == 0 {
      assert Path(dag, dag[b][i], dag[b][i], 0);
    } else {
      var j :| 0 <= j < |dag[a]| && Path(dag, dag[a][j], b, n - 1);
      PathExtend(dag, dag[a][j], b, i, n - 1);
    }
  }

  /** A set that is closed under parents holds everything reachable from its members. */
  lemma {:induction false} ClosedReaches(dag: Dag, seen: set<Hash>, from: Hash, to: Hash, n: nat)
    requires from in seen && Path(dag, from, to, n)
    requires forall h, i :: h in seen && h in dag && 0 <= i < |dag[h]| ==> dag[h][i] in seen
    ensures to in seen
    decreases n
  {
    if n > 0 {
      var i :| 0 <= i < |dag[from]| && Path(dag, dag[from][i], to, n - 1);
      ClosedReaches(dag, seen, dag[from][i], to, n - 1);
    }
  }

  /** Walks the history from `start`, parents after children, and stops at `target`. */
  method CommitContains(dag: Dag, start: Hash, target: Hash) returns (found: bool)
    requires start in dag
    requires forall h, i :: h in dag && 0 <= i < |dag[h]| ==> dag[h][i] in dag
    ensures found <==> Reaches(dag, start, target)
  {
    if start == target {
      ReachSelf(dag, start);
      return true;
    }
    var stack, seen: set<Hash> := [start], {};
    ReachSelf(dag, start);
    while stack != []
      invariant seen <= dag.Keys && target !in seen
      invariant start in seen || start in stack
      invariant forall h :: h in stack ==> h in dag && Reaches(dag, start, h)
      invariant forall h, i :: h in seen && 0 <= i < |dag[h]| ==> dag[h][i] in seen || dag[h][i] in stack
      decreases dag.Keys - seen, |stack|
    {
      var c := stack[0];
      assert forall h :: h in stack <==> h == c || h in stack[1..];
      if c in seen {
        stack := stack[1..];
      } else {
        if c == target {
          return true;
        }
        assert c in stack;
        ghost var n: nat :| Path(dag, start, c, n);
        forall i | 0 <= i < |dag[c]| ensures Reaches(dag, start, dag[c][i]) {
          PathExtend(dag, start, c, i, n);
        }
        assert c in dag.Keys - seen;
        stack := dag[c] + stack[1..];
        seen := seen + {c};
      }
    }
    if Reaches(dag, start, target) {
      ghost var n: nat :| Path(dag, start, target, n);
      ClosedReaches(dag, seen, start, target, n);
    }
    return false;
  }

  datatype Comparison = Comparison(local: Hash, remote: Option<Hash>, ahead: bool, behind: bool)

  datatype CompareError = NoHead | MissingCommit

  /** The outcome of `compareRemote`: without a remote reference both flags are off. */
  ghost predicate Compared(dag: Dag, local: Hash, remote: Option<Hash>, c: Comparison) {
    && c.local == local && c.remote == remote
    && (remote.None? ==> !c.ahead && !c.behind)
    && (remote.Some? ==>
          && (c.ahead <==> !Reaches(dag, local, remote.value))
          && (c.behind <==> !Reaches(dag, remote.value, local)))
  }

  method CompareRemote(dag: Dag, head: Option<Hash>, remoteRef: Option<Hash>)
    returns (outcome: Result<Comparison, CompareError>)
    requires forall h, i :: h in dag && 0 <= i < |dag[h]| ==> dag[h][i] in dag
    ensures outcome.Ok? ==> head.Some? && Compared(dag, head.value, remoteRef, outcome.value)
    ensures outcome == Err(NoHead) <==> head.None?
    ensures outcome.Err? <==> head.None? || (remoteRef.Some? && remoteRef != head &&
                                             (head.value !in dag || remoteRef.value !in dag))
  {
    if head.None? {
      return Err(NoHead);
    }
    if remoteRef.None? {
      return Ok(Comparison(head.value, None, false, false));
    }
    var local, remote := head.value, remoteRef.value;
    if local == remote {
      ReachSelf(dag, local);
      return Ok(Comparison(local, remoteRef, false, false));
    }
    if local !in dag || remote !in dag {
      return Err(MissingCommit);
    }
    var localHasRemote := CommitContains(dag, local, remote);
    var remoteHasLocal := CommitContains(dag, remote, local);
    return Ok(Comparison(local, remoteRef, !localHasRemote, !remoteHasLocal));
  }

  /** The two flags classify the pair of heads: none for equal heads, both for diverged
      histories, exactly one when one head is a strict ancestor of the other. The flag that
      is on then names the head that LACKS the other: `ahead` alone means that the local
      head is the strict ancestor. */
  lemma FlagsClassify(dag: Dag, age: Hash -> nat, local: Hash, remote: Hash, c: Comparison)
    requires WellFounded(dag, age) && Compared(dag, local, Some(remote), c)
    ensures !c.ahead && !c.behind <==> local == remote
    ensures c.ahead && c.behind <==> !Reaches(dag, local, remote) && !Reaches(dag, remote, local)
    ensures c.ahead && !c.behind <==> local != remote && Reaches(dag, remote, local)
    ensures !c.ahead && c.behind <==> local != remote && Reaches(dag, local, remote)
  {
    ReachSelf(dag, local);
    if Reaches(dag, local, remote) && Reaches(dag, remote, local) {
      ReachAntisymmetric(dag, age, local, remote);
    }
  }
}
