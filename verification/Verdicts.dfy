/** What a batch is refused for, told without following the order of the code: the possible
    faults of an op, one independent of the other, and which of them is reported. */
module Verdicts {
  import opened Model
  import opened Chains
  import opened Validator

  // ----- what can be wrong with an op

  /** The folder an op puts something into, and the index asked for. */
  function Target(op: Op): Option<(NodeId, Option<int>)> {
    match op
    case AddFolder(p, _, index) => Some((p, index))
    case AddBookmark(p, _, _, index) => Some((p, index))
    case SaveSession(p, _, _, index) => Some((p, index))
    case Move(_, p, index) => Some((p, index))
    case _ => None
  }

  /** The links an op brings along. */
  function Links(op: Op): set<string> {
    match op
    case AddBookmark(_, _, link, _) => {link}
    case SaveSession(_, _, tabs, _) => set i | 0 <= i < |tabs| :: tabs[i].url
    case UpdateBookmark(_, _, newUrl) => if newUrl.Some? then {newUrl.value} else {}
    case _ => {}
  }

  predicate BadLink(env: Env, link: string) {
    link == "" || (env.parseScheme(link) != Some("http") && env.parseScheme(link) != Some("https"))
  }

  /** `op` has a fault of kind `e` on the nodes `s`. One op may have several. */
  ghost predicate Fault(env: Env, s: Nodes, op: Op, e: ValidationError) {
    match e
    case InvalidNode =>
      || ((op.Rename? || op.Move? || op.Delete?) && op.node !in s)
      || (op.UpdateBookmark? && (op.node !in s || s[op.node].kind != Bookmark))
    case RootImmutable => (op.Rename? || op.Move? || op.Delete?) && op.node == "root"
    case InvalidParent =>
      Target(op).Some? && var p := Target(op).value.0; p !in s || s[p].kind != Folder
    case CycleDetected =>
      op.Move? && op.node in s && op.newParent in s && !Acyclic(s[op.node := s[op.node].(parent := Some(op.newParent))])
    case InvalidIndex =>
      && Target(op).Some?
      && var (p, index) := Target(op).value;
         index.Some? && (index.value < 0 || index.value > |set x | x in s && s[x].parent == Some(p)|)
    case InvalidUrl => exists link :: link in Links(op) && BadLink(env, link)
  }

  /** Faults in the order in which they are reported. */
  function Rank(e: ValidationError): nat {
    match e
    case InvalidNode => 0
    case RootImmutable => 1
    case InvalidParent => 2
    case CycleDetected => 3
    case InvalidIndex => 4
    case InvalidUrl => 5
  }

  /** The fault that is reported. */
  ghost predicate FirstFault(env: Env, s: Nodes, op: Op, e: ValidationError) {
    Fault(env, s, op, e) && forall e' :: Rank(e') < Rank(e) ==> !Fault(env, s, op, e')
  }

  ghost predicate Faultless(env: Env, s: Nodes, op: Op) {
    forall e :: !Fault(env, s, op, e)
  }

  /** What the validator simulates: moves and shallow deletes, nothing else. */
  ghost function Simulated(s: Nodes, op: Op): Nodes {
    match op
    case Move(n, p, _) => if n in s then s[n := s[n].(parent := Some(p))] else s
    case Delete(n, _) => map x | x in s && x != n :: s[x]
    case _ => s
  }

  // ----- one op

  lemma LinksAlike(env: Env, op: Op)
    ensures op.AddBookmark? ==> (ValidUrl(env, op.link) <==> !BadLinks(env, op))
    ensures op.SaveSession? ==> (UrlsValid(env, op.tabs) <==> !BadLinks(env, op))
    ensures op.UpdateBookmark? ==>
              ((op.newUrl.Some? ==> ValidUrl(env, op.newUrl.value)) <==> !BadLinks(env, op))
    ensures !op.AddBookmark? && !op.SaveSession? && !op.UpdateBookmark? ==> !BadLinks(env, op)
  {
    assert forall link :: ValidUrl(env, link) <==> !BadLink(env, link);
    hide ValidUrl, BadLink;
    if op.SaveSession? {
      forall i | 0 <= i < |op.tabs| ensures op.tabs[i].url in Links(op) { }
    }
    if op.AddBookmark? { assert op.link in Links(op); }
    if op.UpdateBookmark? && op.newUrl.Some? { assert op.newUrl.value in Links(op); }
  }

  ghost predicate BadLinks(env: Env, op: Op) {
    exists link :: link in Links(op) && BadLink(env, link)
  }

  lemma AddVerdict(env: Env, s: Nodes, op: Op, e: ValidationError)
    requires op.AddFolder? || op.AddBookmark? || op.SaveSession?
    ensures ValidateOp(env, s, op) == Reject(e) <==> FirstFault(env, s, op, e)
    ensures ValidateOp(env, s, op) == Pass(s) <==> Faultless(env, s, op)
    ensures ValidateOp(env, s, op).Pass? ==> ValidateOp(env, s, op).state == s
  {
    hide ValidUrl, BadLink, Links, UrlsValid, Acyclic;
    LinksAlike(env, op);
    assert Siblings(s, op.parent) == set x | x in s && s[x].parent == Some(op.parent);
    assert Fault(env, s, op, InvalidUrl) <==> BadLinks(env, op);
    hide BadLinks;
    assert Fault(env, s, op, InvalidParent) <==> !IsFolder(s, op.parent);
    assert Fault(env, s, op, InvalidIndex) <==> !IndexOk(op.index, |Siblings(s, op.parent)|);
    assert !Fault(env, s, op, InvalidNode) && !Fault(env, s, op, RootImmutable) && !Fault(env, s, op, CycleDetected);
    hide Fault, IndexOk, IsFolder, Siblings;
  }

  lemma MoveVerdict(env: Env, s: Nodes, op: Op, e: ValidationError)
    requires Acyclic(s) && op.Move?
    ensures ValidateOp(env, s, op) == Reject(e) <==> FirstFault(env, s, op, e)
    ensures ValidateOp(env, s, op) == Pass(Simulated(s, op)) <==> Faultless(env, s, op)
    ensures ValidateOp(env, s, op).Pass? ==> ValidateOp(env, s, op).state == Simulated(s, op)
  {
    var n, p := op.node, op.newParent;
    assert Siblings(s, p) == set x | x in s && s[x].parent == Some(p);
    if n in s && p in s { MoveCyclicIffAncestor(s, n, p); }
    hide Acyclic, Anc;
    assert Fault(env, s, op, InvalidNode) <==> n !in s;
    assert Fault(env, s, op, RootImmutable) <==> n == ROOT;
    assert Fault(env, s, op, InvalidParent) <==> !IsFolder(s, p);
    assert Fault(env, s, op, CycleDetected) <==> n in s && p in s && Anc(s, n, p);
    assert Fault(env, s, op, InvalidIndex) <==> !IndexOk(op.index, |Siblings(s, p)|);
    assert !Fault(env, s, op, InvalidUrl);
    hide Fault;
  }

  lemma EditVerdict(env: Env, s: Nodes, op: Op, e: ValidationError)
    requires op.Rename? || op.Delete? || op.UpdateBookmark?
    ensures ValidateOp(env, s, op) == Reject(e) <==> FirstFault(env, s, op, e)
    ensures ValidateOp(env, s, op) == Pass(Simulated(s, op)) <==> Faultless(env, s, op)
    ensures ValidateOp(env, s, op).Pass? ==> ValidateOp(env, s, op).state == Simulated(s, op)
  {
    LinksAlike(env, op);
    hide ValidUrl, BadLink, Links, UrlsValid, Acyclic;
    assert Fault(env, s, op, InvalidUrl) <==> BadLinks(env, op);
    hide BadLinks;
    assert !Fault(env, s, op, InvalidParent) && !Fault(env, s, op, CycleDetected) && !Fault(env, s, op, InvalidIndex);
    assert Fault(env, s, op, RootImmutable) <==> !op.UpdateBookmark? && op.node == ROOT;
    assert Fault(env, s, op, InvalidNode) <==> op.node !in s || (op.UpdateBookmark? && s[op.node].kind != Bookmark);
    hide Fault;
    assert op.Delete? ==> Simulated(s, op) == s - {op.node};
  }

  /** The verdict on one op, in full: it passes if and only if it has no fault, and is rejected
      for the first one otherwise. */
  lemma VerdictExactly(env: Env, s: Nodes, op: Op, e: ValidationError)
    requires Acyclic(s)
    ensures ValidateOp(env, s, op) == Reject(e) <==> FirstFault(env, s, op, e)
    ensures ValidateOp(env, s, op).Pass? <==> Faultless(env, s, op)
    ensures ValidateOp(env, s, op).Pass? ==> ValidateOp(env, s, op).state == Simulated(s, op)
  {
    hide Acyclic;
    if op.Move? {
      MoveVerdict(env, s, op, e);
    } else if op.Rename? || op.Delete? || op.UpdateBookmark? {
      EditVerdict(env, s, op, e);
    } else {
      AddVerdict(env, s, op, e);
    }
    hide ValidateOp, FirstFault, Faultless;
  }

  // ----- whole batches

  ghost function SimulatedAfter(s: Nodes, ops: seq<Op>, k: nat): Nodes
    requires k <= |ops|
    decreases k
  {
    if k == 0 then s else Simulated(SimulatedAfter(s, ops, k - 1), ops[k - 1])
  }

  ghost predicate FaultlessBefore(env: Env, s: Nodes, ops: seq<Op>, k: nat)
    requires k <= |ops|
  {
    forall j: nat :: j < k ==> Faultless(env, SimulatedAfter(s, ops, j), ops[j])
  }

  /** The first faulty op is the one at `k`, and `e` is what it is refused for. */
  ghost predicate RefusedAt(env: Env, s: Nodes, ops: seq<Op>, k: nat, e: ValidationError) {
    k < |ops| && FaultlessBefore(env, s, ops, k) && FirstFault(env, SimulatedAfter(s, ops, k), ops[k], e)
  }

  lemma {:induction false} ShadowIsSimulated(env: Env, s: Nodes, ops: seq<Op>, k: nat)
    requires Acyclic(s) && k <= |ops|
    ensures ShadowAfter(env, s, ops, k).Pass? <==> FaultlessBefore(env, s, ops, k)
    ensures ShadowAfter(env, s, ops, k).Pass? ==>
              ShadowAfter(env, s, ops, k).state == SimulatedAfter(s, ops, k) && Acyclic(SimulatedAfter(s, ops, k))
    decreases k
  {
    hide ValidateOp, Faultless, Simulated, Acyclic;
    if k > 0 {
      ShadowIsSimulated(env, s, ops, k - 1);
      var v := ShadowAfter(env, s, ops, k - 1);
      if v.Pass? {
        VerdictExactly(env, v.state, ops[k - 1], InvalidNode);
        if ShadowAfter(env, s, ops, k).Pass? { ShadowKeeps(env, s, ops, k); }
      }
    }
  }

  lemma {:induction false} FirstRejected(env: Env, s: Nodes, ops: seq<Op>, e: ValidationError, k: nat) returns (j: nat)
    requires k <= |ops| && ShadowAfter(env, s, ops, k) == Reject(e)
    ensures j < k && ShadowAfter(env, s, ops, j).Pass? && ShadowAfter(env, s, ops, j + 1) == Reject(e)
    decreases k
  {
    hide ValidateOp;
    if ShadowAfter(env, s, ops, k - 1).Pass? {
      j := k - 1;
    } else {
      j := FirstRejected(env, s, ops, e, k - 1);
    }
  }

  /** The verdict on a batch, in full: the first faulty op decides, with its first fault. */
  lemma BatchVerdictExactly(env: Env, s: Nodes, ops: seq<Op>, e: ValidationError)
    requires Acyclic(s)
    ensures ShadowAfter(env, s, ops, |ops|) == Reject(e) <==> exists k: nat :: RefusedAt(env, s, ops, k, e)
    ensures Accepted(env, s, ops) <==> FaultlessBefore(env, s, ops, |ops|)
  {
    hide ValidateOp, Faultless, FirstFault, FaultlessBefore, Simulated, SimulatedAfter, Acyclic;
    ShadowIsSimulated(env, s, ops, |ops|);
    if ShadowAfter(env, s, ops, |ops|) == Reject(e) {
      var k := FirstRejected(env, s, ops, e, |ops|);
      ShadowIsSimulated(env, s, ops, k);
      VerdictExactly(env, SimulatedAfter(s, ops, k), ops[k], e);
      assert RefusedAt(env, s, ops, k, e);
    }
    if k: nat :| RefusedAt(env, s, ops, k, e) {
      ShadowIsSimulated(env, s, ops, k);
      VerdictExactly(env, SimulatedAfter(s, ops, k), ops[k], e);
      assert ShadowAfter(env, s, ops, k + 1) == Reject(e);
      FirstRejectionStays(env, s, ops, k + 1, |ops|);
    }
  }
}
