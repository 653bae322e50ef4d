/** The apply_ops request (cmd/bmd/rpc.go) and whole runs of the daemon. A request is one
    atomic step: the tree is loaded, the batch validated against it, and applied. */
module Daemon {
  import opened Model
  import opened Chains
  import opened Order
  import opened Validator
  import opened Sqlite
  import opened Simulation
  import opened Failures
  import opened RoseTree
  import opened Refinement
  import opened Structure
  import opened Rounding
  import opened Loader

  // ----- request decoding

  datatype RpcOp = RpcOp(kind: string, parentId: string, title: string, url: string, index: Option<int>,
                         nodeId: string, newParentId: string, newIndex: Option<int>, recursive: bool, tabs: seq<Tab>)

  function OptStr(val: string): Option<string> {
    if val == "" then None else Some(val)
  }

  /** None stands for the error of a missing field or an unknown type. */
  function ToCoreOp(raw: RpcOp): Option<Op> {
    if raw.kind == "add_folder" then
      if raw.parentId == "" then None else Some(AddFolder(raw.parentId, raw.title, raw.index))
    else if raw.kind == "add_bookmark" then
      if raw.parentId == "" || raw.url == "" then None
      else Some(AddBookmark(raw.parentId, raw.title, raw.url, raw.index))
    else if raw.kind == "rename_node" then
      if raw.nodeId == "" then None else Some(Rename(raw.nodeId, raw.title))
    else if raw.kind == "move_node" then
      if raw.nodeId == "" || raw.newParentId == "" then None
      else Some(Move(raw.nodeId, raw.newParentId, raw.newIndex))
    else if raw.kind == "delete_node" then
      if raw.nodeId == "" then None else Some(Delete(raw.nodeId, raw.recursive))
    else if raw.kind == "update_bookmark" then
      if raw.nodeId == "" then None
      else Some(UpdateBookmark(raw.nodeId, OptStr(raw.title), OptStr(raw.url)))
    else if raw.kind == "save_session" then
      if raw.parentId == "" then None else Some(SaveSession(raw.parentId, raw.title, raw.tabs, raw.index))
    else None
  }

  /** The request that asks for `op`, written by a client. */
  function Request(op: Op): RpcOp {
    var blank := RpcOp("", "", "", "", None, "", "", None, false, []);
    match op
    case AddFolder(p, title, index) => blank.(kind := "add_folder", parentId := p, title := title, index := index)
    case AddBookmark(p, title, link, index) =>
      blank.(kind := "add_bookmark", parentId := p, title := title, url := link, index := index)
    case Rename(n, title) => blank.(kind := "rename_node", nodeId := n, title := title)
    case Move(n, p, index) => blank.(kind := "move_node", nodeId := n, newParentId := p, newIndex := index)
    case Delete(n, recursive) => blank.(kind := "delete_node", nodeId := n, recursive := recursive)
    case UpdateBookmark(n, newTitle, newUrl) =>
      blank.(kind := "update_bookmark", nodeId := n,
             title := if newTitle.Some? then newTitle.value else "",
             url := if newUrl.Some? then newUrl.value else "")
    case SaveSession(p, title, tabs, index) =>
      blank.(kind := "save_session", parentId := p, title := title, tabs := tabs, index := index)
  }

  /** No op has an empty id, no bookmark an empty link, and no update sets an empty text. */
  predicate Expressible(op: Op) {
    match op
    case AddFolder(p, _, _) => p != ""
    case AddBookmark(p, _, link, _) => p != "" && link != ""
    case Rename(n, _) => n != ""
    case Move(n, p, _) => n != "" && p != ""
    case Delete(n, _) => n != ""
    case UpdateBookmark(n, newTitle, newUrl) => n != "" && newTitle != Some("") && newUrl != Some("")
    case SaveSession(p, _, _, _) => p != ""
  }

  /** Exactly the expressible ops can be asked for: each survives the round trip, and
      decoding yields no others. In particular no update_bookmark request can blank a title;
      a rename_node request can. */
  lemma RequestRoundTrip(op: Op, raw: RpcOp)
    ensures ToCoreOp(Request(op)) == Some(op) <==> Expressible(op)
    ensures ToCoreOp(raw).Some? ==> Expressible(ToCoreOp(raw).value)
  {
    RequestDecodes(op);
    DecodedIsExpressible(raw);
    hide ToCoreOp, Request, Expressible;
  }

  lemma RequestDecodes(op: Op)
    ensures ToCoreOp(Request(op)) == Some(op) <==> Expressible(op)
  {
  }

  lemma DecodedIsExpressible(raw: RpcOp)
    ensures ToCoreOp(raw).Some? ==> Expressible(ToCoreOp(raw).value)
  {
  }

  /** An optional text on the wire: the empty text means absent. */
  predicate Conveys(text: string, val: Option<string>) {
    if text == "" then val.None? else val == Some(text)
  }

  /** `raw` asks for `op`: the type names the kind of op, the fields this kind reads agree with
      it, and the required ones are there. All other fields are ignored. */
  predicate Asks(raw: RpcOp, op: Op) {
    match op
    case AddFolder(p, title, index) =>
      raw.kind == "add_folder" && raw.parentId == p != "" && raw.title == title && raw.index == index
    case AddBookmark(p, title, link, index) =>
      && raw.kind == "add_bookmark" && raw.parentId == p != "" && raw.url == link != ""
      && raw.title == title && raw.index == index
    case Rename(n, title) => raw.kind == "rename_node" && raw.nodeId == n != "" && raw.title == title
    case Move(n, p, index) =>
      raw.kind == "move_node" && raw.nodeId == n != "" && raw.newParentId == p != "" && raw.newIndex == index
    case Delete(n, recursive) =>
      raw.kind == "delete_node" && raw.nodeId == n != "" && raw.recursive == recursive
    case UpdateBookmark(n, newTitle, newUrl) =>
      && raw.kind == "update_bookmark" && raw.nodeId == n != ""
      && Conveys(raw.title, newTitle) && Conveys(raw.url, newUrl)
    case SaveSession(p, title, tabs, index) =>
      && raw.kind == "save_session" && raw.parentId == p != "" && raw.title == title
      && raw.tabs == tabs && raw.index == index
  }

  /** Decoding yields exactly the op that is asked for. */
  lemma DecodesExactly(raw: RpcOp, op: Op)
    ensures ToCoreOp(raw) == Some(op) <==> Asks(raw, op)
  {
  }

  /** Which requests ask for nothing: those of an unknown type, and those that lack a field
      their type requires. */
  lemma UndecodableExactly(raw: RpcOp)
    ensures ToCoreOp(raw).None? <==> (forall op :: !Asks(raw, op))
    ensures ToCoreOp(raw).None? <==>
            match raw.kind
            case "add_folder" => raw.parentId == ""
            case "add_bookmark" => raw.parentId == "" || raw.url == ""
            case "rename_node" => raw.nodeId == ""
            case "move_node" => raw.nodeId == "" || raw.newParentId == ""
            case "delete_node" => raw.nodeId == ""
            case "update_bookmark" => raw.nodeId == ""
            case "save_session" => raw.parentId == ""
            case _ => true
  {
    if ToCoreOp(raw).Some? {
      DecodesExactly(raw, ToCoreOp(raw).value);
    }
    forall op | Asks(raw, op) ensures ToCoreOp(raw).Some? { DecodesExactly(raw, op); }
  }

  predicate AllDecode(raws: seq<RpcOp>) {
    forall i :: 0 <= i < |raws| ==> ToCoreOp(raws[i]).Some?
  }

  function Decoded(raws: seq<RpcOp>): (ops: seq<Op>)
    requires AllDecode(raws)
    ensures |ops| == |raws|
  {
    seq(|raws|, i requires 0 <= i < |raws| => ToCoreOp(raws[i]).value)
  }

  method ToCoreOps(raws: seq<RpcOp>) returns (ops: Option<seq<Op>>)
    ensures ops.Some? <==> AllDecode(raws)
    ensures ops.Some? ==> ops.value == Decoded(raws)
    ensures ops.Some? ==> |ops.value| == |raws| && forall i :: 0 <= i < |raws| ==> Asks(raws[i], ops.value[i])
  {
    hide ToCoreOp, Asks;
    var done: seq<Op> := [];
    for i := 0 to |raws|
      invariant AllDecode(raws[..i])
      invariant |done| == i && forall k :: 0 <= k < i ==> Some(done[k]) == ToCoreOp(raws[k]) && Asks(raws[k], done[k])
    {
      var op := ToCoreOp(raws[i]);
      if op.None? {
        return None;
      }
      DecodesExactly(raws[i], op.value);
      done := done + [op.value];
    }
    assert raws[..|raws|] == raws;
    return Some(done);
  }

  // ----- one request

  datatype State = State(rows: Nodes, minted: nat)

  datatype Outcome = Done | InvalidRequest | ValidationFailed(verdict: ValidationError) | StorageError(db: DbError)

  datatype Reply = Updated(tree: Tree) | Failed(why: Outcome)

  function OutcomeOf(reply: Reply): Outcome {
    match reply
    case Updated(_) => Done
    case Failed(why) => why
  }

  ghost function Handle(env: Env, st: State, raws: seq<RpcOp>): (State, Outcome) {
    if raws == [] || !AllDecode(raws) then (st, InvalidRequest)
    else
      var ops := Decoded(raws);
      match ShadowAfter(env, st.rows, ops, |ops|)
      case Reject(e) => (st, ValidationFailed(e))
      case Pass(_) =>
        var done := ApplyBatch(env, st.rows, st.minted, ops);
        (State(done.rows, done.minted), if done.err.Some? then StorageError(done.err.value) else Done)
  }

  method HandleApplyOps(env: Env, store: Store, raws: seq<RpcOp>) returns (reply: Reply)
    requires Acyclic(store.rows)
    modifies store
    ensures (State(store.rows, store.minted), OutcomeOf(reply)) ==
            Handle(env, State(old(store.rows), old(store.minted)), raws)
    ensures reply.Updated? ==> LoadedFrom(reply.tree, store.rows)
  {
    if |raws| == 0 {
      return Failed(InvalidRequest);
    }
    var tree := store.LoadTree();
    var ops := ToCoreOps(raws);
    if ops.None? {
      return Failed(InvalidRequest);
    }
    var err := ValidateOps(env, tree, ops.value);
    if err.Some? {
      return Failed(ValidationFailed(err.value));
    }
    hide ApplyBatch, ShadowAfter;
    var outcome := store.ApplyOps(env, ops.value);
    if outcome.Err? {
      return Failed(StorageError(outcome.error));
    }
    return Updated(outcome.value);
  }

  // ----- runs

  const ROOT_ROW: Node := Node(Folder, "Root", None, None, 0.0)

  /** What the daemon may be asked between two looks at the table. */
  datatype Message = ApplyOps(raws: seq<RpcOp>) | Read

  function InitState(): State {
    State(map[ROOT := ROOT_ROW], 0)
  }

  /** Opening the store on an empty file is where every run begins. */
  method Open() returns (store: Store)
    ensures fresh(store) && State(store.rows, store.minted) == InitState()
    ensures store.rows == map["root" := Node(Folder, "Root", None, None, 0.0)]
  {
    store := new Store();
  }

  ghost function Step(env: Env, st: State, msg: Message): State {
    match msg
    case ApplyOps(raws) => Handle(env, st, raws).0
    case Read => st
  }

  ghost function RunAfter(env: Env, run: seq<Message>, k: nat): State
    requires k <= |run|
    decreases k
  {
    if k == 0 then InitState() else Step(env, RunAfter(env, run, k - 1), run[k - 1])
  }

  /** A tree, fresh ids ahead, valid URLs, and the root row as it was created. */
  ghost predicate Safe(env: Env, st: State) {
    && GoodStart(env, st.rows, st.minted) && UrlsOk(env, st.rows)
    && st.rows[ROOT] == ROOT_ROW
  }

  lemma InitSafe(env: Env)
    requires GoodIds(env)
    ensures Safe(env, InitState()) && Distinct(InitState().rows)
  {
    AncSelf(InitState().rows, ROOT);
  }

  lemma OpMints(env: Env, t: Nodes, minted: nat, op: Op)
    ensures minted <= ApplyOp(env, t, minted, op).minted
  {
    if op.SaveSession? {
      var st := AddRow(env, t, minted, op.parent, op.index, Folder, op.title, None);
      TabsMint(env, st, env.newId(minted), op.tabs, |op.tabs|);
    }
  }

  lemma {:induction false} TabsMint(env: Env, st: Applied, folder: NodeId, tabs: seq<Tab>, k: nat)
    requires k <= |tabs|
    ensures st.minted <= TabsAfter(env, st, folder, tabs, k).minted
    decreases k
  {
    if k > 0 { TabsMint(env, st, folder, tabs, k - 1); }
  }

  lemma {:induction false} BatchMints(env: Env, t: Nodes, minted: nat, ops: seq<Op>, k: nat)
    requires k <= |ops|
    ensures minted <= StoreAfter(env, t, minted, ops, k).minted
    decreases k
  {
    hide ApplyOp;
    if k > 0 {
      BatchMints(env, t, minted, ops, k - 1);
      var st := StoreAfter(env, t, minted, ops, k - 1);
      OpMints(env, st.rows, st.minted, ops[k - 1]);
    }
  }

  /** An accepted batch, committed or rolled back, leaves the table safe. */
  lemma BatchKeepsSafe(env: Env, st: State, ops: seq<Op>)
    requires Safe(env, st) && Accepted(env, st.rows, ops)
    ensures var done := ApplyBatch(env, st.rows, st.minted, ops);
            Safe(env, State(done.rows, done.minted))
  {
    hide ShadowAfter, StoreAfter;
    BatchMints(env, st.rows, st.minted, ops, |ops|);
    if StoreAfter(env, st.rows, st.minted, ops, |ops|).err.None? {
      BatchSimulation(env, st.rows, st.minted, ops, |ops|);
      AcceptedBatchKeepsUrlsAndRoot(env, st.rows, st.minted, ops, |ops|);
    }
  }

  lemma StepKeepsSafe(env: Env, st: State, msg: Message)
    requires Safe(env, st)
    ensures Safe(env, Step(env, st, msg))
  {
    hide ShadowAfter, ApplyBatch, Safe;
    if msg.ApplyOps? && msg.raws != [] && AllDecode(msg.raws) {
      if Accepted(env, st.rows, Decoded(msg.raws)) { BatchKeepsSafe(env, st, Decoded(msg.raws)); }
    }
  }

  /** Every run of serialized requests keeps a rooted tree with valid bookmarks and an
      unchanged root, however ords are rounded. */
  lemma {:induction false} RunKeepsTree(env: Env, run: seq<Message>, k: nat)
    requires GoodIds(env) && k <= |run|
    ensures Safe(env, RunAfter(env, run, k))
    decreases k
  {
    hide Safe, Step, InitState;
    if k == 0 {
      InitSafe(env);
    } else {
      RunKeepsTree(env, run, k - 1);
      StepKeepsSafe(env, RunAfter(env, run, k - 1), run[k - 1]);
    }
  }

  /** A failed request changes nothing but the supply of ids. */
  lemma FailureChangesNothing(env: Env, st: State, raws: seq<RpcOp>)
    ensures Handle(env, st, raws).1 != Done ==> Handle(env, st, raws).0.rows == st.rows
  {
    hide ShadowAfter, StoreAfter;
  }

  /** When a request succeeds, decided before the store is called: there are ops, all of them
      decode, the validator accepts them, and none names an orphan. */
  lemma RequestDoneExactly(env: Env, st: State, raws: seq<RpcOp>)
    requires Safe(env, st)
    ensures Handle(env, st, raws).1 == Done <==>
            && raws != [] && AllDecode(raws) && Accepted(env, st.rows, Decoded(raws))
            && !NamesOrphan(env, st.rows, Decoded(raws))
  {
    hide ShadowAfter, StoreAfter, ApplyBatch, NamesOrphan;
    if AllDecode(raws) && Accepted(env, st.rows, Decoded(raws)) {
      FailsExactlyOnOrphans(env, st.rows, st.minted, Decoded(raws));
    }
  }

  // ----- order over runs, while the arithmetic serves every placement

  ghost predicate Ordinary(env: Env, st: State) {
    Safe(env, st) && Distinct(st.rows)
  }

  /** The placements of a done request find ords between their neighbours. */
  ghost predicate StepServed(env: Env, st: State, msg: Message) {
    msg.ApplyOps? && Handle(env, st, msg.raws).1 == Done ==>
      BatchServed(env, st.rows, st.minted, Decoded(msg.raws), |msg.raws|)
  }

  ghost predicate RunServed(env: Env, run: seq<Message>, k: nat)
    requires k <= |run|
  {
    forall i: nat :: i < k ==> StepServed(env, RunAfter(env, run, i), run[i])
  }

  /** In exact arithmetic they always do. */
  lemma ExactServesRun(env: Env, run: seq<Message>, k: nat)
    requires Exact(env) && k <= |run|
    ensures RunServed(env, run, k)
  {
    forall i: nat | i < k ensures StepServed(env, RunAfter(env, run, i), run[i]) {
      ExactServesStep(env, RunAfter(env, run, i), run[i]);
    }
  }

  lemma ExactServesStep(env: Env, st: State, msg: Message)
    requires Exact(env)
    ensures StepServed(env, st, msg)
  {
    if msg.ApplyOps? && Handle(env, st, msg.raws).1 == Done {
      hide ShadowAfter, ApplyBatch, BatchServed, Exact;
      ExactServesBatch(env, st.rows, st.minted, Decoded(msg.raws), |msg.raws|);
    }
  }

  /** The tree a client sees after a message: the plain operations if the batch was done, and
      the same tree otherwise. */
  lemma StepRefines(env: Env, st: State, msg: Message)
    requires Ordinary(env, st) && StepServed(env, st, msg)
    ensures Ordinary(env, Step(env, st, msg))
    ensures Abs(Step(env, st, msg).rows, ROOT) ==
            if msg.ApplyOps? && Handle(env, st, msg.raws).1 == Done
            then PlainAfter(env, Plain(Abs(st.rows, ROOT), st.minted), Decoded(msg.raws), |msg.raws|).tree
            else Abs(st.rows, ROOT)
  {
    StepKeepsSafe(env, st, msg);
    if msg.ApplyOps? {
      FailureChangesNothing(env, st, msg.raws);
      if Handle(env, st, msg.raws).1 == Done {
        DoneBatchRefines(env, st, Decoded(msg.raws));
      }
    }
    hide ShadowAfter, StoreAfter, Abs, PlainAfter, Safe, BatchServed;
  }

  lemma DoneBatchRefines(env: Env, st: State, ops: seq<Op>)
    requires Ordinary(env, st) && Accepted(env, st.rows, ops)
    requires ApplyBatch(env, st.rows, st.minted, ops).err.None?
    requires BatchServed(env, st.rows, st.minted, ops, |ops|)
    ensures var t' := ApplyBatch(env, st.rows, st.minted, ops).rows;
            && IsTree(t') && Distinct(t')
            && Abs(t', ROOT) == PlainAfter(env, Plain(Abs(st.rows, ROOT), st.minted), ops, |ops|).tree
  {
    hide ShadowAfter, StoreAfter, Abs, PlainAfter, BatchServed;
    BatchRefines(env, st.rows, st.minted, ops, |ops|);
  }

  lemma {:induction false} RunKeepsOrder(env: Env, run: seq<Message>, k: nat)
    requires GoodIds(env) && k <= |run| && RunServed(env, run, k)
    ensures Ordinary(env, RunAfter(env, run, k))
    decreases k
  {
    hide Ordinary, Step, InitState, Abs, StepServed;
    if k == 0 {
      InitOrdinary(env);
    } else {
      assert StepServed(env, RunAfter(env, run, k - 1), run[k - 1]);
      RunKeepsOrder(env, run, k - 1);
      StepKeepsOrdinary(env, RunAfter(env, run, k - 1), run[k - 1]);
    }
  }

  lemma InitOrdinary(env: Env)
    requires GoodIds(env)
    ensures Ordinary(env, InitState())
  {
    InitSafe(env);
  }

  lemma StepKeepsOrdinary(env: Env, st: State, msg: Message)
    requires Ordinary(env, st) && StepServed(env, st, msg)
    ensures Ordinary(env, Step(env, st, msg))
  {
    hide Step, Handle, Abs, PlainAfter;
    StepRefines(env, st, msg);
  }

  // ----- rounding over runs

  ghost predicate SameState(st: State, st': State) {
    SameButOrds(st.rows, st'.rows) && st.minted == st'.minted
  }

  /** Two daemons that differ only in how they round, asked the same thing. */
  lemma SameHandle(e: Env, e': Env, st: State, st': State, raws: seq<RpcOp>)
    requires SameButRounding(e, e') && SameState(st, st')
    ensures SameState(Handle(e, st, raws).0, Handle(e', st', raws).0)
    ensures Handle(e, st, raws).1 == Handle(e', st', raws).1
  {
    hide ShadowAfter, ApplyBatch, SameButOrds, SameButRounding;
    if AllDecode(raws) { SameBatch(e, e', st.rows, st'.rows, st.minted, Decoded(raws)); }
  }

  /** However ords are rounded, a run goes through the same states up to ords: the same ids,
      parents, titles and links, and the same outcome of every request. */
  lemma {:induction false} RoundingAffectsOnlyOrds(e: Env, e': Env, run: seq<Message>, k: nat)
    requires SameButRounding(e, e') && k <= |run|
    ensures SameState(RunAfter(e, run, k), RunAfter(e', run, k))
    ensures forall raws :: Handle(e, RunAfter(e, run, k), raws).1 == Handle(e', RunAfter(e', run, k), raws).1
    decreases k
  {
    hide SameButOrds, Handle, SameButRounding;
    if k == 0 {
      assert SameState(InitState(), InitState()) by { SameReflexive(InitState().rows); }
    } else {
      RoundingAffectsOnlyOrds(e, e', run, k - 1);
      if run[k - 1].ApplyOps? {
        SameHandle(e, e', RunAfter(e, run, k - 1), RunAfter(e', run, k - 1), run[k - 1].raws);
      }
    }
    forall raws ensures Handle(e, RunAfter(e, run, k), raws).1 == Handle(e', RunAfter(e', run, k), raws).1 {
      SameHandle(e, e', RunAfter(e, run, k), RunAfter(e', run, k), raws);
    }
  }

  lemma SameReflexive(t: Nodes)
    ensures SameButOrds(t, t)
  {
  }

  // ----- float64 over runs

  /** What the placements of a message cost, on top of what was spent before. A request that
      is not done costs nothing, even if its batch was started and rolled back. */
  ghost function StepCost(env: Env, start: Cost, st: State, msg: Message): Cost {
    if msg.ApplyOps? && Handle(env, st, msg.raws).1 == Done
    then CostAfter(env, start, st.rows, st.minted, Decoded(msg.raws), |msg.raws|)
    else start
  }

  ghost function RunCost(env: Env, run: seq<Message>, k: nat): Cost
    requires k <= |run|
    decreases k
  {
    if k == 0 then Cost(0, 0, 0)
    else StepCost(env, RunCost(env, run, k - 1), RunAfter(env, run, k - 1), run[k - 1])
  }

  lemma {:induction false} CostOnlyGrows(env: Env, start: Cost, t: Nodes, minted: nat, ops: seq<Op>, k: nat)
    requires k <= |ops|
    ensures Fits(CostAfter(env, start, t, minted, ops, k)) ==> Fits(start)
    decreases k
  {
    hide StoreAfter, Fits, OpCost;
    if k > 0 {
      CostOnlyGrows(env, start, t, minted, ops, k - 1);
      var c := CostAfter(env, start, t, minted, ops, k - 1);
      var more := OpCost(StoreAfter(env, t, minted, ops, k - 1).rows, ops[k - 1]);
      if Fits(c.Plus(more)) { FitsLess(c, more); }
    }
  }

  lemma ExactSame(env: Env, st: State)
    ensures SameButRounding(env, ExactEnv(env)) && SameState(st, st)
  {
    SameReflexive(st.rows);
  }

  /** A done batch, in both arithmetics. */
  lemma DoneFloat(env: Env, start: Cost, st: State, raws: seq<RpcOp>)
    requires CorrectlyRounded(env) && Within(st.rows, start) && Handle(ExactEnv(env), st, raws).1 == Done
    ensures var c := StepCost(ExactEnv(env), start, st, ApplyOps(raws));
            && Within(Handle(ExactEnv(env), st, raws).0.rows, c)
            && (Fits(c) ==> Fits(start) && Handle(env, st, raws) == Handle(ExactEnv(env), st, raws))
  {
    var exact, ops := ExactEnv(env), Decoded(raws);
    ExactSame(env, st);
    hide SameButRounding;
    SameHandle(env, exact, st, st, raws);
    CostOnlyGrows(exact, start, st.rows, st.minted, ops, |ops|);
    BatchWithin(env, start, st.rows, st.minted, ops, |ops|);
    hide ShadowAfter, StoreAfter, CostAfter, Fits, OrdWithin, CorrectlyRounded, ExactEnv;
  }

  lemma StepFloat(env: Env, start: Cost, st: State, msg: Message)
    requires CorrectlyRounded(env) && Within(st.rows, start)
    ensures var c := StepCost(ExactEnv(env), start, st, msg);
            && Within(Step(ExactEnv(env), st, msg).rows, c)
            && (Fits(c) ==> Fits(start) && Step(env, st, msg) == Step(ExactEnv(env), st, msg))
  {
    hide Handle, Fits, Within, CostAfter, CorrectlyRounded, ExactEnv, SameButOrds, SameButRounding;
    if msg.ApplyOps? {
      var exact, raws := ExactEnv(env), msg.raws;
      if Handle(exact, st, raws).1 == Done {
        DoneFloat(env, start, st, raws);
      } else {
        ExactSame(env, st);
        SameHandle(env, exact, st, st, raws);
        FailureChangesNothing(env, st, raws);
        FailureChangesNothing(exact, st, raws);
      }
    }
  }

  /** Over whole runs: while the placements made so far fit into 53 bits, the float64 daemon
      is in exactly the state of the real-number daemon, and every stored ord obeys the
      dyadic bound. */
  lemma {:induction false} RunFloat(env: Env, run: seq<Message>, k: nat)
    requires CorrectlyRounded(env) && k <= |run|
    ensures var c := RunCost(ExactEnv(env), run, k);
            && Within(RunAfter(ExactEnv(env), run, k).rows, c)
            && (Fits(c) ==> RunAfter(env, run, k) == RunAfter(ExactEnv(env), run, k))
    decreases k
  {
    hide Step, StepCost, Fits, CorrectlyRounded, OrdWithin;
    if k == 0 {
      GridInt(0, 0);
      ZeroWithin();
    } else {
      RunFloat(env, run, k - 1);
      StepFloat(env, RunCost(ExactEnv(env), run, k - 1), RunAfter(ExactEnv(env), run, k - 1), run[k - 1]);
    }
  }

  lemma ZeroWithin()
    ensures OrdWithin(0.0, Cost(0, 0, 0))
  {
    GridInt(0, 0);
  }

  /** So the float64 daemon keeps sibling ords distinct as long as the bound fits, and keeps
      them further apart than the epsilon through the first 19 interior placements. */
  lemma RunFloatKeepsOrder(env: Env, run: seq<Message>, k: nat)
    requires CorrectlyRounded(env) && GoodIds(env) && k <= |run| && Fits(RunCost(ExactEnv(env), run, k))
    ensures Distinct(RunAfter(env, run, k).rows)
    ensures RunCost(ExactEnv(env), run, k).interior <= 19 ==> AllApart(RunAfter(env, run, k).rows, ORD_EPSILON)
  {
    RunFloat(env, run, k);
    var exact := ExactEnv(env);
    assert GoodIds(exact) && Exact(exact);
    ExactServesRun(exact, run, k);
    RunKeepsOrder(exact, run, k);
    var t, c := RunAfter(env, run, k).rows, RunCost(exact, run, k);
    hide RunAfter, RunCost, Fits, CorrectlyRounded;
    if c.interior <= 19 { WithinKeepsGap(t, c); }
  }

  lemma WithinKeepsGap(t: Nodes, c: Cost)
    requires Distinct(t) && Within(t, c) && c.interior <= 19
    ensures AllApart(t, ORD_EPSILON)
  {
    forall x, y | x in t && y in t && x != y && t[x].parent.Some? && t[x].parent == t[y].parent
      ensures Away(t[x].ord, t[y].ord, ORD_EPSILON)
    {
      if t[x].ord < t[y].ord {
        GapAboveEpsilon(t[x].ord, t[y].ord, c);
      } else {
        GapAboveEpsilon(t[y].ord, t[x].ord, c);
      }
    }
  }

  // ----- end to end

  lemma {:induction false} PlainIgnoresRounding(env: Env, start: Plain, ops: seq<Op>, k: nat)
    requires k <= |ops|
    ensures PlainAfter(ExactEnv(env), start, ops, k) == PlainAfter(env, start, ops, k)
    decreases k
  {
    hide PlainOp;
    if k > 0 {
      PlainIgnoresRounding(env, start, ops, k - 1);
      PlainOpIgnoresRounding(env, PlainAfter(env, start, ops, k - 1), ops[k - 1]);
    }
  }

  lemma PlainOpIgnoresRounding(env: Env, st: Plain, op: Op)
    ensures PlainOp(ExactEnv(env), st, op) == PlainOp(env, st, op)
  {
    if op.SaveSession? {
      assert TabLeaves(ExactEnv(env), st.minted + 1, op.tabs) == TabLeaves(env, st.minted + 1, op.tabs);
    }
  }

  /** A tree loaded after a done batch shows its reader exactly the tree before the request
      after the plain list operations. */
  ghost predicate ShowsPlainResult(env: Env, st: State, raws: seq<RpcOp>, tree: Tree) {
    Handle(env, st, raws).1 == Done && LoadedFrom(tree, Step(env, st, ApplyOps(raws)).rows) ==>
      && IsTree(tree.nodes) && ROOT in tree.nodes && AllDecode(raws) && IsTree(st.rows)
      && ClientView(tree, ROOT) ==
         PlainAfter(env, Plain(Abs(st.rows, ROOT), st.minted), Decoded(raws), |raws|).tree
  }

  /** End to end, at any point of any run whose placements have all been served: replies show
      the result of the plain operations. */
  lemma ReplyShowsPlainResult(env: Env, run: seq<Message>, k: nat, tree: Tree)
    requires GoodIds(env) && k < |run| && run[k].ApplyOps? && RunServed(env, run, k + 1)
    ensures ShowsPlainResult(env, RunAfter(env, run, k), run[k].raws, tree)
  {
    var st, raws := RunAfter(env, run, k), run[k].raws;
    if Handle(env, st, raws).1 == Done && LoadedFrom(tree, Step(env, st, ApplyOps(raws)).rows) {
      assert StepServed(env, st, run[k]);
      hide StepServed, Handle, LoadedFrom;
      RunKeepsOrder(env, run, k);
      ServedReply(env, st, raws, tree);
    }
  }

  lemma ServedReply(env: Env, st: State, raws: seq<RpcOp>, tree: Tree)
    requires Ordinary(env, st) && StepServed(env, st, ApplyOps(raws)) && Handle(env, st, raws).1 == Done
    requires LoadedFrom(tree, Step(env, st, ApplyOps(raws)).rows)
    ensures IsTree(st.rows) && IsTree(tree.nodes) && ROOT in tree.nodes && AllDecode(raws)
    ensures ClientView(tree, ROOT) ==
            PlainAfter(env, Plain(Abs(st.rows, ROOT), st.minted), Decoded(raws), |raws|).tree
  {
    StepRefines(env, st, ApplyOps(raws));
    hide ShadowAfter, ApplyBatch, PlainAfter, Abs, ClientView, StepServed;
    ClientSeesTree(tree, ROOT);
  }

  /** In particular for the float64 daemon within the counted bound. */
  lemma FloatReplyShowsPlainResult(env: Env, run: seq<Message>, k: nat, tree: Tree)
    requires CorrectlyRounded(env) && GoodIds(env) && k < |run| && run[k].ApplyOps?
    ensures Fits(RunCost(ExactEnv(env), run, k + 1)) ==>
              ShowsPlainResult(env, RunAfter(env, run, k), run[k].raws, tree)
  {
    var exact, st, raws := ExactEnv(env), RunAfter(env, run, k), run[k].raws;
    if Fits(RunCost(exact, run, k + 1)) && Handle(env, st, raws).1 == Done &&
       LoadedFrom(tree, Step(env, st, ApplyOps(raws)).rows) {
      RunFloat(env, run, k);
      StepFloat(env, RunCost(exact, run, k), RunAfter(exact, run, k), run[k]);
      ExactServesRun(exact, run, k + 1);
      assert StepServed(exact, RunAfter(exact, run, k), run[k]);
      ExactSame(env, st);
      RoundingAffectsOnlyOrds(env, exact, run, k);
      hide Fits, CorrectlyRounded, Within, Handle, RunCost, StepCost, LoadedFrom, StepServed, SameButRounding;
      RunKeepsOrder(exact, run, k);
      ServedReply(exact, st, raws, tree);
      PlainIgnoresRounding(env, Plain(Abs(st.rows, ROOT), st.minted), Decoded(raws), |raws|);
    }
  }

  // ----- why requests must be serialized

  const A: NodeId := "a"
  const B: NodeId := "b"

  /** Two folders side by side, and two requests that move each into the other. Both pass
      validation against the same tree; applied one after the other without a new look at
      the table they close a loop. */
  lemma StaleValidationLoops(env: Env, minted: nat)
    ensures var t := map[ROOT := ROOT_ROW, A := Node(Folder, "A", None, Some(ROOT), 0.0),
                         B := Node(Folder, "B", None, Some(ROOT), 1.0)];
            var first, second := [Move(A, B, None)], [Move(B, A, None)];
            var mid := ApplyBatch(env, t, minted, first);
            var end := ApplyBatch(env, mid.rows, mid.minted, second);
            && IsTree(t) && Accepted(env, t, first) && Accepted(env, t, second)
            && mid.err.None? && IsTree(mid.rows) && end.err.None? && !Acyclic(end.rows)
            && !Accepted(env, mid.rows, second)
  {
    var t0: Nodes := map[ROOT := ROOT_ROW];
    var a, b := Node(Folder, "A", None, Some(ROOT), 0.0), Node(Folder, "B", None, Some(ROOT), 1.0);
    AncSelf(t0, ROOT);
    AddKeepsTree(t0, A, a);
    AddKeepsTree(t0[A := a], B, b);
    var t := t0[A := a][B := b];
    assert t == map[ROOT := ROOT_ROW, A := a, B := b];
    MutualMoves(env, t, minted);
  }

  lemma MutualMoves(env: Env, t: Nodes, minted: nat)
    requires IsTree(t) && A in t && B in t && t[A].parent == t[B].parent == Some(ROOT)
    requires t[A].kind == t[B].kind == Folder
    ensures var first, second := [Move(A, B, None)], [Move(B, A, None)];
            var mid := ApplyBatch(env, t, minted, first);
            var end := ApplyBatch(env, mid.rows, mid.minted, second);
            && Accepted(env, t, first) && Accepted(env, t, second)
            && mid.err.None? && IsTree(mid.rows) && end.err.None? && !Acyclic(end.rows)
            && !Accepted(env, mid.rows, second)
  {
    AncStep(t, A, B);
    AncStop(t, A, ROOT);
    AncStep(t, B, A);
    AncStop(t, B, ROOT);
    var m1, m2 := Move(A, B, None), Move(B, A, None);
    var first, second := [m1], [m2];
    assert ShadowAfter(env, t, first, 1) == ValidateOp(env, t, m1);
    assert ShadowAfter(env, t, second, 1) == ValidateOp(env, t, m2);
    var mid := ApplyOp(env, t, minted, m1);
    assert StoreAfter(env, t, minted, first, 1) == mid;
    MoveKeepsTree(t, mid.rows, A, B);
    assert ShadowAfter(env, mid.rows, second, 1) == ValidateOp(env, mid.rows, m2);
    AncSelf(mid.rows, B);
    AncStep(mid.rows, B, A);
    TreeIsAcyclic(mid.rows);
    var end := ApplyOp(env, mid.rows, minted, m2);
    assert StoreAfter(env, mid.rows, minted, second, 1) == end;
    assert ChainTo(end.rows, A, A, 0) && ChainTo(end.rows, B, A, 1) && ChainTo(end.rows, A, A, 2);
    if Terminates(end.rows, A) { NoLoop(end.rows, A, 2); }
  }
}
