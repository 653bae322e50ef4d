/** The entities of the bookmark tree: nodes, operations, errors, and the parts of
    the outside world the daemon depends on. */
module Model {

  datatype Option<+T> = None | Some(value: T)

  datatype Result<+T, +E> = Ok(value: T) | Err(error: E)

  type NodeId = string

  const ROOT: NodeId := "root"

  datatype Kind = Folder | Bookmark

  /** One row of the `nodes` table, and equally one node of a loaded tree. The id of a
      node is the key it is stored under. */
  datatype Node = Node(kind: Kind, title: string, url: Option<string>, parent: Option<NodeId>, ord: real)

  type Nodes = map<NodeId, Node>

  /** What `LoadTree` returns: the nodes, and for each parent its ordered child list. */
  datatype Tree = Tree(nodes: Nodes, children: map<NodeId, seq<NodeId>>)

  datatype Tab = Tab(title: string, url: string)

  datatype Op =
    | AddFolder(parent: NodeId, title: string, index: Option<int>)
    | AddBookmark(parent: NodeId, title: string, link: string, index: Option<int>)
    | Rename(node: NodeId, title: string)
    | Move(node: NodeId, newParent: NodeId, index: Option<int>)
    | Delete(node: NodeId, recursive: bool)
    | UpdateBookmark(node: NodeId, newTitle: Option<string>, newUrl: Option<string>)
    | SaveSession(parent: NodeId, title: string, tabs: seq<Tab>, index: Option<int>)

  datatype ValidationError =
    | InvalidParent
    | CycleDetected
    | RootImmutable
    | InvalidNode
    | InvalidIndex
    | InvalidUrl

  datatype DbError = PrimaryKey | ForeignKey | NoRowsAffected

  /** The outside world.
      - `parseScheme` is URL parsing: the scheme, or None when the text does not parse.
      - `newId(i)` is the i-th id the id generator ever hands out.
      - `round` is the rounding of a real result to a float64. */
  datatype Env = Env(parseScheme: string -> Option<string>, newId: nat -> NodeId, round: real -> real)

  /** Ids are never handed out twice, and the generator never produces "root". */
  ghost predicate GoodIds(env: Env) {
    && (forall i: nat, j: nat :: env.newId(i) == env.newId(j) ==> i == j)
    && forall i: nat :: env.newId(i) != ROOT
  }

  /** Float arithmetic without rounding error. */
  ghost predicate Exact(env: Env) {
    forall x: real :: env.round(x) == x
  }

  predicate ValidUrl(env: Env, raw: string) {
    raw != "" &&
    match env.parseScheme(raw)
    case None => false
    case Some(scheme) => scheme == "http" || scheme == "https"
  }

  /** The ids generated from position `minted` on do not occur in `ids`. */
  ghost predicate Fresh(env: Env, minted: nat, ids: set<NodeId>) {
    forall i: nat :: minted <= i ==> env.newId(i) !in ids
  }
}
