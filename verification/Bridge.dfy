/** The request/response lockstep between the native messaging bridge
    (cmd/bmd-bridge/main.go) and one server connection (pkg/ipc/server.go), as steps over
    byte channels. I/O does not fail, and all requests name non-stream methods. */
module Bridge {
  import opened Model
  import opened Frames

  datatype Request = Request(id: string, kind: string, params: string)

  datatype Response = Response(id: string, ok: bool, body: string)

  /** The JSON encodings. `hasOk` is the bridge's test for a standard response: a JSON object
      with a boolean field "ok". `brokenId` is the id that decoding a malformed message leaves
      behind. */
  datatype Wire = Wire(encodeRequest: Request -> Bytes, decodeRequest: Bytes -> Option<Request>,
                       brokenId: Bytes -> string,
                       encodeResponse: Response -> Bytes, decodeResponse: Bytes -> Option<Response>,
                       hasOk: Bytes -> bool)

  /** Requests and responses survive marshalling, and every response carries its "ok" field,
      which is never omitted. */
  ghost predicate GoodWire(w: Wire) {
    && (forall r: Request :: w.decodeRequest(w.encodeRequest(r)) == Some(r))
    && (forall r: Response :: w.decodeResponse(w.encodeResponse(r)) == Some(r))
    && forall r: Response :: w.hasOk(w.encodeResponse(r))
  }

  /** The messages of this run fit into frames: each request, and for each at least the
      shortest reply that carries its id. */
  ghost predicate FitsFrames(w: Wire, reqs: seq<Request>) {
    forall i :: 0 <= i < |reqs| ==>
      && |w.encodeRequest(reqs[i])| < TWO_32
      && |w.encodeResponse(EmptyReply(reqs[i].id))| < TWO_32
  }

  function EmptyReply(id: string): Response {
    Response(id, true, "")
  }

  /** The bridge is reading its standard input, or waiting for a response to forward. */
  datatype Phase = Reading | Forwarding

  datatype Net = Net(input: Bytes, toServer: Bytes, toBridge: Bytes, output: Bytes, phase: Phase)

  function Requests(w: Wire, reqs: seq<Request>): (out: seq<Bytes>)
    ensures |out| == |reqs|
  {
    seq(|reqs|, i requires 0 <= i < |reqs| => w.encodeRequest(reqs[i]))
  }

  function Responses(w: Wire, resps: seq<Response>): (out: seq<Bytes>)
    ensures |out| == |resps|
  {
    seq(|resps|, i requires 0 <= i < |resps| => w.encodeResponse(resps[i]))
  }

  function Start(w: Wire, reqs: seq<Request>): Net {
    Net(EncodeAll(Requests(w, reqs)), [], [], [], Reading)
  }

  // ----- steps

  /** The bridge takes one message from its input and sends it on, marshalled anew. */
  ghost predicate SendStep(w: Wire, n: Net, n': Net) {
    && n.phase == Reading && Decode(n.input).Frame?
    && var read := Decode(n.input);
    && w.decodeRequest(read.payload).Some?
    && n' == n.(input := read.rest, phase := Forwarding,
                toServer := n.toServer + Encode(w.encodeRequest(w.decodeRequest(read.payload).value)))
  }

  /** The server reads one request and writes one response that fits a frame, with the id of
      the request. What else it answers is up to the handler. */
  ghost predicate ServeStep(w: Wire, n: Net, n': Net, resp: Response) {
    && Decode(n.toServer).Frame?
    && var read := Decode(n.toServer);
    && w.decodeRequest(read.payload).Some?
    && resp.id == w.decodeRequest(read.payload).value.id
    && |w.encodeResponse(resp)| < TWO_32
    && n' == n.(toServer := read.rest, toBridge := n.toBridge + Encode(w.encodeResponse(resp)))
  }

  /** The bridge copies one frame to its output, and goes back to reading after a standard
      response. */
  ghost predicate ForwardStep(w: Wire, n: Net, n': Net) {
    && n.phase == Forwarding && Decode(n.toBridge).Frame?
    && var read := Decode(n.toBridge);
    && n' == n.(toBridge := read.rest, output := n.output + Encode(read.payload),
                phase := if w.hasOk(read.payload) then Reading else Forwarding)
  }

  ghost predicate Next(w: Wire, n: Net, n': Net) {
    SendStep(w, n, n') || (exists resp :: ServeStep(w, n, n', resp)) || ForwardStep(w, n, n')
  }

  ghost predicate CanStep(w: Wire, n: Net) {
    exists n' :: Next(w, n, n')
  }

  // ----- the loops of server and bridge

  /** The registered methods: given the parameters, each succeeds or not, with a body. */
  type Handlers = map<string, string -> (bool, string)>

  /** The server's response to one frame. It always carries the id of the request; for a
      malformed message that is the id decoding has left behind. */
  function Answer(w: Wire, handlers: Handlers, frame: Bytes): Response {
    match w.decodeRequest(frame)
    case None => Response(w.brokenId(frame), false, "invalid json")
    case Some(req) =>
      if req.kind in handlers then
        var (ok, body) := handlers[req.kind](req.params);
        Response(req.id, ok, body)
      else Response(req.id, false, "unknown method")
  }

  function Answers(w: Wire, handlers: Handlers, frames: seq<Bytes>): (resps: seq<Response>)
    ensures |resps| == |frames|
  {
    seq(|frames|, i requires 0 <= i < |frames| => Answer(w, handlers, frames[i]))
  }

  /** The bytes the server writes for a list of request frames. */
  function Served(w: Wire, handlers: Handlers, frames: seq<Bytes>): Bytes {
    EncodeAll(Responses(w, Answers(w, handlers, frames)))
  }

  lemma ServedOneMore(w: Wire, handlers: Handlers, frames: seq<Bytes>, frame: Bytes)
    ensures Served(w, handlers, frames + [frame]) ==
            Served(w, handlers, frames) + Encode(w.encodeResponse(Answer(w, handlers, frame)))
  {
    var before, last := Responses(w, Answers(w, handlers, frames)), w.encodeResponse(Answer(w, handlers, frame));
    assert Responses(w, Answers(w, handlers, frames + [frame])) == before + [last];
    EncodeAllAppend(before, last);
  }

  /** `resp` is what a client that sent `frame` has to be told. */
  ghost predicate Due(w: Wire, handlers: Handlers, frame: Bytes, resp: Response) {
    var req := w.decodeRequest(frame);
    if req.None? then resp == Response(w.brokenId(frame), false, "invalid json")
    else
      && resp.id == req.value.id
      && (req.value.kind in handlers ==>
            resp.ok == handlers[req.value.kind](req.value.params).0 &&
            resp.body == handlers[req.value.kind](req.value.params).1)
      && (req.value.kind !in handlers ==> !resp.ok && resp.body == "unknown method")
  }

  /** Whatever is due fits into a frame. */
  ghost predicate RepliesFit(w: Wire, handlers: Handlers, frames: seq<Bytes>) {
    forall i, resp :: 0 <= i < |frames| && Due(w, handlers, frames[i], resp) ==> |w.encodeResponse(resp)| < 4294967296
  }

  /** Read as frames, `out` is one response for each of `frames`, in order and as due. */
  ghost predicate RepliesInTurn(w: Wire, handlers: Handlers, frames: seq<Bytes>, out: Bytes) {
    var read := ReadAll(out);
    && |read.0| == |frames| && read.1 == Eof
    && forall i :: 0 <= i < |frames| ==>
         && w.decodeResponse(read.0[i]).Some?
         && Due(w, handlers, frames[i], w.decodeResponse(read.0[i]).value)
  }

  lemma ServedReplies(w: Wire, handlers: Handlers, frames: seq<Bytes>)
    requires GoodWire(w) && RepliesFit(w, handlers, frames)
    ensures RepliesInTurn(w, handlers, frames, Served(w, handlers, frames))
  {
    var payloads := Responses(w, Answers(w, handlers, frames));
    forall i | 0 <= i < |frames|
      ensures Due(w, handlers, frames[i], Answer(w, handlers, frames[i])) && |payloads[i]| < TWO_32
    {
      assert Due(w, handlers, frames[i], Answer(w, handlers, frames[i]));
    }
    hide Due, Answer, ReadAll, Encode, EncodeAll;
    StreamRoundTrip(payloads);
  }

  /** Reading one frame off a stream leaves the remaining ones to read. */
  lemma ReadAllStep(s: Bytes, frames: seq<Bytes>, all: seq<Bytes>)
    requires all == frames + ReadAll(s).0
    ensures match Decode(s)
            case Broken(_) => all == frames
            case Frame(payload, rest) => |rest| < |s| && all == frames + [payload] + ReadAll(rest).0
  {
    DecodeShrinks(s);
  }

  /** One turn of the connection loop: a serve step, answering what the handler says. */
  method ServeOne(w: Wire, handlers: Handlers, incoming: Stream, outgoing: Stream, ghost n: Net)
    returns (got: Result<Bytes, ReadError>)
    requires incoming != outgoing
    requires n.toServer == incoming.bytes && n.toBridge == outgoing.bytes
    modifies incoming, outgoing
    ensures got.Err? <==> Decode(old(incoming.bytes)).Broken?
    ensures got.Err? ==> incoming.bytes == [] && outgoing.bytes == old(outgoing.bytes)
    ensures got.Ok? ==>
              && Decode(old(incoming.bytes)) == Frame(got.value, incoming.bytes)
              && outgoing.bytes == old(outgoing.bytes) + Encode(w.encodeResponse(Answer(w, handlers, got.value)))
    ensures got.Ok? && w.decodeRequest(got.value).Some? &&
            |w.encodeResponse(Answer(w, handlers, got.value))| < TWO_32 ==>
              ServeStep(w, n, n.(toServer := incoming.bytes, toBridge := outgoing.bytes),
                        Answer(w, handlers, got.value))
  {
    got := incoming.ReadFrame();
    if got.Ok? {
      outgoing.WriteFrame(w.encodeResponse(Answer(w, handlers, got.value)));
    }
  }

  /** Serves a connection until no complete frame is left: exactly one response frame per
      request frame, in order. */
  method HandleConn(w: Wire, handlers: Handlers, incoming: Stream, outgoing: Stream)
    requires incoming != outgoing
    modifies incoming, outgoing
    ensures incoming.bytes == []
    ensures outgoing.bytes == old(outgoing.bytes) + Served(w, handlers, ReadAll(old(incoming.bytes)).0)
    ensures GoodWire(w) && RepliesFit(w, handlers, ReadAll(old(incoming.bytes)).0) ==>
              && old(outgoing.bytes) <= outgoing.bytes
              && RepliesInTurn(w, handlers, ReadAll(old(incoming.bytes)).0,
                               outgoing.bytes[|old(outgoing.bytes)|..])
  {
    ghost var all := ReadAll(incoming.bytes).0;
    ghost var frames: seq<Bytes> := [];
    assert [] + all == all && outgoing.bytes + [] == outgoing.bytes;
    assert Served(w, handlers, []) == [];
    hide Served, Answer, ReadAll, Decode, Encode, GoodWire, RepliesFit, RepliesInTurn;
    while true
      invariant all == frames + ReadAll(incoming.bytes).0
      invariant outgoing.bytes == old(outgoing.bytes) + Served(w, handlers, frames)
      decreases |incoming.bytes|
    {
      ReadAllStep(incoming.bytes, frames, all);
      var got := ServeOne(w, handlers, incoming, outgoing, Net([], incoming.bytes, outgoing.bytes, [], Reading));
      if got.Err? {
        assert outgoing.bytes[|old(outgoing.bytes)|..] == Served(w, handlers, all);
        if GoodWire(w) && RepliesFit(w, handlers, all) { ServedReplies(w, handlers, all); }
        return;
      }
      ServedOneMore(w, handlers, frames, got.value);
      ConcatAssoc(old(outgoing.bytes), Served(w, handlers, frames),
                  Encode(w.encodeResponse(Answer(w, handlers, got.value))));
      frames := frames + [got.value];
    }
  }

  /** The frames up to and including the first standard response, the bytes after it, and
      the read error if there is none. */
  datatype Forwarded = Forwarded(frames: seq<Bytes>, rest: Bytes, err: Option<ReadError>)

  function UpToResponse(w: Wire, s: Bytes): Forwarded
    decreases |s|
  {
    match Decode(s)
    case Broken(why) => Forwarded([], [], Some(why))
    case Frame(payload, rest) =>
      if w.hasOk(payload) then Forwarded([payload], rest, None)
      else
        DecodeShrinks(s);
        var more := UpToResponse(w, rest);
        more.(frames := [payload] + more.frames)
  }

  /** Of all frames there are to read, `all` is a prefix in which the last one and no other is
      a standard response; or all of them, and the error, if there is none. */
  ghost predicate Forwards(w: Wire, all: Forwarded, read: (seq<Bytes>, ReadError)) {
    && all.frames <= read.0
    && (forall i :: 0 <= i < |all.frames| - 1 ==> !w.hasOk(all.frames[i]))
    && (all.err.None? ==>
          && all.frames != [] && w.hasOk(all.frames[|all.frames| - 1])
          && ReadAll(all.rest) == (read.0[|all.frames|..], read.1))
    && (all.err.Some? ==>
          && all.frames == read.0 && all.err == Some(read.1) && all.rest == []
          && forall i :: 0 <= i < |read.0| ==> !w.hasOk(read.0[i]))
  }

  lemma ForwardsOneMore(w: Wire, payload: Bytes, all: Forwarded, read: (seq<Bytes>, ReadError))
    requires !w.hasOk(payload) && Forwards(w, all, read)
    ensures Forwards(w, all.(frames := [payload] + all.frames), ([payload] + read.0, read.1))
  {
    hide ReadAll;
    assert ([payload] + read.0)[|all.frames| + 1..] == read.0[|all.frames|..];
  }

  lemma {:induction false} ForwardsExactly(w: Wire, s: Bytes)
    ensures Forwards(w, UpToResponse(w, s), ReadAll(s))
    decreases |s|
  {
    if Decode(s).Frame? && !w.hasOk(Decode(s).payload) {
      DecodeShrinks(s);
      var rest := Decode(s).rest;
      ForwardsExactly(w, rest);
      hide Forwards;
      ForwardsOneMore(w, Decode(s).payload, UpToResponse(w, rest), ReadAll(rest));
    }
  }

  /** With `frames` copied and `s` still to read, the outcome will be `all`. */
  ghost predicate WillForward(w: Wire, s: Bytes, frames: seq<Bytes>, all: Forwarded) {
    var now := UpToResponse(w, s); all == now.(frames := frames + now.frames)
  }

  lemma ForwardOne(w: Wire, s: Bytes, frames: seq<Bytes>, all: Forwarded)
    requires WillForward(w, s, frames, all)
    ensures Decode(s).Broken? ==> all == Forwarded(frames, [], Some(Decode(s).why))
    ensures Decode(s).Frame? ==> |Decode(s).rest| < |s|
    ensures Decode(s).Frame? && w.hasOk(Decode(s).payload) ==>
              all == Forwarded(frames + [Decode(s).payload], Decode(s).rest, None)
    ensures Decode(s).Frame? && !w.hasOk(Decode(s).payload) ==>
              WillForward(w, Decode(s).rest, frames + [Decode(s).payload], all)
  {
    DecodeShrinks(s);
  }

  /** One turn of the forwarding loop: a forward step; done at a standard response or when
      reading fails. */
  method CopyFrame(w: Wire, conn: Stream, out: Stream, ghost n: Net, ghost frames: seq<Bytes>, ghost all: Forwarded)
    returns (done: bool, err: Option<ReadError>, ghost copied: seq<Bytes>)
    requires conn != out && WillForward(w, conn.bytes, frames, all)
    requires n.phase == Forwarding && n.toBridge == conn.bytes && n.output == out.bytes
    modifies conn, out
    ensures |copied| <= 1 && out.bytes == old(out.bytes) + EncodeAll(copied)
    ensures done ==> all == Forwarded(frames + copied, conn.bytes, err)
    ensures !done ==> WillForward(w, conn.bytes, frames + copied, all) && |conn.bytes| < |old(conn.bytes)|
    ensures err.None? ==>
              ForwardStep(w, n, n.(toBridge := conn.bytes, output := out.bytes,
                                   phase := if done then Reading else Forwarding))
  {
    ForwardOne(w, conn.bytes, frames, all);
    hide WillForward, Decode, Encode;
    var got := conn.ReadFrame();
    if got.Err? {
      assert out.bytes + [] == out.bytes && frames + [] == frames;
      return true, Some(got.error), [];
    }
    out.WriteFrame(got.value);
    EncodeAllAppend([], got.value);
    assert [] + [got.value] == [got.value];
    return w.hasOk(got.value), None, [got.value];
  }

  lemma {:induction false} EncodeAllConcat(a: seq<Bytes>, b: seq<Bytes>)
    ensures EncodeAll(a + b) == EncodeAll(a) + EncodeAll(b)
  {
    if a == [] {
      assert a + b == b;
    } else {
      EncodeAllConcat(a[1..], b);
      assert a + b == [a[0]] + (a[1..] + b);
      EncodeAllCons(a[0], a[1..] + b);
      ConcatAssoc(Encode(a[0]), EncodeAll(a[1..]), EncodeAll(b));
      hide Encode;
    }
  }

  /** Copies frames to the output until a standard response has been copied. */
  method ForwardResponses(w: Wire, conn: Stream, out: Stream) returns (err: Option<ReadError>)
    requires conn != out
    modifies conn, out
    ensures var all := UpToResponse(w, old(conn.bytes));
            conn.bytes == all.rest && err == all.err && out.bytes == old(out.bytes) + EncodeAll(all.frames)
  {
    ghost var all := UpToResponse(w, conn.bytes);
    ghost var frames: seq<Bytes> := [];
    assert [] + all.frames == all.frames && out.bytes + [] == out.bytes && EncodeAll([]) == [];
    assert WillForward(w, conn.bytes, [], all);
    var done := false;
    err := None;
    hide WillForward, UpToResponse, Decode, Encode, EncodeAll;
    while !done
      invariant done ==> all == Forwarded(frames, conn.bytes, err)
      invariant !done ==> WillForward(w, conn.bytes, frames, all)
      invariant out.bytes == old(out.bytes) + EncodeAll(frames)
      decreases if done then 0 else 1 + |conn.bytes|
    {
      ghost var copied: seq<Bytes>;
      done, err, copied := CopyFrame(w, conn, out, Net([], [], conn.bytes, out.bytes, Forwarding), frames, all);
      ConcatAssoc(old(out.bytes), EncodeAll(frames), EncodeAll(copied));
      EncodeAllConcat(frames, copied);
      frames := frames + copied;
    }
  }

  /** First half of one turn of the main loop: a send step. The bridge gives up when its
      input ends or holds a malformed message. */
  method SendOne(w: Wire, stdin: Stream, conn: Stream, ghost n: Net) returns (sent: bool)
    requires stdin != conn
    requires n.phase == Reading && n.input == stdin.bytes && n.toServer == conn.bytes
    modifies stdin, conn
    ensures sent <==> Decode(old(stdin.bytes)).Frame? && w.decodeRequest(Decode(old(stdin.bytes)).payload).Some?
    ensures sent ==> SendStep(w, n, n.(input := stdin.bytes, toServer := conn.bytes, phase := Forwarding))
    ensures sent ==>
              && stdin.bytes == Decode(old(stdin.bytes)).rest
              && conn.bytes == old(conn.bytes) +
                               Encode(w.encodeRequest(w.decodeRequest(Decode(old(stdin.bytes)).payload).value))
    ensures !sent ==> conn.bytes == old(conn.bytes)
  {
    var got := stdin.ReadFrame();
    if got.Err? {
      return false;
    }
    var msg := w.decodeRequest(got.value);
    if msg.None? {
      return false;
    }
    conn.WriteFrame(w.encodeRequest(msg.value));
    return true;
  }

  // ----- the invariant

  /** Where the one request in flight is. */
  datatype Stage = Idle | AtServer | AtBridge

  /** `sent` requests have left the input, `resps` have been answered; at most one request
      is on its way, at the given stage. */
  ghost predicate Shape(w: Wire, reqs: seq<Request>, n: Net, sent: nat, resps: seq<Response>, stage: Stage) {
    && sent <= |reqs| && |resps| <= |reqs|
    && n.input == EncodeAll(Requests(w, reqs[sent..]))
    && (forall i :: 0 <= i < |resps| ==> resps[i].id == reqs[i].id && |w.encodeResponse(resps[i])| < TWO_32)
    && match stage
       case Idle =>
         && |resps| == sent && n.phase == Reading && n.toServer == [] && n.toBridge == []
         && n.output == EncodeAll(Responses(w, resps))
       case AtServer =>
         && |resps| + 1 == sent && n.phase == Forwarding && n.toBridge == []
         && n.toServer == Encode(w.encodeRequest(reqs[sent - 1]))
         && n.output == EncodeAll(Responses(w, resps))
       case AtBridge =>
         && |resps| == sent && sent > 0 && n.phase == Forwarding && n.toServer == []
         && n.toBridge == Encode(w.encodeResponse(resps[sent - 1]))
         && n.output == EncodeAll(Responses(w, resps[..sent - 1]))
  }

  /** Steps still to take: three for each request not yet sent, and the rest of the one in
      flight. */
  function Left(total: nat, sent: nat, stage: Stage): int {
    3 * (total - sent) + match stage case Idle => 0 case AtServer => 2 case AtBridge => 1
  }

  /** After some steps, with `left` more to go. */
  ghost predicate InLockstep(w: Wire, reqs: seq<Request>, n: Net, left: int) {
    exists sent: nat, resps, stage :: Shape(w, reqs, n, sent, resps, stage) && left == Left(|reqs|, sent, stage)
  }

  lemma NoFrameInNothing()
    ensures Decode([]).Broken?
  {
  }

  lemma OneFrame(payload: Bytes)
    requires |payload| < TWO_32
    ensures Decode(Encode(payload)) == Frame(payload, [])
  {
    FrameRoundTrip(payload, []);
    assert Encode(payload) + [] == Encode(payload);
  }

  lemma NextRequest(w: Wire, reqs: seq<Request>, sent: nat)
    requires GoodWire(w) && FitsFrames(w, reqs) && sent < |reqs|
    ensures Decode(EncodeAll(Requests(w, reqs[sent..]))) ==
            Frame(w.encodeRequest(reqs[sent]), EncodeAll(Requests(w, reqs[sent + 1..])))
  {
    var first, rest := w.encodeRequest(reqs[sent]), Requests(w, reqs[sent + 1..]);
    assert Requests(w, reqs[sent..]) == [first] + rest;
    EncodeAllCons(first, rest);
    FrameRoundTrip(first, EncodeAll(rest));
  }

  // ----- every step keeps the invariant and uses up one of the steps left

  lemma StepFromIdle(w: Wire, reqs: seq<Request>, n: Net, n': Net, sent: nat, resps: seq<Response>)
    requires GoodWire(w) && FitsFrames(w, reqs) && Shape(w, reqs, n, sent, resps, Idle) && Next(w, n, n')
    ensures sent < |reqs| && Shape(w, reqs, n', sent + 1, resps, AtServer)
  {
    NoFrameInNothing();
    InputEnds(w, reqs, sent);
    NextRequest(w, reqs, sent);
    assert [] + Encode(w.encodeRequest(reqs[sent])) == Encode(w.encodeRequest(reqs[sent]));
    hide Decode, Encode, EncodeAll, Requests;
  }

  lemma InputEnds(w: Wire, reqs: seq<Request>, sent: nat)
    requires sent <= |reqs|
    ensures sent == |reqs| ==> Decode(EncodeAll(Requests(w, reqs[sent..]))).Broken?
  {
  }

  lemma StepFromServer(w: Wire, reqs: seq<Request>, n: Net, n': Net, sent: nat, resps: seq<Response>)
    requires GoodWire(w) && FitsFrames(w, reqs) && Shape(w, reqs, n, sent, resps, AtServer) && Next(w, n, n')
    ensures exists resp :: Shape(w, reqs, n', sent, resps + [resp], AtBridge)
  {
    NoFrameInNothing();
    OneFrame(w.encodeRequest(reqs[sent - 1]));
    hide Encode, EncodeAll, Decode, Responses, Requests;
    var resp :| ServeStep(w, n, n', resp);
    assert [] + Encode(w.encodeResponse(resp)) == Encode(w.encodeResponse(resp));
    assert (resps + [resp])[..sent - 1] == resps;
    assert Shape(w, reqs, n', sent, resps + [resp], AtBridge);
  }

  lemma StepFromBridge(w: Wire, reqs: seq<Request>, n: Net, n': Net, sent: nat, resps: seq<Response>)
    requires GoodWire(w) && FitsFrames(w, reqs) && Shape(w, reqs, n, sent, resps, AtBridge) && Next(w, n, n')
    ensures Shape(w, reqs, n', sent, resps, Idle)
  {
    NoFrameInNothing();
    var payload := w.encodeResponse(resps[sent - 1]);
    OneFrame(payload);
    EncodeAllAppend(Responses(w, resps[..sent - 1]), payload);
    assert Responses(w, resps) == Responses(w, resps[..sent - 1]) + [payload];
  }

  lemma ShapeInLockstep(w: Wire, reqs: seq<Request>, n: Net, sent: nat, resps: seq<Response>, stage: Stage)
    requires Shape(w, reqs, n, sent, resps, stage)
    ensures InLockstep(w, reqs, n, Left(|reqs|, sent, stage))
  {
  }

  /** Each step of either side moves the one request in flight to its next stage. */
  lemma StepKeepsLockstep(w: Wire, reqs: seq<Request>, n: Net, n': Net, left: int)
    requires GoodWire(w) && FitsFrames(w, reqs) && InLockstep(w, reqs, n, left)
    ensures Next(w, n, n') ==> InLockstep(w, reqs, n', left - 1)
  {
    if Next(w, n, n') {
      var sent: nat, resps, stage :| Shape(w, reqs, n, sent, resps, stage) && left == Left(|reqs|, sent, stage);
      hide Shape, Next, GoodWire, FitsFrames, InLockstep;
      match stage
      case Idle =>
        StepFromIdle(w, reqs, n, n', sent, resps);
        ShapeInLockstep(w, reqs, n', sent + 1, resps, AtServer);
      case AtServer =>
        StepFromServer(w, reqs, n, n', sent, resps);
        var resp :| Shape(w, reqs, n', sent, resps + [resp], AtBridge);
        ShapeInLockstep(w, reqs, n', sent, resps + [resp], AtBridge);
      case AtBridge =>
        StepFromBridge(w, reqs, n, n', sent, resps);
        ShapeInLockstep(w, reqs, n', sent, resps, Idle);
    }
  }

  lemma CanSend(w: Wire, reqs: seq<Request>, n: Net, sent: nat, resps: seq<Response>)
    requires GoodWire(w) && FitsFrames(w, reqs) && Shape(w, reqs, n, sent, resps, Idle) && sent < |reqs|
    ensures CanStep(w, n)
  {
    NextRequest(w, reqs, sent);
    hide Decode, Encode, EncodeAll, Requests;
    var n' := n.(input := EncodeAll(Requests(w, reqs[sent + 1..])), phase := Forwarding,
                 toServer := n.toServer + Encode(w.encodeRequest(reqs[sent])));
    assert SendStep(w, n, n');
    assert Next(w, n, n');
  }

  lemma CanServe(w: Wire, reqs: seq<Request>, n: Net, sent: nat, resps: seq<Response>)
    requires GoodWire(w) && FitsFrames(w, reqs) && Shape(w, reqs, n, sent, resps, AtServer)
    ensures CanStep(w, n)
  {
    OneFrame(w.encodeRequest(reqs[sent - 1]));
    hide Decode, Encode, EncodeAll, Requests;
    var resp := EmptyReply(reqs[sent - 1].id);
    var n' := n.(toServer := [], toBridge := n.toBridge + Encode(w.encodeResponse(resp)));
    assert ServeStep(w, n, n', resp);
    assert Next(w, n, n');
  }

  lemma CanForward(w: Wire, reqs: seq<Request>, n: Net, sent: nat, resps: seq<Response>)
    requires GoodWire(w) && FitsFrames(w, reqs) && Shape(w, reqs, n, sent, resps, AtBridge)
    ensures CanStep(w, n)
  {
    var payload := w.encodeResponse(resps[sent - 1]);
    OneFrame(payload);
    hide Decode, Encode, EncodeAll, Requests;
    var n' := n.(toBridge := [], output := n.output + Encode(payload), phase := Reading);
    assert ForwardStep(w, n, n');
    assert Next(w, n, n');
  }

  /** As long as steps are left, one can be taken. */
  lemma StepEnabled(w: Wire, reqs: seq<Request>, n: Net, left: int)
    requires GoodWire(w) && FitsFrames(w, reqs) && InLockstep(w, reqs, n, left) && left > 0
    ensures CanStep(w, n)
  {
    var sent: nat, resps, stage :| Shape(w, reqs, n, sent, resps, stage) && left == Left(|reqs|, sent, stage);
    hide CanStep, GoodWire, FitsFrames, EncodeAll, Encode, Requests;
    match stage
    case Idle => CanSend(w, reqs, n, sent, resps);
    case AtServer => CanServe(w, reqs, n, sent, resps);
    case AtBridge => CanForward(w, reqs, n, sent, resps);
  }

  // ----- runs

  ghost predicate IsRun(w: Wire, reqs: seq<Request>, run: seq<Net>) {
    && run != [] && run[0] == Start(w, reqs)
    && forall i :: 0 <= i < |run| - 1 ==> Next(w, run[i], run[i + 1])
  }

  lemma StartInLockstep(w: Wire, reqs: seq<Request>)
    ensures InLockstep(w, reqs, Start(w, reqs), 3 * |reqs|)
  {
    assert reqs[0..] == reqs;
    assert Responses(w, []) == [];
    assert Shape(w, reqs, Start(w, reqs), 0, [], Idle);
  }

  lemma {:induction false} RunInLockstep(w: Wire, reqs: seq<Request>, run: seq<Net>, k: nat)
    requires GoodWire(w) && FitsFrames(w, reqs) && IsRun(w, reqs, run) && k < |run|
    ensures InLockstep(w, reqs, run[k], 3 * |reqs| - k)
    decreases k
  {
    hide GoodWire, FitsFrames, Next, Start, InLockstep;
    if k == 0 {
      StartInLockstep(w, reqs);
    } else {
      RunInLockstep(w, reqs, run, k - 1);
      assert Next(w, run[k - 1], run[k - 1 + 1]);
      StepKeepsLockstep(w, reqs, run[k - 1], run[k], 3 * |reqs| - (k - 1));
    }
  }

  /** Reading the output back yields `count` responses, in order, with the ids of the first
      requests, and nothing else. */
  ghost predicate OutputAnswers(w: Wire, reqs: seq<Request>, output: Bytes, count: nat) {
    && count <= |reqs|
    && var read := ReadAll(output);
    && |read.0| == count && read.1 == Eof
    && forall i :: 0 <= i < count ==>
         && w.decodeResponse(read.0[i]).Some?
         && w.decodeResponse(read.0[i]).value.id == reqs[i].id
  }

  lemma ResponsesReadBack(w: Wire, reqs: seq<Request>, resps: seq<Response>)
    requires GoodWire(w) && |resps| <= |reqs|
    requires forall i :: 0 <= i < |resps| ==> resps[i].id == reqs[i].id && |w.encodeResponse(resps[i])| < TWO_32
    ensures OutputAnswers(w, reqs, EncodeAll(Responses(w, resps)), |resps|)
  {
    StreamRoundTrip(Responses(w, resps));
  }

  lemma LockstepOutput(w: Wire, reqs: seq<Request>, n: Net, left: int)
    requires GoodWire(w) && InLockstep(w, reqs, n, left)
    ensures 0 <= left <= 3 * |reqs| && OutputAnswers(w, reqs, n.output, (3 * |reqs| - left) / 3)
  {
    var sent: nat, resps, stage :| Shape(w, reqs, n, sent, resps, stage) && left == Left(|reqs|, sent, stage);
    var out := if stage == AtBridge then resps[..sent - 1] else resps;
    ResponsesReadBack(w, reqs, out);
    assert (3 * |reqs| - left) / 3 == |out|;
    hide OutputAnswers;
  }

  /** Lockstep over every run, whatever order the steps come in: after k steps exactly k/3
      responses can be read from the output, in the order of the requests and with their
      ids; and a run can go on exactly until it has taken three steps per request. */
  lemma Lockstep(w: Wire, reqs: seq<Request>, run: seq<Net>)
    requires GoodWire(w) && FitsFrames(w, reqs) && IsRun(w, reqs, run)
    ensures OutputAnswers(w, reqs, run[|run| - 1].output, (|run| - 1) / 3)
    ensures |run| - 1 <= 3 * |reqs|
    ensures |run| - 1 < 3 * |reqs| <==> CanStep(w, run[|run| - 1])
  {
    var last := |run| - 1;
    var left := 3 * |reqs| - last;
    RunInLockstep(w, reqs, run, last);
    LockstepOutput(w, reqs, run[last], left);
    if left > 0 { StepEnabled(w, reqs, run[last], left); }
    if CanStep(w, run[last]) {
      var n' :| Next(w, run[last], n');
      StepKeepsLockstep(w, reqs, run[last], n', left);
      LockstepOutput(w, reqs, n', left - 1);
    }
  }
}
