/** A concrete encoding of requests and responses. It shows that what the lockstep asks of the
    JSON encodings can be met, for every list of requests of reasonable size. */
module Codec {
  import opened Model
  import opened Frames
  import opened Bridge

  /** Three bytes for a character. */
  function CharBytes(c: char): Bytes {
    [c as int % 256, c as int / 256 % 256, c as int / 256 / 256]
  }

  /** Each character behind a 1, and a 0 at the end. */
  function TextBytes(s: string): (b: Bytes)
    ensures |b| == 4 * |s| + 1
  {
    if s == [] then [0] else [1] + CharBytes(s[0]) + TextBytes(s[1..])
  }

  lemma CharBytesInjective(c: char, d: char)
    requires CharBytes(c) == CharBytes(d)
    ensures c == d
  {
    var x, y := CharBytes(c), CharBytes(d);
    assert x[0] == y[0] && x[1] == y[1] && x[2] == y[2];
  }

  /** Texts can be told apart whatever follows them. */
  lemma {:induction false} TextBytesInjective(s: string, t: string, x: Bytes, y: Bytes)
    requires TextBytes(s) + x == TextBytes(t) + y
    ensures s == t && x == y
    decreases |s|
  {
    var a, b := TextBytes(s) + x, TextBytes(t) + y;
    assert a[0] == b[0];
    if s == [] || t == [] {
      assert a[1..] == x && b[1..] == y;
    } else {
      assert a == [1] + CharBytes(s[0]) + (TextBytes(s[1..]) + x);
      assert b == [1] + CharBytes(t[0]) + (TextBytes(t[1..]) + y);
      assert a[1..4] == CharBytes(s[0]) && b[1..4] == CharBytes(t[0]);
      CharBytesInjective(s[0], t[0]);
      assert a[4..] == TextBytes(s[1..]) + x && b[4..] == TextBytes(t[1..]) + y;
      TextBytesInjective(s[1..], t[1..], x, y);
    }
  }

  function RequestBytes(r: Request): Bytes {
    TextBytes(r.id) + (TextBytes(r.kind) + (TextBytes(r.params) + []))
  }

  function ResponseBytes(r: Response): Bytes {
    TextBytes(r.id) + (TextBytes(r.body) + [if r.ok then 1 else 0])
  }

  lemma RequestBytesInjective(r: Request, q: Request)
    requires RequestBytes(r) == RequestBytes(q)
    ensures r == q
  {
    var x, y := TextBytes(r.params) + [], TextBytes(q.params) + [];
    TextBytesInjective(r.id, q.id, TextBytes(r.kind) + x, TextBytes(q.kind) + y);
    TextBytesInjective(r.kind, q.kind, x, y);
    TextBytesInjective(r.params, q.params, [], []);
  }

  lemma ResponseBytesInjective(r: Response, q: Response)
    requires ResponseBytes(r) == ResponseBytes(q)
    ensures r == q
  {
    var x, y: Bytes := [if r.ok then 1 else 0], [if q.ok then 1 else 0];
    TextBytesInjective(r.id, q.id, TextBytes(r.body) + x, TextBytes(q.body) + y);
    TextBytesInjective(r.body, q.body, x, y);
  }

  ghost function ReadRequest(b: Bytes): (r: Option<Request>)
    ensures r.Some? ==> RequestBytes(r.value) == b
    ensures r.None? ==> forall q :: RequestBytes(q) != b
  {
    if r: Request :| RequestBytes(r) == b then Some(r) else None
  }

  ghost function ReadResponse(b: Bytes): (r: Option<Response>)
    ensures r.Some? ==> ResponseBytes(r.value) == b
    ensures r.None? ==> forall q :: ResponseBytes(q) != b
  {
    if r: Response :| ResponseBytes(r) == b then Some(r) else None
  }

  ghost function ExampleWire(): Wire {
    Wire(r => RequestBytes(r), b => ReadRequest(b), b => "",
         r => ResponseBytes(r), b => ReadResponse(b), b => ReadResponse(b).Some?)
  }

  predicate Moderate(reqs: seq<Request>) {
    forall i :: 0 <= i < |reqs| ==> 4 * (|reqs[i].id| + |reqs[i].kind| + |reqs[i].params|) + 3 < TWO_32
  }

  /** The assumptions of the lockstep are consistent: one encoding meets them for all lists of
      requests whose texts are short enough for a frame. */
  lemma WireExists(reqs: seq<Request>)
    requires Moderate(reqs)
    ensures GoodWire(ExampleWire()) && FitsFrames(ExampleWire(), reqs)
  {
    var w := ExampleWire();
    forall r: Request ensures w.decodeRequest(w.encodeRequest(r)) == Some(r) {
      RequestBytesInjective(r, ReadRequest(RequestBytes(r)).value);
    }
    forall r: Response ensures w.decodeResponse(w.encodeResponse(r)) == Some(r) {
      ResponseBytesInjective(r, ReadResponse(ResponseBytes(r)).value);
    }
  }
}
