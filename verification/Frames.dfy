/** The length-prefixed frame codec (pkg/ipc/frame.go): a 4-byte little-endian length,
    then the payload. */
module Frames {
  import opened Model

  type Byte = b: int | 0 <= b < 256

  type Bytes = seq<Byte>

  /** `Eof`: nothing at all was left to read. `UnexpectedEof`: the stream ended within the
      bytes asked for. */
  datatype ReadError = Eof | UnexpectedEof

  datatype FrameRead = Frame(payload: Bytes, rest: Bytes) | Broken(why: ReadError)

  const HEADER: nat := 4
  const TWO_32: nat := 0x1_0000_0000

  function LittleEndian(n: nat, width: nat): (bytes: Bytes)
    ensures |bytes| == width
  {
    if width == 0 then [] else [n % 256] + LittleEndian(n / 256, width - 1)
  }

  function Value(bytes: Bytes): nat {
    if bytes == [] then 0 else bytes[0] + 256 * Value(bytes[1..])
  }

  function Pow256(k: nat): nat {
    if k == 0 then 1 else 256 * Pow256(k - 1)
  }

  lemma {:induction false} ValueOfLittleEndian(n: nat, width: nat)
    requires n < Pow256(width)
    ensures Value(LittleEndian(n, width)) == n
    decreases width
  {
    if width > 0 {
      ValueOfLittleEndian(n / 256, width - 1);
      assert LittleEndian(n, width)[1..] == LittleEndian(n / 256, width - 1);
    }
  }

  /** What `writeFrame` appends; the length is truncated to 32 bits. */
  function Encode(payload: Bytes): Bytes {
    LittleEndian(|payload| % TWO_32, HEADER) + payload
  }

  /** What `io.ReadFull` reports when fewer than `want` bytes are left. */
  function ShortRead(left: nat, want: nat): (why: ReadError)
    requires left < want
  {
    if left == 0 then Eof else UnexpectedEof
  }

  function Decode(s: Bytes): FrameRead {
    if |s| < HEADER then Broken(ShortRead(|s|, HEADER))
    else
      var length, body := Value(s[..HEADER]), s[HEADER..];
      if |body| < length then Broken(ShortRead(|body|, length))
      else Frame(body[..length], body[length..])
  }

  class Stream {
    var bytes: Bytes

    constructor ()
      ensures bytes == []
    {
      bytes := [];
    }

    method Write(more: Bytes)
      modifies this
      ensures bytes == old(bytes) + more
    {
      bytes := bytes + more;
    }

    /** Reads exactly `want` bytes, or consumes what is there and fails. */
    method ReadFull(want: nat) returns (got: Result<Bytes, ReadError>)
      modifies this
      ensures |old(bytes)| >= want ==> got == Ok(old(bytes)[..want]) && bytes == old(bytes)[want..]
      ensures |old(bytes)| < want ==> got == Err(ShortRead(|old(bytes)|, want)) && bytes == []
    {
      if |bytes| < want {
        got := Err(ShortRead(|bytes|, want));
        bytes := [];
      } else {
        got := Ok(bytes[..want]);
        bytes := bytes[want..];
      }
    }

    method ReadFrame() returns (got: Result<Bytes, ReadError>)
      modifies this
      ensures match Decode(old(bytes))
              case Frame(payload, rest) => got == Ok(payload) && bytes == rest
              case Broken(why) => got == Err(why) && bytes == []
    {
      var header := ReadFull(HEADER);
      if header.Err? {
        return header;
      }
      got := ReadFull(Value(header.value));
    }

    method WriteFrame(payload: Bytes)
      modifies this
      ensures bytes == old(bytes) + Encode(payload)
    {
      Write(LittleEndian(|payload| % TWO_32, HEADER));
      Write(payload);
    }
  }

  // ----- one frame

  lemma HeaderValue(n: nat)
    requires n < TWO_32
    ensures Value(LittleEndian(n, HEADER)) == n
  {
    assert Pow256(4) == 256 * (256 * (256 * (256 * Pow256(0))));
    ValueOfLittleEndian(n, HEADER);
  }

  lemma HeaderBytes(n: nat)
    ensures LittleEndian(n, HEADER) == [n % 256, n / 256 % 256, n / 256 / 256 % 256, n / 256 / 256 / 256 % 256]
  {
    var a, b, c := n / 256, n / 256 / 256, n / 256 / 256 / 256;
    assert LittleEndian(c, 1) == [c % 256];
    assert LittleEndian(b, 2) == [b % 256] + LittleEndian(c, 1);
    assert LittleEndian(a, 3) == [a % 256] + LittleEndian(b, 2);
  }

  /** The layout on the wire: the payload length, lowest byte first, then the payload. */
  lemma FrameLayout(payload: Bytes, n: nat)
    requires n == |payload| < TWO_32
    ensures Encode(payload) == [n % 256, n / 256 % 256, n / 256 / 256 % 256, n / 256 / 256 / 256 % 256] + payload
  {
    assert n % TWO_32 == n;
    HeaderBytes(n);
  }

  /** A frame is read back, whatever follows it, exactly when its length fits into the
      header. */
  lemma FrameRoundTrip(payload: Bytes, rest: Bytes)
    ensures Decode(Encode(payload) + rest) == Frame(payload, rest) <==> |payload| < TWO_32
  {
    var s := Encode(payload) + rest;
    var length := |payload| % TWO_32;
    HeaderValue(length);
    assert s[..HEADER] == LittleEndian(length, HEADER);
    assert s[HEADER..] == payload + rest;
    if |payload| < TWO_32 {
      assert (payload + rest)[..length] == payload;
      assert (payload + rest)[length..] == rest;
    } else {
      assert Decode(s) == Frame((payload + rest)[..length], (payload + rest)[length..]);
      assert |(payload + rest)[..length]| == length;
    }
  }

  /** What cutting a frame short yields. A cut right after the header of a non-empty frame
      reads like the regular end of the stream. */
  lemma CutFrame(payload: Bytes, cut: nat)
    requires |payload| < TWO_32 && cut < |Encode(payload)|
    ensures Decode(Encode(payload)[..cut]) == Broken(if cut == 0 || cut == HEADER then Eof else UnexpectedEof)
  {
    var header := LittleEndian(|payload|, HEADER);
    assert Encode(payload) == header + payload by { assert |payload| % TWO_32 == |payload|; }
    HeaderValue(|payload|);
    hide Encode, LittleEndian, Value;
    var s := (header + payload)[..cut];
    if cut >= HEADER { assert s[..HEADER] == header; }
  }

  // ----- streams of frames

  lemma ConcatAssoc(a: Bytes, b: Bytes, c: Bytes)
    ensures (a + b) + c == a + (b + c)
  {
  }

  function EncodeAll(payloads: seq<Bytes>): Bytes {
    if payloads == [] then [] else Encode(payloads[0]) + EncodeAll(payloads[1..])
  }

  ghost predicate Sendable(payloads: seq<Bytes>) {
    forall i :: 0 <= i < |payloads| ==> |payloads[i]| < TWO_32
  }

  lemma DecodeShrinks(s: Bytes)
    ensures Decode(s).Frame? ==> |Decode(s).rest| < |s|
  {
  }

  /** Reads frames until a read fails; returns them with the error. */
  function ReadAll(s: Bytes): (seq<Bytes>, ReadError)
    decreases |s|
  {
    match Decode(s)
    case Broken(why) => ([], why)
    case Frame(payload, rest) =>
      DecodeShrinks(s);
      var more := ReadAll(rest);
      ([payload] + more.0, more.1)
  }

  /** How many of the frames lie completely within the first `cut` bytes. */
  function Complete(payloads: seq<Bytes>, cut: nat): (m: nat)
    ensures m <= |payloads|
  {
    if payloads == [] || cut < |Encode(payloads[0])| then 0
    else 1 + Complete(payloads[1..], cut - |Encode(payloads[0])|)
  }

  lemma {:induction false} CompleteFits(payloads: seq<Bytes>, cut: nat)
    ensures var m := Complete(payloads, cut);
            && |EncodeAll(payloads[..m])| <= cut
            && (m < |payloads| ==> cut < |EncodeAll(payloads[..m + 1])|)
  {
    var m := Complete(payloads, cut);
    if payloads != [] {
      assert payloads[..1][1..] == [];
      if m > 0 {
        CompleteFits(payloads[1..], cut - |Encode(payloads[0])|);
        assert payloads[..m][1..] == payloads[1..][..m - 1];
        if m < |payloads| { assert payloads[..m + 1][1..] == payloads[1..][..m]; }
      }
    }
  }

  lemma EncodeAllCons(payload: Bytes, more: seq<Bytes>)
    ensures EncodeAll([payload] + more) == Encode(payload) + EncodeAll(more)
  {
    assert ([payload] + more)[1..] == more;
  }

  lemma ReadOne(payload: Bytes, rest: Bytes)
    requires |payload| < TWO_32
    ensures ReadAll(Encode(payload) + rest) == ([payload] + ReadAll(rest).0, ReadAll(rest).1)
  {
    FrameRoundTrip(payload, rest);
  }

  lemma ReadNone(payload: Bytes, cut: nat)
    requires |payload| < TWO_32 && cut < |Encode(payload)|
    ensures ReadAll(Encode(payload)[..cut]) == ([], if cut == 0 || cut == HEADER then Eof else UnexpectedEof)
  {
    CutFrame(payload, cut);
  }

  ghost predicate ReadsPrefix(payloads: seq<Bytes>, cut: nat)
    requires cut <= |EncodeAll(payloads)|
  {
    var m := Complete(payloads, cut);
    var left := cut - |EncodeAll(payloads[..m])|;
    && left >= 0
    && ReadAll(EncodeAll(payloads)[..cut]) ==
       (payloads[..m], if left == 0 || left == HEADER then Eof else UnexpectedEof)
  }

  lemma PrefixStep(payload: Bytes, more: seq<Bytes>, tail: nat)
    requires |payload| < TWO_32 && tail <= |EncodeAll(more)| && ReadsPrefix(more, tail)
    ensures |Encode(payload)| + tail <= |EncodeAll([payload] + more)|
    ensures ReadsPrefix([payload] + more, |Encode(payload)| + tail)
  {
    var payloads, m := [payload] + more, Complete(more, tail);
    EncodeAllCons(payload, more);
    assert payloads[1..] == more;
    assert Complete(payloads, |Encode(payload)| + tail) == 1 + m;
    assert payloads[..1 + m] == [payload] + more[..m];
    EncodeAllCons(payload, more[..m]);
    assert EncodeAll(payloads)[..|Encode(payload)| + tail] == Encode(payload) + EncodeAll(more)[..tail];
    hide Encode, Complete, EncodeAll, ReadAll;
    ReadOne(payload, EncodeAll(more)[..tail]);
  }

  /** Reading any prefix of a stream of frames returns exactly the frames that are complete
      in it, and then fails. The failure is the regular end of stream when the prefix ends
      at a frame boundary or right behind a header, and an unexpected one otherwise. */
  lemma {:induction false} ReadPrefix(payloads: seq<Bytes>, cut: nat)
    requires Sendable(payloads) && cut <= |EncodeAll(payloads)|
    ensures ReadsPrefix(payloads, cut)
  {
    if payloads != [] {
      var payload, more := payloads[0], payloads[1..];
      assert payloads == [payload] + more;
      if cut < |Encode(payload)| {
        assert EncodeAll(payloads)[..cut] == Encode(payload)[..cut];
        ReadNone(payload, cut);
      } else {
        hide ReadsPrefix, Encode, Complete, ReadAll;
        ReadPrefix(more, cut - |Encode(payload)|);
        PrefixStep(payload, more, cut - |Encode(payload)|);
      }
    }
  }

  /** The whole stream is read back, with nothing left over. */
  lemma StreamRoundTrip(payloads: seq<Bytes>)
    requires Sendable(payloads)
    ensures ReadAll(EncodeAll(payloads)) == (payloads, Eof)
  {
    var all := EncodeAll(payloads);
    ReadPrefix(payloads, |all|);
    CompleteWhole(payloads);
    assert all[..|all|] == all;
    assert payloads[..|payloads|] == payloads;
  }

  lemma {:induction false} CompleteWhole(payloads: seq<Bytes>)
    ensures Complete(payloads, |EncodeAll(payloads)|) == |payloads|
  {
    if payloads != [] { CompleteWhole(payloads[1..]); }
  }

  lemma {:induction false} EncodeAllAppend(payloads: seq<Bytes>, payload: Bytes)
    ensures EncodeAll(payloads + [payload]) == EncodeAll(payloads) + Encode(payload)
  {
    if payloads == [] {
      assert (payloads + [payload])[1..] == [];
    } else {
      EncodeAllAppend(payloads[1..], payload);
      assert (payloads + [payload])[1..] == payloads[1..] + [payload];
    }
  }
}
