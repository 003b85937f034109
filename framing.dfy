/**
  The wire format of `SingleInstanceService`: a message is the UTF-8 bytes of
  its text followed by the two-byte end delimiter CR LF. No length prefix, no
  escaping.
*/
module Framing {
  import opened Wrappers
  import opened Utf8

  const CR: Byte := 0x0D
  const LF: Byte := 0x0A

  /** `EndDelimiter`. */
  const EndDelimiter: seq<Byte> := [CR, LF]

  /** The delimiter starts at byte `k` of `s`. */
  predicate DelimiterAt(s: seq<Byte>, k: int) {
    0 <= k && k + 1 < |s| && s[k] == CR && s[k + 1] == LF
  }

  predicate ContainsDelimiter(s: seq<Byte>) {
    exists k :: 0 <= k < |s| && DelimiterAt(s, k)
  }

  /** `k` is where the first delimiter of `s` starts. */
  predicate IsFirstDelimiter(s: seq<Byte>, k: int) {
    DelimiterAt(s, k) && forall j :: 0 <= j < k ==> !DelimiterAt(s, j)
  }

  /** The text has "\r\n" at character `k`. */
  predicate CrLfAt(m: string, k: int) {
    0 <= k && k + 1 < |m| && m[k] == '\r' && m[k + 1] == '\n'
  }

  predicate ContainsCrLf(m: string) {
    exists k :: 0 <= k < |m| && CrLfAt(m, k)
  }

  predicate IsFirstCrLf(m: string, k: int) {
    CrLfAt(m, k) && forall j :: 0 <= j < k ==> !CrLfAt(m, j)
  }

  /** The frame the sender writes for `message` (the encode blocks of the client and of the reply). */
  function EncodeFrame(message: string): (r: seq<Byte>)
  {
    Encode(message) + EndDelimiter
  }

  /** Where `SequenceReader.TryReadTo` finds the delimiter: its first occurrence. */
  function FirstDelimiter(s: seq<Byte>): (r: Option<nat>)
    ensures r.None? <==> !ContainsDelimiter(s)
    ensures r.Some? ==> IsFirstDelimiter(s, r.value)
    decreases |s|
  {
    if |s| < 2 then
      None
    else if s[0] == CR && s[1] == LF then
      assert DelimiterAt(s, 0);
      Some(0)
    else
      match FirstDelimiter(s[1..])
      case None =>
        assert forall k :: DelimiterAt(s, k) ==> DelimiterAt(s[1..], k - 1);
        None
      case Some(k) =>
        assert DelimiterAt(s, k + 1);
        assert forall j :: 1 <= j < k + 1 ==> (DelimiterAt(s, j) ==> DelimiterAt(s[1..], j - 1));
        Some(k + 1)
  }

  /**
    `HandleResponse`: if the buffer holds a delimiter, the decoded text before
    the first one, with the buffer replaced by the bytes after it; otherwise no
    message and the buffer as it was.
  */
  function HandleResponse(buffer: seq<Byte>): (r: (Option<string>, seq<Byte>))
    ensures r.0.None? <==> !ContainsDelimiter(buffer)
    ensures r.0.None? ==> r.1 == buffer
    ensures r.0.Some? ==>
      exists k :: IsFirstDelimiter(buffer, k) && r.0.value == Decode(buffer[..k]) && r.1 == buffer[k + 2..]
  {
    match FirstDelimiter(buffer)
    case None => (None, buffer)
    case Some(k) => (Some(Decode(buffer[..k])), buffer[k + 2..])
  }

  /** What `ReadAsync` returns for a stream that carries `s` in total: the first frame, or "". */
  function FirstFrame(s: seq<Byte>): string {
    match HandleResponse(s).0
    case None => ""
    case Some(m) => m
  }

  /** The bytes of a stream delivered as consecutive chunks. */
  function Concat(chunks: seq<seq<Byte>>): seq<Byte> {
    if chunks == [] then [] else Concat(chunks[..|chunks| - 1]) + chunks[|chunks| - 1]
  }

  lemma {:induction false} ConcatSplit(chunks: seq<seq<Byte>>, i: nat)
    requires i <= |chunks|
    ensures Concat(chunks) == Concat(chunks[..i]) + Concat(chunks[i..])
    decreases |chunks|
  {
    if i < |chunks| {
      var n := |chunks| - 1;
      assert chunks[..n][..i] == chunks[..i];
      ConcatSplit(chunks[..n], i);
      assert chunks[i..][..|chunks[i..]| - 1] == chunks[..n][i..];
    } else {
      assert chunks[..i] == chunks;
      assert chunks[i..] == [];
    }
  }

  /** Appending bytes after a delimiter does not move the first delimiter. */
  lemma FirstDelimiterExtend(s: seq<Byte>, t: seq<Byte>, k: nat)
    requires IsFirstDelimiter(s, k)
    ensures IsFirstDelimiter(s + t, k)
  {
    assert forall j :: 0 <= j < k ==> (DelimiterAt(s + t, j) ==> DelimiterAt(s, j));
  }

  /** Once the received bytes contain a frame, later bytes do not change it. */
  lemma HandleResponseExtend(s: seq<Byte>, t: seq<Byte>)
    requires ContainsDelimiter(s)
    ensures HandleResponse(s + t).0 == HandleResponse(s).0
    ensures HandleResponse(s + t).1 == HandleResponse(s).1 + t
  {
    var k := FirstDelimiter(s).value;
    FirstDelimiterExtend(s, t, k);
    var k' := FirstDelimiter(s + t).value;
    FirstDelimiterUnique(s + t, k, k');
    assert (s + t)[..k] == s[..k];
    assert (s + t)[k + 2..] == s[k + 2..] + t;
  }

  lemma FirstDelimiterUnique(s: seq<Byte>, k: int, k': int)
    requires IsFirstDelimiter(s, k) && IsFirstDelimiter(s, k')
    ensures k == k'
  {
  }

  lemma EncodeHead(t: string)
    requires t != []
    ensures |Encode(t)| > 0
    ensures IsAscii(Encode(t)[0]) ==> Encode(t)[0] as int == t[0] as int
  {
    assert Encode(t) == EncodeScalar(t[0]) + Encode(t[1..]);
  }

  /** The UTF-8 bytes of a text contain CR LF exactly when the text contains "\r\n". */
  lemma {:induction false} EncodeContainsDelimiter(m: string)
    ensures ContainsDelimiter(Encode(m)) <==> ContainsCrLf(m)
  {
    if m == [] {
      assert !ContainsCrLf(m);
    } else {
      var e := EncodeScalar(m[0]);
      var t := m[1..];
      var s := Encode(m);
      assert s == e + Encode(t);
      EncodeContainsDelimiter(t);
      if ContainsDelimiter(s) {
        var k :| 0 <= k < |s| && DelimiterAt(s, k);
        if k < |e| {
          assert s[k] == e[k];
          assert |e| == 1 && k == 0;
          assert m[0] == '\r';
          EncodeHead(t);
          assert Encode(t)[0] == s[1];
          assert CrLfAt(m, 0);
        } else {
          assert DelimiterAt(Encode(t), k - |e|);
          var j :| 0 <= j < |t| && CrLfAt(t, j);
          assert CrLfAt(m, j + 1);
        }
      }
      if ContainsCrLf(m) {
        var j :| 0 <= j < |m| && CrLfAt(m, j);
        if j == 0 {
          EncodeHead(t);
          assert s[0] == CR && s[1] == Encode(t)[0];
          assert DelimiterAt(s, 0);
        } else {
          assert CrLfAt(t, j - 1);
          var k :| 0 <= k < |Encode(t)| && DelimiterAt(Encode(t), k);
          assert DelimiterAt(s, k + |e|);
        }
      }
    }
  }

  /** A frame whose bytes before the delimiter hold no CR LF is found at its end. */
  lemma FrameDelimiterAt(p: seq<Byte>, rest: seq<Byte>)
    requires !ContainsDelimiter(p + [CR])
    ensures IsFirstDelimiter(p + EndDelimiter + rest, |p|)
  {
    var s := p + EndDelimiter + rest;
    forall j | 0 <= j < |p|
      ensures !DelimiterAt(s, j)
    {
      if DelimiterAt(s, j) {
        assert DelimiterAt(p + [CR], j);
      }
    }
  }

  /** The delimiter that closes a frame is its first exactly when the message holds no "\r\n". */
  lemma FrameDelimiterIsLast(m: string)
    ensures IsFirstDelimiter(EncodeFrame(m), |EncodeFrame(m)| - 2) <==> !ContainsCrLf(m)
  {
    var p := Encode(m);
    var r := EncodeFrame(m);
    EncodeContainsDelimiter(m);
    if ContainsCrLf(m) {
      var k :| 0 <= k < |p| && DelimiterAt(p, k);
      assert DelimiterAt(r, k);
    } else {
      assert !ContainsDelimiter(p + [CR]) by {
        if ContainsDelimiter(p + [CR]) {
          var j :| 0 <= j < |p + [CR]| && DelimiterAt(p + [CR], j);
          assert DelimiterAt(p, j);
        }
      }
      FrameDelimiterAt(p, []);
      assert p + EndDelimiter + [] == r;
    }
  }

  /** `HandleResponse` on bytes `p`, the delimiter and `tail`, where the delimiter is the first one. */
  lemma HandleResponseAt(p: seq<Byte>, tail: seq<Byte>)
    requires !ContainsDelimiter(p + [CR])
    ensures HandleResponse(p + EndDelimiter + tail) == (Some(Decode(p)), tail)
  {
    var s := p + EndDelimiter + tail;
    FrameDelimiterAt(p, tail);
    FirstDelimiterUnique(s, |p|, FirstDelimiter(s).value);
    assert s[..|p|] == p;
    assert s[|p| + 2..] == tail;
  }

  /**
    Round trip: a message without "\r\n" followed by anything decodes to the
    message, and the buffer becomes exactly what followed the frame.
  */
  lemma FrameRoundTrip(m: string, rest: seq<Byte>)
    requires !ContainsCrLf(m)
    ensures HandleResponse(EncodeFrame(m) + rest) == (Some(m), rest)
  {
    var p := Encode(m);
    EncodeContainsDelimiter(m);
    assert !ContainsDelimiter(p + [CR]) by {
      if ContainsDelimiter(p + [CR]) {
        var j :| 0 <= j < |p + [CR]| && DelimiterAt(p + [CR], j);
        assert DelimiterAt(p, j);
      }
    }
    HandleResponseAt(p, rest);
    assert EncodeFrame(m) + rest == p + EndDelimiter + rest;
    DecodeEncode(m);
  }

  /** The text before the first "\r\n", with its "\r", encodes without a delimiter. */
  lemma EncodeBeforeFirstCrLf(m: string, k: nat)
    requires IsFirstCrLf(m, k)
    ensures !ContainsDelimiter(Encode(m[..k]) + [CR])
  {
    var head := m[..k + 1];
    assert !ContainsCrLf(head) by {
      if ContainsCrLf(head) {
        var j :| 0 <= j < |head| && CrLfAt(head, j);
        assert CrLfAt(m, j);
      }
    }
    EncodeContainsDelimiter(head);
    assert head[..k] == m[..k];
    EncodePrefix(head, k);
    assert head[k..] == ['\r'];
    assert Encode(head[k..]) == [CR];
  }

  /** The encoding of a text around a "\r\n" at `k`. */
  lemma EncodeAroundCrLf(m: string, k: nat)
    requires CrLfAt(m, k)
    ensures Encode(m) == Encode(m[..k]) + EndDelimiter + Encode(m[k + 2..])
  {
    EncodePrefix(m, k);
    assert m[k..] == ['\r', '\n'] + m[k + 2..];
    EncodeAppend(['\r', '\n'], m[k + 2..]);
    assert Encode(['\r', '\n']) == EndDelimiter;
  }

  /**
    A message that does contain "\r\n" is cut at its first one: only the text
    before it is received, and the rest of the frame stays in the buffer.
  */
  lemma FrameTruncated(m: string, rest: seq<Byte>, k: nat)
    requires IsFirstCrLf(m, k)
    ensures HandleResponse(EncodeFrame(m) + rest) == (Some(m[..k]), Encode(m[k + 2..]) + EndDelimiter + rest)
  {
    var p := Encode(m[..k]);
    var tail := Encode(m[k + 2..]) + EndDelimiter + rest;
    EncodeBeforeFirstCrLf(m, k);
    EncodeAroundCrLf(m, k);
    assert EncodeFrame(m) + rest == p + EndDelimiter + tail;
    HandleResponseAt(p, tail);
    DecodeEncode(m[..k]);
  }

  /**
    `ReadAsync`: reads until the accumulated bytes hold a frame or the stream
    completes. Read `i` delivers the chunk `chunks[i]`; the read that delivers
    the last chunk reports the stream completed (no chunk at all is one empty,
    completed read). Bytes not consumed are kept for the next read.
  */
  method ReadAsync(chunks: seq<seq<Byte>>) returns (r: string)
    ensures r == FirstFrame(Concat(chunks))
  {
    var buffer: seq<Byte> := [];
    var i := 0;
    while true
      invariant i <= |chunks|
      invariant buffer == Concat(chunks[..i])
      invariant !ContainsDelimiter(buffer)
      decreases |chunks| - i
    {
      var data: seq<Byte> := if i < |chunks| then chunks[i] else [];
      var isCompleted := i + 1 >= |chunks|;
      buffer := buffer + data;
      assert i < |chunks| ==> buffer == Concat(chunks[..i + 1]) by {
        if i < |chunks| {
          assert chunks[..i + 1][..i] == chunks[..i];
        }
      }
      var response := HandleResponse(buffer);
      if response.0.Some? {
        ReadAsyncFound(chunks, i, buffer);
        return response.0.value;
      }
      if isCompleted {
        break;
      }
      buffer := response.1;
      i := i + 1;
    }
    assert buffer == Concat(chunks) by {
      if |chunks| > 0 {
        assert chunks[..|chunks|] == chunks;
      }
    }
    r := "";
  }

  lemma ReadAsyncFound(chunks: seq<seq<Byte>>, i: nat, buffer: seq<Byte>)
    requires i <= |chunks|
    requires ContainsDelimiter(buffer)
    requires i < |chunks| ==> buffer == Concat(chunks[..i + 1])
    requires i == |chunks| ==> buffer == Concat(chunks[..i])
    ensures HandleResponse(buffer).0.value == FirstFrame(Concat(chunks))
  {
    var j := if i < |chunks| then i + 1 else i;
    ConcatSplit(chunks, j);
    HandleResponseExtend(buffer, Concat(chunks[j..]));
  }

  /** A frame read through `ReadAsync`, however the stream is chunked, yields its message. */
  lemma ReadFrameOfMessage(m: string, rest: seq<Byte>)
    requires !ContainsCrLf(m)
    ensures FirstFrame(EncodeFrame(m) + rest) == m
  {
    FrameRoundTrip(m, rest);
  }

  /**
    The output side of a duplex pipe: what has been written, and whether the
    writer was completed.
  */
  class OutputPipe {
    var written: seq<Byte>
    var completed: bool

    constructor ()
      ensures written == [] && !completed
    {
      written := [];
      completed := false;
    }

    /**
      The encode block: the UTF-8 bytes of the message, then the delimiter,
      appended to what was written before. A completed writer refuses to write.
    */
    method WriteFrame(message: string) returns (ok: bool)
      modifies this
      ensures ok == !old(completed)
      ensures written == if ok then old(written) + EncodeFrame(message) else old(written)
      ensures completed == old(completed)
    {
      ok := !completed;
      if ok {
        written := written + Encode(message);
        written := written + EndDelimiter;
      }
    }

    /** `Complete`: completing twice is harmless. */
    method Complete()
      modifies this
      ensures completed && written == old(written)
    {
      completed := true;
    }
  }
}
