/** Framing of forwarded responses: length-prefixed chunks ended by an empty frame, written in nested
    loops on the owner's side and decoded frame by frame on the caller's. */
module Frames {
  import opened Wrappers
  import opened Bytes
  import opened Sequences

  const HEADER_LIMIT: nat := 16384
  const CHUNK: nat := 32768

  // ----- The wire format

  function Frame(b: seq<byte>): seq<byte>
    requires |b| < 0x1_0000_0000
  {
    ToU32Be(|b|) + b
  }

  const TERMINATOR: seq<byte> := [0, 0, 0, 0]

  /** `bytes.chunks(CHUNK)`: nothing at all for an empty slice. */
  function Pieces(b: seq<byte>): (p: seq<seq<byte>>)
    decreases b
  {
    if b == [] then []
    else if |b| <= CHUNK then [b]
    else [b[..CHUNK]] + Pieces(b[CHUNK..])
  }

  function AllPieces(chunks: seq<seq<byte>>): seq<seq<byte>> {
    if chunks == [] then [] else Pieces(chunks[0]) + AllPieces(chunks[1..])
  }

  predicate Sendable(p: seq<byte>) {
    1 <= |p| <= CHUNK
  }

  function Frames(pieces: seq<seq<byte>>): seq<byte>
    requires forall i :: 0 <= i < |pieces| ==> Sendable(pieces[i])
  {
    if pieces == [] then [] else assert Sendable(pieces[0]); Frame(pieces[0]) + Frames(pieces[1..])
  }

  /** The bytes of a whole body. */
  function EncodeBody(chunks: seq<seq<byte>>): seq<byte> {
    AllPiecesSendable(chunks);
    Frames(AllPieces(chunks)) + TERMINATOR
  }

  function Concat(parts: seq<seq<byte>>): seq<byte> {
    if parts == [] then [] else parts[0] + Concat(parts[1..])
  }

  // ----- Reading one frame, and a whole body

  function ReadFrame(wire: seq<byte>, limit: nat): (r: Option<(seq<byte>, seq<byte>)>)
    ensures r.Some? ==> |r.value.1| + 4 <= |wire|
  {
    if |wire| < 4 then None
    else
      var length := FromBe(wire[..4]);
      if length > limit || |wire| < 4 + length then None
      else Some((wire[4..4 + length], wire[4 + length..]))
  }

  /** The chunks delivered before the body ends, and whether it ended with a terminator. */
  datatype Decoded = Decoded(chunks: seq<seq<byte>>, complete: bool)

  function Decode(wire: seq<byte>): Decoded
    decreases |wire|
  {
    var frame := ReadFrame(wire, CHUNK);
    if frame.None? then Decoded([], false)
    else if frame.value.0 == [] then Decoded([], true)
    else
      var rest := Decode(frame.value.1);
      rest.(chunks := [frame.value.0] + rest.chunks)
  }

  // ----- The stream object, and the two sides

  /** A byte stream: what was written, and how much of it was read. */
  class Stream {
    var bytes: seq<byte>
    var pos: nat

    constructor (bytes: seq<byte>)
      ensures this.bytes == bytes && pos == 0
    {
      this.bytes, pos := bytes, 0;
    }

    method WriteU32(n: nat)
      requires n < 0x1_0000_0000
      modifies `bytes
      ensures bytes == old(bytes) + ToU32Be(n)
    {
      bytes := bytes + ToU32Be(n);
    }

    method WriteAll(b: seq<byte>)
      modifies `bytes
      ensures bytes == old(bytes) + b
    {
      bytes := bytes + b;
    }

    /** A length prefix, then the bytes: the owner's two writes for the head and for each chunk. */
    method WriteFrame(b: seq<byte>)
      requires |b| < 0x1_0000_0000
      modifies `bytes
      ensures bytes == old(bytes) + Frame(b)
    {
      WriteU32(|b|);
      WriteAll(b);
      Associates(old(bytes), ToU32Be(|b|), b);
    }

    ghost function Unread(): seq<byte>
      reads this
      requires pos <= |bytes|
    {
      bytes[pos..]
    }

    method ReadExact(n: nat) returns (b: Option<seq<byte>>)
      requires pos <= |bytes|
      modifies `pos
      ensures pos <= |bytes|
      ensures b.Some? <==> n <= |old(Unread())|
      ensures b.Some? ==> b.value == old(Unread())[..n] && Unread() == old(Unread())[n..]
    {
      if |bytes| - pos < n {
        pos := |bytes|;
        return None;
      }
      b := Some(bytes[pos..pos + n]);
      pos := pos + n;
    }

    method ReceiveFrame(limit: nat) returns (b: Option<seq<byte>>)
      requires pos <= |bytes|
      modifies `pos
      ensures pos <= |bytes|
      ensures b.Some? <==> ReadFrame(old(Unread()), limit).Some?
      ensures b.Some? ==> (b.value, Unread()) == ReadFrame(old(Unread()), limit).value
    {
      var prefix := ReadExact(4);
      if prefix.None? {
        return None;
      }
      var length := FromBe(prefix.value);
      if length > limit {
        return None;
      }
      ghost var wire := old(Unread());
      b := ReadExact(length);
      if b.Some? {
        assert wire[4..][..length] == wire[4..4 + length] && wire[4..][length..] == wire[4 + length..];
      }
    }
  }

  datatype BodyItem = Data(bytes: seq<byte>) | BodyError

  /** The data before the response body fails, if it does. */
  function DataBefore(body: seq<BodyItem>): seq<seq<byte>> {
    if body == [] || body[0].BodyError? then [] else [body[0].bytes] + DataBefore(body[1..])
  }

  predicate Unbroken(body: seq<BodyItem>) {
    forall i :: 0 <= i < |body| ==> body[i].Data?
  }

  method SendChunks(w: Stream, bytes: seq<byte>)
    modifies w`bytes
    ensures forall p :: p in Pieces(bytes) ==> Sendable(p)
    ensures w.bytes == old(w.bytes) + Frames(Pieces(bytes))
  {
    PiecesSendable(bytes);
    var rest := bytes;
    ghost var sent: seq<byte> := [];
    while rest != []
      invariant forall p :: p in Pieces(rest) ==> Sendable(p)
      invariant w.bytes == old(w.bytes) + sent && sent + Frames(Pieces(rest)) == Frames(Pieces(bytes))
      decreases rest
    {
      var n := if |rest| <= CHUNK then |rest| else CHUNK;
      var chunk := rest[..n];
      PiecesHead(rest, n);
      w.WriteFrame(chunk);
      Associates(sent, Frame(chunk), Frames(Pieces(rest[n..])));
      Associates(old(w.bytes), sent, Frame(chunk));
      sent := sent + Frame(chunk);
      rest := rest[n..];
    }
  }

  /** Writes the framed body, up to the first failure of its source. */
  method SendBody(w: Stream, body: seq<BodyItem>) returns (ok: bool)
    modifies w`bytes
    ensures ok <==> Unbroken(body)
    ensures w.bytes == old(w.bytes) + FramesOf(DataBefore(body))
  {
    assert FramesOf(DataBefore(body[..0])) == [];
    for i := 0 to |body|
      invariant forall j :: 0 <= j < i ==> body[j].Data?
      invariant w.bytes == old(w.bytes) + FramesOf(DataBefore(body[..i]))
    {
      if body[i].BodyError? {
        DataStops(body, i);
        return false;
      }
      SendChunks(w, body[i].bytes);
      DataSnoc(body, i);
      FramesSnoc(DataBefore(body[..i]), body[i].bytes);
      Associates(old(w.bytes), FramesOf(DataBefore(body[..i])), Frames(Pieces(body[i].bytes)));
    }
    assert body[..|body|] == body;
    return true;
  }

  /** Writes the head and the framed body. A failing body source leaves out the terminator. */
  method SendResponse(w: Stream, head: seq<byte>, body: seq<BodyItem>) returns (ok: bool)
    modifies w`bytes
    ensures ok <==> |head| <= HEADER_LIMIT && Unbroken(body)
    ensures w.bytes == old(w.bytes) + if |head| > HEADER_LIMIT then [] else Sent(head, body)
  {
    if |head| > HEADER_LIMIT {
      return false;
    }
    w.WriteFrame(head);
    ok := SendBody(w, body);
    ghost var frames := FramesOf(DataBefore(body));
    Associates(old(w.bytes), Frame(head), frames);
    EncodedIsFramesThenTerminator(DataBefore(body));
    if ok {
      w.WriteU32(0);
      Associates(Frame(head), frames, TERMINATOR);
      Associates(old(w.bytes), Frame(head) + frames, TERMINATOR);
    }
  }

  /** Everything written for a response with an acceptable head. */
  ghost function Sent(head: seq<byte>, body: seq<BodyItem>): seq<byte>
    requires |head| <= HEADER_LIMIT
  {
    Frame(head) + if Unbroken(body) then EncodeBody(DataBefore(body)) else FramesOf(DataBefore(body))
  }

  /** What the caller's body stream yields. */
  datatype Yield = Chunk(bytes: seq<byte>) | StreamError | ErrorEvent

  function Yields(d: Decoded, sse: bool): seq<Yield> {
    seq(|d.chunks|, i requires 0 <= i < |d.chunks| => Chunk(d.chunks[i]))
    + if d.complete then [] else if sse then [ErrorEvent] else [StreamError]
  }

  method ReceiveBody(stream: Stream, sse: bool) returns (out: seq<Yield>)
    requires stream.pos <= |stream.bytes|
    modifies stream`pos
    ensures out == Yields(Decode(old(stream.Unread())), sse)
  {
    out := [];
    ghost var all := Yields(Decode(stream.Unread()), sse);
    while true
      invariant stream.pos <= |stream.bytes| && stream.bytes == old(stream.bytes)
      invariant out + Yields(Decode(stream.Unread()), sse) == all
      decreases |stream.Unread()|
    {
      ghost var d := Decode(stream.Unread());
      var frame := stream.ReceiveFrame(CHUNK);
      if frame.None? {
        out := out + [if sse then ErrorEvent else StreamError];
        return;
      }
      if frame.value == [] {
        assert out + Yields(d, sse) == out;
        return;
      }
      YieldsNext(frame.value, Decode(stream.Unread()), sse);
      Associates(out, [Chunk(frame.value)], Yields(Decode(stream.Unread()), sse));
      out := out + [Chunk(frame.value)];
    }
  }

  lemma YieldsNext(chunk: seq<byte>, rest: Decoded, sse: bool)
    ensures Yields(rest.(chunks := [chunk] + rest.chunks), sse) == [Chunk(chunk)] + Yields(rest, sse)
  {
  }

  // ----- Lemmas about pieces and frames

  lemma {:induction false} PiecesSendable(b: seq<byte>)
    ensures forall i :: 0 <= i < |Pieces(b)| ==> Sendable(Pieces(b)[i])
    decreases b
  {
    if |b| > CHUNK {
      PiecesSendable(b[CHUNK..]);
    }
  }

  lemma {:induction false} AllPiecesSendable(chunks: seq<seq<byte>>)
    ensures forall i :: 0 <= i < |AllPieces(chunks)| ==> Sendable(AllPieces(chunks)[i])
  {
    if chunks != [] {
      PiecesSendable(chunks[0]);
      AllPiecesSendable(chunks[1..]);
    }
  }

  lemma {:induction false} PiecesHead(b: seq<byte>, n: nat)
    requires b != [] && n == if |b| <= CHUNK then |b| else CHUNK
    ensures Pieces(b) == [b[..n]] + Pieces(b[n..])
    ensures forall p :: p in Pieces(b[n..]) ==> Sendable(p)
    ensures Frames(Pieces(b)) == Frame(b[..n]) + Frames(Pieces(b[n..]))
  {
    PiecesCons(b, n);
    PiecesSendable(b);
    PiecesSendable(b[n..]);
    assert Pieces(b)[0] == b[..n];
    FramesCons(b[..n], Pieces(b[n..]));
  }

  lemma {:induction false} PiecesCons(b: seq<byte>, n: nat)
    requires b != [] && n == if |b| <= CHUNK then |b| else CHUNK
    ensures Pieces(b) == [b[..n]] + Pieces(b[n..])
  {
    assert b[..|b|] == b;
  }

  lemma {:induction false} FramesCons(piece: seq<byte>, rest: seq<seq<byte>>)
    requires Sendable(piece) && forall i :: 0 <= i < |rest| ==> Sendable(rest[i])
    ensures Frames([piece] + rest) == Frame(piece) + Frames(rest)
  {
    assert ([piece] + rest)[1..] == rest;
  }

  lemma {:induction false} PiecesJoin(b: seq<byte>)
    ensures Concat(Pieces(b)) == b
    decreases b
  {
    if b == [] {
    } else if |b| <= CHUNK {
      assert [b][1..] == [];
    } else {
      PiecesJoin(b[CHUNK..]);
      assert Pieces(b)[1..] == Pieces(b[CHUNK..]);
    }
  }

  lemma {:induction false} ConcatConcat(a: seq<seq<byte>>, b: seq<seq<byte>>)
    ensures Concat(a + b) == Concat(a) + Concat(b)
    decreases a
  {
    if a == [] {
      assert a + b == b;
    } else {
      assert (a + b)[1..] == a[1..] + b;
      ConcatConcat(a[1..], b);
    }
  }

  /** Cutting into pieces loses nothing. */
  lemma {:induction false} AllPiecesJoin(chunks: seq<seq<byte>>)
    ensures Concat(AllPieces(chunks)) == Concat(chunks)
  {
    if chunks != [] {
      PiecesJoin(chunks[0]);
      AllPiecesJoin(chunks[1..]);
      ConcatConcat(Pieces(chunks[0]), AllPieces(chunks[1..]));
    }
  }

  ghost function FramesOf(chunks: seq<seq<byte>>): seq<byte> {
    AllPiecesSendable(chunks);
    Frames(AllPieces(chunks))
  }

  lemma {:induction false} FramesConcat(a: seq<seq<byte>>, b: seq<seq<byte>>)
    requires (forall i :: 0 <= i < |a| ==> Sendable(a[i])) && (forall i :: 0 <= i < |b| ==> Sendable(b[i]))
    ensures forall i :: 0 <= i < |a + b| ==> Sendable((a + b)[i])
    ensures Frames(a + b) == Frames(a) + Frames(b)
    decreases a
  {
    if a == [] {
      assert a + b == b;
    } else {
      FramesConcat(a[1..], b);
      assert a + b == [a[0]] + (a[1..] + b) && a == [a[0]] + a[1..];
      FramesCons(a[0], a[1..] + b);
      FramesCons(a[0], a[1..]);
      Associates(Frame(a[0]), Frames(a[1..]), Frames(b));
    }
  }

  lemma {:induction false} AllPiecesConcat(a: seq<seq<byte>>, b: seq<seq<byte>>)
    ensures AllPieces(a + b) == AllPieces(a) + AllPieces(b)
    decreases a
  {
    if a == [] {
      assert a + b == b;
    } else {
      assert (a + b)[1..] == a[1..] + b;
      AllPiecesConcat(a[1..], b);
    }
  }

  lemma FramesSnoc(chunks: seq<seq<byte>>, last: seq<byte>)
    ensures forall p :: p in Pieces(last) ==> Sendable(p)
    ensures FramesOf(chunks + [last]) == FramesOf(chunks) + Frames(Pieces(last))
  {
    AllPiecesConcat(chunks, [last]);
    assert AllPieces([last]) == Pieces(last) + AllPieces([]) == Pieces(last);
    assert AllPieces(chunks + [last]) == AllPieces(chunks) + Pieces(last);
    AllPiecesSendable(chunks);
    PiecesSendable(last);
    FramesConcat(AllPieces(chunks), Pieces(last));
  }

  lemma {:induction false} DataSnoc(body: seq<BodyItem>, i: nat)
    requires i < |body| && forall j :: 0 <= j <= i ==> body[j].Data?
    ensures DataBefore(body[..i + 1]) == DataBefore(body[..i]) + [body[i].bytes]
    decreases i
  {
    if i > 0 {
      DataSnoc(body[1..], i - 1);
      assert body[..i + 1][1..] == body[1..][..i] && body[..i][1..] == body[1..][..i - 1];
    }
  }

  lemma {:induction false} DataStops(body: seq<BodyItem>, i: nat)
    requires i < |body| && body[i].BodyError? && forall j :: 0 <= j < i ==> body[j].Data?
    ensures DataBefore(body) == DataBefore(body[..i])
    decreases i
  {
    if i > 0 {
      DataStops(body[1..], i - 1);
      assert body[..i][1..] == body[1..][..i - 1];
    }
  }

  lemma EncodedIsFramesThenTerminator(chunks: seq<seq<byte>>)
    ensures EncodeBody(chunks) == FramesOf(chunks) + TERMINATOR
    ensures ToU32Be(0) == TERMINATOR
  {
    assert ToLe(0, 4) == [0, 0, 0, 0];
  }

  // ----- Laws

  /** A frame within the limit is read back whole, whatever follows it. */
  lemma FrameReadsBack(b: seq<byte>, rest: seq<byte>, limit: nat)
    requires |b| <= limit < 0x1_0000_0000
    ensures ReadFrame(Frame(b) + rest, limit) == Some((b, rest))
  {
    U32BeRoundTrip(|b|);
    var wire := Frame(b) + rest;
    assert wire[..4] == ToU32Be(|b|);
    assert wire[4..4 + |b|] == b;
    assert wire[4 + |b|..] == rest;
  }

  /** Any proper prefix of a frame is an error to its reader. */
  lemma CutFrameFails(b: seq<byte>, wire: seq<byte>, limit: nat)
    requires |b| <= limit < 0x1_0000_0000 && wire <= Frame(b) && wire != Frame(b)
    ensures ReadFrame(wire, limit).None?
  {
    U32BeRoundTrip(|b|);
    if |wire| >= 4 {
      assert wire[..4] == Frame(b)[..4] == ToU32Be(|b|);
    }
    assert |wire| < |Frame(b)|;
  }

  lemma TerminatorIsEmptyFrame()
    ensures Frame([]) == TERMINATOR
  {
    assert ToLe(0, 4) == [0, 0, 0, 0];
  }

  lemma {:induction false} FirstFrame(pieces: seq<seq<byte>>, end: seq<byte>, trailing: seq<byte>)
    requires pieces != [] && forall i :: 0 <= i < |pieces| ==> Sendable(pieces[i])
    ensures Frames(pieces) + end + trailing == Frame(pieces[0]) + (Frames(pieces[1..]) + end + trailing)
  {
    var first, more := Frame(pieces[0]), Frames(pieces[1..]);
    Associates(first, more, end);
    Associates(first, more + end, trailing);
  }

  lemma {:induction false} DecodeNext(b: seq<byte>, rest: seq<byte>)
    requires Sendable(b)
    ensures Decode(Frame(b) + rest) == Decoded([b] + Decode(rest).chunks, Decode(rest).complete)
  {
    FrameReadsBack(b, rest, CHUNK);
  }

  lemma {:induction false} DecodeEnd(trailing: seq<byte>)
    ensures Decode(TERMINATOR + trailing) == Decoded([], true)
  {
    TerminatorIsEmptyFrame();
    FrameReadsBack([], trailing, CHUNK);
  }

  lemma {:induction false} DecodeFrames(pieces: seq<seq<byte>>, trailing: seq<byte>)
    requires forall i :: 0 <= i < |pieces| ==> Sendable(pieces[i])
    ensures Decode(Frames(pieces) + TERMINATOR + trailing) == Decoded(pieces, true)
  {
    if pieces == [] {
      DecodeEnd(trailing);
      assert Frames(pieces) + TERMINATOR + trailing == TERMINATOR + trailing;
    } else {
      FirstFrame(pieces, TERMINATOR, trailing);
      DecodeNext(pieces[0], Frames(pieces[1..]) + TERMINATOR + trailing);
      DecodeFrames(pieces[1..], trailing);
      assert [pieces[0]] + pieces[1..] == pieces;
    }
  }

  /** For a body arriving as any chunks, empty ones included, the decoder yields nonempty pieces that
      join to exactly the body, and then ends: no chunk reads as a terminator. */
  lemma BodyRoundTrips(chunks: seq<seq<byte>>, trailing: seq<byte>)
    ensures var d := Decode(EncodeBody(chunks) + trailing);
            d.complete && Concat(d.chunks) == Concat(chunks) && d.chunks == AllPieces(chunks)
  {
    AllPiecesSendable(chunks);
    DecodeFrames(AllPieces(chunks), trailing);
    AllPiecesJoin(chunks);
  }

  lemma {:induction false} CutFramesFail(pieces: seq<seq<byte>>, wire: seq<byte>)
    requires forall i :: 0 <= i < |pieces| ==> Sendable(pieces[i])
    requires wire <= Frames(pieces) + TERMINATOR && wire != Frames(pieces) + TERMINATOR
    ensures !Decode(wire).complete && Decode(wire).chunks <= pieces
  {
    var all := Frames(pieces) + TERMINATOR;
    assert |wire| < |all|;
    if pieces == [] {
      TerminatorIsEmptyFrame();
      assert all == Frame([]);
      CutFrameFails([], wire, CHUNK);
    } else {
      var first, rest := Frame(pieces[0]), Frames(pieces[1..]) + TERMINATOR;
      assert all == first + rest;
      if |wire| < |first| {
        assert wire == all[..|wire|] == first[..|wire|];
        CutFrameFails(pieces[0], wire, CHUNK);
      } else {
        var tail := wire[|first|..];
        assert wire == first + tail;
        assert tail == all[|first|..][..|tail|] == rest[..|tail|];
        FrameReadsBack(pieces[0], tail, CHUNK);
        CutFramesFail(pieces[1..], tail);
      }
    }
  }

  /** Any proper prefix of the wire bytes is reported as an error, never as a shorter complete body,
      and what was yielded before the error is a prefix of the body. */
  lemma {:induction false} TruncationIsAnError(chunks: seq<seq<byte>>, wire: seq<byte>)
    requires wire <= EncodeBody(chunks) && wire != EncodeBody(chunks)
    ensures !Decode(wire).complete
    ensures Concat(Decode(wire).chunks) <= Concat(chunks)
  {
    AllPiecesSendable(chunks);
    CutFramesFail(AllPieces(chunks), wire);
    var got, all := Decode(wire).chunks, AllPieces(chunks);
    assert all == got + all[|got|..];
    ConcatConcat(got, all[|got|..]);
    AllPiecesJoin(chunks);
  }

  /** End to end: the caller reads back the head and exactly the body bytes of an unbroken response; a
      response whose body source failed ends in an error. */
  method Exchange(head: seq<byte>, body: seq<BodyItem>, sse: bool) returns (got: Option<(seq<byte>, seq<Yield>)>)
    ensures got.Some? <==> |head| <= HEADER_LIMIT
    ensures got.Some? ==> got.value.0 == head
    ensures got.Some? ==> got.value.1 == Yields(Decoded(AllPieces(DataBefore(body)), Unbroken(body)), sse)
  {
    var stream := new Stream([]);
    var ok := SendResponse(stream, head, body);
    if |head| > HEADER_LIMIT {
      return None;
    }
    ghost var chunks := DataBefore(body);
    ghost var payload := if ok then EncodeBody(chunks) else FramesOf(chunks);
    FrameReadsBack(head, payload, HEADER_LIMIT);
    assert stream.Unread() == Frame(head) + payload;
    var first := stream.ReceiveFrame(HEADER_LIMIT);
    if ok {
      BodyRoundTrips(chunks, []);
      assert EncodeBody(chunks) + [] == EncodeBody(chunks);
    } else {
      AllPiecesSendable(chunks);
      UnterminatedYieldsAll(AllPieces(chunks));
    }
    var received := ReceiveBody(stream, sse);
    got := Some((first.value, received));
  }

  lemma {:induction false} UnterminatedYieldsAll(pieces: seq<seq<byte>>)
    requires forall i :: 0 <= i < |pieces| ==> Sendable(pieces[i])
    ensures Decode(Frames(pieces)) == Decoded(pieces, false)
  {
    if pieces != [] {
      assert pieces == [pieces[0]] + pieces[1..];
      FramesCons(pieces[0], pieces[1..]);
      DecodeNext(pieces[0], Frames(pieces[1..]));
      UnterminatedYieldsAll(pieces[1..]);
    }
  }
}
