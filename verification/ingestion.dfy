/** The background reader (`_rtm_read_forever`, `_websocket_safe_read`)
    and `clear_events`, as operations on the shared event buffer. Each
    buffer operation is atomic, so the buffer's history is a sequence of
    operations: a batch of frames received in one read, or a clear.
    Decoding one frame (`json.loads`) is the parameter `parse`, `None`
    standing for a frame that does not decode. */
module Ingestion {
  import opened Outcomes
  import opened Text
  import opened Events

  /** `_websocket_safe_read` over the frames received before the socket
      reported that nothing more is available: every frame followed by a
      newline, then trailing whitespace stripped. The read never ends in
      whitespace, and splitting it on newlines gives back a cleanly framed
      batch. */
  function SafeRead(frames: seq<string>): (r: string)
    ensures |r| == 0 || !IsSpace(r[|r| - 1])
    ensures CleanlyFramed(frames) ==> Split(r, '\n') == frames
  {
    var r := RStrip(JoinLines(frames));
    assert CleanlyFramed(frames) ==> Split(r, '\n') == frames by {
      if CleanlyFramed(frames) {
        FramesRoundTrip(frames);
      }
    }
    r
  }

  /** The read comes back empty exactly when every frame was blank, which
      is how an empty batch is told apart. */
  lemma SafeReadEmptyIff(frames: seq<string>)
    ensures SafeRead(frames) == "" <==> forall k :: 0 <= k < |frames| ==> AllSpace(frames[k])
  {
    JoinLinesAllSpace(frames);
    RStripEmptyIff(JoinLines(frames));
  }

  /** The list comprehension that decodes the pieces of a read: every piece
      decoded in order, or nothing at all when one of them does not decode. */
  function ParseAll(pieces: seq<string>, parse: string -> Option<Event>): (r: Option<seq<Event>>)
    ensures r.Some? <==> forall k :: 0 <= k < |pieces| ==> parse(pieces[k]).Some?
    ensures r.Some? ==> |r.value| == |pieces|
    decreases |pieces|
  {
    if |pieces| == 0 then Some([])
    else
      match parse(pieces[0])
      case None => None
      case Some(e) =>
        assert forall k :: 1 <= k < |pieces| ==> pieces[1..][k - 1] == pieces[k];
        match ParseAll(pieces[1..], parse)
        case None => None
        case Some(rest) => Some([e] + rest)
  }

  /** Each decoded event is the decoding of the piece at the same place. */
  lemma {:induction false} ParseAllPointwise(pieces: seq<string>, parse: string -> Option<Event>)
    requires ParseAll(pieces, parse).Some?
    ensures forall k :: 0 <= k < |pieces| ==> ParseAll(pieces, parse).value[k] == parse(pieces[k]).value
    decreases |pieces|
  {
    if |pieces| > 0 {
      ParseAllPointwise(pieces[1..], parse);
      var r := ParseAll(pieces, parse).value;
      assert r == [parse(pieces[0]).value] + ParseAll(pieces[1..], parse).value;
    }
  }

  /** The body of one iteration of the reader loop: the events after the
      batch is taken in, or `None` when decoding raised and the reader
      thread ended. The events already buffered are kept, in front. */
  function Ingest(events: seq<Event>, frames: seq<string>, parse: string -> Option<Event>): (r: Option<seq<Event>>)
    ensures r.Some? ==> |events| <= |r.value| && r.value[..|events|] == events
  {
    var data := SafeRead(frames);
    if data == "" then Some(events)
    else
      match ParseAll(Split(data, '\n'), parse)
      case None => None
      case Some(decoded) =>
        assert (events + decoded)[..|events|] == events;
        Some(events + decoded)
  }

  /** A blank batch leaves the buffer alone, and a cleanly framed batch is
      taken in exactly when all its frames decode, appended whole after the
      buffered events. */
  lemma IngestAppends(events: seq<Event>, frames: seq<string>, parse: string -> Option<Event>)
    ensures (forall k :: 0 <= k < |frames| ==> AllSpace(frames[k])) ==> Ingest(events, frames, parse) == Some(events)
    ensures CleanlyFramed(frames) ==> (Ingest(events, frames, parse).Some? <==> ParseAll(frames, parse).Some?)
    ensures CleanlyFramed(frames) && ParseAll(frames, parse).Some? ==>
      Ingest(events, frames, parse) == Some(events + ParseAll(frames, parse).value)
  {
    SafeReadEmptyIff(frames);
  }

  /** The shared buffer and whether the reader thread is still running. */
  datatype Buffer = Buffer(events: seq<Event>, readerAlive: bool)

  /** One atomic operation on the buffer. */
  datatype BufferOp = Receive(frames: seq<string>) | Clear

  /** One operation: `clear_events` empties the buffer; a batch is taken
      in by a running reader. A receive only ever appends, and a reader that
      has ended never runs again. */
  function Step(b: Buffer, op: BufferOp, parse: string -> Option<Event>): (r: Buffer)
    ensures r.readerAlive ==> b.readerAlive
    ensures op.Receive? ==> |b.events| <= |r.events| && r.events[..|b.events|] == b.events
  {
    match op
    case Clear => Buffer([], b.readerAlive)
    case Receive(frames) =>
      if !b.readerAlive then b
      else
        match Ingest(b.events, frames, parse)
        case None => Buffer(b.events, false)
        case Some(events) => Buffer(events, true)
  }

  /** The buffer after a history of operations, oldest first. */
  function Run(b: Buffer, ops: seq<BufferOp>, parse: string -> Option<Event>): Buffer
    decreases |ops|
  {
    if |ops| == 0 then b else Run(Step(b, ops[0], parse), ops[1..], parse)
  }

  lemma {:induction false} RunConcat(b: Buffer, a: seq<BufferOp>, c: seq<BufferOp>, parse: string -> Option<Event>)
    ensures Run(b, a + c, parse) == Run(Run(b, a, parse), c, parse)
    decreases |a|
  {
    if |a| == 0 {
      assert a + c == c;
    } else {
      assert (a + c)[1..] == a[1..] + c;
      RunConcat(Step(b, a[0], parse), a[1..], c, parse);
    }
  }

  /** `clear_events`: after a clear, the buffer is what the operations
      since build from an empty buffer, so no scan after the clear sees an
      earlier event. Only whether the reader thread is still running
      carries over from before the clear. */
  lemma ClearDiscardsEarlier(b: Buffer, before: seq<BufferOp>, after: seq<BufferOp>, parse: string -> Option<Event>)
    ensures Run(b, before + [Clear] + after, parse) ==
      Run(Buffer([], Run(b, before, parse).readerAlive), after, parse)
  {
    RunConcat(b, before + [Clear], after, parse);
    RunConcat(b, before, [Clear], parse);
  }

  /** A batch the reader takes apart exactly as it arrived: empty, or
      cleanly framed. */
  predicate WellFramed(frames: seq<string>) {
    |frames| == 0 || CleanlyFramed(frames)
  }

  /** All frames of a history of receives, in arrival order. */
  function Frames(ops: seq<BufferOp>): seq<string>
    requires forall i :: 0 <= i < |ops| ==> ops[i].Receive?
    decreases |ops|
  {
    if |ops| == 0 then [] else ops[0].frames + Frames(ops[1..])
  }

  /** Without clears, the events already buffered are never altered: the
      buffer only grows at its end. */
  lemma {:induction false} ReceivesOnlyAppend(b: Buffer, ops: seq<BufferOp>, parse: string -> Option<Event>)
    requires forall i :: 0 <= i < |ops| ==> ops[i].Receive?
    ensures |b.events| <= |Run(b, ops, parse).events|
    ensures Run(b, ops, parse).events[..|b.events|] == b.events
    decreases |ops|
  {
    if |ops| > 0 {
      var b' := Step(b, ops[0], parse);
      assert |b.events| <= |b'.events| && b'.events[..|b.events|] == b.events;
      ReceivesOnlyAppend(b', ops[1..], parse);
      var e := Run(b, ops, parse).events;
      assert e[..|b'.events|] == b'.events;
      assert e[..|b.events|] == e[..|b'.events|][..|b.events|];
    }
  }

  /** Once the reader thread has ended, later batches are never buffered. */
  lemma {:induction false} DeadReaderStaysDead(b: Buffer, ops: seq<BufferOp>, parse: string -> Option<Event>)
    requires !b.readerAlive
    requires forall i :: 0 <= i < |ops| ==> ops[i].Receive?
    ensures Run(b, ops, parse) == b
    decreases |ops|
  {
    if |ops| > 0 {
      DeadReaderStaysDead(b, ops[1..], parse);
    }
  }

  /** One well-framed batch whose frames all decode is appended whole. */
  lemma ReceiveAppendsBatch(b: Buffer, frames: seq<string>, parse: string -> Option<Event>)
    requires b.readerAlive && WellFramed(frames)
    requires ParseAll(frames, parse).Some?
    ensures Step(b, Receive(frames), parse) == Buffer(b.events + ParseAll(frames, parse).value, true)
  {
    IngestAppends(b.events, frames, parse);
    if |frames| == 0 {
      assert b.events + [] == b.events;
    }
  }

  /** A batch with a frame that does not decode raises inside the reader
      thread: nothing of the batch is buffered and the thread ends. */
  lemma UndecodableBatchEndsReader(b: Buffer, frames: seq<string>, parse: string -> Option<Event>)
    requires b.readerAlive && CleanlyFramed(frames)
    requires exists k :: 0 <= k < |frames| && parse(frames[k]).None?
    ensures Step(b, Receive(frames), parse) == Buffer(b.events, false)
  {
    IngestAppends(b.events, frames, parse);
  }

  /** Every batch of the history is well framed and all its frames decode. */
  predicate DecodableReceives(ops: seq<BufferOp>, parse: string -> Option<Event>) {
    forall i :: 0 <= i < |ops| ==>
      ops[i].Receive? && WellFramed(ops[i].frames) && ParseAll(ops[i].frames, parse).Some?
  }

  /** The decoded batches of a history, one after the other. */
  function Decoded(ops: seq<BufferOp>, parse: string -> Option<Event>): seq<Event>
    requires DecodableReceives(ops, parse)
    decreases |ops|
  {
    if |ops| == 0 then [] else ParseAll(ops[0].frames, parse).value + Decoded(ops[1..], parse)
  }

  lemma {:induction false} DecodedIsParsedFrames(ops: seq<BufferOp>, parse: string -> Option<Event>)
    requires DecodableReceives(ops, parse)
    ensures ParseAll(Frames(ops), parse) == Some(Decoded(ops, parse))
    decreases |ops|
  {
    if |ops| > 0 {
      DecodedIsParsedFrames(ops[1..], parse);
      ParseAllAppend(ops[0].frames, Frames(ops[1..]), parse);
    }
  }

  /** Decoding two decodable runs of frames one after the other decodes
      their concatenation. */
  lemma ParseAllAppend(a: seq<string>, c: seq<string>, parse: string -> Option<Event>)
    requires ParseAll(a, parse).Some? && ParseAll(c, parse).Some?
    ensures ParseAll(a + c, parse) == Some(ParseAll(a, parse).value + ParseAll(c, parse).value)
  {
    ParseAllPointwise(a, parse);
    ParseAllPointwise(c, parse);
    ParseAllPointwise(a + c, parse);
    assert forall k :: 0 <= k < |a| ==> (a + c)[k] == a[k];
    assert forall k :: 0 <= k < |c| ==> (a + c)[|a| + k] == c[k];
    var pa, pc := ParseAll(a, parse).value, ParseAll(c, parse).value;
    var r := ParseAll(a + c, parse).value;
    assert forall k :: 0 <= k < |a| ==> r[k] == pa[k];
    assert forall k :: 0 <= k < |c| ==> r[|a| + k] == pc[k];
    assert r == pa + pc;
  }

  /** Receiving well-framed batches whose frames all decode appends exactly
      the decoded frames, in arrival order, none dropped or repeated, after
      the events already buffered. */
  lemma ArrivalOrderPreserved(b: Buffer, ops: seq<BufferOp>, parse: string -> Option<Event>)
    requires b.readerAlive
    requires DecodableReceives(ops, parse)
    ensures ParseAll(Frames(ops), parse).Some?
    ensures Run(b, ops, parse) == Buffer(b.events + ParseAll(Frames(ops), parse).value, true)
  {
    DecodedIsParsedFrames(ops, parse);
    RunDecodable(b, ops, parse);
  }

  lemma {:induction false} RunDecodable(b: Buffer, ops: seq<BufferOp>, parse: string -> Option<Event>)
    requires b.readerAlive
    requires DecodableReceives(ops, parse)
    ensures Run(b, ops, parse) == Buffer(b.events + Decoded(ops, parse), true)
    decreases |ops|
  {
    if |ops| == 0 {
      assert b.events + [] == b.events;
    } else {
      DecodedCons(ops, parse);
      var b' := RunAfterFirst(b, ops, parse);
      RunDecodable(b', ops[1..], parse);
      AppendAssociates(b.events, ParseAll(ops[0].frames, parse).value, Decoded(ops[1..], parse));
    }
  }

  /** Associativity of sequence concatenation, stated apart so that the
      solver applies it once in `RunDecodable` rather than searching for it. */
  lemma AppendAssociates(a: seq<Event>, c: seq<Event>, d: seq<Event>)
    ensures a + c + d == a + (c + d)
  {
  }

  /** The first batch of a decodable history is appended whole; the rest
      of the history then runs on the grown buffer. */
  lemma RunAfterFirst(b: Buffer, ops: seq<BufferOp>, parse: string -> Option<Event>) returns (b': Buffer)
    requires b.readerAlive
    requires DecodableReceives(ops, parse) && |ops| > 0
    ensures b' == Buffer(b.events + ParseAll(ops[0].frames, parse).value, true)
    ensures Run(b, ops, parse) == Run(b', ops[1..], parse)
  {
    b' := Buffer(b.events + ParseAll(ops[0].frames, parse).value, true);
    assert ops[0] == Receive(ops[0].frames);
    ReceiveAppendsBatch(b, ops[0].frames, parse);
  }

  lemma DecodableTail(ops: seq<BufferOp>, parse: string -> Option<Event>)
    requires DecodableReceives(ops, parse) && |ops| > 0
    ensures DecodableReceives(ops[1..], parse)
  {
    assert forall i :: 0 <= i < |ops| - 1 ==> ops[1..][i] == ops[i + 1];
  }

  lemma DecodedCons(ops: seq<BufferOp>, parse: string -> Option<Event>)
    requires DecodableReceives(ops, parse) && |ops| > 0
    ensures DecodableReceives(ops[1..], parse)
    ensures Decoded(ops, parse) == ParseAll(ops[0].frames, parse).value + Decoded(ops[1..], parse)
  {
    DecodableTail(ops, parse);
  }
}
