/** Streaming Chat Completions: the chunk stream for an engine stream, the state that produces it, and
    what a client can rebuild from it. */
module Chat {
  import opened Wrappers
  import opened Engine
  import Responses
  import opened Sequences

  datatype Delta =
    | Role
    | Content(text: string)
    | ReasoningContent(text: string)
    | CallDelta(index: u32, id: Option<string>, name: Option<string>, arguments: string)
    | Finished(finish: Finish)

  /** One `data:` line. Ordinary chunks carry a null usage member when usage was asked for. */
  datatype Line =
    | Chunk(delta: Delta, nullUsage: bool)
    | UsageChunk(usage: Usage)
    | Envelope(error: string)
    | DoneMark

  datatype Context = Context(includeUsage: bool, includeReasoning: bool)

  const BACKEND_FAILURE: string := "backend_inference_error"

  function FailureLines(error: string): seq<Line> {
    [Envelope(error), DoneMark]
  }

  function ClosingLines(c: Context, usage: Option<Usage>, finish: Finish): seq<Line> {
    [Chunk(Finished(finish), c.includeUsage)]
    + (if c.includeUsage && usage.Some? then [UsageChunk(usage.value)] else [])
    + [DoneMark]
  }

  function Lines(c: Context, e: Event): seq<Line> {
    match e
    case ReasoningDelta(text) => if c.includeReasoning then [Chunk(ReasoningContent(text), c.includeUsage)] else []
    case ReasoningCompleted(_) => []
    case TextDelta(text) => [Chunk(Content(text), c.includeUsage)]
    case ToolCallDelta(i, id, name, arguments) => [Chunk(CallDelta(i, id, name, arguments), c.includeUsage)]
    case Completed(usage, finish) => ClosingLines(c, usage, finish)
  }

  function Body(c: Context, items: seq<Item>): seq<Line> {
    if items == [] then FailureLines(BACKEND_FAILURE)
    else
      match items[0]
      case Failure(error) => FailureLines(error)
      case Produced(e) => Lines(c, e) + if e.Completed? then [] else Body(c, items[1..])
  }

  function Transcript(c: Context, items: seq<Item>): seq<Line> {
    [Chunk(Role, c.includeUsage)] + Body(c, items)
  }

  lemma {:induction false} BodyFrom(c: Context, backend: seq<Item>, polled: nat)
    requires polled < |backend|
    ensures Body(c, backend[polled..]) ==
            if backend[polled].Failure? then FailureLines(backend[polled].error)
            else
              var e := backend[polled].event;
              Lines(c, e) + if e.Completed? then [] else Body(c, backend[polled + 1..])
  {
    assert backend[polled..][1..] == backend[polled + 1..];
  }

  // ----- The server's state and loop

  class ChatStreamState {
    const context: Context
    var queue: seq<Line>
    var terminal: bool

    constructor (context: Context)
      ensures this.context == context && !terminal
      ensures queue == [Chunk(Role, context.includeUsage)]
    {
      this.context := context;
      queue, terminal := [], false;
      new;
      PushChunk(Role);
    }

    method PushChunk(delta: Delta)
      modifies `queue
      ensures queue == old(queue) + [Chunk(delta, context.includeUsage)]
    {
      queue := queue + [Chunk(delta, context.includeUsage)];
    }

    method Complete(usage: Option<Usage>, finish: Finish)
      modifies this
      ensures terminal && queue == old(queue) + ClosingLines(context, usage, finish)
    {
      PushChunk(Finished(finish));
      if context.includeUsage && usage.Some? {
        queue := queue + [UsageChunk(usage.value)];
      }
      queue := queue + [DoneMark];
      terminal := true;
    }

    method FailWith(error: string)
      modifies this
      ensures terminal && queue == old(queue) + FailureLines(error)
    {
      queue := queue + [Envelope(error)];
      queue := queue + [DoneMark];
      terminal := true;
    }

    method Consume(e: Event)
      modifies this
      ensures queue == old(queue) + Lines(context, e)
      ensures terminal == (old(terminal) || e.Completed?)
    {
      match e
      case ReasoningDelta(text) =>
        if context.includeReasoning {
          PushChunk(ReasoningContent(text));
        }
      case ReasoningCompleted(_) =>
      case TextDelta(text) => PushChunk(Content(text));
      case ToolCallDelta(i, id, name, arguments) => PushChunk(CallDelta(i, id, name, arguments));
      case Completed(usage, finish) => Complete(usage, finish);
    }

    /** One turn of the loop with an empty queue. */
    method Poll(backend: seq<Item>, polled: nat) returns (next: nat)
      requires queue == [] && !terminal && polled <= |backend|
      modifies this
      ensures polled <= next <= |backend| && (!terminal ==> next == polled + 1)
      ensures Body(context, backend[polled..]) == queue + if terminal then [] else Body(context, backend[next..])
    {
      if polled == |backend| {
        Fail(BACKEND_FAILURE);
        return polled;
      }
      BodyFrom(context, backend, polled);
      next := polled + 1;
      match backend[polled]
      case Failure(error) => Fail(error);
      case Produced(e) =>
        Units(Lines(context, e));
        Consume(e);
    }

    method Fail(error: string)
      requires queue == []
      modifies this
      ensures terminal && queue == FailureLines(error) && queue + [] == queue
    {
      FailWith(error);
      Units(FailureLines(error));
    }
  }

  method Serve(c: Context, backend: seq<Item>) returns (out: seq<Line>)
    ensures out == Transcript(c, backend)
  {
    var state := new ChatStreamState(c);
    out := [];
    var polled := 0;
    while true
      invariant 0 <= polled <= |backend| && fresh(state) && state.context == c
      invariant Transcript(c, backend) ==
                out + (state.queue + if state.terminal then [] else Body(c, backend[polled..]))
      decreases |backend| - polled, !state.terminal, |state.queue|
    {
      if state.queue != [] {
        HeadMoves(out, state.queue, if state.terminal then [] else Body(c, backend[polled..]));
        out := out + [state.queue[0]];
        state.queue := state.queue[1..];
        continue;
      }
      if state.terminal {
        assert out + ([] + []) == out;
        return;
      }
      ghost var owed := Body(c, backend[polled..]);
      assert state.queue + owed == owed;
      polled := state.Poll(backend, polled);
    }
  }

  lemma HeadMoves(out: seq<Line>, queue: seq<Line>, later: seq<Line>)
    requires queue != []
    ensures out + (queue + later) == (out + [queue[0]]) + (queue[1..] + later)
  {
  }

  // ----- Laws of every chunk stream

  predicate IsFinish(l: Line) {
    l.Chunk? && l.delta.Finished?
  }

  predicate EndsInOneDone(lines: seq<Line>) {
    && lines != [] && lines[|lines| - 1] == DoneMark
    && forall i :: 0 <= i < |lines| - 1 ==> lines[i] != DoneMark
  }

  /** The engine completed before any error or early end. */
  predicate Succeeds(items: seq<Item>) {
    items != [] && items[0].Produced? && (items[0].event.Completed? || Succeeds(items[1..]))
  }

  lemma {:induction false} BodyEnds(c: Context, items: seq<Item>)
    ensures EndsInOneDone(Body(c, items))
    ensures !Succeeds(items) ==> forall l :: l in Body(c, items) ==> !IsFinish(l)
    ensures Succeeds(items) ==> forall l :: l in Body(c, items) ==> !l.Envelope?
    ensures (exists l :: l in Body(c, items) && IsFinish(l)) <==> Succeeds(items)
  {
    if items != [] && items[0].Produced? {
      var e := items[0].event;
      if e.Completed? {
        assert Chunk(Finished(e.finish), c.includeUsage) in Body(c, items);
      } else {
        BodyEnds(c, items[1..]);
        assert forall l :: l in Lines(c, e) ==> l.Chunk? && !IsFinish(l);
        assert forall l :: l in Body(c, items[1..]) ==> l in Body(c, items);
      }
    }
  }

  lemma {:induction false} TranscriptLines(c: Context, items: seq<Item>, l: Line)
    ensures l in Transcript(c, items) <==> l == Chunk(Role, c.includeUsage) || l in Body(c, items)
  {
  }

  lemma {:induction false} FinishesExactly(c: Context, items: seq<Item>)
    ensures (exists l :: l in Transcript(c, items) && IsFinish(l)) <==> Succeeds(items)
  {
    BodyEnds(c, items);
    if Succeeds(items) {
      var l :| l in Body(c, items) && IsFinish(l);
      TranscriptLines(c, items, l);
    } else {
      forall l | l in Transcript(c, items)
        ensures !IsFinish(l)
      {
        TranscriptLines(c, items, l);
      }
    }
  }

  lemma {:induction false} ReportsExactly(c: Context, items: seq<Item>)
    ensures (exists l :: l in Transcript(c, items) && l.Envelope?) <==> !Succeeds(items)
  {
    BodyEnds(c, items);
    if Succeeds(items) {
      forall l | l in Transcript(c, items)
        ensures !l.Envelope?
      {
        TranscriptLines(c, items, l);
      }
    } else {
      var error := FailureReported(c, items);
    }
  }

  /** Every stream ends in exactly one `[DONE]`; a finish reason appears exactly on the streams the
      engine completed, and those carry no error. */
  lemma {:induction false} DoneOnceFinishOnSuccessOnly(c: Context, items: seq<Item>)
    ensures EndsInOneDone(Transcript(c, items))
    ensures (exists l :: l in Transcript(c, items) && IsFinish(l)) <==> Succeeds(items)
    ensures (exists l :: l in Transcript(c, items) && l.Envelope?) <==> !Succeeds(items)
  {
    BodyEnds(c, items);
    FinishesExactly(c, items);
    ReportsExactly(c, items);
  }

  lemma {:induction false} FailureReported(c: Context, items: seq<Item>) returns (error: string)
    requires !Succeeds(items)
    ensures Envelope(error) in Body(c, items)
  {
    if items == [] {
      error := BACKEND_FAILURE;
    } else if items[0].Failure? {
      error := items[0].error;
    } else {
      error := FailureReported(c, items[1..]);
    }
  }

  // ----- What a client rebuilds

  /** A client's fold: append content, append arguments, keep the last id and name given. */
  datatype Rebuilt = Rebuilt(text: string, callId: string, name: string, arguments: string)

  function Fold(r: Rebuilt, l: Line, i: u32): Rebuilt {
    if !l.Chunk? then r
    else
      match l.delta
      case Content(text) => r.(text := r.text + text)
      case CallDelta(index, id, name, arguments) =>
        if index != i then r
        else r.(callId := if id.Some? then id.value else r.callId,
                name := if name.Some? then name.value else r.name,
                arguments := r.arguments + arguments)
      case _ => r
  }

  function FoldAll(r: Rebuilt, lines: seq<Line>, i: u32): Rebuilt
    decreases lines
  {
    if lines == [] then r else FoldAll(Fold(r, lines[0], i), lines[1..], i)
  }

  lemma {:induction false} FoldConcat(r: Rebuilt, a: seq<Line>, b: seq<Line>, i: u32)
    ensures FoldAll(r, a + b, i) == FoldAll(FoldAll(r, a, i), b, i)
    decreases a
  {
    if a == [] {
      assert a + b == b;
    } else {
      assert (a + b)[1..] == a[1..] + b;
      FoldConcat(Fold(r, a[0], i), a[1..], b, i);
    }
  }

  function Summary(h: seq<Event>, i: u32): Rebuilt {
    Rebuilt(Responses.TextOf(h), Responses.CallIdOf(h, i), Responses.NameOf(h, i), Responses.ArgumentsOf(h, i))
  }

  lemma {:induction false} FoldOne(c: Context, h: seq<Event>, e: Event, i: u32)
    requires !e.Completed?
    ensures FoldAll(Summary(h, i), Lines(c, e), i) == Summary(h + [e], i)
  {
    assert (h + [e])[..|h|] == h;
    var lines := Lines(c, e);
    if lines != [] {
      assert lines[1..] == [];
      assert FoldAll(Summary(h, i), lines, i) == FoldAll(Fold(Summary(h, i), lines[0], i), [], i);
    }
  }

  lemma {:induction false} FoldNeutral(r: Rebuilt, lines: seq<Line>, i: u32)
    requires forall l :: l in lines ==> !l.Chunk? || l.delta.Finished?
    ensures FoldAll(r, lines, i) == r
    decreases lines
  {
    if lines != [] {
      assert lines[0] in lines;
      FoldNeutral(r, lines[1..], i);
    }
  }

  lemma {:induction false} BodyRebuilds(c: Context, h: seq<Event>, items: seq<Item>, i: u32)
    ensures FoldAll(Summary(h, i), Body(c, items), i) == Summary(h + Responses.Consumed(items), i)
    decreases items
  {
    if items == [] || Ends(items[0]) {
      assert h + Responses.Consumed(items) == h;
      FoldNeutral(Summary(h, i), Body(c, items), i);
    } else {
      var e := items[0].event;
      assert h + [e] + Responses.Consumed(items[1..]) == h + Responses.Consumed(items);
      FoldOne(c, h, e, i);
      FoldConcat(Summary(h, i), Lines(c, e), Body(c, items[1..]), i);
      BodyRebuilds(c, h + [e], items[1..], i);
    }
  }

  /** Folding the chunks by tool index rebuilds exactly the text and the calls the engine produced. */
  lemma {:induction false} ChunksRebuildTheRun(c: Context, items: seq<Item>, i: u32)
    ensures FoldAll(Rebuilt("", "", "", ""), Transcript(c, items), i) == Summary(Responses.Consumed(items), i)
  {
    var start := Rebuilt("", "", "", "");
    assert [] + Responses.Consumed(items) == Responses.Consumed(items);
    BodyRebuilds(c, [], items, i);
    FoldConcat(start, [Chunk(Role, c.includeUsage)], Body(c, items), i);
    assert FoldAll(start, [Chunk(Role, c.includeUsage)], i) == FoldAll(start, [], i);
  }

  // ----- Reasoning

  predicate IsReasoningLine(l: Line) {
    l.Chunk? && l.delta.ReasoningContent?
  }

  function DropReasoning(lines: seq<Line>): seq<Line> {
    if lines == [] then []
    else (if IsReasoningLine(lines[0]) then [] else [lines[0]]) + DropReasoning(lines[1..])
  }

  lemma {:induction false} DropConcat(a: seq<Line>, b: seq<Line>)
    ensures DropReasoning(a + b) == DropReasoning(a) + DropReasoning(b)
    decreases a
  {
    if a == [] {
      assert a + b == b;
    } else {
      assert (a + b)[1..] == a[1..] + b;
      DropConcat(a[1..], b);
    }
  }

  lemma {:induction false} DropNothing(lines: seq<Line>)
    requires forall l :: l in lines ==> !IsReasoningLine(l)
    ensures DropReasoning(lines) == lines
  {
    if lines != [] {
      assert lines[0] in lines;
      DropNothing(lines[1..]);
    }
  }

  lemma {:induction false} BodyDrops(c: Context, d: Context, items: seq<Item>)
    requires c.includeUsage == d.includeUsage
    ensures DropReasoning(Body(c, items)) == Body(d, WithoutReasoning(items))
  {
    if items == [] || Ends(items[0]) {
      DropNothing(Body(c, items));
    } else {
      var e := items[0].event;
      BodyDrops(c, d, items[1..]);
      DropConcat(Lines(c, e), Body(c, items[1..]));
      if IsReasoning(items[0]) {
        assert Lines(c, e) != [] ==> Lines(c, e)[1..] == [];
        assert DropReasoning(Lines(c, e)) == [];
      } else {
        DropNothing(Lines(c, e));
        var w := WithoutReasoning(items);
        assert w[0] == items[0] && w[1..] == WithoutReasoning(items[1..]);
      }
    }
  }

  /** Opting in to reasoning only adds reasoning chunks: with them removed, every stream equals the one
      for the engine stream without its reasoning events, whatever either client asked for. */
  lemma ReasoningOnlyAddsReasoningChunks(c: Context, d: Context, items: seq<Item>)
    requires c.includeUsage == d.includeUsage
    ensures DropReasoning(Transcript(c, items)) == Transcript(d, WithoutReasoning(items))
  {
    BodyDrops(c, d, items);
    DropConcat([Chunk(Role, c.includeUsage)], Body(c, items));
    DropNothing([Chunk(Role, c.includeUsage)]);
  }

  lemma {:induction false} DefaultBodySame(c: Context, items: seq<Item>)
    requires !c.includeReasoning
    ensures Body(c, WithoutReasoning(items)) == Body(c, items)
  {
    if items != [] && !Ends(items[0]) {
      DefaultBodySame(c, items[1..]);
      if !IsReasoning(items[0]) {
        var w := WithoutReasoning(items);
        assert w[0] == items[0] && w[1..] == WithoutReasoning(items[1..]);
      }
    }
  }

  /** By default, reasoning leaves no trace in the stream. */
  lemma DefaultStreamHidesReasoning(c: Context, items: seq<Item>)
    requires !c.includeReasoning
    ensures Transcript(c, WithoutReasoning(items)) == Transcript(c, items)
  {
    DefaultBodySame(c, items);
  }
}
