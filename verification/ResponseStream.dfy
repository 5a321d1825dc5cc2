/** The stream state the server keeps for one streaming Responses request. Its methods update the
    queue, the accumulated text and calls, and the counters, as the engine is polled; each is proved
    to emit exactly what `Responses` says for the history consumed so far. */
module ResponseStream {
  import opened Wrappers
  import opened Engine
  import opened Responses

  datatype StreamToolCall =
    StreamToolCall(
      outputIndex: Option<u32>, itemId: ItemId, callId: string, name: string, arguments: string, added: bool)

  const DEFAULT_CALL := StreamToolCall(None, MessageId, "", "", "", false)

  /** The stored state of call `i` after history `h`. */
  ghost function TrackedCall(h: seq<Event>, i: u32): StreamToolCall {
    StreamToolCall(Some(OutputIndex(h, ToolKey(i))), CallId(i), CallIdOf(h, i), NameOf(h, i), ArgumentsOf(h, i),
                   Announced(h, i))
  }

  /** A call seen in the history is stored as the history leaves it. */
  ghost predicate Tracks(h: seq<Event>, calls: map<u32, StreamToolCall>, i: u32) {
    ToolKey(i) in FirstSeen(h) ==> i in calls && calls[i] == TrackedCall(h, i)
  }

  lemma OthersTracked(
    h: seq<Event>, calls: map<u32, StreamToolCall>, after: map<u32, StreamToolCall>, index: u32, call: StreamToolCall)
    requires after == calls[index := call] && forall i: u32 :: Tracks(h, calls, i)
    ensures forall i: u32 :: i != index ==> Tracks(h, after, i)
  {
    forall i: u32 | i != index
      ensures Tracks(h, after, i)
    {
      assert Tracks(h, calls, i);
    }
  }

  /** The payloads one delta of a call is answered with. */
  ghost function CallEvents(call: StreamToolCall, shouldAdd: bool, argumentsDelta: string): seq<Payload>
    requires call.outputIndex.Some?
  {
    (if shouldAdd then [CallAdded(call.itemId, call.outputIndex.value, call.callId, call.name)] else [])
    + (if argumentsDelta != "" then [ArgumentsDelta(call.itemId, call.outputIndex.value, argumentsDelta)] else [])
  }

  ghost function CallClosing(h: seq<Event>, i: u32): seq<Payload> {
    [ArgumentsDone(CallId(i), OutputIndex(h, ToolKey(i)), ArgumentsOf(h, i)),
     ItemDone(OutputIndex(h, ToolKey(i)), CallOf(h, i, i))]
  }

  /** The engine's fields overwrite; its arguments append. */
  method MergeFields(before: StreamToolCall, id: Option<string>, name: Option<string>, argumentsDelta: string)
    returns (call: StreamToolCall)
    ensures call.outputIndex == before.outputIndex && call.itemId == before.itemId && call.added == before.added
    ensures call.callId == if id.Some? then id.value else before.callId
    ensures call.name == if name.Some? then name.value else before.name
    ensures call.arguments == before.arguments + argumentsDelta
  {
    call := before;
    if id.Some? {
      call := call.(callId := id.value);
    }
    if name.Some? {
      call := call.(name := name.value);
    }
    call := call.(arguments := call.arguments + argumentsDelta);
  }

  class PublicStreamState {
    var queue: seq<Sse>
    var text: string
    var textOutputIndex: Option<u32>
    /** An ordered map: its entries, and its keys in ascending order. */
    var toolCalls: map<u32, StreamToolCall>
    var toolKeys: seq<u32>
    var nextOutputIndex: u32
    var sequence: int
    var terminal: bool
    /** The events consumed, and all payloads pushed since the start. */
    ghost var history: seq<Event>
    ghost var pushed: seq<Payload>

    ghost predicate CallTracked(i: u32)
      reads `history, `toolCalls
    {
      Tracks(history, toolCalls, i)
    }

    /** Every field is a summary of the history. */
    ghost predicate Valid()
      reads `text, `textOutputIndex, `nextOutputIndex, `toolKeys, `toolCalls, `sequence, `history, `pushed
    {
      && text == TextOf(history)
      && textOutputIndex == (if TextKey in FirstSeen(history) then Some(OutputIndex(history, TextKey)) else None)
      && nextOutputIndex == Slot(|FirstSeen(history)|)
      && toolKeys == CallNumbers(history)
      && (forall i: u32 :: i in toolCalls ==> ToolKey(i) in FirstSeen(history))
      && (forall i: u32 :: CallTracked(i))
      && sequence == Saturated(|pushed|)
    }

    constructor ()
      ensures Valid() && history == [] && !terminal
      ensures pushed == [Created, InProgress] && queue == Number(pushed, 0)
    {
      queue, text, textOutputIndex := [], "", None;
      toolCalls, toolKeys := map[], [];
      nextOutputIndex, sequence, terminal := 0, 0, false;
      history, pushed := [], [];
      new;
      PushEvent(Created);
      PushEvent(InProgress);
      assert queue == Number(pushed, 0);
    }

    method PushEvent(payload: Payload)
      requires sequence == Saturated(|pushed|)
      modifies `queue, `sequence, `pushed
      ensures pushed == old(pushed) + [payload]
      ensures queue == old(queue) + Number([payload], |old(pushed)|)
      ensures sequence == Saturated(|pushed|)
    {
      queue := queue + [Sse(payload, sequence)];
      sequence := if sequence < MAX_U64 then sequence + 1 else MAX_U64;
      pushed := pushed + [payload];
    }

    /** Starts the message item on the first text delta. */
    method EnsureTextStarted(ghost h: seq<Event>) returns (outputIndex: u32)
      requires sequence == Saturated(|pushed|)
      requires textOutputIndex == (if TextKey in FirstSeen(h) then Some(OutputIndex(h, TextKey)) else None)
      requires nextOutputIndex == Slot(|FirstSeen(h)|)
      modifies `queue, `sequence, `pushed, `textOutputIndex, `nextOutputIndex
      ensures textOutputIndex == Some(outputIndex)
      ensures TextKey in FirstSeen(h) ==>
                outputIndex == OutputIndex(h, TextKey) && nextOutputIndex == old(nextOutputIndex)
      ensures TextKey !in FirstSeen(h) ==>
                outputIndex == Slot(|FirstSeen(h)|) && nextOutputIndex == Slot(|FirstSeen(h)| + 1)
      ensures var opening := if TextKey in FirstSeen(h) then []
                             else [MessageAdded(MessageId, outputIndex), PartAdded(MessageId, outputIndex)];
              pushed == old(pushed) + opening && queue == old(queue) + Number(opening, |old(pushed)|)
      ensures sequence == Saturated(|pushed|)
    {
      if textOutputIndex.Some? {
        return textOutputIndex.value;
      }
      outputIndex := nextOutputIndex;
      nextOutputIndex := if nextOutputIndex < MAX_U32 then nextOutputIndex + 1 else MAX_U32;
      textOutputIndex := Some(outputIndex);
      PushEvent(MessageAdded(MessageId, outputIndex));
      PushEvent(PartAdded(MessageId, outputIndex));
    }

    method PushText(delta: string)
      requires Valid()
      modifies this
      ensures Valid() && terminal == old(terminal)
      ensures history == old(history) + [TextDelta(delta)]
      ensures Emitted(old(pushed), old(queue), pushed, queue, Step(old(history), TextDelta(delta)))
    {
      EmitText(delta);
      RecordText(delta);
    }

    /** Starts the item if need be, accumulates and emits one delta. */
    method EmitText(delta: string)
      requires Valid()
      modifies `queue, `sequence, `pushed, `text, `textOutputIndex, `nextOutputIndex
      ensures var g := history + [TextDelta(delta)];
              && text == TextOf(g) && nextOutputIndex == Slot(|FirstSeen(g)|)
              && textOutputIndex == (if TextKey in FirstSeen(g) then Some(OutputIndex(g, TextKey)) else None)
      ensures Emitted(old(pushed), old(queue), pushed, queue, Step(history, TextDelta(delta)))
      ensures sequence == Saturated(|pushed|)
    {
      AppendText(history, delta);
      var outputIndex := EnsureTextStarted(history);
      text := text + delta;
      PushEvent(OutputTextDelta(MessageId, outputIndex, delta));
    }

    /** With the text accumulated, the fields summarise the history that includes the delta. */
    ghost method RecordText(delta: string)
      requires var g := history + [TextDelta(delta)];
               && text == TextOf(g) && nextOutputIndex == Slot(|FirstSeen(g)|)
               && textOutputIndex == (if TextKey in FirstSeen(g) then Some(OutputIndex(g, TextKey)) else None)
      requires toolKeys == CallNumbers(history) && (forall i: u32 :: CallTracked(i))
      requires (forall i: u32 :: i in toolCalls ==> ToolKey(i) in FirstSeen(history)) && sequence == Saturated(|pushed|)
      modifies `history
      ensures Valid() && history == old(history) + [TextDelta(delta)]
    {
      ghost var h := history;
      history := history + [Event.TextDelta(delta)];
      AppendText(h, delta);
      forall i: u32
        ensures CallTracked(i) && (i in toolCalls ==> ToolKey(i) in FirstSeen(history))
      {
        TextLeavesCalls(h, delta, i);
        assert old(CallTracked(i));
      }
    }

    /** The call as it stands after one delta; a new call takes the next output index. */
    method NextCall(index: u32, id: Option<string>, name: Option<string>, argumentsDelta: string)
      returns (call: StreamToolCall, shouldAdd: bool)
      requires CallTracked(index) && (index in toolCalls ==> ToolKey(index) in FirstSeen(history))
      requires nextOutputIndex == Slot(|FirstSeen(history)|)
      modifies `nextOutputIndex
      ensures var (h, g) := (history, history + [ToolCallDelta(index, id, name, argumentsDelta)]);
              && call == TrackedCall(g, index) && nextOutputIndex == Slot(|FirstSeen(g)|)
              && (shouldAdd <==> Announced(g, index) && !Announced(h, index))
    {
      CallSummary(history, Event.ToolCallDelta(index, id, name, argumentsDelta));
      call := if index in toolCalls then toolCalls[index] else DEFAULT_CALL;
      call := MergeFields(call, id, name, argumentsDelta);
      if call.outputIndex.None? {
        call := call.(outputIndex := Some(nextOutputIndex));
        nextOutputIndex := if nextOutputIndex < MAX_U32 then nextOutputIndex + 1 else MAX_U32;
        call := call.(itemId := CallId(index));
      }
      shouldAdd := !call.added && call.callId != "" && call.name != "";
      if shouldAdd {
        call := call.(added := true);
      }
    }

    /** Merges one delta into the call it names, creating the call on its first delta. */
    method UpdateCall(index: u32, id: Option<string>, name: Option<string>, argumentsDelta: string)
      returns (call: StreamToolCall, shouldAdd: bool)
      requires Valid()
      modifies `toolCalls, `toolKeys, `nextOutputIndex
      ensures var (h, g) := (history, history + [ToolCallDelta(index, id, name, argumentsDelta)]);
              && call == TrackedCall(g, index)
              && (shouldAdd <==> Announced(g, index) && !Announced(h, index))
      ensures Merged(ToolCallDelta(index, id, name, argumentsDelta))
    {
      ghost var h, e := history, Event.ToolCallDelta(index, id, name, argumentsDelta);
      AllTracked();
      call, shouldAdd := NextCall(index, id, name, argumentsDelta);
      CallSummary(h, e);
      ghost var before := toolCalls;
      toolCalls := toolCalls[index := call];
      OthersTracked(h, before, toolCalls, index, call);
      toolKeys := Insert(toolKeys, index);
    }

    lemma AllTracked()
      requires Valid()
      ensures forall i: u32 :: Tracks(history, toolCalls, i)
    {
      forall i: u32
        ensures Tracks(history, toolCalls, i)
      {
        assert CallTracked(i);
      }
    }

    method EmitToolDelta(call: StreamToolCall, shouldAdd: bool, argumentsDelta: string)
      requires sequence == Saturated(|pushed|) && call.outputIndex.Some?
      modifies `queue, `sequence, `pushed
      ensures Emitted(old(pushed), old(queue), pushed, queue, CallEvents(call, shouldAdd, argumentsDelta))
      ensures sequence == Saturated(|pushed|)
    {
      if shouldAdd {
        PushEvent(CallAdded(call.itemId, call.outputIndex.value, call.callId, call.name));
      }
      if argumentsDelta != "" {
        PushEvent(ArgumentsDelta(call.itemId, call.outputIndex.value, argumentsDelta));
      }
    }

    method PushToolDelta(index: u32, id: Option<string>, name: Option<string>, argumentsDelta: string)
      requires Valid()
      modifies this
      ensures Valid() && terminal == old(terminal)
      ensures history == old(history) + [ToolCallDelta(index, id, name, argumentsDelta)]
      ensures Emitted(old(pushed), old(queue), pushed, queue,
                      Step(old(history), ToolCallDelta(index, id, name, argumentsDelta)))
    {
      ghost var h, e := history, Event.ToolCallDelta(index, id, name, argumentsDelta);
      var call, shouldAdd := UpdateCall(index, id, name, argumentsDelta);
      EmitToolDelta(call, shouldAdd, argumentsDelta);
      RecordToolDelta(e);
    }

    /** The fields already account for the delta `e`, the history does not yet. */
    ghost predicate Merged(e: Event)
      requires e.ToolCallDelta?
      reads `text, `textOutputIndex, `nextOutputIndex, `toolKeys, `toolCalls, `history
    {
      var g := history + [e];
      && text == TextOf(history) && toolKeys == CallNumbers(g) && nextOutputIndex == Slot(|FirstSeen(g)|)
      && textOutputIndex == (if TextKey in FirstSeen(history) then Some(OutputIndex(history, TextKey)) else None)
      && e.index in toolCalls && toolCalls[e.index] == TrackedCall(g, e.index)
      && (forall i: u32 :: i in toolCalls && i != e.index ==> ToolKey(i) in FirstSeen(history))
      && (forall i: u32 :: i != e.index ==> CallTracked(i))
    }

    /** With the call merged, the fields summarise the history that includes the delta. */
    ghost method RecordToolDelta(e: Event)
      requires e.ToolCallDelta?
      requires Merged(e) && sequence == Saturated(|pushed|)
      modifies `history
      ensures Valid() && history == old(history) + [e]
    {
      ghost var h := history;
      history := history + [e];
      CallSummary(h, e);
      KeyAppears(h, e);
      forall i: u32
        ensures CallTracked(i) && (i in toolCalls ==> ToolKey(i) in FirstSeen(history))
      {
        if i != e.index {
          assert old(CallTracked(i));
          OtherCallUnchanged(h, e, i);
        }
      }
    }

    method CompleteText(status: Status)
      requires Valid()
      modifies `queue, `sequence, `pushed
      ensures Valid() && Emitted(old(pushed), old(queue), pushed, queue, MessageDone(history, status))
    {
      if textOutputIndex.Some? {
        var outputIndex := textOutputIndex.value;
        PushEvent(TextDone(MessageId, outputIndex, text));
        PushEvent(PartDone(MessageId, outputIndex, text));
        PushEvent(ItemDone(outputIndex, Message(MessageId, status, text)));
      }
    }

    method CompleteCall(n: nat)
      requires Valid() && n < |toolKeys|
      modifies `queue, `sequence, `pushed
      ensures Valid()
      ensures Emitted(old(pushed), old(queue), pushed, queue, CallClosing(history, toolKeys[n]))
    {
      var index := toolKeys[n];
      CallNumbersSeen(history, index);
      assert CallTracked(index);
      var call := toolCalls[index];
      PushEvent(ArgumentsDone(call.itemId, call.outputIndex.value, call.arguments));
      PushEvent(ItemDone(call.outputIndex.value, FunctionCall(CallId(index), call.callId, call.name, call.arguments)));
    }

    method CompleteCalls()
      requires Valid()
      modifies `queue, `sequence, `pushed
      ensures Valid()
      ensures Emitted(old(pushed), old(queue), pushed, queue, CallsDone(history, |toolKeys|))
    {
      ghost var before, queued := pushed, queue;
      for n := 0 to |toolKeys|
        invariant Valid() && Emitted(before, queued, pushed, queue, CallsDone(history, n))
      {
        ghost var pushedHere, queuedHere := pushed, queue;
        CompleteCall(n);
        EmittedTwice(before, queued, pushedHere, queuedHere, pushed, queue, CallsDone(history, n),
                     CallClosing(history, toolKeys[n]));
      }
    }

    /** `response_document`'s output list, built from the state. */
    method ResponseOutput(status: Status) returns (output: seq<OutItem>)
      requires Valid()
      ensures output == Document(history, status)
    {
      output := if text != "" || toolKeys == [] then [Message(MessageId, status, text)] else [];
      output := AppendCalls(output);
    }

    method AppendCalls(opening: seq<OutItem>) returns (output: seq<OutItem>)
      requires Valid()
      ensures output == opening + DocumentCalls(history)
    {
      output := opening;
      ghost var calls := DocumentCalls(history);
      for n := 0 to |toolKeys|
        invariant output == opening + calls[..n]
      {
        var call := StoredCall(n);
        output := output + [FunctionCall(CallId(n), call.callId, call.name, call.arguments)];
        assert calls[..n + 1] == calls[..n] + [calls[n]];
      }
      assert calls[..|toolKeys|] == calls;
    }

    /** The stored call behind the `n`-th key of the ordered map. */
    method StoredCall(n: nat) returns (call: StreamToolCall)
      requires Valid() && n < |toolKeys|
      ensures call == TrackedCall(history, toolKeys[n])
    {
      CallNumbersSeen(history, toolKeys[n]);
      assert CallTracked(toolKeys[n]);
      call := toolCalls[toolKeys[n]];
    }

    method Complete(usage: Option<Usage>, finish: Finish)
      requires Valid()
      modifies `queue, `sequence, `pushed, `terminal
      ensures terminal
      ensures Emitted(old(pushed), old(queue), pushed, queue, Closing(history, usage, finish))
    {
      var status := StatusOf(finish);
      ghost var p0, q0 := pushed, queue;
      CompleteText(status);
      ghost var p1, q1 := pushed, queue;
      CompleteCalls();
      ghost var p2, q2 := pushed, queue;
      var output := ResponseOutput(status);
      PushEvent(Terminal(status, output, usage, None));
      EmittedTwice(p0, q0, p1, q1, p2, q2, MessageDone(history, status), CallsDone(history, |toolKeys|));
      EmittedTwice(p0, q0, p2, q2, pushed, queue, MessageDone(history, status) + CallsDone(history, |toolKeys|),
                   [Terminal(status, Document(history, status), usage, None)]);
      terminal := true;
    }

    method FailWith(error: string)
      requires Valid()
      modifies `queue, `sequence, `pushed, `terminal
      ensures terminal
      ensures Emitted(old(pushed), old(queue), pushed, queue, [FailedEvent(error)])
    {
      PushEvent(Terminal(Failed, [], None, Some(error)));
      terminal := true;
    }

    /** Consumes one engine event. */
    method Consume(e: Event)
      requires Valid()
      modifies this
      ensures !e.Completed? ==> Valid() && terminal == old(terminal) && history == old(history) + [e]
      ensures e.Completed? ==> terminal && history == old(history)
      ensures Emitted(old(pushed), old(queue), pushed, queue,
                      if e.Completed? then Closing(old(history), e.usage, e.finish) else Step(old(history), e))
    {
      match e
      case TextDelta(delta) => PushText(delta);
      case ToolCallDelta(index, id, name, arguments) => PushToolDelta(index, id, name, arguments);
      case Completed(usage, finish) => Complete(usage, finish);
      case _ => SkipReasoning(e);
    }

    ghost method SkipReasoning(e: Event)
      requires Valid() && (e.ReasoningDelta? || e.ReasoningCompleted?)
      modifies `history
      ensures Valid() && history == old(history) + [e]
    {
      ghost var h := history;
      history := history + [e];
      AppendReasoning(h, e);
      forall i: u32
        ensures CallTracked(i)
      {
        assert old(CallTracked(i));
        ReasoningLeavesCalls(h, e, i);
      }
    }

    /** One turn of the server's loop with an empty queue: poll the engine and react. */
    method Poll(backend: seq<Item>, polled: nat) returns (next: nat, ghost step: seq<Payload>)
      requires Valid() && !terminal && polled <= |backend|
      modifies this
      ensures polled <= next <= |backend| && (!terminal ==> next == polled + 1 && Valid())
      ensures Emitted(old(pushed), old(queue), pushed, queue, step)
      ensures Body(old(history), backend[polled..]) ==
              step + (if terminal then [] else Body(history, backend[next..]))
    {
      if polled == |backend| {
        FailWith(EARLY_END);
        return polled, [FailedEvent(EARLY_END)];
      }
      assert backend[polled..][1..] == backend[polled + 1..];
      next := polled + 1;
      match backend[polled]
      case Failure(error) =>
        step := [FailedEvent(error)];
        FailWith(error);
      case Produced(e) =>
        step := if e.Completed? then Closing(history, e.usage, e.finish) else Step(history, e);
        Consume(e);
    }
  }

  /** The server's loop: drain the queue, stop after the terminal event, otherwise poll the engine. The
      sequence numbers leave no gap exactly when at most 2^64 events are sent. */
  method Serve(backend: seq<Item>) returns (out: seq<Sse>)
    ensures out == Number(Transcript(backend), 0)
    ensures GapFree(out) <==> |out| <= MAX_U64 + 1
  {
    GapFreeExactly(Transcript(backend));
    var state := new PublicStreamState();
    out := [];
    var polled := 0;
    while true
      invariant 0 <= polled <= |backend|
      invariant fresh(state)
      invariant out + state.queue == Number(state.pushed, 0)
      invariant state.terminal || state.Valid()
      invariant Transcript(backend) ==
                state.pushed + if state.terminal then [] else Body(state.history, backend[polled..])
      decreases |backend| - polled, !state.terminal, |state.queue|
    {
      if state.queue != [] {
        Dequeue(out, state.queue);
        out := out + [state.queue[0]];
        state.queue := state.queue[1..];
        continue;
      }
      if state.terminal {
        assert out + [] == out && state.pushed + [] == state.pushed;
        return;
      }
      ghost var pushed, queue, rest := state.pushed, state.queue, Body(state.history, backend[polled..]);
      ghost var step;
      polled, step := state.Poll(backend, polled);
      QueueFollows(out, pushed, queue, state.pushed, state.queue, step);
      TranscriptFollows(Transcript(backend), pushed, rest, step,
                        if state.terminal then [] else Body(state.history, backend[polled..]));
    }
  }

  lemma TranscriptFollows(
    all: seq<Payload>, pushed: seq<Payload>, rest: seq<Payload>, step: seq<Payload>, later: seq<Payload>)
    requires all == pushed + rest && rest == step + later
    ensures all == (pushed + step) + later
  {
  }

  lemma Dequeue(out: seq<Sse>, queue: seq<Sse>)
    requires queue != []
    ensures (out + [queue[0]]) + queue[1..] == out + queue
  {
  }

  function Saturated(n: nat): (s: int)
    ensures s == if n <= MAX_U64 then n else MAX_U64
  {
    if n <= MAX_U64 then n else MAX_U64
  }

  /** `more` was pushed: recorded, and queued under the numbers that follow. */
  ghost predicate Emitted(
    pushed: seq<Payload>, queue: seq<Sse>, pushed': seq<Payload>, queue': seq<Sse>, more: seq<Payload>)
  {
    pushed' == pushed + more && queue' == queue + Number(more, |pushed|)
  }

  lemma NumberConcat(a: seq<Payload>, b: seq<Payload>, from: nat)
    ensures Number(a + b, from) == Number(a, from) + Number(b, from + |a|)
  {
  }

  lemma EmittedTwice(p0: seq<Payload>, q0: seq<Sse>, p1: seq<Payload>, q1: seq<Sse>, p2: seq<Payload>, q2: seq<Sse>,
                     a: seq<Payload>, b: seq<Payload>)
    requires Emitted(p0, q0, p1, q1, a) && Emitted(p1, q1, p2, q2, b)
    ensures Emitted(p0, q0, p2, q2, a + b)
  {
    NumberConcat(a, b, |p0|);
  }

  lemma QueueFollows(out: seq<Sse>, p: seq<Payload>, q: seq<Sse>, p': seq<Payload>, q': seq<Sse>, more: seq<Payload>)
    requires out + q == Number(p, 0) && Emitted(p, q, p', q', more)
    ensures out + q' == Number(p', 0)
  {
    NumberConcat(p, more, 0);
  }

  // ----- How one event changes the summaries of a history

  lemma PositionAbsent(keys: seq<Key>, k: Key)
    requires k !in keys
    ensures Position(keys + [k], k) == |keys|
  {
    if keys == [] {
    } else {
      assert (keys + [k])[1..] == keys[1..] + [k];
      PositionAbsent(keys[1..], k);
    }
  }

  lemma {:induction false} NextIndex(h: seq<Event>, e: Event)
    requires KeyOf(e).Some?
    ensures var k := KeyOf(e).value;
            && (k in FirstSeen(h) ==>
                  FirstSeen(h + [e]) == FirstSeen(h) && OutputIndex(h + [e], k) == OutputIndex(h, k))
            && (k !in FirstSeen(h) ==>
                  FirstSeen(h + [e]) == FirstSeen(h) + [k] && OutputIndex(h + [e], k) == Slot(|FirstSeen(h)|))
  {
    assert (h + [e])[..|h|] == h;
    if KeyOf(e).value !in FirstSeen(h) {
      PositionAbsent(FirstSeen(h), KeyOf(e).value);
    }
  }

  lemma AppendText(h: seq<Event>, delta: string)
    ensures TextOf(h + [TextDelta(delta)]) == TextOf(h) + delta
    ensures CallNumbers(h + [TextDelta(delta)]) == CallNumbers(h)
    ensures var e := TextDelta(delta);
            && (TextKey in FirstSeen(h) ==>
                  && FirstSeen(h + [e]) == FirstSeen(h)
                  && OutputIndex(h + [e], TextKey) == OutputIndex(h, TextKey))
            && (TextKey !in FirstSeen(h) ==>
                  && FirstSeen(h + [e]) == FirstSeen(h) + [TextKey]
                  && OutputIndex(h + [e], TextKey) == Slot(|FirstSeen(h)|))
  {
    assert (h + [TextDelta(delta)])[..|h|] == h;
    NextIndex(h, TextDelta(delta));
  }

  lemma TextLeavesCalls(h: seq<Event>, delta: string, i: u32)
    ensures var g := h + [TextDelta(delta)];
            && (ToolKey(i) in FirstSeen(g) <==> ToolKey(i) in FirstSeen(h))
            && (ToolKey(i) in FirstSeen(h) ==> OutputIndex(g, ToolKey(i)) == OutputIndex(h, ToolKey(i)))
            && CallIdOf(g, i) == CallIdOf(h, i) && NameOf(g, i) == NameOf(h, i)
            && ArgumentsOf(g, i) == ArgumentsOf(h, i) && Announced(g, i) == Announced(h, i)
  {
    var e := TextDelta(delta);
    assert (h + [e])[..|h|] == h;
    if ToolKey(i) in FirstSeen(h) {
      IndexIsStable(h, [e], ToolKey(i));
    }
  }

  lemma {:induction false} UntouchedCall(h: seq<Event>, i: u32)
    requires ToolKey(i) !in FirstSeen(h)
    ensures CallIdOf(h, i) == "" && NameOf(h, i) == "" && ArgumentsOf(h, i) == "" && !Announced(h, i)
  {
    if h != [] {
      UntouchedCall(h[..|h| - 1], i);
    }
  }

  lemma {:induction false} CallSummary(h: seq<Event>, e: Event)
    requires e.ToolCallDelta?
    ensures var (g, i) := (h + [e], e.index);
            && CallIdOf(g, i) == (if e.id.Some? then e.id.value else CallIdOf(h, i))
            && NameOf(g, i) == (if e.name.Some? then e.name.value else NameOf(h, i))
            && ArgumentsOf(g, i) == ArgumentsOf(h, i) + e.arguments
            && (Announced(g, i) <==> Announced(h, i) || (CallIdOf(g, i) != "" && NameOf(g, i) != ""))
            && TextOf(g) == TextOf(h) && CallNumbers(g) == Insert(CallNumbers(h), i)
            && (ToolKey(i) in FirstSeen(h) ==>
                  FirstSeen(g) == FirstSeen(h) && OutputIndex(g, ToolKey(i)) == OutputIndex(h, ToolKey(i)))
            && (ToolKey(i) !in FirstSeen(h) ==>
                  && FirstSeen(g) == FirstSeen(h) + [ToolKey(i)] && OutputIndex(g, ToolKey(i)) == Slot(|FirstSeen(h)|)
                  && CallIdOf(h, i) == "" && NameOf(h, i) == "" && ArgumentsOf(h, i) == "" && !Announced(h, i))
            && (TextKey in FirstSeen(g) <==> TextKey in FirstSeen(h))
            && (TextKey in FirstSeen(h) ==> OutputIndex(g, TextKey) == OutputIndex(h, TextKey))
  {
    assert (h + [e])[..|h|] == h;
    NextIndex(h, e);
    if ToolKey(e.index) !in FirstSeen(h) {
      UntouchedCall(h, e.index);
    }
    if TextKey in FirstSeen(h) {
      IndexIsStable(h, [e], TextKey);
    }
  }

  lemma OtherCallUnchanged(h: seq<Event>, e: Event, i: u32)
    requires e.ToolCallDelta?
    ensures var g := h + [e];
            i != e.index ==>
              && (ToolKey(i) in FirstSeen(g) <==> ToolKey(i) in FirstSeen(h))
              && (ToolKey(i) in FirstSeen(h) ==> OutputIndex(g, ToolKey(i)) == OutputIndex(h, ToolKey(i)))
              && CallIdOf(g, i) == CallIdOf(h, i) && NameOf(g, i) == NameOf(h, i)
              && ArgumentsOf(g, i) == ArgumentsOf(h, i) && Announced(g, i) == Announced(h, i)
  {
    assert (h + [e])[..|h|] == h;
    if ToolKey(i) in FirstSeen(h) {
      IndexIsStable(h, [e], ToolKey(i));
    }
  }

  lemma AppendReasoning(h: seq<Event>, e: Event)
    requires e.ReasoningDelta? || e.ReasoningCompleted?
    ensures FirstSeen(h + [e]) == FirstSeen(h) && TextOf(h + [e]) == TextOf(h) && CallNumbers(h + [e]) == CallNumbers(h)
  {
    assert (h + [e])[..|h|] == h;
  }

  lemma {:induction false} ReasoningLeavesCalls(h: seq<Event>, e: Event, i: u32)
    requires e.ReasoningDelta? || e.ReasoningCompleted?
    ensures CallIdOf(h + [e], i) == CallIdOf(h, i) && NameOf(h + [e], i) == NameOf(h, i)
    ensures ArgumentsOf(h + [e], i) == ArgumentsOf(h, i) && Announced(h + [e], i) == Announced(h, i)
  {
    assert (h + [e])[..|h|] == h;
  }
}
