/** Streaming raw completions: a step function over (engine stream, done, ended). */
module Completions {
  import opened Wrappers
  import opened Engine
  import opened Sequences

  datatype Reason = StopReason | LengthReason

  datatype Line =
    | TextLine(text: string, nullUsage: bool)
    | FinishLine(reason: Reason, nullUsage: bool)
    | UsageLine(usage: Usage)
    | ErrorLine
    | DoneMark

  function ReasonOf(finish: Finish): Reason {
    if finish == MaxOutputTokens then LengthReason else StopReason
  }

  /** What the stream still owes for the engine items left. A tool delta, a `ToolCalls` finish, an
      engine error and an early end all become the same error. */
  function Transcript(includeUsage: bool, items: seq<Item>): seq<Line> {
    if items == [] then [ErrorLine, DoneMark]
    else if IsReasoning(items[0]) then Transcript(includeUsage, items[1..])
    else
      match items[0]
      case Produced(TextDelta(text)) => [TextLine(text, includeUsage)] + Transcript(includeUsage, items[1..])
      case Produced(Completed(usage, finish)) =>
        if finish == ToolCalls then [ErrorLine, DoneMark]
        else
          [FinishLine(ReasonOf(finish), includeUsage)]
          + (if includeUsage && usage.Some? then [UsageLine(usage.value)] else [])
          + [DoneMark]
      case _ => [ErrorLine, DoneMark]
  }

  method SkipReasoning(includeUsage: bool, backend: seq<Item>, from: nat) returns (polled: nat)
    requires from <= |backend|
    ensures from <= polled <= |backend| && (polled < |backend| ==> !IsReasoning(backend[polled]))
    ensures Transcript(includeUsage, backend[polled..]) == Transcript(includeUsage, backend[from..])
  {
    polled := from;
    while polled < |backend| && IsReasoning(backend[polled])
      invariant from <= polled <= |backend|
      invariant Transcript(includeUsage, backend[polled..]) == Transcript(includeUsage, backend[from..])
    {
      assert backend[polled..][1..] == backend[polled + 1..];
      polled := polled + 1;
    }
  }

  /** One poll of the stream while it is not done: the data it yields, and whether it is then done. */
  method Next(includeUsage: bool, backend: seq<Item>, from: nat) returns (data: seq<Line>, done: bool, polled: nat)
    requires from <= |backend|
    ensures from <= polled <= |backend| && (!done ==> from < polled)
    ensures Transcript(includeUsage, backend[from..]) ==
            data + if done then [DoneMark] else Transcript(includeUsage, backend[polled..])
  {
    polled := SkipReasoning(includeUsage, backend, from);
    if polled == |backend| {
      return [ErrorLine], true, polled;
    }
    var item := backend[polled];
    assert backend[polled..][1..] == backend[polled + 1..];
    polled := polled + 1;
    match item
    case Produced(TextDelta(text)) =>
      data, done := [TextLine(text, includeUsage)], false;
    case Produced(Completed(usage, finish)) =>
      done := true;
      if finish != ToolCalls {
        data := [FinishLine(ReasonOf(finish), includeUsage)];
        if includeUsage && usage.Some? {
          data := data + [UsageLine(usage.value)];
        }
      } else {
        data := [ErrorLine];
      }
    case _ =>
      data, done := [ErrorLine], true;
  }

  method Serve(includeUsage: bool, backend: seq<Item>) returns (out: seq<Line>)
    ensures out == Transcript(includeUsage, backend)
  {
    out := [];
    var polled, done, ended := 0, false, false;
    while !ended
      invariant 0 <= polled <= |backend|
      invariant ended ==> done
      invariant Transcript(includeUsage, backend) == out + Owed(includeUsage, backend, polled, done, ended)
      decreases |backend| - polled, !done, !ended
    {
      if done {
        out := out + [DoneMark];
        ended := true;
        continue;
      }
      var data;
      data, done, polled := Next(includeUsage, backend, polled);
      Associates(out, data, Owed(includeUsage, backend, polled, done, ended));
      out := out + data;
    }
  }

  /** What a stream in state (polled, done, ended) still has to say. */
  ghost function Owed(includeUsage: bool, backend: seq<Item>, polled: nat, done: bool, ended: bool): seq<Line>
    requires polled <= |backend|
  {
    if ended then [] else if done then [DoneMark] else Transcript(includeUsage, backend[polled..])
  }

  /** The engine completed, with a finish reason a raw completion can have, before anything else than
      text and reasoning. */
  predicate Succeeds(items: seq<Item>) {
    && items != [] && items[0].Produced?
    && match items[0].event
       case Completed(_, finish) => finish != ToolCalls
       case ToolCallDelta(_, _, _, _) => false
       case _ => Succeeds(items[1..])
  }

  predicate EndsInOneDone(lines: seq<Line>) {
    && lines != [] && lines[|lines| - 1] == DoneMark
    && forall i :: 0 <= i < |lines| - 1 ==> lines[i] != DoneMark
  }

  /** Every stream ends in exactly one `[DONE]`, and says exactly one of a finish reason and an error. */
  lemma {:induction false} DoneOnceFinishOnSuccessOnly(includeUsage: bool, items: seq<Item>)
    ensures EndsInOneDone(Transcript(includeUsage, items))
    ensures (exists l :: l in Transcript(includeUsage, items) && l.FinishLine?) <==> Succeeds(items)
    ensures ErrorLine in Transcript(includeUsage, items) <==> !Succeeds(items)
  {
    var lines := Transcript(includeUsage, items);
    if items != [] && items[0].Produced? && !Ends(items[0]) && !items[0].event.ToolCallDelta? {
      DoneOnceFinishOnSuccessOnly(includeUsage, items[1..]);
      var rest := Transcript(includeUsage, items[1..]);
      assert forall l :: l in rest ==> l in lines;
      assert forall l :: l in lines ==> l.TextLine? || l in rest;
    } else if Succeeds(items) {
      assert lines[0].FinishLine? && lines[0] in lines;
    } else {
      assert lines == [ErrorLine, DoneMark];
    }
  }

  function TextIn(lines: seq<Line>): string {
    if lines == [] then "" else (if lines[0].TextLine? then lines[0].text else "") + TextIn(lines[1..])
  }

  /** The text of the engine's deltas up to the first item this stream cannot carry. */
  function EngineText(items: seq<Item>): string {
    if items == [] || Ends(items[0]) || items[0].event.ToolCallDelta? then ""
    else (if items[0].event.TextDelta? then items[0].event.delta else "") + EngineText(items[1..])
  }

  lemma {:induction false} NoText(lines: seq<Line>)
    requires forall l :: l in lines ==> !l.TextLine?
    ensures TextIn(lines) == ""
  {
    if lines != [] {
      assert lines[0] in lines;
      NoText(lines[1..]);
    }
  }

  /** Concatenating the streamed deltas gives back the engine's text. */
  lemma {:induction false} DeltasRebuildTheText(includeUsage: bool, items: seq<Item>)
    ensures TextIn(Transcript(includeUsage, items)) == EngineText(items)
  {
    if items == [] || Ends(items[0]) || items[0].event.ToolCallDelta? {
      NoText(Transcript(includeUsage, items));
    } else if items[0].event.TextDelta? {
      DeltasRebuildTheText(includeUsage, items[1..]);
      TextFirst(items[0].event.delta, includeUsage, Transcript(includeUsage, items[1..]));
    } else {
      DeltasRebuildTheText(includeUsage, items[1..]);
    }
  }

  lemma TextFirst(text: string, includeUsage: bool, rest: seq<Line>)
    ensures TextIn([TextLine(text, includeUsage)] + rest) == text + TextIn(rest)
  {
    assert ([TextLine(text, includeUsage)] + rest)[1..] == rest;
  }

  /** Reasoning leaves no trace in the stream. */
  lemma {:induction false} ReasoningLeavesNoTrace(includeUsage: bool, items: seq<Item>)
    ensures Transcript(includeUsage, WithoutReasoning(items)) == Transcript(includeUsage, items)
  {
    if items != [] {
      ReasoningLeavesNoTrace(includeUsage, items[1..]);
      if !IsReasoning(items[0]) {
        var w := WithoutReasoning(items);
        assert w[0] == items[0] && w[1..] == WithoutReasoning(items[1..]);
      }
    }
  }
}
