/** The private engine's event stream, as the public adapters consume it. */
module Engine {
  import opened Wrappers

  const MAX_U32: int := 0xFFFF_FFFF

  type u32 = x: int | 0 <= x <= MAX_U32

  datatype Finish = Stop | MaxOutputTokens | ToolCalls

  datatype Usage = Usage(input: nat, output: nat, total: nat)

  datatype Event =
    | ReasoningDelta(reasoning: string)
    | ReasoningCompleted(durationMs: nat)
    | TextDelta(delta: string)
    | ToolCallDelta(index: u32, id: Option<string>, name: Option<string>, arguments: string)
    | Completed(usage: Option<Usage>, finish: Finish)

  /** One poll of the stream: an event or an engine error. The end of a sequence of items is the end
      of the stream. */
  datatype Item = Produced(event: Event) | Failure(error: string)

  predicate IsReasoning(i: Item) {
    i.Produced? && (i.event.ReasoningDelta? || i.event.ReasoningCompleted?)
  }

  /** Items after which no adapter polls the engine again. */
  predicate Ends(i: Item) {
    i.Failure? || i.event.Completed?
  }

  function WithoutReasoning(items: seq<Item>): seq<Item> {
    if items == [] then []
    else if IsReasoning(items[0]) then WithoutReasoning(items[1..])
    else [items[0]] + WithoutReasoning(items[1..])
  }
}
