/** What a Responses stream must say for a given engine stream. Every event's content is a function of
    the engine history before it; the stream of events is then numbered. */
module Responses {
  import opened Wrappers
  import opened Engine

  const MAX_U64: int := 0xFFFF_FFFF_FFFF_FFFF

  /** The message item, or the call item made for a call number. The wire ids `msg_...` and
      `fc_<response>_<n>` are injective renderings of these. */
  datatype ItemId = MessageId | CallId(n: nat)

  datatype Status = Complete | Incomplete | Failed

  datatype OutItem =
    | Message(id: ItemId, status: Status, text: string)
    | FunctionCall(id: ItemId, callId: string, name: string, arguments: string)

  datatype Payload =
    | Created
    | InProgress
    | MessageAdded(item: ItemId, outputIndex: nat)
    | PartAdded(item: ItemId, outputIndex: nat)
    | OutputTextDelta(item: ItemId, outputIndex: nat, delta: string)
    | CallAdded(item: ItemId, outputIndex: nat, callId: string, name: string)
    | ArgumentsDelta(item: ItemId, outputIndex: nat, delta: string)
    | TextDone(item: ItemId, outputIndex: nat, text: string)
    | PartDone(item: ItemId, outputIndex: nat, text: string)
    | ArgumentsDone(item: ItemId, outputIndex: nat, text: string)
    | ItemDone(outputIndex: nat, done: OutItem)
    | Terminal(status: Status, output: seq<OutItem>, usage: Option<Usage>, error: Option<string>)

  datatype Sse = Sse(payload: Payload, sequence: nat)

  // ----- Summaries of an engine history

  datatype Key = TextKey | ToolKey(index: u32)

  function KeyOf(e: Event): Option<Key> {
    match e
    case TextDelta(_) => Some(TextKey)
    case ToolCallDelta(i, _, _, _) => Some(ToolKey(i))
    case _ => None
  }

  /** Item keys in order of first appearance. */
  function FirstSeen(h: seq<Event>): seq<Key> {
    if h == [] then []
    else
      var seen := FirstSeen(h[..|h| - 1]);
      var k := KeyOf(h[|h| - 1]);
      if k.None? || k.value in seen then seen else seen + [k.value]
  }

  function TextOf(h: seq<Event>): string {
    if h == [] then ""
    else
      var e := h[|h| - 1];
      TextOf(h[..|h| - 1]) + if e.TextDelta? then e.delta else ""
  }

  predicate Touches(e: Event, i: u32) {
    e.ToolCallDelta? && e.index == i
  }

  function ArgumentsOf(h: seq<Event>, i: u32): string {
    if h == [] then ""
    else
      var e := h[|h| - 1];
      ArgumentsOf(h[..|h| - 1], i) + if Touches(e, i) then e.arguments else ""
  }

  function CallIdOf(h: seq<Event>, i: u32): string {
    if h == [] then ""
    else
      var e := h[|h| - 1];
      if Touches(e, i) && e.id.Some? then e.id.value else CallIdOf(h[..|h| - 1], i)
  }

  function NameOf(h: seq<Event>, i: u32): string {
    if h == [] then ""
    else
      var e := h[|h| - 1];
      if Touches(e, i) && e.name.Some? then e.name.value else NameOf(h[..|h| - 1], i)
  }

  /** Whether call `i` had, at one of its deltas, both a call id and a name. */
  predicate Announced(h: seq<Event>, i: u32) {
    h != [] &&
    (Announced(h[..|h| - 1], i) ||
     (Touches(h[|h| - 1], i) && CallIdOf(h, i) != "" && NameOf(h, i) != ""))
  }

  function Insert(s: seq<u32>, x: u32): seq<u32> {
    if s == [] then [x]
    else if x == s[0] then s
    else if x < s[0] then [x] + s
    else [s[0]] + Insert(s[1..], x)
  }

  /** Call numbers seen so far, ascending: the iteration order of the source's ordered map. */
  function CallNumbers(h: seq<Event>): seq<u32> {
    if h == [] then []
    else
      var e := h[|h| - 1];
      if e.ToolCallDelta? then Insert(CallNumbers(h[..|h| - 1]), e.index) else CallNumbers(h[..|h| - 1])
  }

  function Position(keys: seq<Key>, k: Key): nat {
    if keys == [] || keys[0] == k then 0 else 1 + Position(keys[1..], k)
  }

  /** Output indices are counted in a saturating u32. */
  function Slot(n: nat): (s: u32)
    ensures s == if n <= MAX_U32 then n else MAX_U32
  {
    if n <= MAX_U32 then n else MAX_U32
  }

  function OutputIndex(h: seq<Event>, k: Key): u32 {
    Slot(Position(FirstSeen(h), k))
  }

  // ----- Events for one engine event

  /** What event `e` adds to the stream after history `h`. */
  function Step(h: seq<Event>, e: Event): seq<Payload> {
    match e
    case TextDelta(delta) =>
      var at := OutputIndex(h + [e], TextKey);
      (if TextKey in FirstSeen(h) then [] else [MessageAdded(MessageId, at), PartAdded(MessageId, at)])
      + [OutputTextDelta(MessageId, at, delta)]
    case ToolCallDelta(i, _, _, arguments) =>
      var at := OutputIndex(h + [e], ToolKey(i));
      (if Announced(h + [e], i) && !Announced(h, i)
       then [CallAdded(CallId(i), at, CallIdOf(h + [e], i), NameOf(h + [e], i))] else [])
      + (if arguments != "" then [ArgumentsDelta(CallId(i), at, arguments)] else [])
    case _ => []
  }

  function StatusOf(finish: Finish): Status {
    if finish == MaxOutputTokens then Incomplete else Complete
  }

  function CallOf(h: seq<Event>, i: u32, itemNumber: nat): OutItem {
    FunctionCall(CallId(itemNumber), CallIdOf(h, i), NameOf(h, i), ArgumentsOf(h, i))
  }

  function CallsDone(h: seq<Event>, n: nat): seq<Payload>
    requires n <= |CallNumbers(h)|
  {
    if n == 0 then []
    else
      var i := CallNumbers(h)[n - 1];
      CallsDone(h, n - 1)
      + [ArgumentsDone(CallId(i), OutputIndex(h, ToolKey(i)), ArgumentsOf(h, i)),
         ItemDone(OutputIndex(h, ToolKey(i)), CallOf(h, i, i))]
  }

  function MessageDone(h: seq<Event>, status: Status): seq<Payload> {
    if TextKey in FirstSeen(h) then
      var at := OutputIndex(h, TextKey);
      [TextDone(MessageId, at, TextOf(h)),
       PartDone(MessageId, at, TextOf(h)),
       ItemDone(at, Message(MessageId, status, TextOf(h)))]
    else []
  }

  /** `response_document`'s output list: calls are renumbered by position. */
  function DocumentCalls(h: seq<Event>): seq<OutItem> {
    seq(|CallNumbers(h)|, j requires 0 <= j < |CallNumbers(h)| => CallOf(h, CallNumbers(h)[j], j))
  }

  function Document(h: seq<Event>, status: Status): seq<OutItem> {
    (if TextOf(h) != "" || CallNumbers(h) == [] then [Message(MessageId, status, TextOf(h))] else [])
    + DocumentCalls(h)
  }

  function Closing(h: seq<Event>, usage: Option<Usage>, finish: Finish): seq<Payload> {
    var status := StatusOf(finish);
    MessageDone(h, status) + CallsDone(h, |CallNumbers(h)|) + [Terminal(status, Document(h, status), usage, None)]
  }

  function FailedEvent(error: string): Payload {
    Terminal(Failed, [], None, Some(error))
  }

  const EARLY_END: string := "server_error"

  // ----- The whole stream

  /** The events for the rest of the engine stream after history `h`. */
  function Body(h: seq<Event>, rest: seq<Item>): seq<Payload>
    decreases rest
  {
    if rest == [] then [FailedEvent(EARLY_END)]
    else
      match rest[0]
      case Failure(error) => [FailedEvent(error)]
      case Produced(Completed(usage, finish)) => Closing(h, usage, finish)
      case Produced(e) => Step(h, e) + Body(h + [e], rest[1..])
  }

  function Transcript(items: seq<Item>): seq<Payload> {
    [Created, InProgress] + Body([], items)
  }

  /** Sequence numbers are counted in a saturating u64. */
  function Number(payloads: seq<Payload>, from: nat): seq<Sse> {
    seq(|payloads|, i requires 0 <= i < |payloads| =>
      Sse(payloads[i], if from + i <= MAX_U64 then from + i else MAX_U64))
  }

  // ----- Numbering and termination of every stream

  /** Sequence numbers 0, 1, 2, ... without a gap. */
  predicate GapFree(out: seq<Sse>) {
    forall i :: 0 <= i < |out| ==> out[i].sequence == i
  }

  /** The saturating counter leaves no gap exactly on streams of at most 2^64 events. */
  lemma GapFreeExactly(payloads: seq<Payload>)
    ensures GapFree(Number(payloads, 0)) <==> |payloads| <= MAX_U64 + 1
  {
    if |payloads| > MAX_U64 + 1 {
      assert Number(payloads, 0)[MAX_U64 + 1].sequence == MAX_U64;
    }
  }

  predicate EndsOnce(payloads: seq<Payload>) {
    && payloads != []
    && payloads[|payloads| - 1].Terminal?
    && forall i :: 0 <= i < |payloads| - 1 ==> !payloads[i].Terminal?
  }

  lemma {:induction false} CallsDoneNotTerminal(h: seq<Event>, n: nat)
    requires n <= |CallNumbers(h)|
    ensures forall i :: 0 <= i < |CallsDone(h, n)| ==> !CallsDone(h, n)[i].Terminal?
  {
    if n > 0 {
      CallsDoneNotTerminal(h, n - 1);
    }
  }

  lemma {:induction false} BodyEndsOnce(h: seq<Event>, rest: seq<Item>)
    ensures EndsOnce(Body(h, rest))
    decreases rest
  {
    if rest == [] || rest[0].Failure? {
    } else if rest[0].event.Completed? {
      CallsDoneNotTerminal(h, |CallNumbers(h)|);
    } else {
      BodyEndsOnce(h + [rest[0].event], rest[1..]);
    }
  }

  /** Every stream has exactly one terminal event, and it is the last. */
  lemma OneTerminalEventLast(items: seq<Item>)
    ensures EndsOnce(Transcript(items))
  {
    BodyEndsOnce([], items);
  }

  // ----- First appearance order and output indices

  ghost predicate Distinct<T>(s: seq<T>) {
    forall i, j :: 0 <= i < j < |s| ==> s[i] != s[j]
  }

  lemma {:induction false} FirstSeenDistinct(h: seq<Event>)
    ensures Distinct(FirstSeen(h))
  {
    if h != [] {
      FirstSeenDistinct(h[..|h| - 1]);
    }
  }

  lemma {:induction false} PositionFound(keys: seq<Key>, k: Key)
    requires k in keys
    ensures Position(keys, k) < |keys| && keys[Position(keys, k)] == k
  {
    if keys[0] != k {
      PositionFound(keys[1..], k);
    }
  }

  lemma PositionOfIndex(keys: seq<Key>, n: nat)
    requires n < |keys| && Distinct(keys)
    ensures Position(keys, keys[n]) == n
  {
    PositionFound(keys, keys[n]);
  }

  lemma {:induction false} PositionInPrefix(a: seq<Key>, b: seq<Key>, k: Key)
    requires k in a
    ensures Position(a + b, k) == Position(a, k)
  {
    if a[0] != k {
      assert (a + b)[1..] == a[1..] + b;
      PositionInPrefix(a[1..], b, k);
    }
  }

  /** Later events only append keys, so an item keeps the index it was given first. */
  lemma {:induction false} FirstSeenGrows(h: seq<Event>, more: seq<Event>)
    ensures FirstSeen(h) <= FirstSeen(h + more)
    decreases more
  {
    if more == [] {
      assert h + more == h;
    } else {
      var front := more[..|more| - 1];
      FirstSeenGrows(h, front);
      assert (h + more)[..|h + more| - 1] == h + front;
    }
  }

  lemma {:induction false} IndexIsStable(h: seq<Event>, more: seq<Event>, k: Key)
    requires k in FirstSeen(h)
    ensures OutputIndex(h, k) == OutputIndex(h + more, k)
  {
    FirstSeenGrows(h, more);
    var a, b := FirstSeen(h), FirstSeen(h + more);
    assert b == a + b[|a|..];
    PositionInPrefix(a, b[|a|..], k);
  }

  /** Output indices 0, 1, 2, ... in order of first appearance; two items share an index exactly when
      more than 2^32 items appear, which takes a text item and every one of the 2^32 call numbers. */
  lemma {:induction false} OutputIndicesDense(h: seq<Event>)
    ensures forall n :: 0 <= n < |FirstSeen(h)| && n <= MAX_U32 ==> OutputIndex(h, FirstSeen(h)[n]) == n
    ensures (forall m, n :: 0 <= m < n < |FirstSeen(h)| ==>
               OutputIndex(h, FirstSeen(h)[m]) != OutputIndex(h, FirstSeen(h)[n]))
            <==> |FirstSeen(h)| <= MAX_U32 + 1
  {
    var keys := FirstSeen(h);
    FirstSeenDistinct(h);
    forall n | 0 <= n < |keys|
      ensures OutputIndex(h, keys[n]) == Slot(n)
    {
      PositionOfIndex(keys, n);
    }
    if |keys| > MAX_U32 + 1 {
      assert OutputIndex(h, keys[MAX_U32]) == OutputIndex(h, keys[MAX_U32 + 1]);
    }
  }

  // ----- The engine history a stream has consumed when it ends

  /** The events before the first one that ends the stream. */
  function Consumed(items: seq<Item>): seq<Event> {
    if items == [] || Ends(items[0]) then []
    else [items[0].event] + Consumed(items[1..])
  }

  function KeyOfItem(item: ItemId): Key {
    match item
    case MessageId => TextKey
    case CallId(n) => ToolKey(Slot(n))
  }

  /** An event's item and output index, when it carries them. */
  function Placement(p: Payload): Option<(ItemId, nat)> {
    match p
    case Created => None
    case InProgress => None
    case Terminal(_, _, _, _) => None
    case ItemDone(at, item) => Some((item.id, at))
    case _ => Some((p.item, p.outputIndex))
  }

  /** Every placed event in `payloads` carries the index of its item in history `h`. */
  ghost predicate PlacedBy(payloads: seq<Payload>, h: seq<Event>) {
    forall p :: p in payloads && Placement(p).Some? ==>
      var (item, at) := Placement(p).value;
      && KeyOfItem(item) in FirstSeen(h)
      && at == OutputIndex(h, KeyOfItem(item))
  }

  lemma KeyAppears(h: seq<Event>, e: Event)
    requires KeyOf(e).Some?
    ensures KeyOf(e).value in FirstSeen(h + [e])
  {
    assert (h + [e])[..|h|] == h;
  }

  lemma StepPlacement(h: seq<Event>, e: Event)
    requires KeyOf(e).Some?
    ensures forall p :: p in Step(h, e) ==>
              && Placement(p).Some? && KeyOfItem(Placement(p).value.0) == KeyOf(e).value
              && Placement(p).value.1 == OutputIndex(h + [e], KeyOf(e).value)
  {
  }

  lemma StepPlaced(h: seq<Event>, e: Event, more: seq<Event>)
    ensures PlacedBy(Step(h, e), h + [e] + more)
  {
    if KeyOf(e).Some? {
      var k := KeyOf(e).value;
      KeyAppears(h, e);
      FirstSeenGrows(h + [e], more);
      IndexIsStable(h + [e], more, k);
      StepPlacement(h, e);
    }
  }

  lemma {:induction false} InsertMembers(s: seq<u32>, x: u32, y: u32)
    ensures y in Insert(s, x) <==> y == x || y in s
  {
    if s != [] && x > s[0] {
      InsertMembers(s[1..], x, y);
    }
  }

  /** The ordered map's keys are exactly the call numbers that appeared. */
  lemma {:induction false} CallNumbersSeen(h: seq<Event>, i: u32)
    ensures i in CallNumbers(h) <==> ToolKey(i) in FirstSeen(h)
  {
    if h != [] {
      var e := h[|h| - 1];
      CallNumbersSeen(h[..|h| - 1], i);
      if e.ToolCallDelta? {
        InsertMembers(CallNumbers(h[..|h| - 1]), e.index, i);
      }
    }
  }

  lemma {:induction false} CallsDonePlaced(h: seq<Event>, n: nat)
    requires n <= |CallNumbers(h)|
    ensures PlacedBy(CallsDone(h, n), h)
  {
    if n > 0 {
      CallsDonePlaced(h, n - 1);
      CallNumbersSeen(h, CallNumbers(h)[n - 1]);
    }
  }

  lemma PlacedConcat(a: seq<Payload>, b: seq<Payload>, h: seq<Event>)
    requires PlacedBy(a, h) && PlacedBy(b, h)
    ensures PlacedBy(a + b, h)
  {
  }

  lemma {:induction false} ClosingPlaced(h: seq<Event>, usage: Option<Usage>, finish: Finish)
    ensures PlacedBy(Closing(h, usage, finish), h)
  {
    CallsDonePlaced(h, |CallNumbers(h)|);
  }

  lemma {:induction false} BodyPlaced(h: seq<Event>, rest: seq<Item>)
    ensures PlacedBy(Body(h, rest), h + Consumed(rest))
    decreases rest
  {
    if rest == [] || rest[0].Failure? {
    } else if rest[0].event.Completed? {
      ClosingPlaced(h, rest[0].event.usage, rest[0].event.finish);
      assert h + Consumed(rest) == h;
    } else {
      var e := rest[0].event;
      assert h + [e] + Consumed(rest[1..]) == h + Consumed(rest);
      BodyPlaced(h + [e], rest[1..]);
      StepPlaced(h, e, Consumed(rest[1..]));
      PlacedConcat(Step(h, e), Body(h + [e], rest[1..]), h + Consumed(rest));
    }
  }

  /** Every event about an item carries that item's index in first-appearance order. */
  lemma EventsCarryTheirItemsIndex(items: seq<Item>)
    ensures PlacedBy(Transcript(items), Consumed(items))
  {
    BodyPlaced([], items);
    assert [] + Consumed(items) == Consumed(items);
  }
}
