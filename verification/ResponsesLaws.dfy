/** Laws of whole Responses streams: deltas rebuild what the done events state, when every call was
    announced, when the terminal document agrees with the streamed items, and that reasoning leaves no
    trace. */
module ResponsesLaws {
  import opened Wrappers
  import opened Engine
  import opened Responses
  import opened Sequences

  // ----- Done events restate the concatenated deltas

  function DeltaFor(p: Payload, item: ItemId): string {
    if (p.OutputTextDelta? || p.ArgumentsDelta?) && p.item == item then p.delta else ""
  }

  /** The concatenation of the deltas streamed for an item. */
  function Deltas(payloads: seq<Payload>, item: ItemId): string {
    if payloads == [] then "" else DeltaFor(payloads[0], item) + Deltas(payloads[1..], item)
  }

  lemma {:induction false} DeltasConcat(a: seq<Payload>, b: seq<Payload>, item: ItemId)
    ensures Deltas(a + b, item) == Deltas(a, item) + Deltas(b, item)
    decreases a
  {
    if a == [] {
      assert a + b == b;
    } else {
      assert (a + b)[1..] == a[1..] + b;
      DeltasConcat(a[1..], b, item);
    }
  }

  lemma {:induction false} NoDeltas(payloads: seq<Payload>, item: ItemId)
    requires forall p :: p in payloads ==> DeltaFor(p, item) == ""
    ensures Deltas(payloads, item) == ""
  {
    if payloads != [] {
      NoDeltas(payloads[1..], item);
    }
  }

  /** What an engine history has said about an item so far. */
  function Said(h: seq<Event>, item: ItemId): string {
    match item
    case MessageId => TextOf(h)
    case CallId(n) => if n <= MAX_U32 then ArgumentsOf(h, n) else ""
  }

  lemma OneDelta(p: Payload, item: ItemId)
    ensures Deltas([p], item) == DeltaFor(p, item)
  {
    assert Deltas([p], item) == DeltaFor(p, item) + Deltas([], item);
  }

  lemma OpeningThenDelta(opening: seq<Payload>, p: Payload, item: ItemId)
    requires forall q :: q in opening ==> DeltaFor(q, item) == ""
    ensures Deltas(opening + [p], item) == DeltaFor(p, item)
  {
    NoDeltas(opening, item);
    DeltasConcat(opening, [p], item);
    OneDelta(p, item);
  }

  lemma {:induction false} StepTextDeltas(h: seq<Event>, delta: string, item: ItemId)
    ensures Deltas(Step(h, TextDelta(delta)), item) == if item == MessageId then delta else ""
  {
    var at := OutputIndex(h + [TextDelta(delta)], TextKey);
    var opening := if TextKey in FirstSeen(h) then [] else [MessageAdded(MessageId, at), PartAdded(MessageId, at)];
    OpeningThenDelta(opening, OutputTextDelta(MessageId, at, delta), item);
  }

  lemma StepCallDeltas(h: seq<Event>, e: Event, item: ItemId)
    requires e.ToolCallDelta?
    ensures Deltas(Step(h, e), item) == if item == CallId(e.index) then e.arguments else ""
  {
    var i := e.index;
    var at := OutputIndex(h + [e], ToolKey(i));
    var opening := if Announced(h + [e], i) && !Announced(h, i)
                   then [CallAdded(CallId(i), at, CallIdOf(h + [e], i), NameOf(h + [e], i))] else [];
    if e.arguments == "" {
      NoDeltas(opening, item);
    } else {
      OpeningThenDelta(opening, ArgumentsDelta(CallId(i), at, e.arguments), item);
    }
  }

  lemma SaidNext(h: seq<Event>, e: Event, item: ItemId)
    ensures Said(h + [e], item) == Said(h, item)
            + if e.TextDelta? && item == MessageId then e.delta
              else if e.ToolCallDelta? && item == CallId(e.index) then e.arguments else ""
  {
    assert (h + [e])[..|h|] == h;
  }

  lemma StepDeltas(h: seq<Event>, e: Event, item: ItemId)
    ensures Said(h + [e], item) == Said(h, item) + Deltas(Step(h, e), item)
  {
    SaidNext(h, e, item);
    if e.TextDelta? {
      StepTextDeltas(h, e.delta, item);
    } else if e.ToolCallDelta? {
      StepCallDeltas(h, e, item);
    }
  }

  lemma {:induction false} ClosingHasNoDeltas(h: seq<Event>, n: nat, item: ItemId)
    requires n <= |CallNumbers(h)|
    ensures forall p :: p in CallsDone(h, n) ==> DeltaFor(p, item) == ""
  {
    if n > 0 {
      ClosingHasNoDeltas(h, n - 1, item);
    }
  }

  lemma LastDeltas(h: seq<Event>, rest: seq<Item>, item: ItemId)
    requires rest == [] || Ends(rest[0])
    ensures Deltas(Body(h, rest), item) == ""
  {
    if rest != [] && rest[0].Produced? {
      ClosingHasNoDeltas(h, |CallNumbers(h)|, item);
    }
    NoDeltas(Body(h, rest), item);
  }

  lemma {:induction false} BodyDeltas(h: seq<Event>, rest: seq<Item>, item: ItemId)
    ensures Said(h + Consumed(rest), item) == Said(h, item) + Deltas(Body(h, rest), item)
    decreases rest
  {
    if rest == [] || Ends(rest[0]) {
      assert h + Consumed(rest) == h;
      LastDeltas(h, rest, item);
    } else {
      var e := rest[0].event;
      var first, later := Step(h, e), Body(h + [e], rest[1..]);
      assert h + [e] + Consumed(rest[1..]) == h + Consumed(rest);
      BodyDeltas(h + [e], rest[1..], item);
      StepDeltas(h, e, item);
      DeltasConcat(first, later, item);
      Associates(Said(h, item), Deltas(first, item), Deltas(later, item));
    }
  }

  /** The text or arguments a done event states, with the item it is about. */
  function Stated(p: Payload): Option<(ItemId, string)> {
    match p
    case TextDone(item, _, text) => Some((item, text))
    case PartDone(item, _, text) => Some((item, text))
    case ArgumentsDone(item, _, text) => Some((item, text))
    case ItemDone(_, Message(id, _, text)) => Some((id, text))
    case ItemDone(_, FunctionCall(id, _, _, arguments)) => Some((id, arguments))
    case _ => None
  }

  ghost predicate StatesWhatWasSaid(payloads: seq<Payload>, h: seq<Event>) {
    forall p :: p in payloads && Stated(p).Some? ==> Stated(p).value.1 == Said(h, Stated(p).value.0)
  }

  lemma {:induction false} CallsDoneState(h: seq<Event>, n: nat)
    requires n <= |CallNumbers(h)|
    ensures StatesWhatWasSaid(CallsDone(h, n), h)
  {
    if n > 0 {
      var i := CallNumbers(h)[n - 1];
      var closing := [ArgumentsDone(CallId(i), OutputIndex(h, ToolKey(i)), ArgumentsOf(h, i)),
                      ItemDone(OutputIndex(h, ToolKey(i)), CallOf(h, i, i))];
      CallsDoneState(h, n - 1);
      assert StatesWhatWasSaid(closing, h);
      StatesConcat(CallsDone(h, n - 1), closing, h);
    }
  }

  lemma StatesConcat(a: seq<Payload>, b: seq<Payload>, h: seq<Event>)
    requires StatesWhatWasSaid(a, h) && StatesWhatWasSaid(b, h)
    ensures StatesWhatWasSaid(a + b, h)
  {
  }

  lemma ClosingStates(h: seq<Event>, usage: Option<Usage>, finish: Finish)
    ensures StatesWhatWasSaid(Closing(h, usage, finish), h)
  {
    var status := StatusOf(finish);
    var terminal := [Terminal(status, Document(h, status), usage, None)];
    CallsDoneState(h, |CallNumbers(h)|);
    MessageStates(h, status);
    StatesConcat(MessageDone(h, status), CallsDone(h, |CallNumbers(h)|), h);
    assert StatesWhatWasSaid(terminal, h);
    StatesConcat(MessageDone(h, status) + CallsDone(h, |CallNumbers(h)|), terminal, h);
  }

  lemma MessageStates(h: seq<Event>, status: Status)
    ensures StatesWhatWasSaid(MessageDone(h, status), h)
  {
  }

  lemma BodyUnfolds(h: seq<Event>, rest: seq<Item>)
    requires rest != [] && !Ends(rest[0])
    ensures Body(h, rest) == Step(h, rest[0].event) + Body(h + [rest[0].event], rest[1..])
    ensures h + [rest[0].event] + Consumed(rest[1..]) == h + Consumed(rest)
  {
  }

  lemma StepStatesNothing(h: seq<Event>, e: Event, g: seq<Event>)
    ensures StatesWhatWasSaid(Step(h, e), g)
  {
    if e.ToolCallDelta? {
      assert forall p :: p in Step(h, e) ==> p.CallAdded? || p.ArgumentsDelta?;
    } else if e.TextDelta? {
      assert forall p :: p in Step(h, e) ==> p.MessageAdded? || p.PartAdded? || p.OutputTextDelta?;
    }
  }

  lemma {:induction false} BodyStates(h: seq<Event>, rest: seq<Item>)
    ensures StatesWhatWasSaid(Body(h, rest), h + Consumed(rest))
    decreases rest
  {
    if rest == [] || rest[0].Failure? {
    } else if rest[0].event.Completed? {
      assert h + Consumed(rest) == h;
      ClosingStates(h, rest[0].event.usage, rest[0].event.finish);
    } else {
      var e := rest[0].event;
      BodyUnfolds(h, rest);
      BodyStates(h + [e], rest[1..]);
      StepStatesNothing(h, e, h + Consumed(rest));
      StatesConcat(Step(h, e), Body(h + [e], rest[1..]), h + Consumed(rest));
    }
  }

  lemma TranscriptStates(items: seq<Item>)
    ensures StatesWhatWasSaid(Transcript(items), Consumed(items))
  {
    BodyStates([], items);
    assert [] + Consumed(items) == Consumed(items);
    assert StatesWhatWasSaid([Created, InProgress], Consumed(items));
    StatesConcat([Created, InProgress], Body([], items), Consumed(items));
  }

  lemma {:induction false} TranscriptDeltas(items: seq<Item>, item: ItemId)
    ensures Deltas(Transcript(items), item) == Said(Consumed(items), item)
  {
    BodyDeltas([], items, item);
    assert [] + Consumed(items) == Consumed(items);
    DeltasConcat([Created, InProgress], Body([], items), item);
    NoDeltas([Created, InProgress], item);
  }

  /** Each done text or arguments is the concatenation of the deltas streamed for that item. */
  lemma DoneEqualsConcatenatedDeltas(items: seq<Item>, p: Payload)
    requires p in Transcript(items) && Stated(p).Some?
    ensures Stated(p).value.1 == Deltas(Transcript(items), Stated(p).value.0)
  {
    TranscriptStates(items);
    TranscriptDeltas(items, Stated(p).value.0);
  }

  // ----- Announcements of calls

  predicate Announces(p: Payload, i: u32) {
    p.CallAdded? && p.item == CallId(i)
  }

  function Announcements(payloads: seq<Payload>, i: u32): nat {
    if payloads == [] then 0 else (if Announces(payloads[0], i) then 1 else 0) + Announcements(payloads[1..], i)
  }

  lemma {:induction false} AnnouncementsConcat(a: seq<Payload>, b: seq<Payload>, i: u32)
    ensures Announcements(a + b, i) == Announcements(a, i) + Announcements(b, i)
    decreases a
  {
    if a == [] {
      assert a + b == b;
    } else {
      assert (a + b)[1..] == a[1..] + b;
      AnnouncementsConcat(a[1..], b, i);
    }
  }

  lemma {:induction false} NoAnnouncements(payloads: seq<Payload>, i: u32)
    requires forall p :: p in payloads ==> !Announces(p, i)
    ensures Announcements(payloads, i) == 0
  {
    if payloads != [] {
      NoAnnouncements(payloads[1..], i);
    }
  }

  function AsCount(b: bool): nat {
    if b then 1 else 0
  }

  lemma StepAnnouncements(h: seq<Event>, e: Event, i: u32)
    ensures AsCount(Announced(h + [e], i)) == AsCount(Announced(h, i)) + Announcements(Step(h, e), i)
  {
    assert (h + [e])[..|h|] == h;
    if e.ToolCallDelta? {
      var at := OutputIndex(h + [e], ToolKey(e.index));
      var opening := if Announced(h + [e], e.index) && !Announced(h, e.index)
                     then [CallAdded(CallId(e.index), at, CallIdOf(h + [e], e.index), NameOf(h + [e], e.index))]
                     else [];
      var tail := if e.arguments != "" then [ArgumentsDelta(CallId(e.index), at, e.arguments)] else [];
      AnnouncementsConcat(opening, tail, i);
      NoAnnouncements(tail, i);
      if opening != [] {
        assert Announcements(opening, i) == AsCount(Announces(opening[0], i)) + Announcements([], i);
      }
    } else {
      NoAnnouncements(Step(h, e), i);
    }
  }

  lemma {:induction false} CallsDoneAnnounceNothing(h: seq<Event>, n: nat, i: u32)
    requires n <= |CallNumbers(h)|
    ensures forall p :: p in CallsDone(h, n) ==> !Announces(p, i)
  {
    if n > 0 {
      CallsDoneAnnounceNothing(h, n - 1, i);
    }
  }

  lemma EndAnnouncesNothing(h: seq<Event>, rest: seq<Item>, i: u32)
    requires rest == [] || Ends(rest[0])
    ensures h + Consumed(rest) == h && Announcements(Body(h, rest), i) == 0
  {
    assert h + [] == h;
    if rest != [] && rest[0].Produced? {
      CallsDoneAnnounceNothing(h, |CallNumbers(h)|, i);
    }
    NoAnnouncements(Body(h, rest), i);
  }

  lemma {:induction false} BodyAnnouncements(h: seq<Event>, rest: seq<Item>, i: u32)
    ensures AsCount(Announced(h + Consumed(rest), i)) == AsCount(Announced(h, i)) + Announcements(Body(h, rest), i)
    decreases rest
  {
    if rest == [] || Ends(rest[0]) {
      EndAnnouncesNothing(h, rest, i);
    } else {
      var e := rest[0].event;
      BodyUnfolds(h, rest);
      BodyAnnouncements(h + [e], rest[1..], i);
      StepAnnouncements(h, e, i);
      AnnouncementsConcat(Step(h, e), Body(h + [e], rest[1..]), i);
    }
  }

  /** A call is announced at most once, and at all exactly when one of its deltas left it with both a
      call id and a name: a completed call without such a delta is done without having been added. */
  lemma CallsAnnouncedExactlyWhenNamed(items: seq<Item>, i: u32)
    ensures Announcements(Transcript(items), i) == AsCount(Announced(Consumed(items), i))
  {
    BodyAnnouncements([], items, i);
    assert [] + Consumed(items) == Consumed(items);
    AnnouncementsConcat([Created, InProgress], Body([], items), i);
    NoAnnouncements([Created, InProgress], i);
  }

  // ----- Argument deltas and announcements

  predicate Streams(p: Payload, i: u32) {
    p.ArgumentsDelta? && p.item == CallId(i)
  }

  /** No argument delta of call `i` comes before its announcement, which may have come before. */
  predicate InTurn(payloads: seq<Payload>, i: u32, announced: bool) {
    payloads == [] ||
    ((Streams(payloads[0], i) ==> announced) && InTurn(payloads[1..], i, announced || Announces(payloads[0], i)))
  }

  lemma {:induction false} InTurnConcat(a: seq<Payload>, b: seq<Payload>, i: u32, announced: bool)
    ensures InTurn(a + b, i, announced) <==>
            InTurn(a, i, announced) && InTurn(b, i, announced || Announcements(a, i) > 0)
    decreases a
  {
    if a == [] {
      assert a + b == b;
    } else {
      assert (a + b)[1..] == a[1..] + b;
      InTurnConcat(a[1..], b, i, announced || Announces(a[0], i));
    }
  }

  lemma {:induction false} NothingStreamed(payloads: seq<Payload>, i: u32, announced: bool)
    requires forall p :: p in payloads ==> !Streams(p, i)
    ensures InTurn(payloads, i, announced)
    decreases payloads
  {
    if payloads != [] {
      NothingStreamed(payloads[1..], i, announced || Announces(payloads[0], i));
    }
  }

  /** Call `i` has both its id and its name by the time it first has arguments. */
  ghost predicate NamedBeforeArguments(h: seq<Event>, i: u32) {
    forall n :: 0 <= n < |h| && Touches(h[n], i) && h[n].arguments != "" ==> Announced(h[..n + 1], i)
  }

  lemma NamedNext(h: seq<Event>, e: Event, i: u32)
    ensures NamedBeforeArguments(h + [e], i) <==>
            NamedBeforeArguments(h, i) && (Touches(e, i) && e.arguments != "" ==> Announced(h + [e], i))
  {
    var g := h + [e];
    assert g[..|h| + 1] == g && g[|h|] == e;
    assert forall n :: 0 <= n < |h| ==> g[n] == h[n] && g[..n + 1] == h[..n + 1];
    if NamedBeforeArguments(g, i) {
      assert Touches(g[|h|], i) && g[|h|].arguments != "" ==> Announced(g[..|h| + 1], i);
    }
  }

  lemma StepInTurn(h: seq<Event>, e: Event, i: u32)
    ensures InTurn(Step(h, e), i, Announced(h, i)) <==> (Touches(e, i) && e.arguments != "" ==> Announced(h + [e], i))
  {
    assert (h + [e])[..|h|] == h;
    if Touches(e, i) {
      var at := OutputIndex(h + [e], ToolKey(i));
      var opening := if Announced(h + [e], i) && !Announced(h, i)
                     then [CallAdded(CallId(i), at, CallIdOf(h + [e], i), NameOf(h + [e], i))] else [];
      var tail := if e.arguments != "" then [ArgumentsDelta(CallId(i), at, e.arguments)] else [];
      NothingStreamed(opening, i, Announced(h, i));
      StepAnnouncements(h, e, i);
      InTurnConcat(opening, tail, i, Announced(h, i));
      OpeningAnnounces(opening, i);
      OneInTurn(tail, i, Announced(h + [e], i));
    } else {
      NothingStreamed(Step(h, e), i, Announced(h, i));
    }
  }

  lemma OpeningAnnounces(opening: seq<Payload>, i: u32)
    requires |opening| <= 1 && forall p :: p in opening ==> Announces(p, i)
    ensures Announcements(opening, i) > 0 <==> opening != []
  {
  }

  lemma OneInTurn(tail: seq<Payload>, i: u32, announced: bool)
    requires |tail| <= 1 && forall p :: p in tail ==> Streams(p, i)
    ensures InTurn(tail, i, announced) <==> (tail != [] ==> announced)
  {
    if tail != [] {
      assert tail[1..] == [];
    }
  }

  lemma {:induction false} CallsDoneStreamNothing(h: seq<Event>, n: nat, i: u32)
    requires n <= |CallNumbers(h)|
    ensures forall p :: p in CallsDone(h, n) ==> !Streams(p, i)
  {
    if n > 0 {
      CallsDoneStreamNothing(h, n - 1, i);
    }
  }

  lemma EndStreamsNothing(h: seq<Event>, rest: seq<Item>, i: u32, announced: bool)
    requires rest == [] || Ends(rest[0])
    ensures h + Consumed(rest) == h && InTurn(Body(h, rest), i, announced)
  {
    assert h + [] == h;
    if rest != [] && rest[0].Produced? {
      CallsDoneStreamNothing(h, |CallNumbers(h)|, i);
    }
    NothingStreamed(Body(h, rest), i, announced);
  }

  lemma {:induction false} BodyInTurn(h: seq<Event>, rest: seq<Item>, i: u32)
    ensures NamedBeforeArguments(h, i) && InTurn(Body(h, rest), i, Announced(h, i)) <==>
            NamedBeforeArguments(h + Consumed(rest), i)
    decreases rest
  {
    if rest == [] || Ends(rest[0]) {
      EndStreamsNothing(h, rest, i, Announced(h, i));
    } else {
      var e := rest[0].event;
      BodyUnfolds(h, rest);
      BodyInTurn(h + [e], rest[1..], i);
      NamedNext(h, e, i);
      StepInTurn(h, e, i);
      StepAnnouncements(h, e, i);
      InTurnConcat(Step(h, e), Body(h + [e], rest[1..]), i, Announced(h, i));
    }
  }

  predicate AnnouncedBefore(payloads: seq<Payload>, k: nat, i: u32)
    requires k <= |payloads|
  {
    exists j :: 0 <= j < k && Announces(payloads[j], i)
  }

  lemma AnnouncedBeforeRest(payloads: seq<Payload>, k: nat, i: u32)
    requires k < |payloads|
    ensures AnnouncedBefore(payloads, k + 1, i) <==>
            Announces(payloads[0], i) || AnnouncedBefore(payloads[1..], k, i)
  {
    var rest := payloads[1..];
    if AnnouncedBefore(payloads, k + 1, i) && !Announces(payloads[0], i) {
      var j :| 0 <= j < k + 1 && Announces(payloads[j], i);
      assert Announces(rest[j - 1], i);
    }
    if AnnouncedBefore(rest, k, i) {
      var j :| 0 <= j < k && Announces(rest[j], i);
      assert Announces(payloads[j + 1], i);
    }
  }

  /** Every argument delta of call `i` comes after its announcement, unless that came before all of them. */
  predicate AllInTurn(payloads: seq<Payload>, i: u32, announced: bool) {
    forall k :: 0 <= k < |payloads| && Streams(payloads[k], i) ==> announced || AnnouncedBefore(payloads, k, i)
  }

  lemma AllInTurnRest(payloads: seq<Payload>, i: u32, announced: bool)
    requires payloads != []
    ensures AllInTurn(payloads, i, announced) <==>
            && (Streams(payloads[0], i) ==> announced)
            && AllInTurn(payloads[1..], i, announced || Announces(payloads[0], i))
  {
    var rest := payloads[1..];
    forall k | 0 <= k < |rest|
      ensures rest[k] == payloads[k + 1]
      ensures AnnouncedBefore(payloads, k + 1, i) <==> Announces(payloads[0], i) || AnnouncedBefore(rest, k, i)
    {
      AnnouncedBeforeRest(payloads, k, i);
    }
    assert !AnnouncedBefore(payloads, 0, i);
    if AllInTurn(payloads, i, announced) {
      forall k | 0 <= k < |rest| && Streams(rest[k], i)
        ensures announced || Announces(payloads[0], i) || AnnouncedBefore(rest, k, i)
      {
        assert Streams(payloads[k + 1], i);
      }
    }
    if AllInTurn(rest, i, announced || Announces(payloads[0], i)) {
      forall k | 0 < k < |payloads| && Streams(payloads[k], i)
        ensures announced || AnnouncedBefore(payloads, k, i)
      {
        assert Streams(rest[k - 1], i);
        AnnouncedBeforeRest(payloads, k - 1, i);
      }
    }
  }

  lemma {:induction false} InTurnMeans(payloads: seq<Payload>, i: u32, announced: bool)
    ensures InTurn(payloads, i, announced) <==> AllInTurn(payloads, i, announced)
    decreases payloads
  {
    if payloads != [] {
      AllInTurnRest(payloads, i, announced);
      InTurnMeans(payloads[1..], i, announced || Announces(payloads[0], i));
    }
  }

  lemma {:induction false} OpeningInTurn(body: seq<Payload>, i: u32)
    ensures InTurn([Created, InProgress] + body, i, false) <==> InTurn(body, i, false)
  {
    NothingStreamed([Created, InProgress], i, false);
    NoAnnouncements([Created, InProgress], i);
    InTurnConcat([Created, InProgress], body, i, false);
  }

  lemma {:induction false} TranscriptInTurn(items: seq<Item>, i: u32)
    ensures InTurn(Transcript(items), i, false) <==> NamedBeforeArguments(Consumed(items), i)
  {
    BodyInTurn([], items, i);
    assert [] + Consumed(items) == Consumed(items);
    OpeningInTurn(Body([], items), i);
  }

  /** The arguments of a call are streamed only after its announcement exactly when the engine gave the call an
      id and a name no later than its first arguments; otherwise the client gets deltas of an item it does not
      know. */
  lemma ArgumentsFollowAnnouncement(items: seq<Item>, i: u32)
    ensures var t := Transcript(items);
            (forall k :: 0 <= k < |t| && Streams(t[k], i) ==> AnnouncedBefore(t, k, i))
            <==> NamedBeforeArguments(Consumed(items), i)
  {
    TranscriptInTurn(items, i);
    InTurnMeans(Transcript(items), i, false);
  }

  lemma UnnamedFirst(a: Event)
    requires a == ToolCallDelta(0, None, None, "x")
    ensures !Announced([a], 0) && Step([], a) == [ArgumentsDelta(CallId(0), OutputIndex([a], ToolKey(0)), "x")]
  {
    assert [a][..0] == [] && [] + [a] == [a];
    assert CallIdOf([a], 0) == CallIdOf([], 0) == "";
  }

  lemma NamedSecond(a: Event, b: Event)
    requires a == ToolCallDelta(0, None, None, "x") && b == ToolCallDelta(0, Some("id"), Some("name"), "")
    ensures Step([a], b) == [CallAdded(CallId(0), OutputIndex([a] + [b], ToolKey(0)), "id", "name")]
  {
    UnnamedFirst(a);
    assert ([a] + [b])[..1] == [a];
    assert CallIdOf([a] + [b], 0) == "id" && NameOf([a] + [b], 0) == "name";
  }

  /** An engine that sends arguments first: the delta is streamed, and the announcement comes after it. */
  lemma ArgumentsMayComeFirst(a: Event, b: Event)
    requires a == ToolCallDelta(0, None, None, "x") && b == ToolCallDelta(0, Some("id"), Some("name"), "")
    ensures var t := Transcript([Produced(a), Produced(b)]);
            |t| >= 4 && Streams(t[2], 0) && !AnnouncedBefore(t, 2, 0) && Announces(t[3], 0)
  {
    var items := [Produced(a), Produced(b)];
    UnnamedFirst(a);
    NamedSecond(a, b);
    assert items[1..] == [Produced(b)] && [] + [a] == [a];
    assert Body([], items) == Step([], a) + Body([a], [Produced(b)]);
    assert Body([a], [Produced(b)]) == Step([a], b) + Body([a] + [b], [Produced(b)][1..]);
  }

  // ----- Names

  /** The engine never changes a call's id or name once given. */
  ghost predicate Settled(h: seq<Event>, i: u32) {
    forall e :: e in h && Touches(e, i) ==>
      (e.id.Some? ==> e.id.value == CallIdOf(h, i)) && (e.name.Some? ==> e.name.value == NameOf(h, i))
  }

  lemma {:induction false} PrefixValue(h: seq<Event>, more: seq<Event>, i: u32)
    requires Settled(h + more, i)
    ensures CallIdOf(h, i) == "" || CallIdOf(h, i) == CallIdOf(h + more, i)
    ensures NameOf(h, i) == "" || NameOf(h, i) == NameOf(h + more, i)
    decreases h
  {
    if h != [] {
      var front, e := h[..|h| - 1], h[|h| - 1];
      assert front + ([e] + more) == h + more;
      PrefixValue(front, [e] + more, i);
      assert e in h + more;
    }
  }

  lemma StepAnnounces(h: seq<Event>, e: Event, i: u32, p: Payload)
    requires p in Step(h, e) && Announces(p, i)
    ensures p.callId == CallIdOf(h + [e], i) != "" && p.name == NameOf(h + [e], i) != ""
  {
    assert (h + [e])[..|h|] == h;
  }

  lemma ClosingAnnouncesNothing(h: seq<Event>, usage: Option<Usage>, finish: Finish, i: u32, p: Payload)
    requires p in Closing(h, usage, finish)
    ensures !Announces(p, i)
  {
    CallsDoneAnnounceNothing(h, |CallNumbers(h)|, i);
  }

  lemma AnnouncedByDelta(h: seq<Event>, rest: seq<Item>, i: u32, p: Payload)
    requires p in Body(h, rest) && Announces(p, i)
    ensures rest != [] && !Ends(rest[0])
    ensures p in Step(h, rest[0].event) || p in Body(h + [rest[0].event], rest[1..])
  {
    if rest != [] && rest[0].Produced? && rest[0].event.Completed? {
      ClosingAnnouncesNothing(h, rest[0].event.usage, rest[0].event.finish, i, p);
    }
  }

  lemma {:induction false} BodyAnnouncesFinalNames(h: seq<Event>, rest: seq<Item>, i: u32, p: Payload)
    requires Settled(h + Consumed(rest), i)
    requires p in Body(h, rest) && Announces(p, i)
    ensures p.callId == CallIdOf(h + Consumed(rest), i) && p.name == NameOf(h + Consumed(rest), i)
    decreases rest
  {
    AnnouncedByDelta(h, rest, i, p);
    BodyUnfolds(h, rest);
    var e := rest[0].event;
    if p in Step(h, e) {
      StepAnnounces(h, e, i, p);
      PrefixValue(h + [e], Consumed(rest[1..]), i);
    } else {
      BodyAnnouncesFinalNames(h + [e], rest[1..], i, p);
    }
  }

  /** If ids and names are never changed, the announcement already carries the final ones. */
  lemma AnnouncementCarriesFinalNames(items: seq<Item>, i: u32, p: Payload)
    requires Settled(Consumed(items), i)
    requires p in Transcript(items) && Announces(p, i)
    ensures p.callId == CallIdOf(Consumed(items), i) && p.name == NameOf(Consumed(items), i)
  {
    assert [] + Consumed(items) == Consumed(items);
    BodyAnnouncesFinalNames([], items, i, p);
  }

  // ----- The terminal document against the streamed items

  /** The items the done events close, with the indices they were streamed at. */
  function DoneItems(payloads: seq<Payload>): seq<(nat, OutItem)> {
    if payloads == [] then []
    else
      (if payloads[0].ItemDone? then [(payloads[0].outputIndex, payloads[0].done)] else [])
      + DoneItems(payloads[1..])
  }

  lemma {:induction false} DoneItemsConcat(a: seq<Payload>, b: seq<Payload>)
    ensures DoneItems(a + b) == DoneItems(a) + DoneItems(b)
    decreases a
  {
    if a == [] {
      assert a + b == b;
    } else {
      assert (a + b)[1..] == a[1..] + b && (a + b)[0] == a[0];
      DoneItemsConcat(a[1..], b);
      var first := if a[0].ItemDone? then [(a[0].outputIndex, a[0].done)] else [];
      assert first + (DoneItems(a[1..]) + DoneItems(b)) == first + DoneItems(a[1..]) + DoneItems(b);
    }
  }

  lemma {:induction false} NoDoneItems(payloads: seq<Payload>)
    requires forall p :: p in payloads ==> !p.ItemDone?
    ensures DoneItems(payloads) == []
  {
    if payloads != [] {
      NoDoneItems(payloads[1..]);
    }
  }

  lemma OnlyLastDone(front: seq<Payload>, p: Payload)
    requires forall q :: q in front ==> !q.ItemDone?
    ensures DoneItems(front + [p]) == if p.ItemDone? then [(p.outputIndex, p.done)] else []
  {
    NoDoneItems(front);
    DoneItemsConcat(front, [p]);
    assert DoneItems([p]) == (if p.ItemDone? then [(p.outputIndex, p.done)] else []) + DoneItems([]);
  }

  ghost predicate HasText(h: seq<Event>) {
    TextKey in FirstSeen(h)
  }

  ghost function DoneCalls(h: seq<Event>, n: nat): seq<(nat, OutItem)>
    requires n <= |CallNumbers(h)|
  {
    seq(n, j requires 0 <= j < n =>
      (OutputIndex(h, ToolKey(CallNumbers(h)[j])), CallOf(h, CallNumbers(h)[j], CallNumbers(h)[j])))
  }

  lemma {:induction false} CallsDoneItems(h: seq<Event>, n: nat)
    requires n <= |CallNumbers(h)|
    ensures DoneItems(CallsDone(h, n)) == DoneCalls(h, n)
  {
    if n > 0 {
      var i := CallNumbers(h)[n - 1];
      CallsDoneItems(h, n - 1);
      var last := [ArgumentsDone(CallId(i), OutputIndex(h, ToolKey(i)), ArgumentsOf(h, i)),
                   ItemDone(OutputIndex(h, ToolKey(i)), CallOf(h, i, i))];
      DoneItemsConcat(CallsDone(h, n - 1), last);
      OnlyLastDone([last[0]], last[1]);
    }
  }

  lemma ClosingDoneItems(h: seq<Event>, usage: Option<Usage>, finish: Finish)
    ensures DoneItems(Closing(h, usage, finish)) == DoneList(h, StatusOf(finish))
  {
    var status := StatusOf(finish);
    var message, calls := MessageDone(h, status), CallsDone(h, |CallNumbers(h)|);
    var end := [Terminal(status, Document(h, status), usage, None)];
    CallsDoneItems(h, |CallNumbers(h)|);
    DoneItemsConcat(message + calls, end);
    DoneItemsConcat(message, calls);
    NoDoneItems(end);
    if message != [] {
      assert message == message[..2] + [message[2]];
      OnlyLastDone(message[..2], message[2]);
    }
  }

  /** The document lists exactly the streamed items, each at its own index. */
  ghost predicate Agrees(done: seq<(nat, OutItem)>, output: seq<OutItem>) {
    && |done| == |output|
    && forall k :: 0 <= k < |done| ==> done[k].0 < |output| && output[done[k].0] == done[k].1
  }

  /** The engine's items came as an optional text item, then calls numbered 0, 1, 2, ... in order of
      first appearance; the text is nonempty unless it is the only item; something came at all; and
      output indices did not run out. */
  ghost predicate InOrder(h: seq<Event>) {
    var m := if HasText(h) then 1 else 0;
    && |FirstSeen(h)| <= MAX_U32 + 1
    && (HasText(h) ==> FirstSeen(h)[0] == TextKey)
    && (forall j :: m <= j < |FirstSeen(h)| ==> FirstSeen(h)[j].ToolKey? && FirstSeen(h)[j].index == j - m)
    && (HasText(h) <==> TextOf(h) != "" || |FirstSeen(h)| == m)
  }

  ghost predicate Ascending(s: seq<u32>) {
    forall i, j :: 0 <= i < j < |s| ==> s[i] < s[j]
  }

  lemma AscendingCons(x: u32, s: seq<u32>)
    requires Ascending(s) && forall y :: y in s ==> x < y
    ensures Ascending([x] + s)
  {
    assert forall i :: 0 <= i < |s| ==> s[i] in s;
  }

  lemma {:induction false} InsertAscends(s: seq<u32>, x: u32)
    requires Ascending(s)
    ensures Ascending(Insert(s, x))
    ensures |Insert(s, x)| == if x in s then |s| else |s| + 1
  {
    if s != [] {
      var t := s[1..];
      assert s == [s[0]] + t && forall y :: y in t ==> s[0] < y;
      if x < s[0] {
        AscendingCons(x, s);
      } else if s[0] < x {
        InsertAscends(t, x);
        forall y | y in Insert(t, x)
          ensures s[0] < y
        {
          InsertMembers(t, x, y);
        }
        AscendingCons(s[0], Insert(t, x));
      }
    }
  }

  lemma {:induction false} CallNumbersAscend(h: seq<Event>)
    ensures Ascending(CallNumbers(h))
    ensures |FirstSeen(h)| == |CallNumbers(h)| + AsCount(HasText(h))
  {
    if h != [] {
      var front, e := h[..|h| - 1], h[|h| - 1];
      CallNumbersAscend(front);
      if e.ToolCallDelta? {
        InsertAscends(CallNumbers(front), e.index);
        CallNumbersSeen(front, e.index);
      }
    }
  }

  /** Distinct call numbers below their own count are 0, 1, 2, ... */
  lemma {:induction false} AscendingAtLeast(s: seq<u32>, j: nat)
    requires Ascending(s) && j < |s|
    ensures s[j] >= j
    decreases j
  {
    if j > 0 {
      AscendingAtLeast(s, j - 1);
    }
  }

  lemma {:induction false} AscendingAtMost(s: seq<u32>, j: nat)
    requires Ascending(s) && j < |s| && s[|s| - 1] < |s|
    ensures s[j] <= j
    decreases |s| - j
  {
    if j < |s| - 1 {
      AscendingAtMost(s, j + 1);
    }
  }

  lemma DenseWhenBounded(s: seq<u32>)
    requires Ascending(s) && (s != [] ==> s[|s| - 1] < |s|)
    ensures forall j :: 0 <= j < |s| ==> s[j] == j
  {
    forall j | 0 <= j < |s|
      ensures s[j] == j
    {
      AscendingAtLeast(s, j);
      AscendingAtMost(s, j);
    }
  }

  ghost function DoneList(h: seq<Event>, status: Status): seq<(nat, OutItem)> {
    (if HasText(h) then [(OutputIndex(h, TextKey), Message(MessageId, status, TextOf(h)))] else [])
    + DoneCalls(h, |CallNumbers(h)|)
  }

  lemma {:induction false} OrderedIndices(h: seq<Event>)
    requires InOrder(h)
    ensures var m := AsCount(HasText(h));
            && (HasText(h) ==> OutputIndex(h, TextKey) == 0)
            && forall j :: 0 <= j < |CallNumbers(h)| ==>
                 CallNumbers(h)[j] == j && OutputIndex(h, ToolKey(CallNumbers(h)[j])) == m + j
  {
    var calls, seen := CallNumbers(h), FirstSeen(h);
    var m := AsCount(HasText(h));
    CallNumbersAscend(h);
    if calls != [] {
      CallNumbersSeen(h, calls[|calls| - 1]);
    }
    DenseWhenBounded(calls);
    OutputIndicesDense(h);
    assert HasText(h) ==> seen[0] == TextKey;
    forall j | 0 <= j < |calls|
      ensures calls[j] == j && OutputIndex(h, ToolKey(calls[j])) == m + j
    {
      assert seen[m + j] == ToolKey(calls[j]);
    }
  }

  ghost predicate PlacedAfterText(h: seq<Event>, i: u32) {
    i < |CallNumbers(h)| && OutputIndex(h, ToolKey(i)) == AsCount(HasText(h)) + i
  }

  lemma SplitEntries<T>(first: seq<T>, rest: seq<T>)
    ensures |first + rest| == |first| + |rest|
    ensures forall k :: 0 <= k < |first| ==> (first + rest)[k] == first[k]
    ensures forall k :: |first| <= k < |first| + |rest| ==> (first + rest)[k] == rest[k - |first|]
  {
  }

  /** The output index of each call. */
  function CallIndex(h: seq<Event>): u32 -> nat {
    (i: u32) => OutputIndex(h, ToolKey(i)) as nat
  }

  /** Each call as an item of a given number. */
  function CallItem(h: seq<Event>): (u32, nat) -> OutItem {
    (i: u32, n: nat) => CallOf(h, i, n)
  }

  function Closed(calls: seq<u32>, index: u32 -> nat, item: (u32, nat) -> OutItem): seq<(nat, OutItem)> {
    seq(|calls|, j requires 0 <= j < |calls| => (index(calls[j]), item(calls[j], calls[j])))
  }

  function Listed(calls: seq<u32>, item: (u32, nat) -> OutItem): seq<OutItem> {
    seq(|calls|, j requires 0 <= j < |calls| => item(calls[j], j))
  }

  ghost predicate CallItems(item: (u32, nat) -> OutItem) {
    forall i: u32, n: nat :: item(i, n).FunctionCall? && item(i, n).id == CallId(n)
  }

  /** What agreement says of any closed items and document of the streamed shape: a message or none, then
      the calls, closed under their own numbers and listed under their positions. */
  lemma AgreementPlaces(
    message: seq<(nat, OutItem)>, opening: seq<OutItem>, calls: seq<u32>,
    index: u32 -> nat, item: (u32, nat) -> OutItem)
    requires |message| <= 1 && |opening| <= 1 && CallItems(item)
    requires (message != [] ==> message[0].1.Message?) && (opening != [] ==> opening[0].Message?)
    requires Agrees(message + Closed(calls, index, item), opening + Listed(calls, item))
    ensures |message| == |opening| && (message != [] ==> message[0].0 == 0)
    ensures forall j :: 0 <= j < |calls| ==> calls[j] < |calls| && index(calls[j]) == |message| + calls[j]
  {
    var done, output := message + Closed(calls, index, item), opening + Listed(calls, item);
    SplitEntries(message, Closed(calls, index, item));
    SplitEntries(opening, Listed(calls, item));
    if message != [] {
      assert output[done[0].0] == done[0].1;
    }
    forall j | 0 <= j < |calls|
      ensures calls[j] < |calls| && index(calls[j]) == |message| + calls[j]
    {
      var k := done[|message| + j].0;
      assert output[k] == item(calls[j], calls[j]);
      assert k >= |opening|;
    }
  }

  lemma ListShapes(h: seq<Event>, status: Status)
    ensures DoneCalls(h, |CallNumbers(h)|) == Closed(CallNumbers(h), CallIndex(h), CallItem(h))
    ensures DocumentCalls(h) == Listed(CallNumbers(h), CallItem(h))
    ensures CallItems(CallItem(h))
  {
  }

  lemma AgreementBoundsCalls(h: seq<Event>, status: Status)
    requires Agrees(DoneList(h, status), Document(h, status))
    ensures HasText(h) <==> TextOf(h) != "" || CallNumbers(h) == []
    ensures HasText(h) ==> OutputIndex(h, TextKey) == 0
    ensures forall j :: 0 <= j < |CallNumbers(h)| ==> PlacedAfterText(h, CallNumbers(h)[j])
  {
    var message := if HasText(h) then [(OutputIndex(h, TextKey) as nat, Message(MessageId, status, TextOf(h)))] else [];
    var opening := if TextOf(h) != "" || CallNumbers(h) == [] then [Message(MessageId, status, TextOf(h))] else [];
    ListShapes(h, status);
    AgreementPlaces(message, opening, CallNumbers(h), CallIndex(h), CallItem(h));
    forall j | 0 <= j < |CallNumbers(h)|
      ensures PlacedAfterText(h, CallNumbers(h)[j])
    {
      assert CallIndex(h)(CallNumbers(h)[j]) == |message| + CallNumbers(h)[j];
    }
  }

  /** Conversely, places in order agree. */
  lemma PlacesAgree(
    message: seq<(nat, OutItem)>, opening: seq<OutItem>, calls: seq<u32>,
    index: u32 -> nat, item: (u32, nat) -> OutItem)
    requires |message| == |opening| <= 1 && (message != [] ==> message[0] == (0, opening[0]))
    requires forall j :: 0 <= j < |calls| ==> calls[j] == j && index(calls[j]) == |message| + j
    ensures Agrees(message + Closed(calls, index, item), opening + Listed(calls, item))
  {
    var done, output := message + Closed(calls, index, item), opening + Listed(calls, item);
    SplitEntries(message, Closed(calls, index, item));
    SplitEntries(opening, Listed(calls, item));
    forall k | 0 <= k < |done|
      ensures done[k].0 == k && output[k] == done[k].1
    {
      assert k >= |message| ==> calls[k - |message|] == k - |message|;
    }
  }

  lemma InOrderAgrees(h: seq<Event>, status: Status)
    requires InOrder(h)
    ensures Agrees(DoneList(h, status), Document(h, status))
  {
    var message := if HasText(h) then [(OutputIndex(h, TextKey) as nat, Message(MessageId, status, TextOf(h)))] else [];
    var opening := if TextOf(h) != "" || CallNumbers(h) == [] then [Message(MessageId, status, TextOf(h))] else [];
    OrderedIndices(h);
    CallNumbersAscend(h);
    ListShapes(h, status);
    PlacesAgree(message, opening, CallNumbers(h), CallIndex(h), CallItem(h));
  }

  lemma {:induction false} AgreementForcesOrder(h: seq<Event>, status: Status)
    requires Agrees(DoneList(h, status), Document(h, status))
    ensures InOrder(h)
  {
    var calls, seen := CallNumbers(h), FirstSeen(h);
    var m := AsCount(HasText(h));
    AgreementBoundsCalls(h, status);
    CallNumbersAscend(h);
    if calls != [] {
      assert PlacedAfterText(h, calls[|calls| - 1]);
    }
    DenseWhenBounded(calls);
    FirstSeenDistinct(h);
    if HasText(h) {
      PositionFound(seen, TextKey);
    }
    forall j | m <= j < |seen|
      ensures seen[j] == ToolKey(calls[j - m])
    {
      assert PlacedAfterText(h, calls[j - m]);
      CallNumbersSeen(h, calls[j - m]);
      PositionFound(seen, ToolKey(calls[j - m]));
    }
  }

  lemma AgreesExactlyInOrder(h: seq<Event>, status: Status)
    ensures Agrees(DoneList(h, status), Document(h, status)) <==> InOrder(h)
  {
    if InOrder(h) {
      InOrderAgrees(h, status);
    } else if Agrees(DoneList(h, status), Document(h, status)) {
      AgreementForcesOrder(h, status);
    }
  }

  /** The item that ended the run, if one did. */
  function Outcome(items: seq<Item>): Option<Item> {
    if items == [] then None else if Ends(items[0]) then Some(items[0]) else Outcome(items[1..])
  }

  predicate Completes(items: seq<Item>) {
    Outcome(items).Some? && Outcome(items).value.Produced? && Outcome(items).value.event.Completed?
  }

  lemma StepDoesNotClose(h: seq<Event>, e: Event)
    ensures DoneItems(Step(h, e)) == []
  {
    NoDoneItems(Step(h, e));
  }

  lemma LastStays<T>(front: seq<T>, tail: seq<T>)
    ensures tail != [] ==> front + tail != [] && (front + tail)[|front + tail| - 1] == tail[|tail| - 1]
  {
  }

  lemma {:induction false} BodyCloses(h: seq<Event>, rest: seq<Item>)
    ensures var (all, body) := (h + Consumed(rest), Body(h, rest));
            if Completes(rest) then
              var e := Outcome(rest).value.event;
              && DoneItems(body) == DoneList(all, StatusOf(e.finish))
              && body != []
              && body[|body| - 1] == Terminal(StatusOf(e.finish), Document(all, StatusOf(e.finish)), e.usage, None)
            else
              DoneItems(body) == [] && body != [] && body[|body| - 1].Terminal? && body[|body| - 1].status == Failed
                && body[|body| - 1].output == []
    decreases rest
  {
    if rest == [] || rest[0].Failure? {
      NoDoneItems(Body(h, rest));
    } else if rest[0].event.Completed? {
      assert h + Consumed(rest) == h;
      ClosingDoneItems(h, rest[0].event.usage, rest[0].event.finish);
    } else {
      var e := rest[0].event;
      BodyUnfolds(h, rest);
      BodyCloses(h + [e], rest[1..]);
      StepDoesNotClose(h, e);
      DoneItemsConcat(Step(h, e), Body(h + [e], rest[1..]));
      LastStays(Step(h, e), Body(h + [e], rest[1..]));
    }
  }

  lemma TranscriptCloses(items: seq<Item>)
    ensures DoneItems(Transcript(items)) == DoneItems(Body([], items))
    ensures Body([], items) != []
    ensures Transcript(items)[|Transcript(items)| - 1] == Body([], items)[|Body([], items)| - 1]
  {
    DoneItemsConcat([Created, InProgress], Body([], items));
    NoDoneItems([Created, InProgress]);
    BodyEndsOnce([], items);
  }

  function Last(items: seq<Item>): Payload {
    BodyEndsOnce([], items);
    Transcript(items)[|Transcript(items)| - 1]
  }

  /** On a completed run, the terminal `response.output` agrees with the streamed items exactly when
      the engine's items came in order. Otherwise call items are renumbered, items change place, or the
      document carries a message that was never streamed (or drops an empty one that was). */
  lemma DocumentAgreesExactlyInOrder(items: seq<Item>)
    requires Completes(items)
    ensures Last(items).Terminal?
    ensures Agrees(DoneItems(Transcript(items)), Last(items).output) <==> InOrder(Consumed(items))
  {
    var status := StatusOf(Outcome(items).value.event.finish);
    assert [] + Consumed(items) == Consumed(items);
    BodyCloses([], items);
    TranscriptCloses(items);
    AgreesExactlyInOrder(Consumed(items), status);
  }

  /** A failed run closes no item and its document lists none. */
  lemma FailedRunsCloseNothing(items: seq<Item>)
    requires !Completes(items)
    ensures DoneItems(Transcript(items)) == []
    ensures Last(items).Terminal? && Last(items).status == Failed && Last(items).output == []
  {
    BodyCloses([], items);
    TranscriptCloses(items);
  }

  /** A stream on which agreement fails: the engine completes without producing anything, and the
      document lists a message item that no event announced. */
  lemma SilentRunDisagrees()
    ensures !InOrder([])
    ensures Document([], Complete) == [Message(MessageId, Complete, "")]
    ensures Transcript([Produced(Completed(None, Stop))]) ==
            [Created, InProgress, Terminal(Complete, [Message(MessageId, Complete, "")], None, None)]
  {
    assert DoneCalls([], 0) == [];
  }

  // ----- Reasoning leaves no trace

  /** Two histories no event can tell apart. */
  ghost predicate SameView(h: seq<Event>, g: seq<Event>) {
    && FirstSeen(h) == FirstSeen(g) && TextOf(h) == TextOf(g) && CallNumbers(h) == CallNumbers(g)
    && forall i: u32 :: SameCall(h, g, i)
  }

  ghost predicate SameCall(h: seq<Event>, g: seq<Event>, i: u32) {
    && ArgumentsOf(h, i) == ArgumentsOf(g, i) && CallIdOf(h, i) == CallIdOf(g, i)
    && NameOf(h, i) == NameOf(g, i) && Announced(h, i) == Announced(g, i)
  }

  lemma SameViewExtends(h: seq<Event>, g: seq<Event>, e: Event)
    requires SameView(h, g)
    ensures SameView(h + [e], g + [e])
  {
    assert (h + [e])[..|h|] == h && (g + [e])[..|g|] == g;
    forall i: u32
      ensures SameCall(h + [e], g + [e], i)
    {
      assert SameCall(h, g, i);
    }
  }

  lemma SameViewSkips(h: seq<Event>, g: seq<Event>, e: Event)
    requires SameView(h, g) && (e.ReasoningDelta? || e.ReasoningCompleted?)
    ensures SameView(h + [e], g)
  {
    assert (h + [e])[..|h|] == h;
    forall i: u32
      ensures SameCall(h + [e], g, i)
    {
      assert SameCall(h, g, i);
    }
  }

  lemma {:induction false} SameToolStep(h: seq<Event>, g: seq<Event>, e: Event)
    requires SameView(h, g) && SameView(h + [e], g + [e]) && e.ToolCallDelta?
    ensures Step(h, e) == Step(g, e)
  {
    assert SameCall(h, g, e.index) && SameCall(h + [e], g + [e], e.index);
  }

  lemma {:induction false} SameStep(h: seq<Event>, g: seq<Event>, e: Event)
    requires SameView(h, g)
    ensures Step(h, e) == Step(g, e)
  {
    SameViewExtends(h, g, e);
    if e.ToolCallDelta? {
      SameToolStep(h, g, e);
    }
  }

  lemma {:induction false} SameCallsDone(h: seq<Event>, g: seq<Event>, n: nat)
    requires SameView(h, g) && n <= |CallNumbers(h)|
    ensures CallsDone(h, n) == CallsDone(g, n)
  {
    if n > 0 {
      SameCallsDone(h, g, n - 1);
      assert SameCall(h, g, CallNumbers(h)[n - 1]);
    }
  }

  lemma SameClosing(h: seq<Event>, g: seq<Event>, usage: Option<Usage>, finish: Finish)
    requires SameView(h, g)
    ensures Closing(h, usage, finish) == Closing(g, usage, finish)
  {
    SameCallsDone(h, g, |CallNumbers(h)|);
    forall j | 0 <= j < |CallNumbers(h)|
      ensures CallOf(h, CallNumbers(h)[j], j) == CallOf(g, CallNumbers(g)[j], j)
    {
      assert SameCall(h, g, CallNumbers(h)[j]);
    }
    assert Document(h, StatusOf(finish)) == Document(g, StatusOf(finish));
  }

  lemma {:induction false} SameBody(h: seq<Event>, g: seq<Event>, rest: seq<Item>)
    requires SameView(h, g)
    ensures Body(h, rest) == Body(g, WithoutReasoning(rest))
    decreases rest
  {
    if rest == [] || rest[0].Failure? {
    } else if rest[0].event.Completed? {
      SameClosing(h, g, rest[0].event.usage, rest[0].event.finish);
    } else {
      var e := rest[0].event;
      if IsReasoning(rest[0]) {
        SameViewSkips(h, g, e);
        SameBody(h + [e], g, rest[1..]);
        assert Step(h, e) == [];
      } else {
        SameViewExtends(h, g, e);
        SameStep(h, g, e);
        SameBody(h + [e], g + [e], rest[1..]);
        var w := WithoutReasoning(rest);
        assert w[0] == rest[0] && w[1..] == WithoutReasoning(rest[1..]);
      }
    }
  }

  /** Deleting every reasoning event from the engine stream changes nothing a client sees. */
  lemma ReasoningLeavesNoTrace(items: seq<Item>)
    ensures Transcript(WithoutReasoning(items)) == Transcript(items)
  {
    assert SameView([], []);
    SameBody([], [], items);
  }
}
