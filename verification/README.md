# Scala: verified models of its hardest components

Scala serves language models through public and private HTTP routes and federates nodes over a link.
This project models the parts of it whose correctness is decided by intricate code, and proves their
properties with Dafny 4.11. `dafny verify dfyconfig.toml` checks the whole project.

## What is modelled

**Container admission.** `CheckedU64`, `Geometry`, `Payload`, `Objects` and `Proposal` follow the
inspection of an NInfer v3 container: u64 arithmetic for quantised tensor layouts, the table of files that
carries one logical payload, the one-pass check of the object directory, reads that cross file boundaries,
and the indexed proposal bound through parts. `Inventory` and `InventoryLaws` hold the two independent
descriptions of the parameter inventory and prove that they agree; `Rope` holds the rotary section check.
`GgufFormat`, `GgufReader` and `GgufMetadata` follow the byte-budgeted recursive reader of GGUF headers.

**Public streams.** `Engine` lists the engine's events. `Responses` states the event stream a Responses
client must see as a function of them, `ResponsesLaws` proves its laws, and `ResponseStream` is the mutable
stream state with its queue, counters and ordered map of calls, proved to emit exactly that stream. `Chat`
and `Completions` do the same for the other two routes.

**Federation.** `Routing` and `RoutingLaws` relate the listing of models to the resolution of aliases.
`Peers` is the shared peer snapshot with its refresh, completion, control and error steps. `Frames` is the
framed byte protocol of forwarded responses.

**Numbers and canonical JSON.** `Numbers` is the decimal normal form of JSON number lexemes (section 6 of
RFC 8259), `SchemaNumbers` the bounded search of a schema for numbers that native parsing would change.
`CanonicalJson`, `CanonicalJsonLaws` and `DeploymentSeal` are the canonical printer (strings escaped as in
section 7 of RFC 8259), a parser that undoes it, and the seal check.

**Decisions and keys.** `DecisionKeys`, `Decisions` and `DecisionLaws` are the translation of ordered
questions to a keyed native request and back. `Hex`, `KeyStore` and `KeyStoreLaws` are the API-key store,
its locked updates, and the clients that interleave on it.

`Wrappers`, `Sequences`, `Bytes`, `Digits` and `Lex` hold what several modules share.

Code that works step by step (stream states, the peer list, the GGUF reader, the key store, buffers and
loops) is modelled as classes, arrays and loops, each proved against a function; what the code promises is
then proved about that function. Code made of calls and matches is modelled as functions.

## Findings

Where a promise does not hold of the code as it stands, the model keeps the code, exhibits an input and
proves exactly when the promise holds.

- The terminal `response.output` agrees with the streamed items only when the engine produced something,
  any text item came first and is nonempty unless it is the only item, and calls were numbered densely in
  order (`ResponsesLaws.DocumentAgreesExactlyInOrder`). A run that completes without producing anything
  already disagrees (`ResponsesLaws.SilentRunDisagrees`).
- Argument deltas follow the announcement of their call only when the engine names the call no later than
  it gives it arguments (`ResponsesLaws.ArgumentsFollowAnnouncement`, `ResponsesLaws.ArgumentsMayComeFirst`).
- The binding contract by itself checks the widths it multiplies but not the element count: it describes a
  parameter without error where the validators' count overflows, exactly when the described element count
  exceeds u64 (`InventoryLaws.ContractMayExceedU64`, `InventoryLaws.CountedExactlyWhenItFits`). This concerns
  `binding_contract` in isolation: inspection runs the validators first, and they refuse every such
  configuration (`InventoryLaws.OversizedShapesAreRefused`).
- The contract does not bound a declared proposal row count by u32 as the validators do, and the two
  descriptions agree on a configuration exactly when that count is a u32 (`InventoryLaws.WideProposalDiffers`,
  `InventoryLaws.StepsExact`).
- Zero-padded keys keep index order exactly for the first 10^8 indices; requests have at most 1024 questions
  and 255 options, so none gets there (`DecisionKeys.KeyOrderBreaks`, `DecisionKeys.KeyOrderExact`).
- A key-store update reported as failed has changed the file exactly when setting the permissions of the new
  file, after it took the old one's place, is what failed (`KeyStoreLaws.FailureExact`,
  `KeyStoreLaws.LateFailureChanges`, `KeyStoreLaws.LateRevocationChanges`).
- The local node stays out of its own peer list exactly when no other node of a Wayfinder status has its id,
  or the status is in conflict and no peer of that id was listed before
  (`Peers.LocalNodeEntersExactlyWhenItsIdIsShared`).
- The schema search reports a number whose value native parsing keeps exactly when its exact decimal is out of
  reach, such as a zero with an exponent beyond i64 (`SchemaNumbers.KeptMeansSameRational`,
  `SchemaNumbers.ZerosKeptExactly`, `SchemaNumbers.HugeZeroIsReported`).
- A range outside the payload is refused exactly when it is not empty, or the last file cannot seek that far
  and it does not start at 2^64 - 1 (`Payload.EmptyReadsPastTheEnd`, `Payload.ReadResource`). No admitted
  object is empty, so inspection never asks for such a range.

## Model

| member | source | states |
|---|---|---|
| CheckedU64.AlignExact | crates/scala-core/src/ninfer_v3.rs:46-57 | the checked alignment fails exactly when the next multiple of the alignment lies outside u64, and otherwise is that multiple |
| CheckedU64.RoundUpIsLeast | crates/scala-core/src/ninfer_v3.rs:54-57 | the aligned value is the least multiple that is not below the input |
| Geometry.ElementsExact | crates/scala-core/src/ninfer_v3.rs:57-65 | the left fold over a shape overflows exactly when the unbounded product of the shape does: no intermediate product can fail first |
| Geometry.GeometryExact | crates/scala-core/src/ninfer_v3.rs:57-121 | a tensor row is admitted if and only if its format and layout are supported and its byte count is the unbounded-integer plane layout, with every quantity inside u64: no wraparound and no spurious rejection |
| Geometry.PlanesHoldEveryElement | crates/scala-core/src/ninfer_v3.rs:66-121 | every division of a supported layout is exact and the planes hold all padded elements at the width of the format, with whole groups and blocks |
| Geometry.RoundingOverhead | crates/scala-core/src/ninfer_v3.rs:66-121 | of an admitted tensor all but fewer than 256 bytes an aligned plane is data or scales |
| Payload.PayloadStartExact | crates/scala-core/src/ninfer_v3.rs:184-200 | the payload starts at the first 4096-byte boundary behind the directory, and only when the directory length is admissible and the entry file reaches that boundary |
| Payload.AdmitFiles | crates/scala-core/src/ninfer_v3.rs:210-273 | the file loop accepts a table if and only if every row is well placed: null entry path, distinct plain sibling names, matching continuation headers, exact file lengths, a total inside u64; and it returns each file with its place in the logical payload |
| Payload.AdmittedTableSpreads | crates/scala-core/src/ninfer_v3.rs:225-273 | the files of an admitted table spread the concatenation of their payload regions without gap or overlap |
| Payload.ReadResource | crates/scala-core/src/ninfer_v3.rs:1155-1190 | over spread files a read succeeds exactly on a range inside the payload, or an empty range past its end that the last file can seek to or that starts at 2^64 - 1, and then delivers that slice whatever file boundaries it crosses |
| Payload.EmptyReadsPastTheEnd | crates/scala-core/src/ninfer_v3.rs:1162-1178 | a container with one byte of payload over which empty ranges outside the payload are read at two offsets and refused at a third |
| Payload.CopyFrom | crates/scala-core/src/ninfer_v3.rs:1166-1183 | one file contributes to a read exactly when it has all the bytes asked of it, and then the buffer holds the payload slice so far |
| Objects.AdmitObjects | crates/scala-core/src/ninfer_v3.rs:274-313 | the one-pass object loop accepts exactly the directories whose rows are well formed, in order, pairwise disjoint, distinctly named and inside the payload, and returns them by name |
| Objects.ObjectsNeverShareBytes | crates/scala-core/src/ninfer_v3.rs:282-313 | two distinct admitted objects never share a byte of the logical payload |
| Objects.ReadObject | crates/scala-core/src/ninfer_v3.rs:274-313 | every admitted object can be read back through the files, and is its own slice of the payload |
| Objects.Inspect | crates/scala-core/src/ninfer_v3.rs:184-313 | header, file table and object directory together are accepted exactly when admissible, and then the files spread the carried payload and every object lies in it |
| Objects.InspectAndRead | crates/scala-core/src/ninfer_v3.rs:184-313 | end to end, an object can be read exactly when inspection admits the container and the object, and is then its slice of the carried payload |
| Proposal.TokenCount | crates/scala-core/src/ninfer_v3.rs:576-616 | a binding of `rows` elements, whole or in parts, denotes a list of exactly `rows` tokens |
| Proposal.BoundRanges | crates/scala-core/src/ninfer_v3.rs:503-530 | reading the byte ranges of an admitted binding yields exactly the words it denotes |
| Proposal.ReadRanges | crates/scala-core/src/ninfer_v3.rs:527-539 | gathering ranges under the inspection limit succeeds exactly when all of them lie inside the payload and fit the limit, and concatenates them in order |
| Proposal.TokensAdmitted | crates/scala-core/src/ninfer_v3.rs:557-572 | the token loop accepts exactly the lists whose tokens are nonnegative, below the vocabulary and pairwise distinct |
| Proposal.AdmitProposal | crates/scala-core/src/ninfer_v3.rs:498-573 | an indexed proposal is admitted if and only if its bound token list is an injection from [0, rows) into [0, vocab), through parts, object offsets and file boundaries |
| Proposal.InspectProposal | crates/scala-core/src/ninfer_v3.rs:184-573 | from the file and object rows of the directory on, an indexed proposal passes exactly when header, files and objects are admissible and the list bound to it is such an injection |
| Rope.CountAxes | crates/scala-core/src/ninfer_v3.rs:841-849 | the interleaved counting loop that the closed form stands in for |
| Rope.AxesAreCounts | crates/scala-core/src/ninfer_v3.rs:843-846 | the closed form equals the loop for every section and pair count, and its subtraction never underflows |
| Rope.SectionsExact | crates/scala-core/src/ninfer_v3.rs:836-849 | the check passes if and only if the sections add up and every interleaved section is fully used |
| InventoryLaws.StepsExact | crates/scala-core/src/ninfer_v3.rs:653-1154 | the validators and the binding contract agree on every parameter of a configuration, with counts and shapes standing and falling together, if and only if no proposal declares more rows than u32 holds (given the two text widths, without which both refuse) |
| InventoryLaws.ValidatedInventory | crates/scala-core/src/ninfer_v3.rs:1195-1457 | when the validators accept the counts of the bindings, the contract describes each required parameter with a shape of exactly the bound number of elements |
| InventoryLaws.CountedExactlyWhenItFits | crates/scala-core/src/ninfer_v3.rs:653-1154 | where the contract describes a required parameter the validators compute its count exactly when the element count of the shape fits u64, and it is that element count |
| InventoryLaws.OversizedShapesAreRefused | crates/scala-core/src/ninfer_v3.rs:1195-1457 | a configuration for which the contract describes a required shape beyond u64 is refused by the validators whatever its bindings count |
| InventoryLaws.ContractMayExceedU64 | crates/scala-core/src/ninfer_v3.rs:644-652 | the binding contract taken alone: a configuration for which it describes a matrix without error although the element count of the validators overflows |
| InventoryLaws.WideProposalDiffers | crates/scala-core/src/ninfer_v3.rs:884-897 | a declared row count beyond u32 is refused by the validators and described by the contract |
| GgufFormat.ValueUnique | crates/scala-core/src/model.rs:799-853 | the encodings of one value type form a prefix code, nested arrays included |
| GgufFormat.EntriesUnique | crates/scala-core/src/model.rs:598-608 | the digested run of entries is uniquely decodable although nothing counts or separates them |
| GgufReader.Reader.Raw | crates/scala-core/src/model.rs:744-765 | a read succeeds exactly when the bytes are there and the budget covers them; on success the count is exactly what was read, and within 128 MiB |
| GgufReader.Reader.Str | crates/scala-core/src/model.rs:782-797 | a string is read exactly when a length-prefixed UTF-8 string within the limit stands there, and is hashed in full or not at all |
| GgufReader.Reader.Value | crates/scala-core/src/model.rs:799-853 | terminates on every input; succeeds exactly when an acceptable value of the type stands there within the budget; the bytes consumed bound the number of calls |
| GgufReader.Reader.Array | crates/scala-core/src/model.rs:826-840 | an array is read exactly when its header and all of its elements, nested without limit, stand there within the budget |
| GgufReader.ArraysFail | crates/scala-core/src/model.rs:826-840 | when the next element cannot be read, no array of any kind stands there: failing early loses nothing |
| GgufMetadata.ReadEntry | crates/scala-core/src/model.rs:598-627 | an entry is read exactly when one stands there, and it is digested exactly when it is a tokenizer field |
| GgufMetadata.StandsOnce | crates/scala-core/src/model.rs:558-627 | at most one metadata stands at the start of an input |
| GgufMetadata.Inspect | crates/scala-core/src/model.rs:558-700 | inspection succeeds if and only if admissible metadata with an architecture string stands at the start of the input, and reports the last architecture and template and the digest input of the tokenizer fields in order |
| GgufMetadata.InspectGguf | crates/scala-core/src/model.rs:558-700 | under the magic and key names of the source an input is accepted exactly when some admissible reading of it names an architecture, and the reported architecture is the text under that name |
| GgufMetadata.DigestSeesTokenizerOnly | crates/scala-core/src/model.rs:598-608 | two metadata have the same digest input if and only if they have the same tokenizer fields in the same order, whatever stands between them |
| Responses.OneTerminalEventLast | crates/scala-api/src/responses.rs:1044-1091 | every stream has exactly one terminal event, and it is the last |
| Responses.OutputIndicesDense | crates/scala-api/src/responses.rs:1102-1197 | items get the indices 0, 1, 2, ... in order of first appearance; two items share an index if and only if more than 2^32 items appear |
| Responses.EventsCarryTheirItemsIndex | crates/scala-api/src/responses.rs:1138-1302 | every event about an item carries the index the item was first given |
| ResponsesLaws.DoneEqualsConcatenatedDeltas | crates/scala-api/src/responses.rs:1138-1302 | each done text or arguments equals the concatenation of the deltas emitted for that item |
| ResponsesLaws.CallsAnnouncedExactlyWhenNamed | crates/scala-api/src/responses.rs:1138-1197 | a call is announced at most once, and at all exactly when some delta leaves it with both an id and a name |
| ResponsesLaws.ArgumentsFollowAnnouncement | crates/scala-api/src/responses.rs:1138-1197 | every argument delta of a call follows its announcement if and only if the engine gave the call an id and a name no later than its first arguments |
| ResponsesLaws.ArgumentsMayComeFirst | crates/scala-api/src/responses.rs:1138-1197 | a run in which an argument delta is streamed before the announcement of its call |
| ResponsesLaws.AnnouncementCarriesFinalNames | crates/scala-api/src/responses.rs:1166-1190 | when ids and names are fixed on the first delta that gives them, the announcement carries the final ones |
| ResponsesLaws.DocumentAgreesExactlyInOrder | crates/scala-api/src/responses.rs:841-907 | on a completed run the terminal output lists the streamed items at their own ids and indices if and only if the engine produced something, any text item came first and is nonempty unless it is the only item, calls were numbered 0, 1, 2, ... in order, and output indices did not run out |
| ResponsesLaws.SilentRunDisagrees | crates/scala-api/src/responses.rs:841-907 | a completed run that produced nothing has a document with a message no event announced |
| ResponsesLaws.FailedRunsCloseNothing | crates/scala-api/src/responses.rs:1304-1316 | a failed run closes no item and its document lists none |
| ResponsesLaws.ReasoningLeavesNoTrace | crates/scala-api/src/responses.rs:1052-1056 | deleting every reasoning event from the engine stream leaves the public stream unchanged |
| ResponseStream.Serve | crates/scala-api/src/responses.rs:1027-1091 | the polling loop over the mutable state emits exactly the specified stream for every engine event list, and its saturating counter numbers the events 0, 1, 2, ... without a gap if and only if at most 2^64 are sent |
| ResponseStream.PublicStreamState.EnsureTextStarted | crates/scala-api/src/responses.rs:1102-1136 | the message item starts once, at the next free output index |
| ResponseStream.PublicStreamState.PushToolDelta | crates/scala-api/src/responses.rs:1138-1197 | one tool delta updates exactly the call it names, announces it when it first has an id and a name, and emits its arguments |
| ResponseStream.PublicStreamState.PushEvent | crates/scala-api/src/responses.rs:1198-1207 | an event is queued under the next sequence number |
| ResponseStream.PublicStreamState.ResponseOutput | crates/scala-api/src/responses.rs:841-907 | the output list is rebuilt from the stored calls in key order, renumbered by position |
| ResponseStream.PublicStreamState.Complete | crates/scala-api/src/responses.rs:1209-1302 | completion closes the text, then every call in key order, then ends with the terminal document |
| ResponseStream.PublicStreamState.FailWith | crates/scala-api/src/responses.rs:1304-1316 | a failure ends the stream with one failed event |
| Chat.Serve | crates/scala-api/src/chat.rs:1013-1105 | the polling loop over the mutable state emits exactly the specified lines |
| Chat.DoneOnceFinishOnSuccessOnly | crates/scala-api/src/chat.rs:1013-1164 | every stream ends in exactly one `[DONE]`; a finish reason appears exactly on the runs the engine completed, and failed runs carry an error instead |
| Chat.ChunksRebuildTheRun | crates/scala-api/src/chat.rs:1028-1125 | folding the chunks by tool index rebuilds exactly the text and the tool calls of the engine |
| Chat.ReasoningOnlyAddsReasoningChunks | crates/scala-api/src/chat.rs:1036-1060 | opting in to reasoning adds reasoning chunks and changes nothing else |
| Chat.DefaultStreamHidesReasoning | crates/scala-api/src/chat.rs:1036-1060 | by default reasoning leaves no trace in the stream |
| Completions.Serve | crates/scala-api/src/completions.rs:123-190 | the unfolded step function emits exactly the specified lines |
| Completions.DoneOnceFinishOnSuccessOnly | crates/scala-api/src/completions.rs:123-190 | every stream ends in exactly one `[DONE]` and says exactly one of a finish reason and an error |
| Completions.DeltasRebuildTheText | crates/scala-api/src/completions.rs:123-190 | concatenating the streamed deltas gives back the text of the engine |
| Completions.ReasoningLeavesNoTrace | crates/scala-api/src/completions.rs:127-141 | reasoning leaves no trace in the stream |
| Routing.PublicModels | crates/scala-api/src/lib.rs:392-467 | the pushing, counting, in-place renaming and sorting loops compute the specified listing |
| Routing.Resolve | crates/scala-api/src/link.rs:991-1069 | the pushing of candidates node by node computes the specified resolution |
| RoutingLaws.ListedIdsDistinct | crates/scala-api/src/lib.rs:417-465 | listed ids are pairwise distinct |
| RoutingLaws.PublishedListAscends | crates/scala-api/src/lib.rs:462-467 | the published list is strictly ascending by id |
| RoutingLaws.ListedIdResolvesToItsOwner | crates/scala-api/src/link.rs:991-1069 | every listed id resolves to exactly the owner it was listed for |
| RoutingLaws.ResolvedTargetIsListed | crates/scala-api/src/link.rs:991-1069 | every target that resolves is a listed host |
| RoutingLaws.FlagsNeverRedirect | crates/scala-api/src/link.rs:138-148 | changing reachability, staleness or installed flags can turn a target into its own unavailability and never into another owner |
| RoutingLaws.RetrievalMatchesRouting | crates/scala-api/src/lib.rs:479-500 | retrieval by a resolvable alias picks exactly the owner that routing picks |
| Peers.ValidateInventory | crates/scala-api/src/link.rs:499-529 | an inventory is accepted exactly when it names the node asked and its profiles are distinct |
| Peers.Link.IdentifyFrom | crates/scala-api/src/link.rs:323-346 | the identity step keeps exactly the peers still listed as remote, or nothing changes without a valid local node |
| Peers.Link.CompleteNode | crates/scala-api/src/link.rs:354-404 | one reply replaces or inserts the peer of that node; a failure only marks a known one; the list is sorted again |
| Peers.Link.ControlReply | crates/scala-api/src/link.rs:530-562 | a control reply replaces the state of the peer it came from and of no other |
| Peers.Link.SweepErrors | crates/scala-api/src/link.rs:292-301 | a failed refresh marks every peer unreachable and removes none |
| Peers.Link.Read | crates/scala-api/src/link.rs:138-148 | readers see the stored peers, those not heard from lately as unreachable |
| Peers.StepKeepsInvariant | crates/scala-api/src/link.rs:292-562 | every step keeps the list strictly sorted by node id, free of the local node, validated, and empty while the local identity is unknown |
| Peers.EveryExecutionKeepsInvariant | crates/scala-api/src/link.rs:292-562 | so does every interleaving of identity, completion, control and error steps |
| Peers.LocalNodeEntersExactlyWhenItsIdIsShared | crates/scala-api/src/link.rs:323-404 | from every list that meets the invariant, the local node stays out of its own list through a status and any reply to it if and only if no other node of the status has its id, or the status is in conflict and no peer of that id was listed |
| Peers.ViewsAreWellFormedForRouting | crates/scala-api/src/link.rs:138-148 | every reachable view meets what listing and routing rely on |
| Frames.Stream.WriteFrame | crates/scala-api/src/wayfinder.rs:241-250 | a frame is its big-endian length and its bytes |
| Frames.Stream.ReceiveFrame | crates/scala-api/src/wayfinder.rs:224-240 | a frame is read exactly when its announced length is within the limit and all of it is there |
| Frames.SendBody | crates/scala-api/src/link.rs:805-834 | an unbroken body is written as its frames and one terminator; a broken one without terminator |
| Frames.ReceiveBody | crates/scala-api/src/link.rs:457-480 | the decoder loop yields exactly what the wire bytes decode to, and an error where they stop decoding |
| Frames.FrameReadsBack | crates/scala-api/src/wayfinder.rs:224-250 | a frame within the limit is read back whole, whatever follows it |
| Frames.CutFrameFails | crates/scala-api/src/wayfinder.rs:224-240 | any proper prefix of a frame is an error to its reader |
| Frames.BodyRoundTrips | crates/scala-api/src/link.rs:457-480 | for a body in any chunks, empty ones included, the decoder yields nonempty pieces that join to exactly the body and then ends |
| Frames.TruncationIsAnError | crates/scala-api/src/link.rs:457-480 | any proper prefix of the wire bytes ends in an error, and what was yielded before it is a prefix of the body |
| Frames.Exchange | crates/scala-api/src/link.rs:791-834 | end to end the caller gets the head and exactly the bytes of an unbroken response, and an error at the end of a broken one |
| Numbers.Decimal | crates/scala-api/src/constraint_numbers.rs:19-35 | the trimming and popping loop computes the specified normal form |
| Numbers.DecimalExact | crates/scala-api/src/constraint_numbers.rs:19-35 | the normal form is defined exactly on the lexemes whose exponents stay inside i64, and is the written value there |
| Numbers.NormalFormComplete | crates/scala-api/src/constraint_numbers.rs:19-35 | two lexemes the form is defined on have equal triples if and only if they denote the same rational, signed zeros and all mixes of fraction and exponent included |
| SchemaNumbers.SearchExact | crates/scala-api/src/constraint_numbers.rs:36-123 | the search reports nothing if and only if every node reachable through the listed keywords is at depth at most 64 and every reachable number has the same exact decimal before and after native parsing |
| SchemaNumbers.ProblemIsReachable | crates/scala-api/src/constraint_numbers.rs:36-123 | a reported path leads to a reachable node that is too deep or whose decimal changes |
| SchemaNumbers.ChildrenExact | crates/scala-api/src/constraint_numbers.rs:49-121 | the nodes visited next are exactly those one keyword, member or item leads to, with the path segments the report shows |
| SchemaNumbers.KeptMeansSameRational | crates/scala-api/src/constraint_numbers.rs:41-48 | a number is kept exactly when it is representable and native parsing prints the same rational |
| SchemaNumbers.ZerosKeptExactly | crates/scala-api/src/constraint_numbers.rs:19-48 | a zero keeps its value whatever its exponent, and is kept by the search if and only if that exponent and the exponent less the fraction length fit i64 |
| SchemaNumbers.HugeZeroIsReported | crates/scala-api/src/constraint_numbers.rs:19-48 | a zero with an exponent beyond i64 that is reported although native parsing keeps its value |
| SchemaNumbers.Validate | crates/scala-api/src/constraint_numbers.rs:124-172 | a request body is admitted exactly when every gathered schema is preserved |
| CanonicalJson.RewriteExact | crates/scala-core/src/norted_package.rs:1604-1615 | rewriting the exponent of a printed float never fails and yields the signed spelling of at least two digits |
| CanonicalJsonLaws.StringReadsBack | crates/scala-core/src/norted_package.rs:1594-1617 | every escaped string reads back, up to its closing quote |
| CanonicalJsonLaws.ValueReadsBack | crates/scala-core/src/norted_package.rs:1576-1621 | reading a rendering back, whatever follows it, gives the value with its keys in order |
| CanonicalJsonLaws.PrintReadsBack | crates/scala-core/src/norted_package.rs:1576-1621 | the printer can be undone by a parser, up to key order |
| CanonicalJsonLaws.CanonExact | crates/scala-core/src/norted_package.rs:1588-1592 | sorting the keys at every depth identifies exactly the equal values |
| CanonicalJsonLaws.PrintExact | crates/scala-core/src/norted_package.rs:1576-1621 | two values render alike if and only if they are equal up to key order: rendering is injective and independent of key order |
| DeploymentSeal.SealCoversContent | crates/scala-core/src/norted_package.rs:1557-1571 | a record carrying the claim of a sealed one is sealed if and only if both agree on everything but the sealed key, unless the digest collides on their two texts |
| DeploymentSeal.SealIgnoresKeyOrder | crates/scala-core/src/norted_package.rs:1557-1571 | reordering keys at any depth never changes the verdict |
| DeploymentSeal.OneClaimSeals | crates/scala-core/src/norted_package.rs:1557-1571 | exactly one claim seals a content |
| DecisionKeys.KeysInjective | crates/scala-api/src/decisions.rs:97-102 | keys are injective for every index, and a question key is never a choice key |
| DecisionKeys.KeyOrder | crates/scala-api/src/decisions.rs:97-102 | below 10^8 the order of the keys is the order of the indices |
| DecisionKeys.KeyOrderBreaks | crates/scala-api/src/decisions.rs:97-102 | the ninth digit breaks that order, for both kinds of key |
| DecisionKeys.KeyOrderExact | crates/scala-api/src/decisions.rs:97-102 | the first n keys of either kind are ordered like their indices if and only if n is at most 10^8 |
| Decisions.ConvertChoices | crates/scala-api/src/decisions.rs:153-182 | the option loop accepts exactly the lists without a repeated value, and keys every option by its position |
| Decisions.Parse | crates/scala-api/src/decisions.rs:134-215 | the question loop accepts exactly 1 to 1024 well-sized questions, and keys every question by its position |
| Decisions.CriteriaExact | crates/scala-api/src/decisions.rs:153-182 | each choice travels under its own key and nothing else does |
| Decisions.KeyedExact | crates/scala-api/src/decisions.rs:134-215 | each question travels under its own key and nothing else does |
| Decisions.ConvertAnswers | crates/scala-api/src/decisions.rs:348-441 | the answer loop succeeds exactly when there is one convertible answer under each requested key and none besides, and keeps their order |
| Decisions.Respond | crates/scala-api/src/decisions.rs:337-482 | a reply is converted exactly when its answers are, its model is named and its usage counters are complete with a total that is their sum in u64; the response carries all three |
| DecisionLaws.AcceptedKeys | crates/scala-api/src/decisions.rs:319-336 | an accepted distribution has exactly the requested keys with the backend probabilities, each in [0, 1], and sums to one up to the tolerance |
| DecisionLaws.SumPermutes | crates/scala-api/src/decisions.rs:331-333 | sums over a map depend only on its entries, not on their order |
| DecisionLaws.ChoicePositions | crates/scala-api/src/decisions.rs:372-397 | every option carries the probability of its own key, and the chosen value is the option whose key was chosen |
| DecisionLaws.LevelPositions | crates/scala-api/src/decisions.rs:398-436 | every level carries its own index, label and probability |
| DecisionLaws.AcceptedScore | crates/scala-api/src/decisions.rs:426-436 | an accepted score is the expectation of the level indices in index order up to the tolerance, and lies in the level range up to the two tolerances |
| DecisionLaws.Ask | crates/scala-api/src/decisions.rs:104-482 | end to end, answer i is the conversion of what the backend answered to question i |
| Hex.EncodeHex | crates/scala-core/src/auth.rs:505-513 | the encoding loop writes two lower-case digits a byte |
| Hex.DecodeSha256 | crates/scala-core/src/auth.rs:485-494 | the buffer-filling loop succeeds exactly on 64 digits of either case |
| Hex.DecodeEncoded | crates/scala-core/src/auth.rs:485-513 | decoding inverts encoding |
| Hex.EncodeDecoded | crates/scala-core/src/auth.rs:485-513 | encoding what was decoded gives the same digits in lower case |
| Hex.ConstantTimeEqual | crates/scala-core/src/auth.rs:515-523 | the accumulated difference is zero if and only if the digests are equal |
| KeyStore.Validate | crates/scala-core/src/auth.rs:112-154 | the validation loop accepts exactly states of the right version with at most 256 well-formed records of distinct ids |
| KeyStore.ApiKeyStore.Update | crates/scala-core/src/auth.rs:335-363 | the locked read-modify-write leaves exactly the specified file, whatever fails where |
| KeyStore.ApiKeyStore.Verify | crates/scala-core/src/auth.rs:323-333 | a credential is accepted exactly when it has the shape of a secret and an active record holds its digest |
| KeyStoreLaws.UpdateKeeps | crates/scala-core/src/auth.rs:276-363 | every update keeps the store sound, loses and alters no record, and never changes a revocation time once set |
| KeyStoreLaws.FailureExact | crates/scala-core/src/auth.rs:335-419 | a failed update has changed the file if and only if it failed after the replacement had taken its place and would otherwise have gone through |
| KeyStoreLaws.LateFailureChanges | crates/scala-core/src/auth.rs:387-419 | the creation of the first key of a missing store can be reported as failed and have been written all the same |
| KeyStoreLaws.LateRevocationChanges | crates/scala-core/src/auth.rs:387-419 | the revocation of any active record can be reported as failed and have been written all the same |
| KeyStoreLaws.StepIsUpdate | crates/scala-core/src/auth.rs:335-363 | mutual exclusion makes every commit a whole update of the file as it stands |
| KeyStoreLaws.EveryInterleavingKeeps | crates/scala-core/src/auth.rs:335-363 | over every interleaving of clients that may stop anywhere, ids stay unique, records number at most 256, none is lost, and revocation times never change |
| KeyStoreLaws.CreatedSecretAccepted | crates/scala-core/src/auth.rs:276-305 | a secret is accepted as soon as its creation is written |
| KeyStoreLaws.RevokedNeverVerifies | crates/scala-core/src/auth.rs:307-333 | from every sound store of distinct digests that no issued secret hits, with fresh secrets and no digest collision among them, a revoked secret is never accepted again, in any interleaving |

## Left out

- Proposal.InspectProposal: file rows, object rows and the binding are given as parsed from the directory, and the component, use and inventory checks of the inspection are not part of it.
- KeyStoreLaws.RevokedNeverVerifies: assumes that issued secrets are distinct, that the digest does not collide on them, and that the store at the start has distinct digests that none of them hits.
- DeploymentSeal.SealCoversContent: assumes that the digest does not collide on the two texts compared.
- GgufMetadata.Inspect: reports the architecture, the chat template and the tokenizer digest; the numeric, decimal, projector and decision fields read from other keys are not interpreted, scalars stay bytes, and truncation is not told apart from other malformed input.
- GgufMetadata.InspectGguf: the same, under the names of the source.
- Payload.ReadFromFile: offsets are signed 64-bit integers; a file is no longer and a seek goes no further than 2^63 - 1, the largest bound a platform can have. A file system with a smaller maximum refuses seeks beyond it that the model accepts.
- GgufReader.Reader.Value: the digest is the sequence of bytes fed to it, since SHA-256 stays abstract.
- SHA-256, base64, UUIDs, clocks and random bytes are parameters.
- Files are byte sequences that do not change between inspection and reading; symbolic links, permissions and directory walking are not modelled.
- JSON and TOML parsing are not modelled; values arrive as trees, with number lexemes and member names where the code reads them. The canonical printer works on characters, not on their UTF-8 bytes.
- Floating point is modelled over the reals in the decision checks, with the non-finite values kept apart; the shortest float printer is taken as injective, and rotary widths that the source computes in floating point arrive as integers.
- Parameter names are sequences of segments, not strings; index segments in spellings other than plain decimals, and input roles and value formats of the binding contract, are not modelled.
- The checks on strings, floats and member names inside component configurations are one flag per component.
- Item ids of a response are injective constructors instead of generated strings; the other members of the event documents (model, tools, usage details) do not vary within a stream and are not modelled.
- The bodies of error messages and their HTTP status codes.
- HTTP routing, middleware, timeouts, back-pressure, TCP and pipe input and output, process supervision.
- The runtime manager, engine adapters, settings resolution and runtime packs.
- The merging of assistant messages in the Responses request, the clearing of tool-result names in the Chat request, and the request-field checks, whose properties follow from single branches.
- Package planning and discovery, and the legacy NInfer directory reader.
- Node ids from Wayfinder and decoded profile ids are assumed valid where listing and routing rely on them; `Peers.ViewsAreWellFormedForRouting` states the assumption.
