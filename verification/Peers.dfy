/** The federated peer list. A refresh loop, the completions of its per-node requests, control
    replies and error sweeps each update it under one lock, in any interleaving. */
module Peers {
  import opened Wrappers
  import Lex
  import Routing

  // ----- Data

  datatype ProfileRow = ProfileRow(id: string, installed: bool, engineIdOk: bool)

  datatype Inventory = Inventory(version: nat, nodeId: string, profiles: seq<ProfileRow>, models: nat)

  datatype LinkPeer = LinkPeer(nodeId: string, name: string, reachable: bool, lastSeen: int,
                               error: Option<string>, state: Option<Inventory>)

  datatype LinkSnapshot = LinkSnapshot(nodeId: Option<string>, nodeName: Option<string>,
                                       error: Option<string>, peers: seq<LinkPeer>)

  datatype Node = Node(id: string, name: string, isLocal: bool, reachable: bool)

  datatype Status = Status(nodes: seq<Node>, conflict: bool)

  const LINK_VERSION: nat := 1
  const MAX_ROWS: nat := 4096
  const STALE_SECONDS: int := 15

  // ----- Validation of an owner's inventory

  ghost predicate Validated(inv: Inventory, target: string) {
    && inv.version == LINK_VERSION && inv.nodeId == target
    && |inv.profiles| <= MAX_ROWS && inv.models <= MAX_ROWS
    && (forall i :: 0 <= i < |inv.profiles| ==> inv.profiles[i].engineIdOk)
    && (forall i, j :: 0 <= i < j < |inv.profiles| ==> inv.profiles[i].id != inv.profiles[j].id)
  }

  method ValidateInventory(inv: Inventory, target: string) returns (ok: bool)
    ensures ok <==> Validated(inv, target)
  {
    if inv.version != LINK_VERSION || inv.nodeId != target || |inv.profiles| > MAX_ROWS || inv.models > MAX_ROWS {
      return false;
    }
    var seen: set<string> := {};
    for i := 0 to |inv.profiles|
      invariant forall j :: 0 <= j < i ==> inv.profiles[j].id in seen && inv.profiles[j].engineIdOk
      invariant forall id :: id in seen ==> exists j :: 0 <= j < i && inv.profiles[j].id == id
      invariant forall j, k :: 0 <= j < k < i ==> inv.profiles[j].id != inv.profiles[k].id
    {
      if inv.profiles[i].id in seen || !inv.profiles[i].engineIdOk {
        return false;
      }
      seen := seen + {inv.profiles[i].id};
    }
    return true;
  }

  // ----- The locked updates

  datatype Step =
    | Identify(status: Status)
    | ClearError
    | Complete(node: Node, reply: Result<Inventory, string>, now: int)
    | Control(nodeId: string, inventory: Inventory, now: int)
    | Sweep(error: string)

  /** The first node Wayfinder marks local. */
  function LocalNode(nodes: seq<Node>): Option<Node> {
    if nodes == [] then None else if nodes[0].isLocal then Some(nodes[0]) else LocalNode(nodes[1..])
  }

  predicate Identifies(status: Status) {
    LocalNode(status.nodes).Some? && Routing.NodeIdOk(LocalNode(status.nodes).value.id)
  }

  predicate IsMember(status: Status, id: string) {
    exists i :: 0 <= i < |status.nodes| && !status.nodes[i].isLocal && status.nodes[i].id == id
  }

  function Retained(peers: seq<LinkPeer>, status: Status): seq<LinkPeer> {
    if peers == [] then []
    else
      Retained(peers[..|peers| - 1], status)
      + if IsMember(status, peers[|peers| - 1].nodeId) then [peers[|peers| - 1]] else []
  }

  /** Position of the first peer with this id. */
  function Find(peers: seq<LinkPeer>, id: string): (i: nat)
    ensures i <= |peers| && (i < |peers| ==> peers[i].nodeId == id)
    ensures forall k :: 0 <= k < i ==> peers[k].nodeId != id
  {
    if peers == [] || peers[0].nodeId == id then 0 else 1 + Find(peers[1..], id)
  }

  const BY_NODE := (p: LinkPeer) => p.nodeId

  function Updated(peers: seq<LinkPeer>, node: Node, reply: Result<Inventory, string>, now: int): seq<LinkPeer> {
    var known := Find(peers, node.id);
    match reply
    case Ok(inventory) =>
      var peer := LinkPeer(node.id, node.name, true, now, None, Some(inventory));
      if known < |peers| then peers[known := peer] else peers + [peer]
    case Err(error) =>
      if known < |peers| then peers[known := peers[known].(reachable := false, error := Some(error))] else peers
  }

  function Unreachable(peers: seq<LinkPeer>): seq<LinkPeer> {
    seq(|peers|, i requires 0 <= i < |peers| => peers[i].(reachable := false))
  }

  function Apply(s: LinkSnapshot, step: Step): LinkSnapshot {
    match step
    case Identify(status) =>
      if Identifies(status) then
        var me := LocalNode(status.nodes).value;
        s.(nodeId := Some(me.id), nodeName := Some(me.name), peers := Retained(s.peers, status))
      else s
    case ClearError => s.(error := None)
    case Complete(node, reply, now) => s.(peers := Lex.SortBy(Updated(s.peers, node, reply, now), BY_NODE))
    case Control(id, inventory, now) =>
      var at := Find(s.peers, id);
      if at < |s.peers| then
        s.(peers := s.peers[at := s.peers[at].(state := Some(inventory), lastSeen := now)])
      else s
    case Sweep(error) => s.(error := Some(error), peers := Unreachable(s.peers))
  }

  // ----- The object holding the list

  class Link {
    var snapshot: LinkSnapshot

    constructor ()
      ensures snapshot == LinkSnapshot(None, None, None, [])
    {
      snapshot := LinkSnapshot(None, None, None, []);
    }

    /** The identity part of a refresh. Without a valid local node nothing changes. */
    method IdentifyFrom(status: Status) returns (ok: bool)
      modifies this
      ensures ok == Identifies(status) && snapshot == Apply(old(snapshot), Identify(status))
    {
      var me := LocalNode(status.nodes);
      if me.None? || !Routing.NodeIdOk(me.value.id) {
        return false;
      }
      snapshot := snapshot.(nodeId := Some(me.value.id), nodeName := Some(me.value.name));
      var kept: seq<LinkPeer> := [];
      for i := 0 to |snapshot.peers|
        invariant kept == Retained(snapshot.peers[..i], status)
        invariant snapshot == old(snapshot).(nodeId := Some(me.value.id), nodeName := Some(me.value.name))
      {
        assert snapshot.peers[..i + 1][..i] == snapshot.peers[..i];
        if IsMember(status, snapshot.peers[i].nodeId) {
          kept := kept + [snapshot.peers[i]];
        }
      }
      assert snapshot.peers[..|snapshot.peers|] == snapshot.peers;
      snapshot := snapshot.(peers := kept);
      return true;
    }

    method Clear()
      modifies this
      ensures snapshot == Apply(old(snapshot), ClearError)
    {
      snapshot := snapshot.(error := None);
    }

    /** One node's reply, or its failure. A member that never replied is not a peer. */
    method CompleteNode(node: Node, reply: Result<Inventory, string>, now: int)
      modifies this
      ensures snapshot == Apply(old(snapshot), Complete(node, reply, now))
    {
      var peers := snapshot.peers;
      var known := Find(peers, node.id);
      match reply {
        case Ok(inventory) =>
          var peer := LinkPeer(node.id, node.name, true, now, None, Some(inventory));
          if known < |peers| {
            peers := peers[known := peer];
          } else {
            peers := peers + [peer];
          }
        case Err(error) =>
          if known < |peers| {
            peers := peers[known := peers[known].(reachable := false, error := Some(error))];
          }
      }
      snapshot := snapshot.(peers := Lex.SortBy(peers, BY_NODE));
    }

    method ControlReply(id: string, inventory: Inventory, now: int)
      modifies this
      ensures snapshot == Apply(old(snapshot), Control(id, inventory, now))
    {
      var at := Find(snapshot.peers, id);
      if at < |snapshot.peers| {
        var peer := snapshot.peers[at].(state := Some(inventory), lastSeen := now);
        snapshot := snapshot.(peers := snapshot.peers[at := peer]);
      }
    }

    method SweepErrors(error: string)
      modifies this
      ensures snapshot == Apply(old(snapshot), Sweep(error))
    {
      snapshot := snapshot.(error := Some(error));
      var peers := snapshot.peers;
      for i := 0 to |peers|
        invariant |peers| == |snapshot.peers|
        invariant forall k :: 0 <= k < i ==> peers[k] == snapshot.peers[k].(reachable := false)
        invariant forall k :: i <= k < |peers| ==> peers[k] == snapshot.peers[k]
      {
        peers := peers[i := peers[i].(reachable := false)];
      }
      assert peers == Unreachable(snapshot.peers);
      snapshot := snapshot.(peers := peers);
    }

    /** What readers see: peers not heard from lately count as unreachable. */
    method Read(now: int) returns (view: LinkSnapshot)
      ensures view == View(snapshot, now)
    {
      var peers := snapshot.peers;
      for i := 0 to |peers|
        invariant |peers| == |snapshot.peers|
        invariant forall k :: 0 <= k < i ==> peers[k] == Aged(snapshot.peers[k], now)
        invariant forall k :: i <= k < |peers| ==> peers[k] == snapshot.peers[k]
      {
        if now - peers[i].lastSeen > STALE_SECONDS {
          peers := peers[i := peers[i].(reachable := false)];
          if peers[i].error.None? {
            peers := peers[i := peers[i].(error := Some("stale"))];
          }
        }
      }
      assert peers == View(snapshot, now).peers;
      view := snapshot.(peers := peers);
    }
  }

  function Aged(p: LinkPeer, now: int): LinkPeer {
    if now - p.lastSeen > STALE_SECONDS then
      p.(reachable := false, error := if p.error.Some? then p.error else Some("stale"))
    else p
  }

  function View(s: LinkSnapshot, now: int): LinkSnapshot {
    s.(peers := seq(|s.peers|, i requires 0 <= i < |s.peers| => Aged(s.peers[i], now)))
  }

  // ----- Interleavings

  /** The list, with the status whose per-node requests may still complete. A refresh is over before
      the next one starts, so there is at most one such status. */
  datatype State = State(snapshot: LinkSnapshot, round: Option<Status>)

  const INITIAL := State(LinkSnapshot(None, None, None, []), None)

  /** Which steps can happen next: completions only for members of the round in progress, with replies
      that passed validation for the node that was asked; control replies at any time, likewise. */
  ghost predicate Enabled(s: State, step: Step) {
    match step
    case Complete(node, reply, _) =>
      && s.round.Some? && !s.round.value.conflict && Identifies(s.round.value)
      && node in s.round.value.nodes && !node.isLocal
      && (reply.Ok? ==> Validated(reply.value, node.id))
    case Control(id, inventory, _) => Validated(inventory, id)
    case _ => true
  }

  function Advance(s: State, step: Step): State {
    State(Apply(s.snapshot, step), if step.Identify? then Some(step.status) else s.round)
  }

  /** No other node of a status carries the local node's id. */
  ghost predicate SeparateIds(status: Status) {
    Identifies(status) ==>
      forall n :: n in status.nodes && !n.isLocal ==> n.id != LocalNode(status.nodes).value.id
  }

  ghost predicate Execution(trace: seq<State>, steps: seq<Step>) {
    && |trace| == |steps| + 1 && trace[0] == INITIAL
    && forall i :: 0 <= i < |steps| ==> Steps(trace, steps, i)
  }

  ghost predicate Steps(trace: seq<State>, steps: seq<Step>, i: nat)
    requires i < |steps| && |trace| == |steps| + 1
  {
    Enabled(trace[i], steps[i]) && trace[i + 1] == Advance(trace[i], steps[i])
  }

  ghost predicate Invariant(s: State) {
    && Lex.Ascending(s.snapshot.peers, BY_NODE)
    && (s.snapshot.nodeId.None? ==> s.snapshot.peers == [])
    && (s.snapshot.nodeId.Some? ==> Routing.NodeIdOk(s.snapshot.nodeId.value))
    && (forall p :: p in s.snapshot.peers ==> s.snapshot.nodeId != Some(p.nodeId))
    && (forall p :: p in s.snapshot.peers ==> p.state.Some? && Validated(p.state.value, p.nodeId))
    && (s.round.Some? && Identifies(s.round.value) ==>
          && SeparateIds(s.round.value)
          && s.snapshot.nodeId == Some(LocalNode(s.round.value.nodes).value.id))
  }

  lemma {:induction false} RetainedMember(peers: seq<LinkPeer>, status: Status, p: LinkPeer)
    ensures p in Retained(peers, status) <==> p in peers && IsMember(status, p.nodeId)
  {
    if peers != [] {
      RetainedMember(peers[..|peers| - 1], status, p);
    }
  }

  lemma {:induction false} RetainedAscends(peers: seq<LinkPeer>, status: Status)
    requires Lex.Ascending(peers, BY_NODE)
    ensures Lex.Ascending(Retained(peers, status), BY_NODE)
  {
    if peers != [] {
      var front := peers[..|peers| - 1];
      RetainedAscends(front, status);
      var last := peers[|peers| - 1];
      forall p | p in Retained(front, status)
        ensures Lex.Less(BY_NODE(p), BY_NODE(last))
      {
        RetainedMember(front, status, p);
        var i :| 0 <= i < |front| && front[i] == p;
        assert Lex.Less(BY_NODE(peers[i]), BY_NODE(last));
      }
    }
  }

  lemma AscendingIsDistinct(peers: seq<LinkPeer>)
    requires Lex.Ascending(peers, BY_NODE)
    ensures Lex.DistinctKeys(peers, BY_NODE)
  {
    forall i, j | 0 <= i < j < |peers|
      ensures BY_NODE(peers[i]) != BY_NODE(peers[j])
    {
      Lex.LessIrreflexive(BY_NODE(peers[i]));
    }
  }

  lemma UpdatedDistinct(peers: seq<LinkPeer>, node: Node, reply: Result<Inventory, string>, now: int)
    requires Lex.Ascending(peers, BY_NODE)
    ensures Lex.DistinctKeys(Updated(peers, node, reply, now), BY_NODE)
  {
    AscendingIsDistinct(peers);
  }

  lemma CompleteKeeps(s: State, node: Node, reply: Result<Inventory, string>, now: int)
    requires Invariant(s) && Enabled(s, Complete(node, reply, now))
    ensures Invariant(Advance(s, Complete(node, reply, now)))
  {
    var peers, updated := s.snapshot.peers, Updated(s.snapshot.peers, node, reply, now);
    UpdatedDistinct(peers, node, reply, now);
    Lex.SortByAscends(updated, BY_NODE);
    forall p | p in Lex.SortBy(updated, BY_NODE)
      ensures s.snapshot.nodeId != Some(p.nodeId) && p.state.Some? && Validated(p.state.value, p.nodeId)
    {
      Lex.SortByMember(updated, BY_NODE, p);
      UpdatedMember(peers, node, reply, now, p);
    }
  }

  lemma UpdatedMember(peers: seq<LinkPeer>, node: Node, reply: Result<Inventory, string>, now: int, p: LinkPeer)
    requires p in Updated(peers, node, reply, now)
    ensures || p in peers
            || (reply.Ok? && p.nodeId == node.id && p.state == Some(reply.value))
            || exists q :: q in peers && q.nodeId == p.nodeId && q.state == p.state
  {
    var known := Find(peers, node.id);
    if known < |peers| {
      assert peers[known] in peers;
    }
  }

  lemma IdentifyKeeps(s: State, status: Status)
    requires Invariant(s) && SeparateIds(status)
    ensures Invariant(Advance(s, Identify(status)))
  {
    if Identifies(status) {
      RetainedAscends(s.snapshot.peers, status);
      var me := LocalNode(status.nodes).value;
      forall p | p in Retained(s.snapshot.peers, status)
        ensures p in s.snapshot.peers && p.nodeId != me.id
      {
        RetainedMember(s.snapshot.peers, status, p);
        var i :| 0 <= i < |status.nodes| && !status.nodes[i].isLocal && status.nodes[i].id == p.nodeId;
        assert status.nodes[i] in status.nodes;
      }
    }
  }

  lemma OtherStepsKeep(s: State, step: Step)
    requires Invariant(s) && Enabled(s, step) && !step.Identify? && !step.Complete?
    ensures Invariant(Advance(s, step))
  {
    var peers := s.snapshot.peers;
    var next := Advance(s, step).snapshot.peers;
    assert |next| == |peers| && forall i :: 0 <= i < |peers| ==> next[i].nodeId == peers[i].nodeId;
    forall p | p in next
      ensures s.snapshot.nodeId != Some(p.nodeId) && p.state.Some? && Validated(p.state.value, p.nodeId)
    {
      var i :| 0 <= i < |next| && next[i] == p;
      assert peers[i] in peers;
    }
  }

  /** Every step keeps the list strictly sorted, free of the local node, validated, and empty while the
      local identity is unknown. */
  lemma StepKeepsInvariant(s: State, step: Step)
    requires Invariant(s) && Enabled(s, step)
    requires step.Identify? ==> SeparateIds(step.status)
    ensures Invariant(Advance(s, step))
  {
    match step
    case Identify(status) => IdentifyKeeps(s, status);
    case Complete(node, reply, now) => CompleteKeeps(s, node, reply, now);
    case _ => OtherStepsKeep(s, step);
  }

  /** Over every interleaving from an empty list. */
  lemma {:induction false} EveryExecutionKeepsInvariant(trace: seq<State>, steps: seq<Step>, n: nat)
    requires Execution(trace, steps) && n <= |steps|
    requires forall i :: 0 <= i < |steps| && steps[i].Identify? ==> SeparateIds(steps[i].status)
    ensures Invariant(trace[n])
  {
    if n > 0 {
      EveryExecutionKeepsInvariant(trace, steps, n - 1);
      assert Steps(trace, steps, n - 1);
      StepKeepsInvariant(trace[n - 1], steps[n - 1]);
    }
  }

  ghost predicate Free(s: State, id: string) {
    forall p :: p in s.snapshot.peers ==> p.nodeId != id
  }

  /** The list is free of the local node when a status has been taken up, and after any reply to it. */
  ghost predicate StaysFree(s: State, status: Status)
    requires Identifies(status)
  {
    var (after, me) := (Advance(s, Identify(status)), LocalNode(status.nodes).value.id);
    && Free(after, me)
    && forall node, reply, now :: Enabled(after, Complete(node, reply, now)) ==>
         Free(Advance(after, Complete(node, reply, now)), me)
  }

  lemma SeparateStaysFree(s: State, status: Status)
    requires Invariant(s) && Identifies(status) && SeparateIds(status)
    ensures StaysFree(s, status)
  {
    var after := Advance(s, Identify(status));
    IdentifyKeeps(s, status);
    forall node, reply, now | Enabled(after, Complete(node, reply, now))
      ensures Free(Advance(after, Complete(node, reply, now)), LocalNode(status.nodes).value.id)
    {
      CompleteKeeps(after, node, reply, now);
    }
  }

  /** A status in conflict gets no replies: the local node can only be kept. */
  lemma ConflictKeepsOnly(s: State, status: Status)
    requires Identifies(status) && !SeparateIds(status) && status.conflict
    ensures StaysFree(s, status) <==> Free(s, LocalNode(status.nodes).value.id)
  {
    var me := LocalNode(status.nodes).value.id;
    var n :| n in status.nodes && !n.isLocal && n.id == me;
    assert IsMember(status, me) by {
      var i :| 0 <= i < |status.nodes| && status.nodes[i] == n;
    }
    forall p | p in s.snapshot.peers
      ensures p.nodeId == me ==> p in Retained(s.snapshot.peers, status)
    {
      RetainedMember(s.snapshot.peers, status, p);
    }
    forall p | p in Retained(s.snapshot.peers, status)
      ensures p in s.snapshot.peers
    {
      RetainedMember(s.snapshot.peers, status, p);
    }
  }

  /** A reply of the node that shares the local id puts this node into its own list. */
  lemma SharedIdEnters(s: State, status: Status)
    requires Identifies(status) && !SeparateIds(status) && !status.conflict
    ensures !StaysFree(s, status)
  {
    var after, me := Advance(s, Identify(status)), LocalNode(status.nodes).value.id;
    var node :| node in status.nodes && !node.isLocal && node.id == me;
    var reply := Ok(Inventory(LINK_VERSION, node.id, [], 0));
    var peer := LinkPeer(node.id, node.name, true, 0, None, Some(reply.value));
    assert Enabled(after, Complete(node, reply, 0));
    var updated := Updated(after.snapshot.peers, node, reply, 0);
    assert peer in updated by {
      var known := Find(after.snapshot.peers, node.id);
      assert updated[known] == peer;
    }
    Lex.SortByMember(updated, BY_NODE, peer);
    assert peer in Advance(after, Complete(node, reply, 0)).snapshot.peers;
  }

  /** The assumption on Wayfinder's status is exact, from every list that meets the invariant: the local node
      stays out of its own list if and only if no other node of the status has its id, or the status is in
      conflict, so that nobody is asked, and no peer of that id was listed before. */
  lemma LocalNodeEntersExactlyWhenItsIdIsShared(s: State, status: Status)
    requires Invariant(s) && Identifies(status)
    ensures StaysFree(s, status) <==>
            SeparateIds(status) || (status.conflict && Free(s, LocalNode(status.nodes).value.id))
  {
    if SeparateIds(status) {
      SeparateStaysFree(s, status);
    } else if status.conflict {
      ConflictKeepsOnly(s, status);
    } else {
      SharedIdEnters(s, status);
    }
  }

  // ----- What routing needs of the list

  function RoutingProfiles(inv: Inventory): seq<Routing.Profile> {
    seq(|inv.profiles|, i requires 0 <= i < |inv.profiles| =>
      Routing.Profile(inv.profiles[i].id, inv.profiles[i].installed))
  }

  function RoutingPeer(p: LinkPeer): Routing.Peer {
    Routing.Peer(p.nodeId, p.reachable, if p.state.Some? then Some(RoutingProfiles(p.state.value)) else None)
  }

  function RoutingSnapshot(s: LinkSnapshot): Routing.Snapshot {
    Routing.Snapshot(s.nodeId, seq(|s.peers|, i requires 0 <= i < |s.peers| => RoutingPeer(s.peers[i])))
  }

  /** A view of any reachable list meets what listing and routing rely on, given that Wayfinder's ids
      are valid node ids and that inventories decoded to valid profile ids. */
  lemma ViewsAreWellFormedForRouting(s: State, now: int, local: seq<string>)
    requires Invariant(s)
    requires forall p :: p in s.snapshot.peers ==> Routing.NodeIdOk(p.nodeId)
    requires forall p :: p in s.snapshot.peers && p.state.Some? ==>
               forall k :: 0 <= k < |p.state.value.profiles| ==> Routing.ProfileIdOk(p.state.value.profiles[k].id)
    requires forall i :: 0 <= i < |local| ==> Routing.ProfileIdOk(local[i])
    requires forall i, j :: 0 <= i < j < |local| ==> local[i] != local[j]
    ensures Routing.WellFormed(local, RoutingSnapshot(View(s.snapshot, now)))
  {
    var peers := s.snapshot.peers;
    AscendingIsDistinct(peers);
    var r := RoutingSnapshot(View(s.snapshot, now));
    forall i | 0 <= i < |r.peers|
      ensures Routing.NodeIdOk(r.peers[i].nodeId) && r.nodeId != Some(r.peers[i].nodeId)
      ensures r.peers[i].nodeId == BY_NODE(peers[i]) && r.peers[i].state.Some?
      ensures Routing.UniqueIds(r.peers[i].state.value)
      ensures forall k :: 0 <= k < |r.peers[i].state.value| ==> Routing.ProfileIdOk(r.peers[i].state.value[k].id)
    {
      assert peers[i] in peers;
    }
  }
}
