/** Federated model names: one function lists them, another resolves them, and they must agree. */
module Routing {
  import opened Wrappers
  import Lex

  // ----- Data

  datatype Profile = Profile(id: string, installed: bool)

  /** `state` is the peer's inventory of profiles, when one is held. */
  datatype Peer = Peer(nodeId: string, reachable: bool, state: Option<seq<Profile>>)

  datatype Snapshot = Snapshot(nodeId: Option<string>, peers: seq<Peer>)

  datatype ApiModel = ApiModel(id: string, ownedBy: string)

  datatype Target = Local(profile: string) | Remote(node: string, profile: string)

  datatype RouteError =
    | InvalidAlias
    | InvalidProfile
    | Ambiguous(choices: seq<string>)
    | Unavailable(node: string)
    | ModelNotFound

  const NO_LINK := Snapshot(None, [])
  const LOCAL_OWNER: string := "scala-user"

  function Qualified(profile: string, node: string): string {
    profile + "@" + node
  }

  predicate IdChar(c: char) {
    'a' <= c <= 'z' || '0' <= c <= '9' || c == '-' || c == '_'
  }

  predicate ProfileIdOk(id: string) {
    && 1 <= |id| <= 96 && id[0] != '-' && id[0] != '_'
    && forall i :: 0 <= i < |id| ==> IdChar(id[i])
  }

  predicate NodeIdOk(id: string) {
    |id| == 64 && forall i :: 0 <= i < |id| ==> '0' <= id[i] <= '9' || 'a' <= id[i] <= 'f'
  }

  /** `split_once('@')`. */
  function SplitAt(s: string): (string, Option<string>) {
    if s == "" then ("", None)
    else if s[0] == '@' then ("", Some(s[1..]))
    else
      var (before, after) := SplitAt(s[1..]);
      ([s[0]] + before, after)
  }

  // ----- Hosted profiles: the common reading of local profiles and peer inventories

  /** A profile with the node that holds it; no node stands for this one. */
  datatype Host = Host(node: Option<string>, name: string, available: bool)

  function LocalHosts(local: seq<string>): seq<Host> {
    seq(|local|, i requires 0 <= i < |local| => Host(None, local[i], true))
  }

  function PeerHosts(p: Peer): seq<Host> {
    if p.state.None? then []
    else
      seq(|p.state.value|, i requires 0 <= i < |p.state.value| =>
        Host(Some(p.nodeId), p.state.value[i].id, p.reachable && p.state.value[i].installed))
  }

  function AllPeerHosts(peers: seq<Peer>): seq<Host> {
    if peers == [] then [] else AllPeerHosts(peers[..|peers| - 1]) + PeerHosts(peers[|peers| - 1])
  }

  function Hosts(local: seq<string>, s: Snapshot): seq<Host> {
    LocalHosts(local) + AllPeerHosts(s.peers)
  }

  /** The hosts of this node and of the first `n` peers. */
  ghost function HostsUpTo(local: seq<string>, peers: seq<Peer>, n: nat): seq<Host>
    requires n <= |peers|
  {
    LocalHosts(local) + AllPeerHosts(peers[..n])
  }

  lemma HostsNext(local: seq<string>, s: Snapshot, n: nat)
    requires n < |s.peers|
    ensures HostsUpTo(local, s.peers, n + 1) == HostsUpTo(local, s.peers, n) + PeerHosts(s.peers[n])
  {
    assert s.peers[..n + 1][..n] == s.peers[..n];
  }

  lemma HostsBounds(local: seq<string>, s: Snapshot)
    ensures HostsUpTo(local, s.peers, 0) == LocalHosts(local)
    ensures HostsUpTo(local, s.peers, |s.peers|) == Hosts(local, s)
  {
    assert s.peers[..0] == [] && s.peers[..|s.peers|] == s.peers;
  }

  function Named(hosts: seq<Host>, name: string): seq<Host> {
    if hosts == [] then []
    else Named(hosts[..|hosts| - 1], name) + if hosts[|hosts| - 1].name == name then [hosts[|hosts| - 1]] else []
  }

  // ----- Listing

  /** How one host is listed, given how many hosts share its name. */
  function ListedId(h: Host, s: Snapshot, count: nat): string {
    if count > 1 && h.node.Some? then Qualified(h.name, h.node.value)
    else if count > 1 && s.nodeId.Some? then Qualified(h.name, s.nodeId.value)
    else h.name
  }

  function Owner(h: Host, s: Snapshot): string {
    if h.node.Some? then h.node.value else if s.nodeId.Some? then s.nodeId.value else LOCAL_OWNER
  }

  function Entry(h: Host, hosts: seq<Host>, s: Snapshot): ApiModel {
    ApiModel(ListedId(h, s, |Named(hosts, h.name)|), Owner(h, s))
  }

  predicate IsListed(h: Host) {
    h.node.None? || h.available
  }

  function Listed(hosts: seq<Host>): seq<Host> {
    if hosts == [] then []
    else Listed(hosts[..|hosts| - 1]) + if IsListed(hosts[|hosts| - 1]) then [hosts[|hosts| - 1]] else []
  }

  function Entries(hosts: seq<Host>, all: seq<Host>, s: Snapshot): seq<ApiModel> {
    seq(|hosts|, i requires 0 <= i < |hosts| => Entry(hosts[i], all, s))
  }

  /** The listing, in the source's pushing order, before the final sort. */
  function Listing(local: seq<string>, s: Snapshot): seq<ApiModel> {
    Entries(Listed(Hosts(local, s)), Hosts(local, s), s)
  }

  const BY_ID := (m: ApiModel) => m.id

  // ----- Resolution

  predicate Selected(h: Host, s: Snapshot, node: Option<string>) {
    node.None? || (if h.node.Some? then h.node == node else s.nodeId == node)
  }

  function Candidates(hosts: seq<Host>, s: Snapshot, name: string, node: Option<string>): seq<Host> {
    if hosts == [] then []
    else
      var h := hosts[|hosts| - 1];
      Candidates(hosts[..|hosts| - 1], s, name, node) + if h.name == name && Selected(h, s, node) then [h] else []
  }

  function Decide(candidates: seq<Host>, s: Snapshot, name: string): Result<Target, RouteError> {
    if |candidates| > 1 then
      Err(Ambiguous(seq(|candidates|, i requires 0 <= i < |candidates| =>
        Qualified(name, if candidates[i].node.Some? then candidates[i].node.value
                        else if s.nodeId.Some? then s.nodeId.value else ""))))
    else if candidates == [] then Err(ModelNotFound)
    else if candidates[0].node.None? then Ok(Local(name))
    else if candidates[0].available then Ok(Remote(candidates[0].node.value, name))
    else Err(Unavailable(candidates[0].node.value))
  }

  function Route(local: seq<string>, s: Snapshot, alias: string): Result<Target, RouteError> {
    var (name, node) := SplitAt(alias);
    if node.Some? && !NodeIdOk(node.value) then Err(InvalidAlias)
    else if !ProfileIdOk(name) then Err(InvalidProfile)
    else Decide(Candidates(Hosts(local, s), s, name, node), s, name)
  }

  // ----- What every store and snapshot satisfies

  ghost predicate UniqueIds(profiles: seq<Profile>) {
    forall i, j :: 0 <= i < j < |profiles| ==> profiles[i].id != profiles[j].id
  }

  /** Validated profile ids, unique in each store; unique valid node ids; no peers while this node's
      identity is unknown. */
  ghost predicate WellFormed(local: seq<string>, s: Snapshot) {
    && (forall i :: 0 <= i < |local| ==> ProfileIdOk(local[i]))
    && (forall i, j :: 0 <= i < j < |local| ==> local[i] != local[j])
    && (s.nodeId.None? ==> s.peers == [])
    && (s.nodeId.Some? ==> NodeIdOk(s.nodeId.value))
    && (forall i :: 0 <= i < |s.peers| ==> NodeIdOk(s.peers[i].nodeId) && s.nodeId != Some(s.peers[i].nodeId))
    && (forall i, j :: 0 <= i < j < |s.peers| ==> s.peers[i].nodeId != s.peers[j].nodeId)
    && (forall i :: 0 <= i < |s.peers| && s.peers[i].state.Some? ==>
          && UniqueIds(s.peers[i].state.value)
          && forall k :: 0 <= k < |s.peers[i].state.value| ==> ProfileIdOk(s.peers[i].state.value[k].id))
  }

  // ----- The source's loops compute these

  /** A counter of names, as an ordered map. */
  function CountOf(counts: map<string, nat>, name: string): nat {
    if name in counts then counts[name] else 0
  }

  ghost predicate Counts(counts: map<string, nat>, hosts: seq<Host>) {
    forall name :: CountOf(counts, name) == |Named(hosts, name)|
  }

  lemma CountNext(counts: map<string, nat>, hosts: seq<Host>, h: Host)
    requires Counts(counts, hosts)
    ensures Counts(counts[h.name := CountOf(counts, h.name) + 1], hosts + [h])
  {
    var next := counts[h.name := CountOf(counts, h.name) + 1];
    assert (hosts + [h])[..|hosts|] == hosts;
    forall name
      ensures CountOf(next, name) == |Named(hosts + [h], name)|
    {
      assert CountOf(counts, name) == |Named(hosts, name)|;
    }
  }

  method CountNames(local: seq<string>, s: Snapshot) returns (counts: map<string, nat>)
    ensures Counts(counts, Hosts(local, s))
  {
    counts := map[];
    ghost var seen: seq<Host> := [];
    for i := 0 to |local|
      invariant seen == LocalHosts(local)[..i] && Counts(counts, seen)
    {
      var h := Host(None, local[i], true);
      CountNext(counts, seen, h);
      counts := counts[local[i] := CountOf(counts, local[i]) + 1];
      seen := seen + [h];
    }
    HostsBounds(local, s);
    assert seen == LocalHosts(local);
    for i := 0 to |s.peers|
      invariant Counts(counts, HostsUpTo(local, s.peers, i))
    {
      HostsNext(local, s, i);
      counts := CountPeer(counts, s.peers[i], HostsUpTo(local, s.peers, i));
    }
  }

  lemma {:induction false} CountWithin(counts: map<string, nat>, hosts: seq<Host>, more: seq<Host>, k: nat)
    requires k < |more| && Counts(counts, hosts + more[..k])
    ensures Counts(counts[more[k].name := CountOf(counts, more[k].name) + 1], hosts + more[..k + 1])
  {
    CountNext(counts, hosts + more[..k], more[k]);
    assert hosts + more[..k] + [more[k]] == hosts + more[..k + 1];
  }

  method CountPeer(before: map<string, nat>, p: Peer, ghost hosts: seq<Host>) returns (counts: map<string, nat>)
    requires Counts(before, hosts)
    ensures Counts(counts, hosts + PeerHosts(p))
  {
    counts := before;
    assert hosts + [] == hosts;
    if p.state.None? {
      return;
    }
    var profiles := p.state.value;
    for k := 0 to |profiles|
      invariant Counts(counts, hosts + PeerHosts(p)[..k])
    {
      CountWithin(counts, hosts, PeerHosts(p), k);
      counts := counts[profiles[k].id := CountOf(counts, profiles[k].id) + 1];
    }
    assert PeerHosts(p)[..|profiles|] == PeerHosts(p);
  }

  lemma {:induction false} ListedConcat(a: seq<Host>, b: seq<Host>)
    ensures Listed(a + b) == Listed(a) + Listed(b)
    decreases b
  {
    if b == [] {
      assert a + b == a;
    } else {
      assert (a + b)[..|a + b| - 1] == a + b[..|b| - 1];
      ListedConcat(a, b[..|b| - 1]);
    }
  }

  lemma {:induction false} LocalListed(local: seq<string>)
    ensures Listed(LocalHosts(local)) == LocalHosts(local)
  {
    if local != [] {
      var front := local[..|local| - 1];
      LocalListed(front);
      LocalHostsLast(local);
      ListedSnoc(LocalHosts(front), Host(None, local[|local| - 1], true));
    }
  }

  lemma LocalHostsLast(local: seq<string>)
    requires local != []
    ensures LocalHosts(local) == LocalHosts(local[..|local| - 1]) + [Host(None, local[|local| - 1], true)]
  {
  }

  lemma {:induction false} ListedSnoc(hosts: seq<Host>, h: Host)
    ensures Listed(hosts + [h]) == Listed(hosts) + (if IsListed(h) then [h] else [])
  {
    assert (hosts + [h])[..|hosts|] == hosts;
  }

  lemma EntriesConcat(a: seq<Host>, b: seq<Host>, all: seq<Host>, s: Snapshot)
    ensures Entries(a + b, all, s) == Entries(a, all, s) + Entries(b, all, s)
  {
  }

  lemma {:induction false} EntriesNext(before: seq<ApiModel>, hosts: seq<Host>, k: nat, all: seq<Host>, s: Snapshot)
    requires k < |hosts|
    ensures before + Entries(Listed(hosts[..k + 1]), all, s) ==
            before + Entries(Listed(hosts[..k]), all, s)
            + if IsListed(hosts[k]) then [Entry(hosts[k], all, s)] else []
  {
    assert hosts[..k + 1][..k] == hosts[..k];
    EntriesConcat(Listed(hosts[..k]), [hosts[k]], all, s);
    assert Entries([hosts[k]], all, s) == [Entry(hosts[k], all, s)];
  }

  /** Pushes one peer's listed profiles; unreachable peers are skipped as a whole. */
  method PushPeer(before: seq<ApiModel>, p: Peer, counts: map<string, nat>, ghost all: seq<Host>, ghost s: Snapshot)
    returns (models: seq<ApiModel>)
    requires Counts(counts, all)
    ensures models == before + Entries(Listed(PeerHosts(p)), all, s)
  {
    models := before;
    if !p.reachable || p.state.None? {
      AllUnlisted(PeerHosts(p));
      return;
    }
    var profiles := p.state.value;
    var hosts := PeerHosts(p);
    for k := 0 to |profiles|
      invariant models == before + Entries(Listed(hosts[..k]), all, s)
    {
      EntriesNext(before, hosts, k, all, s);
      if profiles[k].installed {
        var name := profiles[k].id;
        assert CountOf(counts, name) == |Named(all, name)|;
        var id := if CountOf(counts, name) > 1 then Qualified(name, p.nodeId) else name;
        models := models + [ApiModel(id, p.nodeId)];
      }
    }
    assert hosts[..|profiles|] == hosts;
  }

  lemma {:induction false} AllUnlisted(hosts: seq<Host>)
    requires forall h :: h in hosts ==> !IsListed(h)
    ensures Listed(hosts) == []
  {
    if hosts != [] {
      AllUnlisted(hosts[..|hosts| - 1]);
    }
  }

  /** Pushes every peer's listed profiles. */
  method PushPeers(before: seq<ApiModel>, local: seq<string>, s: Snapshot, counts: map<string, nat>)
    returns (models: seq<ApiModel>)
    requires Counts(counts, Hosts(local, s))
    requires before == Entries(LocalHosts(local), Hosts(local, s), s)
    ensures models == Listing(local, s)
  {
    ghost var all := Hosts(local, s);
    HostsBounds(local, s);
    LocalListed(local);
    models := before;
    for i := 0 to |s.peers|
      invariant models == Entries(Listed(HostsUpTo(local, s.peers, i)), all, s)
    {
      HostsNext(local, s, i);
      ListedConcat(HostsUpTo(local, s.peers, i), PeerHosts(s.peers[i]));
      EntriesConcat(Listed(HostsUpTo(local, s.peers, i)), Listed(PeerHosts(s.peers[i])), all, s);
      models := PushPeer(models, s.peers[i], counts, all, s);
    }
  }

  /** The listing of models. `link` is absent on servers without federation. */
  method PublicModels(local: seq<string>, link: Option<Snapshot>) returns (models: seq<ApiModel>)
    requires WellFormed(local, if link.Some? then link.value else NO_LINK)
    ensures models == Lex.SortBy(Listing(local, if link.Some? then link.value else NO_LINK), BY_ID)
  {
    ghost var s := if link.Some? then link.value else NO_LINK;
    ghost var all := Hosts(local, s);
    models := [];
    for i := 0 to |local|
      invariant |models| == i && forall k :: 0 <= k < i ==> models[k] == ApiModel(local[k], LOCAL_OWNER)
    {
      models := models + [ApiModel(local[i], LOCAL_OWNER)];
    }
    if link.Some? {
      var linked := link.value;
      var counts := CountNames(local, linked);
      if linked.nodeId.Some? {
        models := QualifyLocal(models, local, counts, linked, all);
      } else {
        UnlinkedEntries(local, linked);
        assert models == Entries(LocalHosts(local), all, s);
      }
      models := PushPeers(models, local, linked, counts);
    } else {
      UnlinkedEntries(local, s);
      LocalListed(local);
      assert models == Listing(local, s);
    }
    models := Lex.SortBy(models, BY_ID);
  }

  /** Rewrites owner and id of every local model in place. */
  method QualifyLocal(
    before: seq<ApiModel>, local: seq<string>, counts: map<string, nat>, s: Snapshot, ghost all: seq<Host>)
    returns (models: seq<ApiModel>)
    requires s.nodeId.Some? && Counts(counts, all)
    requires |before| == |local| && forall k :: 0 <= k < |local| ==> before[k] == ApiModel(local[k], LOCAL_OWNER)
    ensures models == Entries(LocalHosts(local), all, s)
  {
    models := before;
    for i := 0 to |models|
      invariant |models| == |local|
      invariant forall k :: 0 <= k < i ==> models[k] == Entry(LocalHosts(local)[k], all, s)
      invariant forall k :: i <= k < |local| ==> models[k] == ApiModel(local[k], LOCAL_OWNER)
    {
      assert CountOf(counts, models[i].id) == |Named(all, local[i])|;
      models := models[i := models[i].(ownedBy := s.nodeId.value)];
      if CountOf(counts, models[i].id) > 1 {
        models := models[i := models[i].(id := Qualified(models[i].id, s.nodeId.value))];
      }
    }
  }

  /** Without an identity there are no peers, every name is unique, and local ids stay unqualified. */
  lemma UnlinkedEntries(local: seq<string>, s: Snapshot)
    requires WellFormed(local, s) && s.nodeId.None?
    ensures Hosts(local, s) == LocalHosts(local)
    ensures Entries(LocalHosts(local), Hosts(local, s), s) ==
            seq(|local|, i requires 0 <= i < |local| => ApiModel(local[i], LOCAL_OWNER))
  {
    assert AllPeerHosts(s.peers) == [];
    assert Hosts(local, s) == LocalHosts(local);
  }

  /** Resolution, with the candidates pushed one node at a time. */
  method Resolve(local: seq<string>, link: Option<Snapshot>, alias: string) returns (r: Result<Target, RouteError>)
    requires WellFormed(local, if link.Some? then link.value else NO_LINK)
    ensures r == Route(local, if link.Some? then link.value else NO_LINK, alias)
  {
    var s := if link.Some? then link.value else NO_LINK;
    var (name, node) := SplitAt(alias);
    if node.Some? && !NodeIdOk(node.value) {
      return Err(InvalidAlias);
    }
    if !ProfileIdOk(name) {
      return Err(InvalidProfile);
    }
    var candidates := GatherCandidates(local, s, name, node);
    r := Decide(candidates, s, name);
  }

  method GatherCandidates(local: seq<string>, s: Snapshot, name: string, node: Option<string>)
    returns (candidates: seq<Host>)
    requires forall i, j :: 0 <= i < j < |local| ==> local[i] != local[j]
    requires forall i :: 0 <= i < |s.peers| ==> s.peers[i].state.Some? ==> UniqueIds(s.peers[i].state.value)
    ensures candidates == Candidates(Hosts(local, s), s, name, node)
  {
    HostsBounds(local, s);
    candidates := PushLocal(local, s, name, node);
    candidates := PushRemote(candidates, local, s, name, node);
  }

  method PushRemote(before: seq<Host>, local: seq<string>, s: Snapshot, name: string, node: Option<string>)
    returns (candidates: seq<Host>)
    requires forall i :: 0 <= i < |s.peers| ==> s.peers[i].state.Some? ==> UniqueIds(s.peers[i].state.value)
    requires before == Candidates(HostsUpTo(local, s.peers, 0), s, name, node)
    ensures candidates == Candidates(HostsUpTo(local, s.peers, |s.peers|), s, name, node)
  {
    candidates := before;
    for i := 0 to |s.peers|
      invariant candidates == Candidates(HostsUpTo(local, s.peers, i), s, name, node)
    {
      candidates := PushCandidate(candidates, local, s, i, name, node);
    }
  }

  method PushLocal(local: seq<string>, s: Snapshot, name: string, node: Option<string>) returns (candidates: seq<Host>)
    requires forall i, j :: 0 <= i < j < |local| ==> local[i] != local[j]
    ensures candidates == Candidates(LocalHosts(local), s, name, node)
  {
    candidates := [];
    if name in local && (node.None? || s.nodeId == node) {
      candidates := candidates + [Host(None, name, true)];
    }
    LocalCandidates(local, s, name, node);
  }

  method PushCandidate(before: seq<Host>, local: seq<string>, s: Snapshot, i: nat, name: string, node: Option<string>)
    returns (candidates: seq<Host>)
    requires i < |s.peers| && (s.peers[i].state.Some? ==> UniqueIds(s.peers[i].state.value))
    requires before == Candidates(HostsUpTo(local, s.peers, i), s, name, node)
    ensures candidates == Candidates(HostsUpTo(local, s.peers, i + 1), s, name, node)
  {
    var p := s.peers[i];
    candidates := before;
    HostsNext(local, s, i);
    PeerCandidates(p, s, name, node);
    CandidatesConcat(HostsUpTo(local, s.peers, i), PeerHosts(p), s, name, node);
    if (node.None? || node.value == p.nodeId) && p.state.Some? {
      var at := Find(p.state.value, name);
      if at < |p.state.value| {
        candidates := candidates + [Host(Some(p.nodeId), name, p.reachable && p.state.value[at].installed)];
      }
    }
  }

  /** Position of the first profile with this id. */
  function Find(profiles: seq<Profile>, name: string): (i: nat)
    ensures i <= |profiles| && (i < |profiles| ==> profiles[i].id == name)
    ensures forall k :: 0 <= k < i ==> profiles[k].id != name
  {
    if profiles == [] || profiles[0].id == name then 0 else 1 + Find(profiles[1..], name)
  }

  lemma {:induction false} CandidatesConcat(a: seq<Host>, b: seq<Host>, s: Snapshot, name: string, node: Option<string>)
    ensures Candidates(a + b, s, name, node) == Candidates(a, s, name, node) + Candidates(b, s, name, node)
    decreases b
  {
    if b == [] {
      assert a + b == a;
    } else {
      assert (a + b)[..|a + b| - 1] == a + b[..|b| - 1];
      CandidatesConcat(a, b[..|b| - 1], s, name, node);
    }
  }

  /** When at most one host can match, the candidates are that host or none. */
  lemma {:induction false} OnlyCandidate(hosts: seq<Host>, s: Snapshot, name: string, node: Option<string>, at: nat)
    requires at <= |hosts|
    requires forall i :: 0 <= i < |hosts| && hosts[i].name == name && Selected(hosts[i], s, node) ==> i == at
    ensures Candidates(hosts, s, name, node) ==
            if at < |hosts| && hosts[at].name == name && Selected(hosts[at], s, node) then [hosts[at]] else []
  {
    if hosts != [] {
      var front := hosts[..|hosts| - 1];
      OnlyCandidate(front, s, name, node, if at <= |front| then at else |front|);
    }
  }

  lemma {:induction false} LocalCandidates(local: seq<string>, s: Snapshot, name: string, node: Option<string>)
    requires forall i, j :: 0 <= i < j < |local| ==> local[i] != local[j]
    ensures Candidates(LocalHosts(local), s, name, node) ==
            if name in local && (node.None? || s.nodeId == node) then [Host(None, name, true)] else []
  {
    if name in local {
      var at :| 0 <= at < |local| && local[at] == name;
      OnlyCandidate(LocalHosts(local), s, name, node, at);
    } else {
      OnlyCandidate(LocalHosts(local), s, name, node, 0);
    }
  }

  lemma PeerCandidates(p: Peer, s: Snapshot, name: string, node: Option<string>)
    requires p.state.Some? ==> UniqueIds(p.state.value)
    ensures Candidates(PeerHosts(p), s, name, node) ==
            if (node.None? || node.value == p.nodeId) && p.state.Some? && Find(p.state.value, name) < |p.state.value|
            then [Host(Some(p.nodeId), name, p.reachable && p.state.value[Find(p.state.value, name)].installed)] else []
  {
    if p.state.Some? {
      OnlyCandidate(PeerHosts(p), s, name, node, Find(p.state.value, name));
    }
  }
}
