/** Listing and routing agree: listed ids are distinct, each resolves to exactly the host it was listed
    for, every resolvable target is listed, and availability never redirects a request. */
module RoutingLaws {
  import opened Wrappers
  import opened Routing
  import Lex

  // ----- Hosts are distinct (node, name) pairs

  ghost predicate DistinctHosts(hosts: seq<Host>) {
    forall i, j :: 0 <= i < j < |hosts| ==> hosts[i].node != hosts[j].node || hosts[i].name != hosts[j].name
  }

  /** Where a host of the first `n` peers comes from. */
  ghost predicate Origin(h: Host, s: Snapshot, n: nat)
    requires n <= |s.peers|
  {
    && ProfileIdOk(h.name)
    && (h.node.Some? ==> NodeIdOk(h.node.value) && s.nodeId != h.node && s.nodeId.Some?
                         && exists i :: 0 <= i < n && s.peers[i].nodeId == h.node.value)
    && (h.node.None? ==> h.available)
  }

  lemma PeerHostOrigin(local: seq<string>, s: Snapshot, i: nat, h: Host)
    requires WellFormed(local, s) && i < |s.peers| && h in PeerHosts(s.peers[i])
    ensures Origin(h, s, i + 1) && h.node == Some(s.peers[i].nodeId)
  {
    assert NodeIdOk(s.peers[i].nodeId);
    var k :| 0 <= k < |s.peers[i].state.value| && s.peers[i].state.value[k].id == h.name;
    assert ProfileIdOk(s.peers[i].state.value[k].id);
  }

  lemma OriginGrows(h: Host, s: Snapshot, n: nat)
    requires n < |s.peers| && Origin(h, s, n)
    ensures Origin(h, s, n + 1)
  {
  }

  lemma {:induction false} HostOrigins(local: seq<string>, s: Snapshot, n: nat, h: Host)
    requires WellFormed(local, s) && n <= |s.peers| && h in HostsUpTo(local, s.peers, n)
    ensures Origin(h, s, n)
    decreases n
  {
    if n == 0 {
      LocalOnlyAtFirst(local, s);
    } else {
      HostsNext(local, s, n - 1);
      if h in PeerHosts(s.peers[n - 1]) {
        PeerHostOrigin(local, s, n - 1, h);
      } else {
        HostOrigins(local, s, n - 1, h);
        OriginGrows(h, s, n - 1);
      }
    }
  }

  lemma DistinctAppend(a: seq<Host>, b: seq<Host>, node: string)
    requires DistinctHosts(a) && DistinctHosts(b)
    requires forall h :: h in a ==> h.node != Some(node)
    requires forall h :: h in b ==> h.node == Some(node)
    ensures DistinctHosts(a + b)
  {
  }

  lemma EarlierHostsAvoid(local: seq<string>, s: Snapshot, n: nat)
    requires WellFormed(local, s) && n < |s.peers|
    ensures forall h :: h in HostsUpTo(local, s.peers, n) ==> h.node != Some(s.peers[n].nodeId)
  {
    forall h | h in HostsUpTo(local, s.peers, n)
      ensures h.node != Some(s.peers[n].nodeId)
    {
      HostOrigins(local, s, n, h);
    }
  }

  lemma PeerHostsDistinct(p: Peer)
    requires p.state.Some? ==> UniqueIds(p.state.value)
    ensures DistinctHosts(PeerHosts(p)) && forall h :: h in PeerHosts(p) ==> h.node == Some(p.nodeId)
  {
  }

  lemma {:induction false} HostsAreDistinctUpTo(local: seq<string>, s: Snapshot, n: nat)
    requires WellFormed(local, s) && n <= |s.peers|
    ensures DistinctHosts(HostsUpTo(local, s.peers, n))
    decreases n
  {
    if n == 0 {
      LocalOnlyAtFirst(local, s);
    } else {
      HostsAreDistinctUpTo(local, s, n - 1);
      DistinctNext(local, s, n - 1);
    }
  }

  lemma DistinctNext(local: seq<string>, s: Snapshot, n: nat)
    requires WellFormed(local, s) && n < |s.peers| && DistinctHosts(HostsUpTo(local, s.peers, n))
    ensures DistinctHosts(HostsUpTo(local, s.peers, n + 1))
  {
    HostsNext(local, s, n);
    EarlierHostsAvoid(local, s, n);
    PeerHostsDistinct(s.peers[n]);
    DistinctAppend(HostsUpTo(local, s.peers, n), PeerHosts(s.peers[n]), s.peers[n].nodeId);
  }

  lemma LocalOnlyAtFirst(local: seq<string>, s: Snapshot)
    requires WellFormed(local, s)
    ensures DistinctHosts(HostsUpTo(local, s.peers, 0))
    ensures forall h :: h in HostsUpTo(local, s.peers, 0) ==> Origin(h, s, 0)
  {
    HostsBounds(local, s);
  }

  lemma HostFacts(local: seq<string>, s: Snapshot)
    requires WellFormed(local, s)
    ensures DistinctHosts(Hosts(local, s))
    ensures forall h :: h in Hosts(local, s) ==> Origin(h, s, |s.peers|)
  {
    HostsBounds(local, s);
    HostsAreDistinctUpTo(local, s, |s.peers|);
    forall h | h in Hosts(local, s)
      ensures Origin(h, s, |s.peers|)
    {
      HostOrigins(local, s, |s.peers|, h);
    }
  }

  // ----- Candidates and counts

  lemma {:induction false} CandidateMember(hosts: seq<Host>, s: Snapshot, name: string, node: Option<string>, h: Host)
    ensures h in Candidates(hosts, s, name, node) <==> h in hosts && h.name == name && Selected(h, s, node)
  {
    if hosts != [] {
      CandidateMember(hosts[..|hosts| - 1], s, name, node, h);
    }
  }

  lemma {:induction false} UnselectiveCandidates(hosts: seq<Host>, s: Snapshot, name: string)
    ensures Candidates(hosts, s, name, None) == Named(hosts, name)
  {
    if hosts != [] {
      UnselectiveCandidates(hosts[..|hosts| - 1], s, name);
    }
  }

  /** Hosts sharing a name come from different nodes, so selecting a node leaves at most one. */
  lemma SelectedIsUnique(local: seq<string>, s: Snapshot, node: string, i: nat, j: nat)
    requires WellFormed(local, s) && i < |Hosts(local, s)| && j < |Hosts(local, s)|
    requires Hosts(local, s)[i].name == Hosts(local, s)[j].name
    requires Selected(Hosts(local, s)[i], s, Some(node)) && Selected(Hosts(local, s)[j], s, Some(node))
    ensures i == j
  {
    HostFacts(local, s);
    var hosts := Hosts(local, s);
    assert Origin(hosts[i], s, |s.peers|) && Origin(hosts[j], s, |s.peers|);
    assert hosts[i].node == hosts[j].node;
  }

  lemma SelectedCandidates(local: seq<string>, s: Snapshot, node: string, at: nat)
    requires WellFormed(local, s) && at < |Hosts(local, s)|
    requires Selected(Hosts(local, s)[at], s, Some(node))
    ensures Candidates(Hosts(local, s), s, Hosts(local, s)[at].name, Some(node)) == [Hosts(local, s)[at]]
  {
    var hosts := Hosts(local, s);
    forall i | 0 <= i < |hosts| && hosts[i].name == hosts[at].name && Selected(hosts[i], s, Some(node))
      ensures i == at
    {
      SelectedIsUnique(local, s, node, i, at);
    }
    OnlyCandidate(hosts, s, hosts[at].name, Some(node), at);
  }

  /** Without an own identity every host is local, so no name is shared. */
  lemma UnidentifiedNamesUnique(local: seq<string>, s: Snapshot, at: nat)
    requires WellFormed(local, s) && s.nodeId.None? && at < |Hosts(local, s)|
    ensures Named(Hosts(local, s), Hosts(local, s)[at].name) == [Hosts(local, s)[at]]
  {
    var hosts := Hosts(local, s);
    UnlinkedEntries(local, s);
    UnselectiveCandidates(hosts, s, hosts[at].name);
    OnlyCandidate(hosts, s, hosts[at].name, None, at);
  }

  // ----- Splitting aliases

  lemma {:induction false} SplitPlain(name: string)
    requires '@' !in name
    ensures SplitAt(name) == (name, None)
  {
    if name != "" {
      SplitPlain(name[1..]);
      assert name == [name[0]] + name[1..];
    }
  }

  lemma {:induction false} SplitQualified(name: string, node: string)
    requires '@' !in name
    ensures SplitAt(Qualified(name, node)) == (name, Some(node))
    decreases name
  {
    if name == "" {
      assert Qualified(name, node)[1..] == node;
    } else {
      SplitQualified(name[1..], node);
      assert Qualified(name, node)[1..] == Qualified(name[1..], node);
      assert name == [name[0]] + name[1..];
    }
  }

  lemma {:induction false} SplitJoins(alias: string)
    ensures var (name, node) := SplitAt(alias);
            '@' !in name && alias == if node.Some? then Qualified(name, node.value) else name
  {
    if alias != "" && alias[0] != '@' {
      SplitJoins(alias[1..]);
      var (name, node) := SplitAt(alias[1..]);
      assert alias == [alias[0]] + alias[1..];
    } else if alias != "" {
      assert alias == Qualified("", alias[1..]);
    }
  }

  // ----- The laws

  function TargetOf(h: Host): Target {
    if h.node.Some? then Remote(h.node.value, h.name) else Local(h.name)
  }

  ghost function IdOf(local: seq<string>, s: Snapshot, h: Host): string {
    ListedId(h, s, |Named(Hosts(local, s), h.name)|)
  }

  lemma SoleNamed(local: seq<string>, s: Snapshot, at: nat)
    requires at < |Hosts(local, s)|
    requires |Named(Hosts(local, s), Hosts(local, s)[at].name)| <= 1
    ensures Named(Hosts(local, s), Hosts(local, s)[at].name) == [Hosts(local, s)[at]]
  {
    var hosts := Hosts(local, s);
    UnselectiveCandidates(hosts, s, hosts[at].name);
    CandidateMember(hosts, s, hosts[at].name, None, hosts[at]);
  }

  /** Each listed id resolves to exactly the host it was listed for. */
  lemma ListedIdResolvesToItsOwner(local: seq<string>, s: Snapshot, at: nat)
    requires WellFormed(local, s) && at < |Hosts(local, s)| && IsListed(Hosts(local, s)[at])
    ensures Route(local, s, IdOf(local, s, Hosts(local, s)[at])) == Ok(TargetOf(Hosts(local, s)[at]))
  {
    var hosts := Hosts(local, s);
    var h := hosts[at];
    HostFacts(local, s);
    assert Origin(h, s, |s.peers|);
    if |Named(hosts, h.name)| <= 1 {
      SoleNamed(local, s, at);
      SplitPlain(h.name);
      UnselectiveCandidates(hosts, s, h.name);
    } else {
      if s.nodeId.None? {
        UnidentifiedNamesUnique(local, s, at);
      }
      var node := Owner(h, s);
      SplitQualified(h.name, node);
      SelectedCandidates(local, s, node, at);
    }
  }

  /** Listed ids are pairwise distinct. */
  lemma ListedIdsDistinct(local: seq<string>, s: Snapshot, i: nat, j: nat)
    requires WellFormed(local, s) && i < j < |Hosts(local, s)|
    requires IsListed(Hosts(local, s)[i]) && IsListed(Hosts(local, s)[j])
    ensures IdOf(local, s, Hosts(local, s)[i]) != IdOf(local, s, Hosts(local, s)[j])
  {
    ListedIdResolvesToItsOwner(local, s, i);
    ListedIdResolvesToItsOwner(local, s, j);
    HostFacts(local, s);
  }

  lemma {:induction false} ListedPositions(hosts: seq<Host>, k: nat) returns (at: nat)
    requires k < |Listed(hosts)|
    ensures at < |hosts| && hosts[at] == Listed(hosts)[k] && IsListed(hosts[at])
    ensures k == |Listed(hosts[..at])|
  {
    var front := hosts[..|hosts| - 1];
    if k < |Listed(front)| {
      at := ListedPositions(front, k);
      assert front[..at] == hosts[..at];
    } else {
      at := |hosts| - 1;
    }
  }

  /** The published list is strictly ascending by id, so it has no duplicate. */
  lemma PublishedListAscends(local: seq<string>, s: Snapshot)
    requires WellFormed(local, s)
    ensures Lex.Ascending(Lex.SortBy(Listing(local, s), BY_ID), BY_ID)
  {
    var hosts, models := Hosts(local, s), Listing(local, s);
    forall i, j | 0 <= i < j < |models|
      ensures BY_ID(models[i]) != BY_ID(models[j])
    {
      var p := ListedPositions(hosts, i);
      var q := ListedPositions(hosts, j);
      if q <= p {
        ListedShrinks(hosts, q, p);
      }
      ListedIdsDistinct(local, s, p, q);
    }
    Lex.SortByAscends(models, BY_ID);
  }

  lemma {:induction false} ListedShrinks(hosts: seq<Host>, q: nat, p: nat)
    requires q <= p <= |hosts|
    ensures |Listed(hosts[..q])| <= |Listed(hosts[..p])|
    decreases p
  {
    if q < p {
      ListedShrinks(hosts, q, p - 1);
      assert hosts[..p][..p - 1] == hosts[..p - 1];
    }
  }

  /** Every target that resolves is a listed host. */
  lemma ResolvedTargetIsListed(local: seq<string>, s: Snapshot, alias: string) returns (at: nat)
    requires WellFormed(local, s) && Route(local, s, alias).Ok?
    ensures at < |Hosts(local, s)| && IsListed(Hosts(local, s)[at])
    ensures Route(local, s, alias) == Ok(TargetOf(Hosts(local, s)[at]))
    ensures var (name, node) := SplitAt(alias);
            Candidates(Hosts(local, s), s, name, node) == [Hosts(local, s)[at]]
  {
    var (name, node) := SplitAt(alias);
    var hosts := Hosts(local, s);
    var candidates := Candidates(hosts, s, name, node);
    CandidateMember(hosts, s, name, node, candidates[0]);
    at :| 0 <= at < |hosts| && hosts[at] == candidates[0];
  }

  // ----- Availability only turns a target into an error

  /** Snapshots that differ at most in reachability and installed flags. */
  ghost predicate SameMembers(s: Snapshot, t: Snapshot) {
    && s.nodeId == t.nodeId && |s.peers| == |t.peers|
    && forall i :: 0 <= i < |s.peers| ==> SamePeer(s.peers[i], t.peers[i])
  }

  ghost predicate SamePeer(p: Peer, q: Peer) {
    && p.nodeId == q.nodeId
    && (p.state.Some? <==> q.state.Some?)
    && (p.state.Some? ==>
          && |p.state.value| == |q.state.value|
          && forall k :: 0 <= k < |p.state.value| ==> p.state.value[k].id == q.state.value[k].id)
  }

  ghost predicate SameHosts(a: seq<Host>, b: seq<Host>) {
    && |a| == |b|
    && forall i :: 0 <= i < |a| ==> a[i].node == b[i].node && a[i].name == b[i].name
  }

  lemma {:induction false} SameMembersSameHosts(local: seq<string>, s: Snapshot, t: Snapshot, n: nat)
    requires SameMembers(s, t) && n <= |s.peers|
    ensures SameHosts(HostsUpTo(local, s.peers, n), HostsUpTo(local, t.peers, n))
    decreases n
  {
    if n == 0 {
      HostsBounds(local, s);
      HostsBounds(local, t);
    } else {
      SameMembersSameHosts(local, s, t, n - 1);
      HostsNext(local, s, n - 1);
      HostsNext(local, t, n - 1);
      assert SamePeer(s.peers[n - 1], t.peers[n - 1]);
    }
  }

  lemma {:induction false} SameCandidates(
    a: seq<Host>, b: seq<Host>, s: Snapshot, t: Snapshot, name: string, node: Option<string>)
    requires SameHosts(a, b) && s.nodeId == t.nodeId
    ensures SameHosts(Candidates(a, s, name, node), Candidates(b, t, name, node))
  {
    if a != [] {
      SameCandidates(a[..|a| - 1], b[..|b| - 1], s, t, name, node);
    }
  }

  lemma SameDecision(a: seq<Host>, b: seq<Host>, s: Snapshot, t: Snapshot, name: string)
    requires SameHosts(a, b) && s.nodeId == t.nodeId
    ensures var (r, q) := (Decide(a, s, name), Decide(b, t, name));
            match r
            case Ok(Local(_)) => q == r
            case Ok(Remote(node, _)) => q == r || q == Err(Unavailable(node))
            case Err(Unavailable(node)) => q == r || q == Ok(Remote(node, name))
            case Err(_) => q == r
  {
    if |a| > 1 {
      assert Decide(a, s, name).error.choices == Decide(b, t, name).error.choices;
    }
  }

  /** Changing only flags can turn a target into unavailability of that same owner, never into another
      target or another error; errors other than unavailability do not depend on flags at all. */
  lemma FlagsNeverRedirect(local: seq<string>, s: Snapshot, t: Snapshot, alias: string)
    requires SameMembers(s, t)
    ensures var (r, q) := (Route(local, s, alias), Route(local, t, alias));
            match r
            case Ok(Local(_)) => q == r
            case Ok(Remote(node, _)) => q == r || q == Err(Unavailable(node))
            case Err(Unavailable(node)) => q == r || q == Ok(Remote(node, SplitAt(alias).0))
            case Err(_) => q == r
  {
    var (name, node) := SplitAt(alias);
    HostsBounds(local, s);
    HostsBounds(local, t);
    SameMembersSameHosts(local, s, t, |s.peers|);
    SameCandidates(Hosts(local, s), Hosts(local, t), s, t, name, node);
    SameDecision(Candidates(Hosts(local, s), s, name, node), Candidates(Hosts(local, t), t, name, node), s, t, name);
  }

  // ----- Retrieval of one model

  /** `retrieve_model`'s test of a listed model against the requested alias. */
  predicate Retrieves(m: ApiModel, alias: string) {
    var (id, node) := SplitAt(alias);
    m.id == alias || (node.Some? && m.id == id && m.ownedBy == node.value)
  }

  lemma RetrievedIsSelected(local: seq<string>, s: Snapshot, alias: string, h: Host)
    requires WellFormed(local, s) && h in Hosts(local, s)
    requires IdOf(local, s, h) != alias && Retrieves(Entry(h, Hosts(local, s), s), alias)
    requires s.nodeId.Some? || SplitAt(alias).1.None?
    ensures h.name == SplitAt(alias).0 && Selected(h, s, SplitAt(alias).1)
  {
    HostFacts(local, s);
    assert Origin(h, s, |s.peers|);
    SplitJoins(alias);
    assert Qualified(h.name, Owner(h, s))[|h.name|] == '@';
  }

  /** A model is retrieved by an alias that resolves exactly when it is the one listed for the resolved
      target: retrieval and routing pick the same owner. */
  lemma RetrievalMatchesRouting(local: seq<string>, s: Snapshot, alias: string, at: nat)
    requires WellFormed(local, s) && Route(local, s, alias).Ok?
    requires at < |Hosts(local, s)| && IsListed(Hosts(local, s)[at])
    ensures Retrieves(Entry(Hosts(local, s)[at], Hosts(local, s), s), alias)
            <==> Route(local, s, alias) == Ok(TargetOf(Hosts(local, s)[at]))
  {
    var hosts := Hosts(local, s);
    var h := hosts[at];
    var (name, node) := SplitAt(alias);
    HostFacts(local, s);
    assert Origin(h, s, |s.peers|);
    SplitJoins(alias);
    ListedIdResolvesToItsOwner(local, s, at);
    var found := ResolvedTargetIsListed(local, s, alias);
    if hosts[found] == h {
      if node.None? {
        UnselectiveCandidates(hosts, s, name);
      }
      CandidateMember(hosts, s, name, node, h);
    } else {
      CandidateMember(hosts, s, name, node, hosts[found]);
      assert Origin(hosts[found], s, |s.peers|);
      if IdOf(local, s, h) != alias && Retrieves(Entry(h, hosts, s), alias) {
        RetrievedIsSelected(local, s, alias, h);
      }
      CandidateMember(hosts, s, name, node, h);
    }
  }
}
