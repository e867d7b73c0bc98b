/** The symbolic data plane: every forwarding branch explored once, with the conditions under which it is taken. */
module Dataplane {
  import opened Conditions
  import opened Conjunctions
  import opened Failure
  import opened Fib
  import opened NormalForms
  import opened Prefixes
  import opened SolverGoal
  import opened Topology

  datatype Stage = Ingress | Egress

  /**
   One network instance: what its nodes originate, their forwarding tables, the verdict of
   the data ACLs, and which texts parse as addresses.
   */
  datatype Network = Network(
    index: Index, prefixes: map<string, seq<Prefix>>, fib: map<string, seq<FibEntry>>,
    denied: (string, Stage, string) -> bool, isAddr: string -> bool)
  {
    function PrefixesOf(node: string): seq<Prefix> {
      if node in prefixes then prefixes[node] else []
    }

    function FibOf(node: string): seq<FibEntry> {
      if node in fib then fib[node] else []
    }
  }

  datatype Path = Path(nodes: seq<string>, links: seq<string>, cost: int)

  datatype SymState = SymState(node: string, ingress: string, cond: Cond, path: Path)

  datatype SymPath = SymPath(path: Path, cond: Cond, states: seq<SymState>)

  datatype BlockedPath = BlockedPath(path: Path, cond: Cond, node: string, iface: string, stage: Stage)

  datatype ReasonKind =
    | NoRoute | NoNextHop | DiscardRoute | RecursiveNextHopUnresolved | NextHopNotAdjacent | NextHopManagementFallback
    | NodeFailed | LinkFailed | IngressPolicy | EgressPolicy | ForwardingLoop | DestinationNotAdvertised

  datatype Reason = Reason(kind: ReasonKind, node: string, link: string, iface: string, path: Path, cond: Cond)

  datatype Outcome = Outcome(paths: seq<SymPath>, blocked: seq<BlockedPath>, reasons: seq<Reason>) {
    function Then(next: Outcome): Outcome {
      Outcome(paths + next.paths, blocked + next.blocked, reasons + next.reasons)
    }
  }

  const NOTHING := Outcome([], [], [])

  function NodeUp(node: string): Cond {
    Lit(NodeVar(node))
  }

  function LinkUp(net: Network, link: Link): Cond {
    ExpandLinkVars(Lit(LinkVar(link.name)), net.index.linksByName)
  }

  function DecisionCond(denied: bool): Cond {
    if denied then True else False
  }

  /** addUnreachableReason: a reason that can never apply is not recorded. */
  function Reported(r: Reason): seq<Reason> {
    if IsFalse(r.cond) then [] else [r]
  }

  function Reasons(kind: ReasonKind, node: string, link: string, iface: string, path: Path, cond: Cond): Outcome {
    Outcome([], [], Reported(Reason(kind, node, link, iface, path, cond)))
  }

  predicate OriginatesSet(net: Network, node: string, dst: PrefixSet) {
    node in net.index.nodes && exists p :: p in net.PrefixesOf(node) && p.Net? && AddressSpaceOverlaps(ExactSet(p), dst)
  }

  function EffectiveStatus(net: Network, e: FibEntry): Status {
    if !e.status.Unset? then e.status
    else if e.nextHop == "" && (e.rawNextHop != "" || e.nextHopAddress != "") then UnresolvedRecursive
    else if net.isAddr(e.nextHop) then UnresolvedRecursive
    else Unset
  }

  function SetCandidates(net: Network, node: string, dst: PrefixSet): seq<Candidate> {
    Candidates(net.index.linksByName, Matching(net.FibOf(node), MeetsSet(dst)))
  }

  function CandidateConds(cs: seq<Candidate>): (r: seq<Cond>)
    ensures |r| == |cs| && forall i :: 0 <= i < |cs| ==> r[i] == cs[i].cond
  {
    seq(|cs|, i requires 0 <= i < |cs| => cs[i].cond)
  }

  function Extend(path: Path, node: string, link: Link): Path {
    Path(path.nodes + [node], path.links + [link.name], path.cost + link.cost)
  }

  /** The state in which a permitted candidate hands the packet to its next hop. */
  function NextState(net: Network, state: SymState, c: Candidate, link: Link): SymState {
    SymState(c.entry.nextHop, InterfaceOn(link, c.entry.nextHop),
             And([state.cond, c.cond, Not(DecisionCond(false)), LinkUp(net, link)]),
             Extend(state.path, c.entry.nextHop, link))
  }

  // ---------- one state and its branches ----------

  function Explore(net: Network, dst: PrefixSet, maxHops: nat, state: SymState, visited: set<string>,
                   states: seq<SymState>): Outcome
    decreases net.index.nodes - visited, 1, 0
  {
    if IsFalse(state.cond) then NOTHING
    else if state.node in visited then Reasons(ForwardingLoop, state.node, "", "", state.path, state.cond)
    else if OriginatesSet(net, state.node, dst) then
      Outcome([SymPath(state.path, And([state.cond, NodeUp(state.node)]), states + [state])], [], [])
    else if |state.path.nodes| > maxHops || state.node !in net.index.nodes then NOTHING
    else if net.denied(state.node, Ingress, state.ingress) then
      var cond := And([state.cond, DecisionCond(true)]);
      Outcome([], [BlockedPath(state.path, cond, state.node, state.ingress, Ingress)], []).Then(
        Reasons(IngressPolicy, state.node, "", state.ingress, state.path, cond))
    else
      var cs := SetCandidates(net, state.node, dst);
      Reasons(NoRoute, state.node, "", "", state.path, And([state.cond, Not(Or(CandidateConds(cs)))])).Then(
        ExploreAll(net, dst, maxHops, state, visited + {state.node}, states + [state], cs, |cs|))
  }

  /** The first n candidates, in order. */
  function ExploreAll(net: Network, dst: PrefixSet, maxHops: nat, state: SymState, visited: set<string>,
                      states: seq<SymState>,
                      cs: seq<Candidate>, n: nat): Outcome
    requires n <= |cs|
    decreases net.index.nodes - visited, 3, n
  {
    if n == 0 then NOTHING
    else
      ExploreAll(net, dst, maxHops, state, visited, states, cs, n - 1).Then(
        ExploreOne(net, dst, maxHops, state, visited, states, cs[n - 1]))
  }

  function ExploreOne(net: Network, dst: PrefixSet, maxHops: nat, state: SymState, visited: set<string>,
                      states: seq<SymState>,
                      c: Candidate): Outcome
    decreases net.index.nodes - visited, 2, 0
  {
    var e := c.entry;
    var taken := And([state.cond, c.cond]);
    if e.discard then Reasons(DiscardRoute, state.node, "", "", state.path, taken)
    else if EffectiveStatus(net, e).UnresolvedRecursive?
      then Reasons(RecursiveNextHopUnresolved, state.node, "", "", state.path, taken)
    else if EffectiveStatus(net, e).ManagementFallback?
      then Reasons(NextHopManagementFallback, state.node, "", e.iface, state.path, taken)
    else if e.nextHop == "" then Reasons(NoNextHop, state.node, "", "", state.path, taken)
    else
      Reasons(NodeFailed, e.nextHop, "", "", state.path, And([state.cond, c.cond, Not(NodeUp(e.nextHop))])).Then(
        match LinkBetween(net.index, state.node, e.nextHop)
        case None =>
          Reasons(NextHopNotAdjacent, state.node, state.node + "-" + e.nextHop, "", state.path,
            And([state.cond, c.cond, NodeUp(e.nextHop)]))
        case Some(link) =>
          Reasons(LinkFailed, state.node, link.name, "", state.path,
                  And([state.cond, c.cond, NodeUp(e.nextHop), Not(LinkUp(net, link))])).Then(
            Cross(net, dst, maxHops, state, visited, states, c, link)))
  }

  /** Over the link, unless the egress policy forbids it. */
  function Cross(net: Network, dst: PrefixSet, maxHops: nat, state: SymState, visited: set<string>,
                 states: seq<SymState>,
                 c: Candidate, link: Link): Outcome
    decreases net.index.nodes - visited, 1, 1
  {
    var iface := InterfaceOn(link, state.node);
    var path := Extend(state.path, c.entry.nextHop, link);
    if net.denied(state.node, Egress, iface) then
      var cond := And([state.cond, c.cond, DecisionCond(true)]);
      Outcome([], [BlockedPath(path, cond, state.node, iface, Egress)], []).Then(
        Reasons(EgressPolicy, state.node, "", iface, path, cond))
    else Explore(net, dst, maxHops, NextState(net, state, c, link), visited, states)
  }

  /** A state that is neither dropped nor delivered is what its candidates make of it. */
  lemma ExploreForwards(net: Network, dst: PrefixSet, maxHops: nat, state: SymState, visited: set<string>,
                        states: seq<SymState>)
    requires !IsFalse(state.cond) && state.node !in visited && !OriginatesSet(net, state.node, dst)
    requires |state.path.nodes| <= maxHops && state.node in net.index.nodes
    requires !net.denied(state.node, Ingress, state.ingress)
    ensures
      var cs := SetCandidates(net, state.node, dst);
      Explore(net, dst, maxHops, state, visited, states) ==
        Reasons(NoRoute, state.node, "", "", state.path, And([state.cond, Not(Or(CandidateConds(cs)))])).Then(
          ExploreAll(net, dst, maxHops, state, visited + {state.node}, states + [state], cs, |cs|))
  {
    hide ExploreAll, And, Or, Not, SetCandidates;
  }

  lemma ThenAssociates(a: Outcome, b: Outcome, c: Outcome)
    ensures a.Then(b).Then(c) == a.Then(b.Then(c))
    ensures a.Then(NOTHING) == a && NOTHING.Then(a) == a
  {
  }

  /** The slices that symbolicForward appends to. */
  class Findings {
    var paths: seq<SymPath>
    var blocked: seq<BlockedPath>
    var reasons: seq<Reason>

    constructor ()
      ensures Found() == NOTHING
    {
      paths, blocked, reasons := [], [], [];
    }

    function Found(): Outcome
      reads this
    {
      Outcome(paths, blocked, reasons)
    }

    method AddUnreachableReason(r: Reason)
      modifies this
      ensures Found() == old(Found()).Then(Outcome([], [], Reported(r)))
    {
      if IsFalse(r.cond) {
        assert reasons + [] == reasons;
        assert paths + [] == paths && blocked + [] == blocked;
        return;
      }
      reasons := reasons + [r];
      assert paths + [] == paths && blocked + [] == blocked;
    }

    method AppendBlockedPolicyPath(b: BlockedPath)
      modifies this
      ensures Found() == old(Found()).Then(Outcome([], [b], []))
    {
      blocked := blocked + [b];
      assert paths + [] == paths && reasons + [] == reasons;
    }

    /** symbolicForward: appends exactly the outcome of the state. */
    method SymbolicForward(net: Network, dst: PrefixSet, maxHops: nat, state: SymState, visited: set<string>,
                           states0: seq<SymState>)
      modifies this
      ensures Found() == old(Found()).Then(Explore(net, dst, maxHops, state, visited, states0))
      decreases net.index.nodes - visited, 1, 0
    {
      ghost var before := Found();
      ThenAssociates(before, NOTHING, NOTHING);
      if IsFalse(state.cond) {
        return;
      }
      if state.node in visited {
        AddUnreachableReason(Reason(ForwardingLoop, state.node, "", "", state.path, state.cond));
        return;
      }
      var states := states0 + [state];
      if OriginatesSet(net, state.node, dst) {
        AppendPath(SymPath(state.path, And([state.cond, NodeUp(state.node)]), states));
        return;
      }
      if |state.path.nodes| > maxHops {
        return;
      }
      if state.node !in net.index.nodes {
        return;
      }
      if net.denied(state.node, Ingress, state.ingress) {
        var denyCond := And([state.cond, DecisionCond(true)]);
        AppendBlockedPolicyPath(BlockedPath(state.path, denyCond, state.node, state.ingress, Ingress));
        AddUnreachableReason(Reason(IngressPolicy, state.node, "", state.ingress, state.path, denyCond));
        ThenAssociates(before, Outcome([], [BlockedPath(state.path, denyCond, state.node, state.ingress, Ingress)], []),
                       Reasons(IngressPolicy, state.node, "", state.ingress, state.path, denyCond));
        return;
      }
      ExploreForwards(net, dst, maxHops, state, visited, states0);
      hide Explore, ExploreAll, Candidates, And, Or, Not, IsFalse;
      var nextVisited := visited + {state.node};
      var entries := MatchingLoop(net.FibOf(state.node), MeetsSet(dst));
      var candidates := SymbolicLookupFIBEntries(net.index.linksByName, entries);
      var noRoute := Reason(NoRoute, state.node, "", "", state.path,
        And([state.cond, Not(Or(CandidateConds(candidates)))]));
      AddUnreachableReason(noRoute);
      ForwardAll(net, dst, maxHops, state, nextVisited, states, candidates);
      ThenAssociates(before, Outcome([], [], Reported(noRoute)),
                     ExploreAll(net, dst, maxHops, state, nextVisited, states, candidates, |candidates|));
    }

    /** Its loop over the candidates. */
    method ForwardAll(net: Network, dst: PrefixSet, maxHops: nat, state: SymState, visited: set<string>,
                      states: seq<SymState>,
                      candidates: seq<Candidate>)
      modifies this
      ensures Found() == old(Found()).Then(ExploreAll(net, dst, maxHops, state, visited, states, candidates,
          |candidates|))
      decreases net.index.nodes - visited, 3, |candidates|
    {
      ghost var before := Found();
      ThenAssociates(before, NOTHING, NOTHING);
      hide ExploreOne;
      for i := 0 to |candidates|
        invariant Found() == before.Then(ExploreAll(net, dst, maxHops, state, visited, states, candidates, i))
      {
        ForwardCandidate(net, dst, maxHops, state, visited, states, candidates[i]);
        ThenAssociates(before, ExploreAll(net, dst, maxHops, state, visited, states, candidates, i),
                       ExploreOne(net, dst, maxHops, state, visited, states, candidates[i]));
      }
    }

    /** The body of its loop over the candidates. */
    method ForwardCandidate(net: Network, dst: PrefixSet, maxHops: nat, state: SymState, visited: set<string>,
                            states: seq<SymState>, c: Candidate)
      modifies this
      ensures Found() == old(Found()).Then(ExploreOne(net, dst, maxHops, state, visited, states, c))
      decreases net.index.nodes - visited, 2, 0
    {
      ghost var before := Found();
      var entry := c.entry;
      hide And, Not, IsFalse, Explore, LinkUp, InterfaceOn;
      if entry.discard {
        AddUnreachableReason(Reason(DiscardRoute, state.node, "", "", state.path, And([state.cond, c.cond])));
        return;
      }
      match EffectiveStatus(net, entry) {
        case UnresolvedRecursive =>
          AddUnreachableReason(Reason(RecursiveNextHopUnresolved, state.node, "", "", state.path,
            And([state.cond, c.cond])));
          return;
        case ManagementFallback =>
          AddUnreachableReason(Reason(NextHopManagementFallback, state.node, "", entry.iface, state.path,
            And([state.cond, c.cond])));
          return;
        case _ =>
      }
      if entry.nextHop == "" {
        AddUnreachableReason(Reason(NoNextHop, state.node, "", "", state.path, And([state.cond, c.cond])));
        return;
      }
      var down := Reason(NodeFailed, entry.nextHop, "", "", state.path,
        And([state.cond, c.cond, Not(NodeUp(entry.nextHop))]));
      AddUnreachableReason(down);
      var found := LinkBetween(net.index, state.node, entry.nextHop);
      if found.None? {
        var apart := Reason(NextHopNotAdjacent, state.node, state.node + "-" + entry.nextHop, "", state.path,
                            And([state.cond, c.cond, NodeUp(entry.nextHop)]));
        AddUnreachableReason(apart);
        ThenAssociates(before, Outcome([], [], Reported(down)), Outcome([], [], Reported(apart)));
        return;
      }
      var link := found.value;
      var linkUpCond := LinkUp(net, link);
      var broken := Reason(LinkFailed, state.node, link.name, "", state.path,
        And([state.cond, c.cond, NodeUp(entry.nextHop), Not(linkUpCond)]));
      AddUnreachableReason(broken);
      CrossLink(net, dst, maxHops, state, visited, states, c, link);
      ghost var crossed := Cross(net, dst, maxHops, state, visited, states, c, link);
      hide Cross;
      ThenAssociates(before.Then(Outcome([], [], Reported(down))), Outcome([], [], Reported(broken)), crossed);
      ThenAssociates(before, Outcome([], [], Reported(down)), Outcome([], [], Reported(broken)).Then(crossed));
    }

    method CrossLink(net: Network, dst: PrefixSet, maxHops: nat, state: SymState, visited: set<string>,
                     states: seq<SymState>,
                     c: Candidate, link: Link)
      modifies this
      ensures Found() == old(Found()).Then(Cross(net, dst, maxHops, state, visited, states, c, link))
      decreases net.index.nodes - visited, 1, 1
    {
      ghost var before := Found();
      var egressInterface := InterfaceOn(link, state.node);
      var nextPath := Extend(state.path, c.entry.nextHop, link);
      if net.denied(state.node, Egress, egressInterface) {
        var denyCond := And([state.cond, c.cond, DecisionCond(true)]);
        AppendBlockedPolicyPath(BlockedPath(nextPath, denyCond, state.node, egressInterface, Egress));
        AddUnreachableReason(Reason(EgressPolicy, state.node, "", egressInterface, nextPath, denyCond));
        ThenAssociates(before, Outcome([], [BlockedPath(nextPath, denyCond, state.node, egressInterface, Egress)], []),
                       Reasons(EgressPolicy, state.node, "", egressInterface, nextPath, denyCond));
        return;
      }
      SymbolicForward(net, dst, maxHops, NextState(net, state, c, link), visited, states);
    }

    method AppendPath(p: SymPath)
      modifies this
      ensures Found() == old(Found()).Then(Outcome([p], [], []))
    {
      paths := paths + [p];
      assert blocked + [] == blocked && reasons + [] == reasons;
    }
  }
}
