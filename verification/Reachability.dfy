/** The concrete data plane: one packet, one failure context, backtracking over the live candidates. */
module Reachability {
  import opened Conditions
  import opened Dataplane
  import opened Failure
  import opened Fib
  import opened Prefixes
  import opened Topology
  import opened Wrappers

  datatype Why =
    | Reached | NotAdvertised | SourceDown | DestinationDown | CurrentDown | Looped | DeniedIngress | DeniedEgress
    | Unrouted | Discarded | Unresolved | ManagementOnly | NextHopMissing | NextHopDown | NotAdjacent | LinkDown

  datatype Walk = Walk(path: Path, ok: bool, why: Why)

  /** The packet: its destination address, and the originated prefix that contains it. */
  datatype Packet = Packet(to: Addr, dstPrefix: Prefix)

  predicate Originates(net: Network, node: string, p: Prefix) {
    node in net.index.nodes && p in net.PrefixesOf(node)
  }

  function AddrCandidates(net: Network, node: string, a: Addr): seq<Candidate> {
    Candidates(net.index.linksByName, Matching(net.FibOf(node), HasAddr(a)))
  }

  function Forward(net: Network, packet: Packet, ctx: Context, current: string, ingress: string, visited: set<string>,
                   full: Path): Walk
    requires Consistent(net.index)
    decreases net.index.nodes - visited, 1, 0
  {
    if ctx.NodeFailed(current) then Walk(full, false, CurrentDown)
    else if current in visited then Walk(full, false, Looped)
    else if Originates(net, current, packet.dstPrefix) then Walk(full, true, Reached)
    else if net.denied(current, Ingress, ingress) then Walk(full, false, DeniedIngress)
    else TryAll(net, packet, ctx, current, visited, full, AddrCandidates(net, current, packet.to), 0, None)
  }

  /** The candidates from the i-th on; the first failure is the one reported. */
  function TryAll(net: Network, packet: Packet, ctx: Context, current: string, visited: set<string>, full: Path,
                  cs: seq<Candidate>, i: nat, first: Option<Why>): Walk
    requires Consistent(net.index) && i <= |cs| && current !in visited
    decreases net.index.nodes - visited, 0, |cs| - i
  {
    if i == |cs| then Walk(full, false, if first.Some? then first.value else Unrouted)
    else if !Eval(cs[i].cond, ctx) then TryAll(net, packet, ctx, current, visited, full, cs, i + 1, first)
    else
      var w := TryOne(net, packet, ctx, current, visited, full, cs[i].entry);
      if w.ok then w
      else TryAll(net, packet, ctx, current, visited, full, cs, i + 1, if first.Some? then first else Some(w.why))
  }

  function TryOne(net: Network, packet: Packet, ctx: Context, current: string, visited: set<string>, full: Path,
                  rule: FibEntry): Walk
    requires Consistent(net.index) && current !in visited
    decreases net.index.nodes - visited, 0, 0
  {
    if rule.discard then Walk(full, false, Discarded)
    else if EffectiveStatus(net, rule).UnresolvedRecursive? then Walk(full, false, Unresolved)
    else if EffectiveStatus(net, rule).ManagementFallback? then Walk(full, false, ManagementOnly)
    else if rule.nextHop == "" then Walk(full, false, NextHopMissing)
    else if ctx.NodeFailed(rule.nextHop) then Walk(full, false, NextHopDown)
    else
      match LinkBetween(net.index, current, rule.nextHop)
      case None => Walk(full, false, NotAdjacent)
      case Some(link) =>
        LinkBetweenIsTheirs(net.index, current, rule.nextHop);
        if ctx.LinkFailed(link.name) then Walk(full, false, LinkDown)
        else if net.denied(current, Egress, InterfaceOn(link, current)) then Walk(full, false, DeniedEgress)
        else
          Forward(net, packet, ctx, rule.nextHop, InterfaceOn(link, rule.nextHop), visited + {current},
            Extend(full, rule.nextHop, link))
  }

  /** packetReachableFrom */
  method PacketReachableFrom(net: Network, packet: Packet, ctx: Context, current: string, ingress: string,
                             visited: set<string>, full: Path)
    returns (w: Walk)
    requires Consistent(net.index)
    ensures w == Forward(net, packet, ctx, current, ingress, visited, full)
    decreases net.index.nodes - visited, 1, 0
  {
    if ctx.NodeFailed(current) {
      return Walk(full, false, CurrentDown);
    }
    if current in visited {
      return Walk(full, false, Looped);
    }
    if Originates(net, current, packet.dstPrefix) {
      return Walk(full, true, Reached);
    }
    if net.denied(current, Ingress, ingress) {
      return Walk(full, false, DeniedIngress);
    }
    var entries := MatchingLoop(net.FibOf(current), HasAddr(packet.to));
    var candidates := SymbolicLookupFIBEntries(net.index.linksByName, entries);
    if |candidates| == 0 {
      return Walk(full, false, Unrouted);
    }
    w := TryCandidates(net, packet, ctx, current, visited, full, candidates);
  }

  /** Its loop over the candidates. */
  method TryCandidates(net: Network, packet: Packet, ctx: Context, current: string, visited: set<string>, full: Path,
                       candidates: seq<Candidate>)
    returns (w: Walk)
    requires Consistent(net.index) && current !in visited
    ensures w == TryAll(net, packet, ctx, current, visited, full, candidates, 0, None)
    decreases net.index.nodes - visited, 0, 1
  {
    var first: Option<Why> := None;
    hide TryOne, Eval, Consistent;
    for i := 0 to |candidates|
      invariant TryAll(net, packet, ctx, current, visited, full, candidates, 0, None)
             == TryAll(net, packet, ctx, current, visited, full, candidates, i, first)
    {
      if !Eval(candidates[i].cond, ctx) {
        continue;
      }
      var next := TryPacketCandidate(net, packet, ctx, current, visited, full, candidates[i].entry);
      if next.ok {
        return next;
      }
      if first.None? {
        first := Some(next.why);
      }
    }
    return Walk(full, false, if first.Some? then first.value else Unrouted);
  }

  /** tryPacketCandidate */
  method TryPacketCandidate(net: Network, packet: Packet, ctx: Context, current: string, visited: set<string>,
                            full: Path, rule: FibEntry)
    returns (w: Walk)
    requires Consistent(net.index) && current !in visited
    ensures w == TryOne(net, packet, ctx, current, visited, full, rule)
    decreases net.index.nodes - visited, 0, 0
  {
    if rule.discard {
      return Walk(full, false, Discarded);
    }
    match EffectiveStatus(net, rule) {
      case UnresolvedRecursive => return Walk(full, false, Unresolved);
      case ManagementFallback => return Walk(full, false, ManagementOnly);
      case _ =>
    }
    if rule.nextHop == "" {
      return Walk(full, false, NextHopMissing);
    }
    if ctx.NodeFailed(rule.nextHop) {
      return Walk(full, false, NextHopDown);
    }
    var found := LinkBetween(net.index, current, rule.nextHop);
    if found.None? {
      return Walk(full, false, NotAdjacent);
    }
    var link := found.value;
    LinkBetweenIsTheirs(net.index, current, rule.nextHop);
    if ctx.LinkFailed(link.name) {
      return Walk(full, false, LinkDown);
    }
    if net.denied(current, Egress, InterfaceOn(link, current)) {
      return Walk(full, false, DeniedEgress);
    }
    w := PacketReachableFrom(net, packet, ctx, rule.nextHop, InterfaceOn(link, rule.nextHop), visited + {current},
                             Extend(full, rule.nextHop, link));
  }

  /** PacketReachableSpecVRF, given the origin that was found for the destination address. */
  method PacketReachable(net: Network, from: string, to: Addr, origin: Option<(string, Prefix)>, ctx: Context)
    returns (w: Walk)
    requires Consistent(net.index)
    ensures w == Concrete(net, from, to, origin, ctx)
  {
    if origin.None? {
      return Walk(Path([], [], 0), false, NotAdvertised);
    }
    if ctx.NodeFailed(from) {
      return Walk(Path([], [], 0), false, SourceDown);
    }
    if ctx.NodeFailed(origin.value.0) {
      return Walk(Path([], [], 0), false, DestinationDown);
    }
    w := PacketReachableFrom(net, Packet(to, origin.value.1), ctx, from, "", {}, Path([from], [], 0));
  }

  function Concrete(net: Network, from: string, to: Addr, origin: Option<(string, Prefix)>, ctx: Context): Walk
    requires Consistent(net.index)
  {
    if origin.None? then Walk(Path([], [], 0), false, NotAdvertised)
    else if ctx.NodeFailed(from) then Walk(Path([], [], 0), false, SourceDown)
    else if ctx.NodeFailed(origin.value.0) then Walk(Path([], [], 0), false, DestinationDown)
    else Forward(net, Packet(to, origin.value.1), ctx, from, "", {}, Path([from], [], 0))
  }
}
