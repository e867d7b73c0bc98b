/** What the concrete walk decides: whether some loop-free path is open from hop to hop, to an origin. */
module Delivery {
  import opened Conditions
  import opened Dataplane
  import opened Failure
  import opened Fib
  import opened Prefixes
  import opened Reachability
  import opened Topology
  import opened Wrappers
  import Sorting

  // ---------- open paths ----------

  /** What is asked for: an address with the prefix its origin announces, or any address of a set. */
  datatype Query = ToAddress(packet: Packet) | ToSet(dst: PrefixSet)

  function CandidatesFor(net: Network, q: Query, node: string): seq<Candidate> {
    match q
    case ToAddress(packet) => AddrCandidates(net, node, packet.to)
    case ToSet(dst) => SetCandidates(net, node, dst)
  }

  /** The node announces the prefix asked for, or some prefix that shares an address with the set. */
  ghost predicate IsDestination(net: Network, q: Query, node: string) {
    && node in net.index.nodes
    && match q
       case ToAddress(packet) => packet.dstPrefix in net.PrefixesOf(node)
       case ToSet(dst) => exists p, a :: p in net.PrefixesOf(node) && Contains(p, a) && ContainsAddr(dst, a)
  }

  /** The entry is one of those the lookup offers, and its condition holds. */
  ghost predicate Active(net: Network, q: Query, ctx: Context, node: string, e: FibEntry) {
    var cs := CandidatesFor(net, q, node);
    exists i :: 0 <= i < |cs| && cs[i].entry == e && Eval(cs[i].cond, ctx)
  }

  /** The entry sends packets to the next hop: it does not discard, and the next hop is a node, not an address. */
  predicate Sends(net: Network, e: FibEntry, next: string) {
    && !e.discard && e.nextHop == next != ""
    && (e.status.ResolvedAdjacent? || (e.status.Unset? && !net.isAddr(next)))
  }

  /**
   A link of the topology leads from one node to the other, all of it is up, and the sender's end
   lets the packet out.
   */
  ghost predicate Crosses(net: Network, ctx: Context, current: string, next: string, link: Link) {
    && InTopology(net.index, link) && Joins(link, current, next)
    && !ctx.NodeFailed(next) && !ctx.LinkFailed(link.name)
    && exists iface :: EndAt(link, current, iface) && !net.denied(current, Egress, iface)
  }

  /** Some active entry sends the packet over the link. */
  ghost predicate Hop(net: Network, q: Query, ctx: Context, current: string, next: string, link: Link) {
    Crosses(net, ctx, current, next, link) && exists e :: Active(net, q, ctx, current, e) && Sends(net, e, next)
  }

  /**
   The packet, arriving at the first node at the given interface, can go from node to node to the
   last one, which originates what is asked for; every node on the way lets it in where its own
   end of the link is.
   */
  ghost predicate Open(net: Network, q: Query, ctx: Context, ingress: string, nodes: seq<string>)
    decreases |nodes|
  {
    && nodes != [] && !ctx.NodeFailed(nodes[0])
    && if |nodes| == 1 then IsDestination(net, q, nodes[0])
       else
         && !net.denied(nodes[0], Ingress, ingress)
         && exists link, iface :: OpenBeyond(net, q, ctx, nodes, link, iface)
  }

  ghost predicate OpenBeyond(net: Network, q: Query, ctx: Context, nodes: seq<string>, link: Link, iface: string)
    requires |nodes| > 1
    decreases |nodes|, 0
  {
    && Hop(net, q, ctx, nodes[0], nodes[1], link) && EndAt(link, nodes[1], iface)
    && Open(net, q, ctx, iface, nodes[1..])
  }

  // ---------- how the program decides it ----------

  lemma DestinationAs(net: Network, q: Query, node: string)
    ensures q.ToAddress? ==> (IsDestination(net, q, node) <==> Originates(net, node, q.packet.dstPrefix))
    ensures q.ToSet? ==> (IsDestination(net, q, node) <==> OriginatesSet(net, node, q.dst))
  {
    if q.ToSet? {
      forall p | p in net.PrefixesOf(node)
        ensures p.Net? && AddressSpaceOverlaps(ExactSet(p), q.dst) <==>
            exists a :: Contains(p, a) && ContainsAddr(q.dst, a)
      {
        OverlapsExactly(ExactSet(p), q.dst);
      }
    }
  }

  lemma SendsAs(net: Network, e: FibEntry, next: string)
    ensures Sends(net, e, next) <==>
      && !e.discard && !EffectiveStatus(net, e).UnresolvedRecursive? && !EffectiveStatus(net, e).ManagementFallback?
      && e.nextHop == next != ""
  {
  }

  lemma CrossesAs(net: Network, ctx: Context, current: string, next: string, link: Link)
    requires Consistent(net.index)
    ensures Crosses(net, ctx, current, next, link) <==>
      && LinkBetween(net.index, current, next) == Some(link)
      && !ctx.NodeFailed(next) && !ctx.LinkFailed(link.name)
      && !net.denied(current, Egress, InterfaceOn(link, current))
    ensures Crosses(net, ctx, current, next, link) ==>
      current in net.index.nodes && forall iface :: EndAt(link, next, iface) <==> iface == InterfaceOn(link, next)
  {
    LinkBetweenExactly(net.index, current, next, link);
    if LinkBetween(net.index, current, next) == Some(link) {
      LinkBetweenIsTheirs(net.index, current, next);
      InterfaceOnExactly(link, current, next, InterfaceOn(link, current));
      forall iface
        ensures EndAt(link, current, iface) <==> iface == InterfaceOn(link, current)
        ensures EndAt(link, next, iface) <==> iface == InterfaceOn(link, next)
      {
        InterfaceOnExactly(link, current, next, iface);
        InterfaceOnExactly(link, next, current, iface);
      }
    }
    hide Consistent, LinkBetween, InterfaceOn, EndAt;
  }

  ghost predicate LoopFree(nodes: seq<string>, visited: set<string>) {
    Sorting.NoDuplicates(nodes) && forall n :: n in nodes ==> n !in visited
  }

  /** An open loop-free path from the node that avoids the visited ones. */
  ghost predicate OpenFrom(net: Network, q: Query, ctx: Context, current: string, ingress: string,
                           visited: set<string>, nodes: seq<string>) {
    nodes != [] && nodes[0] == current && LoopFree(nodes, visited) && Open(net, q, ctx, ingress, nodes)
  }

  // ---------- the walk finds an open path ----------

  lemma Prepend(net: Network, q: Query, ctx: Context, current: string, ingress: string, visited: set<string>,
                link: Link, iface: string, nodes: seq<string>)
    requires nodes != [] && !ctx.NodeFailed(current) && current !in visited && !net.denied(current, Ingress, ingress)
    requires Hop(net, q, ctx, current, nodes[0], link) && EndAt(link, nodes[0], iface)
    requires OpenFrom(net, q, ctx, nodes[0], iface, visited + {current}, nodes)
    ensures OpenFrom(net, q, ctx, current, ingress, visited, [current] + nodes)
  {
    var all := [current] + nodes;
    assert all[1..] == nodes && all[0] == current && all[1] == nodes[0];
    PrependLoopFree(current, nodes, visited);
    hide LoopFree, Hop, Open, EndAt;
    assert OpenBeyond(net, q, ctx, all, link, iface);
    PrependOpen(net, q, ctx, ingress, link, iface, all);
  }

  lemma PrependOpen(net: Network, q: Query, ctx: Context, ingress: string, link: Link, iface: string,
                    nodes: seq<string>)
    requires |nodes| > 1 && !ctx.NodeFailed(nodes[0]) && !net.denied(nodes[0], Ingress, ingress)
    requires OpenBeyond(net, q, ctx, nodes, link, iface)
    ensures Open(net, q, ctx, ingress, nodes)
  {
    hide OpenBeyond, IsDestination;
  }

  lemma PrependLoopFree(current: string, nodes: seq<string>, visited: set<string>)
    requires LoopFree(nodes, visited + {current}) && current !in visited
    ensures LoopFree([current] + nodes, visited)
  {
    var all := [current] + nodes;
    assert forall i :: 0 < i < |all| ==> all[i] == nodes[i - 1] && all[i] in nodes;
    forall i, j | 0 <= i < j < |all|
      ensures all[i] != all[j]
    {
      assert all[j] in nodes;
    }
  }

  lemma RestLoopFree(nodes: seq<string>, visited: set<string>)
    requires nodes != [] && LoopFree(nodes, visited)
    ensures LoopFree(nodes[1..], visited + {nodes[0]}) && nodes[0] !in visited
  {
    var rest := nodes[1..];
    assert nodes[0] in nodes;
    assert forall i :: 0 <= i < |rest| ==> rest[i] == nodes[i + 1];
    assert forall n :: n in rest ==> n in nodes;
  }

  /** A successful walk reports a path that is open and repeats no node. */
  lemma {:induction false} ForwardOpen(net: Network, packet: Packet, ctx: Context, current: string, ingress: string,
                                       visited: set<string>, full: Path) returns (nodes: seq<string>)
    requires Consistent(net.index) && Forward(net, packet, ctx, current, ingress, visited, full).ok
    ensures OpenFrom(net, ToAddress(packet), ctx, current, ingress, visited, nodes)
    ensures Forward(net, packet, ctx, current, ingress, visited, full).path.nodes == full.nodes + nodes[1..]
    decreases net.index.nodes - visited, 1, 0
  {
    DestinationAs(net, ToAddress(packet), current);
    if Originates(net, current, packet.dstPrefix) {
      nodes := [current];
      assert full.nodes + nodes[1..] == full.nodes;
    } else {
      var cs := AddrCandidates(net, current, packet.to);
      var rest, link, iface := TryAllOpen(net, packet, ctx, current, visited, full, cs, 0, None);
      Prepend(net, ToAddress(packet), ctx, current, ingress, visited, link, iface, rest);
      nodes := [current] + rest;
      assert nodes[1..] == rest;
    }
  }

  /** What a successful try yields: a hop, and an open path beyond it. */
  ghost predicate Beyond(net: Network, packet: Packet, ctx: Context, current: string, visited: set<string>,
                         rest: seq<string>, link: Link, iface: string) {
    && rest != [] && Hop(net, ToAddress(packet), ctx, current, rest[0], link) && EndAt(link, rest[0], iface)
    && OpenFrom(net, ToAddress(packet), ctx, rest[0], iface, visited + {current}, rest)
  }

  lemma {:induction false} TryAllOpen(net: Network, packet: Packet, ctx: Context, current: string,
                                      visited: set<string>, full: Path,
                                      cs: seq<Candidate>, i: nat, first: Option<Why>)
    returns (rest: seq<string>, link: Link, iface: string)
    requires Consistent(net.index) && i <= |cs| && current !in visited && cs == AddrCandidates(net, current, packet.to)
    requires TryAll(net, packet, ctx, current, visited, full, cs, i, first).ok
    ensures Beyond(net, packet, ctx, current, visited, rest, link, iface)
    ensures TryAll(net, packet, ctx, current, visited, full, cs, i, first).path.nodes == full.nodes + rest
    decreases net.index.nodes - visited, 0, |cs| - i
  {
    hide Eval, AddrCandidates;
    if !Eval(cs[i].cond, ctx) {
      rest, link, iface := TryAllOpen(net, packet, ctx, current, visited, full, cs, i + 1, first);
    } else {
      var w := TryOne(net, packet, ctx, current, visited, full, cs[i].entry);
      if w.ok {
        rest, link, iface := TryOneOpen(net, packet, ctx, current, visited, full, cs, i);
      } else {
        rest, link, iface := TryAllOpen(net, packet, ctx, current, visited, full, cs, i + 1, if first.Some? then first
          else Some(w.why));
      }
    }
  }

  lemma {:induction false} TryOneOpen(net: Network, packet: Packet, ctx: Context, current: string,
                                      visited: set<string>, full: Path,
                                      cs: seq<Candidate>, i: nat)
    returns (rest: seq<string>, link: Link, iface: string)
    requires Consistent(net.index) && i < |cs| && current !in visited && cs == AddrCandidates(net, current, packet.to)
    requires Eval(cs[i].cond, ctx) && TryOne(net, packet, ctx, current, visited, full, cs[i].entry).ok
    ensures Beyond(net, packet, ctx, current, visited, rest, link, iface)
    ensures TryOne(net, packet, ctx, current, visited, full, cs[i].entry).path.nodes == full.nodes + rest
    decreases net.index.nodes - visited, 0, 0
  {
    hide Eval, AddrCandidates;
    var next := cs[i].entry.nextHop;
    link := LinkBetween(net.index, current, next).value;
    iface := InterfaceOn(link, next);
    LinkBetweenIsTheirs(net.index, current, next);
    rest := ForwardOpen(net, packet, ctx, next, iface, visited + {current}, Extend(full, next, link));
    OpenUnvisited(net, ToAddress(packet), ctx, next, iface, visited + {current}, rest);
    CrossesAs(net, ctx, current, next, link);
    SendsAs(net, cs[i].entry, next);
    ActiveAt(net, ToAddress(packet), ctx, current, cs, i);
    assert Hop(net, ToAddress(packet), ctx, current, next, link);
    assert full.nodes + [next] + rest[1..] == full.nodes + rest;
  }

  lemma ActiveAt(net: Network, q: Query, ctx: Context, node: string, cs: seq<Candidate>, i: nat)
    requires cs == CandidatesFor(net, q, node) && i < |cs| && Eval(cs[i].cond, ctx)
    ensures Active(net, q, ctx, node, cs[i].entry)
  {
  }

  lemma OpenUnvisited(net: Network, q: Query, ctx: Context, from: string, ingress: string, visited: set<string>,
                      nodes: seq<string>)
    requires OpenFrom(net, q, ctx, from, ingress, visited, nodes)
    ensures nodes != [] && nodes[0] == from && from !in visited && !ctx.NodeFailed(from)
  {
    assert nodes[0] in nodes;
  }

  // ---------- an open path is found ----------

  /** Backtracking: one active candidate that works is enough. */
  lemma {:induction false} TryAllFinds(net: Network, packet: Packet, ctx: Context, current: string,
                                       visited: set<string>, full: Path,
                                       cs: seq<Candidate>, i: nat, first: Option<Why>, j: nat)
    requires Consistent(net.index) && i <= j < |cs| && current !in visited
    requires Eval(cs[j].cond, ctx) && TryOne(net, packet, ctx, current, visited, full, cs[j].entry).ok
    ensures TryAll(net, packet, ctx, current, visited, full, cs, i, first).ok
    decreases |cs| - i
  {
    hide Eval, TryOne;
    if i < j {
      if !Eval(cs[i].cond, ctx) {
        TryAllFinds(net, packet, ctx, current, visited, full, cs, i + 1, first, j);
      } else {
        var w := TryOne(net, packet, ctx, current, visited, full, cs[i].entry);
        TryAllFinds(net, packet, ctx, current, visited, full, cs, i + 1, if first.Some? then first else Some(w.why), j);
      }
    }
  }

  /**
   A candidate is tried successfully exactly when it sends the packet over a link and an open path
   goes on from there.
   */
  lemma TryOneExactly(net: Network, packet: Packet, ctx: Context, current: string, visited: set<string>, full: Path,
                      rule: FibEntry)
    requires Consistent(net.index) && current !in visited
    ensures TryOne(net, packet, ctx, current, visited, full, rule).ok <==>
      Sends(net, rule, rule.nextHop) && exists link, iface, rest ::
        GoesOn(net, ToAddress(packet), ctx, current, visited, rule.nextHop, link, iface, rest)
  {
    var next := rule.nextHop;
    SendsAs(net, rule, next);
    hide Forward, Open, LoopFree, Sends, EffectiveStatus;
    if TryOne(net, packet, ctx, current, visited, full, rule).ok {
      var link := LinkBetween(net.index, current, next).value;
      var iface := InterfaceOn(link, next);
      LinkBetweenIsTheirs(net.index, current, next);
      var rest := ForwardOpen(net, packet, ctx, next, iface, visited + {current}, Extend(full, next, link));
      OpenUnvisited(net, ToAddress(packet), ctx, next, iface, visited + {current}, rest);
      CrossesAs(net, ctx, current, next, link);
      assert GoesOn(net, ToAddress(packet), ctx, current, visited, next, link, iface, rest);
    }
    if link, iface, rest :|
      Sends(net, rule, next) && GoesOn(net, ToAddress(packet), ctx, current, visited, next, link, iface, rest)
    {
      CrossesAs(net, ctx, current, next, link);
      OpenForwards(net, packet, ctx, next, iface, visited + {current}, Extend(full, next, link), rest);
    }
  }

  /** Over the link, and from the far end on by an open loop-free path. */
  ghost predicate GoesOn(net: Network, q: Query, ctx: Context, current: string, visited: set<string>, next: string,
                         link: Link, iface: string, rest: seq<string>) {
    && Crosses(net, ctx, current, next, link) && EndAt(link, next, iface)
    && OpenFrom(net, q, ctx, next, iface, visited + {current}, rest)
  }

  /** The first hop of an open path, and the open path beyond it. */
  lemma FirstHop(net: Network, q: Query, ctx: Context, current: string, ingress: string, visited: set<string>,
                 nodes: seq<string>)
    returns (link: Link, iface: string)
    requires OpenFrom(net, q, ctx, current, ingress, visited, nodes) && |nodes| > 1
    ensures current !in visited && !ctx.NodeFailed(current) && !net.denied(current, Ingress, ingress)
    ensures Hop(net, q, ctx, current, nodes[1], link) && EndAt(link, nodes[1], iface)
    ensures OpenFrom(net, q, ctx, nodes[1], iface, visited + {current}, nodes[1..])
  {
    assert Open(net, q, ctx, ingress, nodes);
    assert exists link, iface :: OpenBeyond(net, q, ctx, nodes, link, iface);
    link, iface :| OpenBeyond(net, q, ctx, nodes, link, iface);
    RestLoopFree(nodes, visited);
    hide LoopFree, Hop, EndAt;
  }

  lemma HopFinds(net: Network, packet: Packet, ctx: Context, current: string, visited: set<string>, full: Path,
                 next: string, link: Link)
    requires Consistent(net.index) && current !in visited && Hop(net, ToAddress(packet), ctx, current, next, link)
    requires Forward(net, packet, ctx, next, InterfaceOn(link, next), visited + {current}, Extend(full, next, link)).ok
    ensures TryAll(net, packet, ctx, current, visited, full, AddrCandidates(net, current, packet.to), 0, None).ok
  {
    CrossesAs(net, ctx, current, next, link);
    hide Eval, AddrCandidates, Forward, Crosses, Sends, EffectiveStatus;
    var cs := AddrCandidates(net, current, packet.to);
    var e :| Active(net, ToAddress(packet), ctx, current, e) && Sends(net, e, next);
    var i :| 0 <= i < |cs| && cs[i].entry == e && Eval(cs[i].cond, ctx);
    SendsAs(net, e, next);
    assert TryOne(net, packet, ctx, current, visited, full, cs[i].entry)
        == Forward(net, packet, ctx, next, InterfaceOn(link, next), visited + {current}, Extend(full, next, link));
    TryAllFinds(net, packet, ctx, current, visited, full, cs, 0, None, i);
  }

  lemma {:induction false} OpenForwards(net: Network, packet: Packet, ctx: Context, current: string, ingress: string,
                                        visited: set<string>, full: Path, nodes: seq<string>)
    requires Consistent(net.index) && OpenFrom(net, ToAddress(packet), ctx, current, ingress, visited, nodes)
    ensures Forward(net, packet, ctx, current, ingress, visited, full).ok
    decreases |nodes|
  {
    hide Hop, Consistent, AddrCandidates, TryAll, Originates, IsDestination, EndAt;
    OpenUnvisited(net, ToAddress(packet), ctx, current, ingress, visited, nodes);
    DestinationAs(net, ToAddress(packet), current);
    if |nodes| > 1 {
      var link, iface := FirstHop(net, ToAddress(packet), ctx, current, ingress, visited, nodes);
      hide OpenFrom;
      HopEnds(net, ToAddress(packet), ctx, current, nodes[1], link);
      OpenForwards(net, packet, ctx, nodes[1], iface, visited + {current}, Extend(full, nodes[1], link), nodes[1..]);
      HopFinds(net, packet, ctx, current, visited, full, nodes[1], link);
    }
  }

  lemma HopEnds(net: Network, q: Query, ctx: Context, current: string, next: string, link: Link)
    requires Consistent(net.index) && Hop(net, q, ctx, current, next, link)
    ensures current in net.index.nodes && forall iface :: EndAt(link, next, iface) <==> iface == InterfaceOn(link, next)
  {
    CrossesAs(net, ctx, current, next, link);
  }

  /** Backtracking is complete: the walk succeeds exactly when an open loop-free path exists. */
  lemma WalkExactly(net: Network, packet: Packet, ctx: Context, current: string, ingress: string,
                    visited: set<string>, full: Path)
    requires Consistent(net.index)
    ensures Forward(net, packet, ctx, current, ingress, visited, full).ok <==>
      exists nodes :: OpenFrom(net, ToAddress(packet), ctx, current, ingress, visited, nodes)
  {
    hide Forward, OpenFrom;
    if Forward(net, packet, ctx, current, ingress, visited, full).ok {
      var nodes := ForwardOpen(net, packet, ctx, current, ingress, visited, full);
    }
    if nodes :| OpenFrom(net, ToAddress(packet), ctx, current, ingress, visited, nodes) {
      OpenForwards(net, packet, ctx, current, ingress, visited, full, nodes);
    }
  }

  /**
   The concrete query delivers exactly when an origin was found, it and the source are up, and
   an open loop-free path leads from the source to some node that originates the prefix; the
   path it reports is one.
   */
  lemma DeliveredExactly(net: Network, from: string, to: Addr, origin: Option<(string, Prefix)>, ctx: Context)
    requires Consistent(net.index)
    ensures Concrete(net, from, to, origin, ctx).ok <==>
      && origin.Some? && !ctx.NodeFailed(from) && !ctx.NodeFailed(origin.value.0)
      && exists nodes :: OpenFrom(net, ToAddress(Packet(to, origin.value.1)), ctx, from, "", {}, nodes)
    ensures Concrete(net, from, to, origin, ctx).ok ==>
      OpenFrom(net, ToAddress(Packet(to, origin.value.1)), ctx, from, "", {},
        Concrete(net, from, to, origin, ctx).path.nodes)
  {
    hide Forward, OpenFrom;
    if origin.Some? {
      var packet := Packet(to, origin.value.1);
      WalkExactly(net, packet, ctx, from, "", {}, Path([from], [], 0));
      if Concrete(net, from, to, origin, ctx).ok {
        var nodes := ForwardOpen(net, packet, ctx, from, "", {}, Path([from], [], 0));
        OpenUnvisited(net, ToAddress(packet), ctx, from, "", {}, nodes);
        assert [from] + nodes[1..] == nodes;
      }
    }
  }
}
