/** What an unreachable reason says: where it applies it is true, and what is the case is said. */
module Diagnosis {
  import opened Conditions
  import opened Conjunctions
  import opened Dataplane
  import opened DataplaneExact
  import opened DataplaneExplained
  import opened Delivery
  import opened Failure
  import opened Fib
  import opened NormalForms
  import opened Prefixes
  import opened Reachability
  import opened Topology
  import opened Wrappers

  // ---------- troubles of the network ----------

  /** What a reason says, without the condition: its kind, where it is, and the nodes up to there. */
  datatype Trouble = Trouble(kind: ReasonKind, node: string, link: string, iface: string, way: seq<string>)

  /** The next hop is known by address only, or looks like one. */
  predicate Recursive(net: Network, e: FibEntry) {
    || e.status.UnresolvedRecursive?
    || (e.status.Unset? && e.nextHop == "" && (e.rawNextHop != "" || e.nextHopAddress != ""))
    || (e.status.Unset? && net.isAddr(e.nextHop))
  }

  /** What is wrong with an entry at a node, so that it does not carry the packet on. */
  ghost predicate EntryTrouble(net: Network, ctx: Context, node: string, way: seq<string>, e: FibEntry, d: Trouble) {
    match d.kind
    case DiscardRoute => e.discard && d == Trouble(DiscardRoute, node, "", "", way)
    case RecursiveNextHopUnresolved =>
      !e.discard && Recursive(net, e) && d == Trouble(RecursiveNextHopUnresolved, node, "", "", way)
    case NextHopManagementFallback =>
      !e.discard && e.status.ManagementFallback? && d == Trouble(NextHopManagementFallback, node, "", e.iface, way)
    case NoNextHop =>
      && !e.discard && !Recursive(net, e) && !e.status.ManagementFallback? && e.nextHop == ""
      && d == Trouble(NoNextHop, node, "", "", way)
    case NodeFailed =>
      Sends(net, e, e.nextHop) && ctx.NodeFailed(e.nextHop) && d == Trouble(NodeFailed, e.nextHop, "", "", way)
    case NextHopNotAdjacent =>
      && Sends(net, e, e.nextHop) && !ctx.NodeFailed(e.nextHop)
      && (forall l :: InTopology(net.index, l) ==> !Joins(l, node, e.nextHop))
      && d == Trouble(NextHopNotAdjacent, node, node + "-" + e.nextHop, "", way)
    case LinkFailed =>
      && Sends(net, e, e.nextHop) && !ctx.NodeFailed(e.nextHop)
      && exists l :: InTopology(net.index, l) && Joins(l, node, e.nextHop) && ctx.LinkFailed(l.name)
           && d == Trouble(LinkFailed, node, l.name, "", way)
    case EgressPolicy =>
      && Sends(net, e, e.nextHop)
      && exists l, iface :: InTopology(net.index, l) && Joins(l, node, e.nextHop) && EndAt(l, node, iface)
           && net.denied(node, Egress, iface) && d == Trouble(EgressPolicy, node, "", iface, way + [e.nextHop])
    case _ => false
  }

  /** The node forwards: it has not been visited, is no destination, and lets the packet in. */
  ghost predicate Forwards(net: Network, q: Query, node: string, ingress: string, seen: set<string>) {
    node !in seen && !IsDestination(net, q, node) && !net.denied(node, Ingress, ingress)
  }

  /** What is wrong at a node that the packet reaches. */
  ghost predicate NodeTrouble(net: Network, q: Query, ctx: Context, node: string, ingress: string, seen: set<string>,
                              way: seq<string>, d: Trouble) {
    match d.kind
    case ForwardingLoop => node in seen && d == Trouble(ForwardingLoop, node, "", "", way)
    case IngressPolicy =>
      && node !in seen && !IsDestination(net, q, node) && net.denied(node, Ingress, ingress)
      && d == Trouble(IngressPolicy, node, "", ingress, way)
    case NoRoute =>
      && Forwards(net, q, node, ingress, seen) && (forall e :: !Active(net, q, ctx, node, e))
      && d == Trouble(NoRoute, node, "", "", way)
    case _ =>
      && Forwards(net, q, node, ingress, seen)
      && exists e :: Active(net, q, ctx, node, e) && EntryTrouble(net, ctx, node, way, e, d)
  }

  /**
   The packet gets from the first node to the last one, hop by hop over what is up and permitted,
   and meets the trouble there.
   */
  ghost predicate Meets(net: Network, q: Query, ctx: Context, ingress: string, seen: set<string>, way: seq<string>,
                        nodes: seq<string>, d: Trouble)
    decreases |nodes|
  {
    && nodes != []
    && if |nodes| == 1 then NodeTrouble(net, q, ctx, nodes[0], ingress, seen, way, d)
       else
         && Forwards(net, q, nodes[0], ingress, seen)
         && exists link, iface :: MeetsBeyond(net, q, ctx, seen, way, nodes, d, link, iface)
  }

  ghost predicate MeetsBeyond(net: Network, q: Query, ctx: Context, seen: set<string>, way: seq<string>,
                              nodes: seq<string>, d: Trouble, link: Link, iface: string)
    requires |nodes| > 1
    decreases |nodes|, 0
  {
    && Hop(net, q, ctx, nodes[0], nodes[1], link) && EndAt(link, nodes[1], iface)
    && Meets(net, q, ctx, iface, seen + {nodes[0]}, way + [nodes[1]], nodes[1..], d)
  }

  ghost predicate MeetsFrom(net: Network, q: Query, ctx: Context, node: string, ingress: string, seen: set<string>,
                            way: seq<string>, d: Trouble) {
    exists nodes :: nodes != [] && nodes[0] == node && Meets(net, q, ctx, ingress, seen, way, nodes, d)
  }

  // ---------- what a list of reasons says ----------

  predicate Says(r: Reason, d: Trouble) {
    r.kind == d.kind && r.node == d.node && r.link == d.link && r.iface == d.iface && r.path.nodes == d.way
  }

  ghost predicate Applies(rs: seq<Reason>, d: Trouble, ctx: Context) {
    exists r :: r in rs && Says(r, d) && Eval(r.cond, ctx)
  }

  lemma AppliesThen(a: Outcome, b: Outcome, d: Trouble, ctx: Context)
    ensures Applies(a.Then(b).reasons, d, ctx) <==> Applies(a.reasons, d, ctx) || Applies(b.reasons, d, ctx)
  {
    hide Eval, Says;
    var rs := a.Then(b).reasons;
    if r :| r in a.reasons && Says(r, d) && Eval(r.cond, ctx) {
      assert r in rs;
    }
    if r :| r in b.reasons && Says(r, d) && Eval(r.cond, ctx) {
      assert r in rs;
    }
  }

  lemma ReasonsSay(kind: ReasonKind, node: string, link: string, iface: string, path: Path, cond: Cond, d: Trouble,
                   ctx: Context)
    ensures Applies(Reasons(kind, node, link, iface, path, cond).reasons, d, ctx) <==>
      Eval(cond, ctx) && d == Trouble(kind, node, link, iface, path.nodes)
  {
    IsFalseExactly(cond);
    var r := Reason(kind, node, link, iface, path, cond);
    assert Eval(cond, ctx) ==> Reported(r) == [r] && r in Reported(r);
  }

  lemma NothingApplies(d: Trouble, ctx: Context)
    ensures !Applies([], d, ctx)
  {
  }

  lemma {:induction false} SomeBranchApplies(net: Network, dst: PrefixSet, ctx: Context, maxHops: nat, state: SymState,
                                             visited: set<string>, states: seq<SymState>, cs: seq<Candidate>, n: nat,
                                             d: Trouble)
    requires n <= |cs|
    ensures Applies(ExploreAll(net, dst, maxHops, state, visited, states, cs, n).reasons, d, ctx) <==>
      exists i :: 0 <= i < n && Applies(ExploreOne(net, dst, maxHops, state, visited, states, cs[i]).reasons, d, ctx)
    decreases n
  {
    hide ExploreOne, Applies;
    if n > 0 {
      SomeBranchApplies(net, dst, ctx, maxHops, state, visited, states, cs, n - 1, d);
      AppliesThen(ExploreAll(net, dst, maxHops, state, visited, states, cs, n - 1),
                  ExploreOne(net, dst, maxHops, state, visited, states, cs[n - 1]), d, ctx);
    } else {
      NothingApplies(d, ctx);
    }
  }

  // ---------- one candidate ----------

  /** What one candidate's reasons should say of the state. */
  ghost predicate BranchTrouble(net: Network, dst: PrefixSet, ctx: Context, maxHops: nat, state: SymState,
                                visited: set<string>, states: seq<SymState>, c: Candidate, d: Trouble)
    requires Consistent(net.index)
  {
    var found := LinkBetween(net.index, state.node, c.entry.nextHop);
    || (Eval(state.cond, ctx) && Eval(c.cond, ctx) && EntryTrouble(net, ctx, state.node, state.path.nodes, c.entry, d))
    || (Sends(net, c.entry, c.entry.nextHop) && found.Some?
        && !net.denied(state.node, Egress, InterfaceOn(found.value, state.node))
        && Applies(Explore(net, dst, maxHops, NextState(net, state, c, found.value), visited, states).reasons, d, ctx))
  }

  /** Of an entry that sends, only what is beyond it can be wrong. */
  lemma SenderTrouble(net: Network, ctx: Context, node: string, way: seq<string>, e: FibEntry, d: Trouble)
    requires Sends(net, e, e.nextHop) && EntryTrouble(net, ctx, node, way, e, d)
    ensures d.kind in {NodeFailed, NextHopNotAdjacent, LinkFailed, EgressPolicy}
  {
  }

  lemma ApartSays(net: Network, dst: PrefixSet, ctx: Context, maxHops: nat, state: SymState, visited: set<string>,
                  states: seq<SymState>, c: Candidate, d: Trouble)
    requires ContextOf(net, ctx) && Clean(state.cond) && Clean(c.cond) && CleanName(c.entry.nextHop)
    requires Sends(net, c.entry, c.entry.nextHop) && LinkBetween(net.index, state.node, c.entry.nextHop).None?
    ensures Applies(ExploreOne(net, dst, maxHops, state, visited, states, c).reasons, d, ctx) <==>
      BranchTrouble(net, dst, ctx, maxHops, state, visited, states, c, d)
  {
    var e, hop := c.entry, c.entry.nextHop;
    SendsAs(net, e, hop);
    NotMeans(NodeUp(hop), ctx);
    NotClean(NodeUp(hop));
    AndThree(state.cond, c.cond, Not(NodeUp(hop)), ctx);
    AndThree(state.cond, c.cond, NodeUp(hop), ctx);
    var downCond, apartCond := And([state.cond, c.cond, Not(NodeUp(hop))]), And([state.cond, c.cond, NodeUp(hop)]);
    var down := Reasons(NodeFailed, hop, "", "", state.path, downCond);
    var apart := Reasons(NextHopNotAdjacent, state.node, state.node + "-" + hop, "", state.path, apartCond);
    ReasonsSay(NodeFailed, hop, "", "", state.path, downCond, d, ctx);
    ReasonsSay(NextHopNotAdjacent, state.node, state.node + "-" + hop, "", state.path, apartCond, d, ctx);
    AppliesThen(down, apart, d, ctx);
    assert ExploreOne(net, dst, maxHops, state, visited, states, c) == down.Then(apart);
    forall l | InTopology(net.index, l)
      ensures !Joins(l, state.node, hop)
    {
      LinkBetweenExactly(net.index, state.node, hop, l);
    }
    if EntryTrouble(net, ctx, state.node, state.path.nodes, e, d) {
      SenderTrouble(net, ctx, state.node, state.path.nodes, e, d);
    }
    hide And, Not, Applies, ExploreOne, Explore, Consistent, CleanNetwork, Clean, InterfaceOn, Joins, InTopology,
        LinkBetween;
  }

  lemma LinkedTrouble(net: Network, ctx: Context, node: string, way: seq<string>, e: FibEntry, link: Link, d: Trouble)
    requires Consistent(net.index) && Sends(net, e, e.nextHop) && LinkBetween(net.index, node, e.nextHop) == Some(link)
    ensures EntryTrouble(net, ctx, node, way, e, d) <==>
      || (ctx.NodeFailed(e.nextHop) && d == Trouble(NodeFailed, e.nextHop, "", "", way))
      || (!ctx.NodeFailed(e.nextHop) && ctx.LinkFailed(link.name) && d == Trouble(LinkFailed, node, link.name, "", way))
      || (net.denied(node, Egress, InterfaceOn(link, node))
          && d == Trouble(EgressPolicy, node, "", InterfaceOn(link, node), way + [e.nextHop]))
  {
    if EntryTrouble(net, ctx, node, way, e, d) {
      SenderTrouble(net, ctx, node, way, e, d);
    }
    forall l
      ensures InTopology(net.index, l) && Joins(l, node, e.nextHop) <==> l == link
    {
      LinkBetweenExactly(net.index, node, e.nextHop, l);
    }
    forall iface
      ensures EndAt(link, node, iface) <==> iface == InterfaceOn(link, node)
    {
      InterfaceOnExactly(link, node, e.nextHop, iface);
    }
    hide Consistent, LinkBetween, InterfaceOn, EndAt, Joins, InTopology, Sends;
    assert InTopology(net.index, link) && Joins(link, node, e.nextHop) && EndAt(link, node, InterfaceOn(link, node));
    if d.kind == NextHopNotAdjacent {
      assert !EntryTrouble(net, ctx, node, way, e, d);
    }
  }

  lemma LinkedSays(net: Network, dst: PrefixSet, ctx: Context, maxHops: nat, state: SymState, visited: set<string>,
                   states: seq<SymState>, c: Candidate, link: Link, d: Trouble)
    requires ContextOf(net, ctx) && Clean(state.cond) && Clean(c.cond) && CleanName(c.entry.nextHop)
    requires Sends(net, c.entry, c.entry.nextHop) && LinkBetween(net.index, state.node, c.entry.nextHop) == Some(link)
    ensures Applies(ExploreOne(net, dst, maxHops, state, visited, states, c).reasons, d, ctx) <==>
      BranchTrouble(net, dst, ctx, maxHops, state, visited, states, c, d)
  {
    var e, hop, way := c.entry, c.entry.nextHop, state.path.nodes;
    SendsAs(net, e, hop);
    NotMeans(NodeUp(hop), ctx);
    NotClean(NodeUp(hop));
    AndThree(state.cond, c.cond, Not(NodeUp(hop)), ctx);
    LinkBetweenIsTheirs(net.index, state.node, hop);
    LinkNamesClean(net, ctx, link);
    LinkUpMeans(net, ctx, link);
    NotMeans(LinkUp(net, link), ctx);
    NotClean(LinkUp(net, link));
    AndFour(state.cond, c.cond, NodeUp(hop), Not(LinkUp(net, link)), ctx);
    var downCond := And([state.cond, c.cond, Not(NodeUp(hop))]);
    var brokenCond := And([state.cond, c.cond, NodeUp(hop), Not(LinkUp(net, link))]);
    var down := Reasons(NodeFailed, hop, "", "", state.path, downCond);
    var broken := Reasons(LinkFailed, state.node, link.name, "", state.path, brokenCond);
    var crossed := Cross(net, dst, maxHops, state, visited, states, c, link);
    ReasonsSay(NodeFailed, hop, "", "", state.path, downCond, d, ctx);
    ReasonsSay(LinkFailed, state.node, link.name, "", state.path, brokenCond, d, ctx);
    assert ExploreOne(net, dst, maxHops, state, visited, states, c) == down.Then(broken.Then(crossed));
    AppliesThen(broken, crossed, d, ctx);
    AppliesThen(down, broken.Then(crossed), d, ctx);
    LinkedTrouble(net, ctx, state.node, way, e, link, d);
    hide ExploreOne, Consistent, CleanNetwork, LinkBetween, InterfaceOn, Applies, Explore, EntryTrouble, LinkUp,
        Sends, NextState;
    CrossSays(net, dst, ctx, maxHops, state, visited, states, c, link, d);
    hide And, Not, Cross, Clean;
  }

  lemma CrossSays(net: Network, dst: PrefixSet, ctx: Context, maxHops: nat, state: SymState, visited: set<string>,
                  states: seq<SymState>, c: Candidate, link: Link, d: Trouble)
    requires Clean(state.cond) && Clean(c.cond)
    ensures
      var iface := InterfaceOn(link, state.node);
      Applies(Cross(net, dst, maxHops, state, visited, states, c, link).reasons, d, ctx) <==>
        if net.denied(state.node, Egress, iface) then
          && Eval(state.cond, ctx) && Eval(c.cond, ctx)
          && d == Trouble(EgressPolicy, state.node, "", iface, state.path.nodes + [c.entry.nextHop])
        else Applies(Explore(net, dst, maxHops, NextState(net, state, c, link), visited, states).reasons, d, ctx)
  {
    var iface := InterfaceOn(link, state.node);
    var path := Extend(state.path, c.entry.nextHop, link);
    if net.denied(state.node, Egress, iface) {
      var cond := And([state.cond, c.cond, DecisionCond(true)]);
      AndThree(state.cond, c.cond, DecisionCond(true), ctx);
      ReasonsSay(EgressPolicy, state.node, "", iface, path, cond, d, ctx);
      var policy := Reasons(EgressPolicy, state.node, "", iface, path, cond);
      AppliesThen(Outcome([], [BlockedPath(path, cond, state.node, iface, Egress)], []), policy, d, ctx);
      NothingApplies(d, ctx);
    }
    hide And, Clean, Explore, InterfaceOn, NextState, Applies;
  }

  /** What the reasons of one candidate say: the trouble with its entry, or what is met beyond it. */
  lemma BranchSays(net: Network, dst: PrefixSet, ctx: Context, maxHops: nat, state: SymState, visited: set<string>,
                   states: seq<SymState>, c: Candidate, d: Trouble)
    requires ContextOf(net, ctx) && Clean(state.cond) && Clean(c.cond) && CleanName(c.entry.nextHop)
    ensures Applies(ExploreOne(net, dst, maxHops, state, visited, states, c).reasons, d, ctx) <==>
      BranchTrouble(net, dst, ctx, maxHops, state, visited, states, c, d)
  {
    var e := c.entry;
    SendsAs(net, e, e.nextHop);
    if Sends(net, e, e.nextHop) {
      var found := LinkBetween(net.index, state.node, e.nextHop);
      if found.None? {
        ApartSays(net, dst, ctx, maxHops, state, visited, states, c, d);
      } else {
        LinkedSays(net, dst, ctx, maxHops, state, visited, states, c, found.value, d);
      }
    } else {
      StuckSays(net, dst, ctx, maxHops, state, visited, states, c, d);
    }
  }

  lemma StuckSays(net: Network, dst: PrefixSet, ctx: Context, maxHops: nat, state: SymState, visited: set<string>,
                  states: seq<SymState>, c: Candidate, d: Trouble)
    requires ContextOf(net, ctx) && Clean(state.cond) && Clean(c.cond) && !Sends(net, c.entry, c.entry.nextHop)
    ensures Applies(ExploreOne(net, dst, maxHops, state, visited, states, c).reasons, d, ctx) <==>
      BranchTrouble(net, dst, ctx, maxHops, state, visited, states, c, d)
  {
    var e, taken := c.entry, And([state.cond, c.cond]);
    AndTwo(state.cond, c.cond, ctx);
    SendsAs(net, e, e.nextHop);
    ReasonsSay(DiscardRoute, state.node, "", "", state.path, taken, d, ctx);
    ReasonsSay(RecursiveNextHopUnresolved, state.node, "", "", state.path, taken, d, ctx);
    ReasonsSay(NextHopManagementFallback, state.node, "", e.iface, state.path, taken, d, ctx);
    ReasonsSay(NoNextHop, state.node, "", "", state.path, taken, d, ctx);
    hide And, Not, Applies, Cross, LinkUp, Clean, LinkBetween, InterfaceOn, Consistent, CleanNetwork, Explore, Reasons;
  }

  // ---------- what is met from a node ----------

  /** From a node that forwards, the packet goes over the link and meets the trouble farther on. */
  ghost predicate MetBeyond(net: Network, q: Query, ctx: Context, node: string, seen: set<string>, way: seq<string>,
                            d: Trouble, next: string, link: Link, iface: string) {
    && Hop(net, q, ctx, node, next, link) && EndAt(link, next, iface)
    && MeetsFrom(net, q, ctx, next, iface, seen + {node}, way + [next], d)
  }

  /** The trouble is here, or farther on. */
  lemma HereOrBeyond(net: Network, q: Query, ctx: Context, node: string, ingress: string, seen: set<string>,
                     way: seq<string>, d: Trouble)
    ensures MeetsFrom(net, q, ctx, node, ingress, seen, way, d) <==>
      || NodeTrouble(net, q, ctx, node, ingress, seen, way, d)
      || (Forwards(net, q, node, ingress, seen)
          && exists next, link, iface :: MetBeyond(net, q, ctx, node, seen, way, d, next, link, iface))
  {
    hide NodeTrouble, Forwards, Hop, EndAt;
    if nodes :| nodes != [] && nodes[0] == node && Meets(net, q, ctx, ingress, seen, way, nodes, d) {
      if |nodes| > 1 {
        assert Meets(net, q, ctx, ingress, seen, way, nodes, d);
        assert exists link, iface :: MeetsBeyond(net, q, ctx, seen, way, nodes, d, link, iface);
        var link, iface :| MeetsBeyond(net, q, ctx, seen, way, nodes, d, link, iface);
        assert MetBeyond(net, q, ctx, node, seen, way, d, nodes[1], link, iface);
      }
    }
    if NodeTrouble(net, q, ctx, node, ingress, seen, way, d) {
      assert Meets(net, q, ctx, ingress, seen, way, [node], d);
    }
    if next, link, iface :|
      Forwards(net, q, node, ingress, seen) && MetBeyond(net, q, ctx, node, seen, way, d, next, link, iface)
    {
      var rest :| rest != [] && rest[0] == next && Meets(net, q, ctx, iface, seen + {node}, way + [next], rest, d);
      var nodes := [node] + rest;
      assert nodes[1..] == rest;
      assert MeetsBeyond(net, q, ctx, seen, way, nodes, d, link, iface);
      assert Meets(net, q, ctx, ingress, seen, way, nodes, d);
    }
  }

  /** Over the link to its next hop, the entry leads to the trouble. */
  ghost predicate LeadsTo(net: Network, dst: PrefixSet, ctx: Context, state: SymState, visited: set<string>,
                          e: FibEntry,
                          link: Link, d: Trouble) {
    && Sends(net, e, e.nextHop) && Crosses(net, ctx, state.node, e.nextHop, link)
    && MeetsFrom(net, ToSet(dst), ctx, e.nextHop, InterfaceOn(link, e.nextHop), visited + {state.node},
                 state.path.nodes + [e.nextHop], d)
  }

  lemma {:induction false} BranchMeets(net: Network, dst: PrefixSet, ctx: Context, maxHops: nat, state: SymState,
                                       visited: set<string>, states: seq<SymState>, c: Candidate, d: Trouble)
    requires ContextOf(net, ctx) && Good(net, ctx, state, visited) && |net.index.nodes| <= maxHops
    requires state.node !in visited && Clean(c.cond) && CleanName(c.entry.nextHop)
    ensures Applies(ExploreOne(net, dst, maxHops, state, visited + {state.node}, states, c).reasons, d, ctx) <==>
      Eval(state.cond, ctx) && Eval(c.cond, ctx) &&
      (EntryTrouble(net, ctx, state.node, state.path.nodes, c.entry, d)
       || exists link :: LeadsTo(net, dst, ctx, state, visited, c.entry, link, d))
    decreases net.index.nodes - visited, 0
  {
    var e := c.entry;
    GoodMeans(net, ctx, state, visited);
    BranchSays(net, dst, ctx, maxHops, state, visited + {state.node}, states, c, d);
    OneLink(net, dst, ctx, state, visited, e, d);
    hide EntryTrouble, Sends, MeetsFrom, Applies, ExploreOne, Explore, NextState, Eval, Good, CleanNetwork,
        InterfaceOn, LeadsTo;
    var found := LinkBetween(net.index, state.node, e.nextHop);
    if found.Some? {
      var link := found.value;
      NextGood(net, ctx, state, visited, c, link);
      NextStateIs(net, state, c, link);
      LinkBetweenIsTheirs(net.index, state.node, e.nextHop);
      hide LinkBetween, Consistent;
      ReasonsExactly(net, dst, ctx, maxHops, NextState(net, state, c, link), visited + {state.node}, states, d);
      LeadsOver(net, dst, ctx, state, visited, e, link, d);
    }
  }

  /** Only the link found can lead on. */
  lemma OneLink(net: Network, dst: PrefixSet, ctx: Context, state: SymState, visited: set<string>, e: FibEntry,
                d: Trouble)
    requires Consistent(net.index)
    ensures
      var found := LinkBetween(net.index, state.node, e.nextHop);
      (exists link :: LeadsTo(net, dst, ctx, state, visited, e, link, d)) <==>
        found.Some? && LeadsTo(net, dst, ctx, state, visited, e, found.value, d)
  {
    hide Sends, MeetsFrom, Consistent, LinkBetween, InterfaceOn;
    forall link | LeadsTo(net, dst, ctx, state, visited, e, link, d)
      ensures LinkBetween(net.index, state.node, e.nextHop) == Some(link)
    {
      CrossesAs(net, ctx, state.node, e.nextHop, link);
    }
  }

  /** With the program's own tests in place of Crosses. */
  lemma LeadsOver(net: Network, dst: PrefixSet, ctx: Context, state: SymState, visited: set<string>, e: FibEntry,
                  link: Link,
                  d: Trouble)
    requires Consistent(net.index) && LinkBetween(net.index, state.node, e.nextHop) == Some(link)
    ensures LeadsTo(net, dst, ctx, state, visited, e, link, d) <==>
      && Sends(net, e, e.nextHop) && !ctx.NodeFailed(e.nextHop) && !ctx.LinkFailed(link.name)
      && !net.denied(state.node, Egress, InterfaceOn(link, state.node))
      && MeetsFrom(net, ToSet(dst), ctx, e.nextHop, InterfaceOn(link, e.nextHop), visited + {state.node},
                   state.path.nodes + [e.nextHop], d)
  {
    CrossesAs(net, ctx, state.node, e.nextHop, link);
    hide Sends, MeetsFrom, Consistent, LinkBetween, InterfaceOn, Crosses;
  }

  /**
   From any state: a reason applies in a context exactly where the state's condition holds and a
   packet that starts there meets, hop by hop over what is up and permitted, the trouble that the
   reason names.
   */
  lemma {:induction false} ReasonsExactly(net: Network, dst: PrefixSet, ctx: Context, maxHops: nat, state: SymState,
                                          visited: set<string>, states: seq<SymState>, d: Trouble)
    requires ContextOf(net, ctx) && Good(net, ctx, state, visited) && |net.index.nodes| <= maxHops
    ensures Applies(Explore(net, dst, maxHops, state, visited, states).reasons, d, ctx) <==>
      Eval(state.cond, ctx) && MeetsFrom(net, ToSet(dst), ctx, state.node, state.ingress, visited, state.path.nodes, d)
    decreases net.index.nodes - visited, 2
  {
    hide And, Or, Not, Good, CleanNetwork, Consistent, Clean, OriginatesSet, ExploreAll, Eval, Applies, MeetsFrom,
        Reasons,
        EntryTrouble, IsDestination, Active, MetBeyond;
    var way := state.path.nodes;
    GoodMeans(net, ctx, state, visited);
    IsFalseExactly(state.cond);
    NothingApplies(d, ctx);
    HereOrBeyond(net, ToSet(dst), ctx, state.node, state.ingress, visited, way, d);
    DestinationAs(net, ToSet(dst), state.node);
    if state.cond == False {
      NeverHolds(ctx);
    } else if state.node in visited {
      ReasonsSay(ForwardingLoop, state.node, "", "", state.path, state.cond, d, ctx);
    } else if !OriginatesSet(net, state.node, dst) {
      WithinHops(net, ctx, state, visited);
      if net.denied(state.node, Ingress, state.ingress) {
        var cond := And([state.cond, DecisionCond(true)]);
        AlwaysHolds(ctx);
        AndTwo(state.cond, DecisionCond(true), ctx);
        ReasonsSay(IngressPolicy, state.node, "", state.ingress, state.path, cond, d, ctx);
        AppliesThen(Outcome([], [BlockedPath(state.path, cond, state.node, state.ingress, Ingress)], []),
                    Reasons(IngressPolicy, state.node, "", state.ingress, state.path, cond), d, ctx);
      } else {
        ForwardingSays(net, dst, ctx, maxHops, state, visited, states, d);
      }
    }
  }

  lemma NeverHolds(ctx: Context)
    ensures !Eval(False, ctx)
  {
  }

  lemma AlwaysHolds(ctx: Context)
    ensures Clean(DecisionCond(true)) && Eval(DecisionCond(true), ctx)
  {
  }

  lemma {:induction false} ForwardingSays(net: Network, dst: PrefixSet, ctx: Context, maxHops: nat, state: SymState,
                                          visited: set<string>, states: seq<SymState>, d: Trouble)
    requires ContextOf(net, ctx) && Good(net, ctx, state, visited) && |net.index.nodes| <= maxHops
    requires !IsFalse(state.cond) && Forwards(net, ToSet(dst), state.node, state.ingress, visited)
    requires |state.path.nodes| <= maxHops && state.node in net.index.nodes
    ensures Applies(Explore(net, dst, maxHops, state, visited, states).reasons, d, ctx) <==>
      Eval(state.cond, ctx) && (
        || NodeTrouble(net, ToSet(dst), ctx, state.node, state.ingress, visited, state.path.nodes, d)
        || exists next, link, iface ::
             MetBeyond(net, ToSet(dst), ctx, state.node, visited, state.path.nodes, d, next, link, iface))
    decreases net.index.nodes - visited, 1
  {
    var way, cs := state.path.nodes, SetCandidates(net, state.node, dst);
    GoodMeans(net, ctx, state, visited);
    DestinationAs(net, ToSet(dst), state.node);
    ExploreForwards(net, dst, maxHops, state, visited, states);
    CandidatesClean(net, ctx, state.node, MeetsSet(dst));
    hide And, Or, Not, Good, CleanNetwork, Consistent, OriginatesSet, ExploreAll, Explore, ExploreOne, Applies,
        MeetsFrom,
        Reasons, EntryTrouble, IsDestination, IsFalse, Sends, Crosses, InterfaceOn, EndAt;
    NoRouteSays(net, dst, ctx, state, d);
    var none := And([state.cond, Not(Or(CandidateConds(cs)))]);
    var rest := ExploreAll(net, dst, maxHops, state, visited + {state.node}, states + [state], cs, |cs|);
    AppliesThen(Reasons(NoRoute, state.node, "", "", state.path, none), rest, d, ctx);
    SomeBranchApplies(net, dst, ctx, maxHops, state, visited + {state.node}, states + [state], cs, |cs|, d);
    forall i | 0 <= i < |cs|
      ensures Applies(ExploreOne(net, dst, maxHops, state, visited + {state.node}, states + [state], cs[i]).reasons,
          d, ctx) <==>
        Eval(state.cond, ctx) && Eval(cs[i].cond, ctx) && EntryMeets(net, dst, ctx, state, visited, cs[i].entry, d)
    {
      BranchMeets(net, dst, ctx, maxHops, state, visited, states + [state], cs[i], d);
    }
    SomeEntryMeets(net, dst, ctx, state, visited, cs, d);
    KindSplit(net, dst, ctx, state, visited, d);
    hide NodeTrouble, Eval, EntryMeets, Active, MetBeyond;
  }

  /** An active entry is in trouble, or leads to it. */
  ghost predicate EntryMeets(net: Network, dst: PrefixSet, ctx: Context, state: SymState, visited: set<string>,
                             e: FibEntry,
                             d: Trouble) {
    || EntryTrouble(net, ctx, state.node, state.path.nodes, e, d)
    || exists link :: LeadsTo(net, dst, ctx, state, visited, e, link, d)
  }

  lemma NoRouteSays(net: Network, dst: PrefixSet, ctx: Context, state: SymState, d: Trouble)
    requires ContextOf(net, ctx) && Clean(state.cond)
    ensures
      var cs := SetCandidates(net, state.node, dst);
      Applies(Reasons(NoRoute, state.node, "", "", state.path,
        And([state.cond, Not(Or(CandidateConds(cs)))])).reasons, d, ctx) <==>
        && Eval(state.cond, ctx) && (forall e :: !Active(net, ToSet(dst), ctx, state.node, e))
        && d == Trouble(NoRoute, state.node, "", "", state.path.nodes)
  {
    var conds := CandidateConds(SetCandidates(net, state.node, dst));
    CandidatesClean(net, ctx, state.node, MeetsSet(dst));
    NoneOf(conds, ctx);
    AndTwo(state.cond, Not(Or(conds)), ctx);
    ReasonsSay(NoRoute, state.node, "", "", state.path, And([state.cond, Not(Or(conds))]), d, ctx);
    NoneActive(net, dst, ctx, state.node);
    hide And, Or, Not, Clean, CleanNetwork, Consistent, Eval, Applies, SetCandidates, Active, CandidateConds;
  }

  lemma NoneActive(net: Network, dst: PrefixSet, ctx: Context, node: string)
    ensures
      (exists c :: c in CandidateConds(SetCandidates(net, node, dst)) && Eval(c, ctx)) <==>
      exists e :: Active(net, ToSet(dst), ctx, node, e)
  {
    hide Eval, SetCandidates;
    var cs := SetCandidates(net, node, dst);
    var conds := CandidateConds(cs);
    assert CandidatesFor(net, ToSet(dst), node) == cs;
    if c :| c in conds && Eval(c, ctx) {
      var i :| 0 <= i < |conds| && conds[i] == c;
      ActiveAt(net, ToSet(dst), ctx, node, cs, i);
    }
    if e :| Active(net, ToSet(dst), ctx, node, e) {
      var i :| 0 <= i < |cs| && cs[i].entry == e && Eval(cs[i].cond, ctx);
      assert conds[i] in conds;
    }
  }

  lemma SomeEntryMeets(net: Network, dst: PrefixSet, ctx: Context, state: SymState, visited: set<string>,
                       cs: seq<Candidate>, d: Trouble)
    requires cs == CandidatesFor(net, ToSet(dst), state.node)
    ensures
      (exists i ::
        0 <= i < |cs| && Eval(cs[i].cond, ctx) && EntryMeets(net, dst, ctx, state, visited, cs[i].entry, d)) <==>
      exists e :: Active(net, ToSet(dst), ctx, state.node, e) && EntryMeets(net, dst, ctx, state, visited, e, d)
  {
    hide Eval, EntryMeets, CandidatesFor;
    if e :| Active(net, ToSet(dst), ctx, state.node, e) && EntryMeets(net, dst, ctx, state, visited, e, d) {
      var i :| 0 <= i < |cs| && cs[i].entry == e && Eval(cs[i].cond, ctx);
    }
    if i :| 0 <= i < |cs| && Eval(cs[i].cond, ctx) && EntryMeets(net, dst, ctx, state, visited, cs[i].entry, d) {
      ActiveAt(net, ToSet(dst), ctx, state.node, cs, i);
    }
  }

  /** At a node that forwards: no active entry at all, or one that is in trouble or leads to it. */
  lemma KindSplit(net: Network, dst: PrefixSet, ctx: Context, state: SymState, visited: set<string>, d: Trouble)
    requires Consistent(net.index) && Forwards(net, ToSet(dst), state.node, state.ingress, visited)
    ensures
      var q, node, way := ToSet(dst), state.node, state.path.nodes;
      (((forall e :: !Active(net, q, ctx, node, e)) && d == Trouble(NoRoute, node, "", "", way))
       || exists e :: Active(net, q, ctx, node, e) && EntryMeets(net, dst, ctx, state, visited, e, d)) <==>
      (NodeTrouble(net, q, ctx, node, state.ingress, visited, way, d)
       || exists next, link, iface :: MetBeyond(net, q, ctx, node, visited, way, d, next, link, iface))
  {
    var q, node, way := ToSet(dst), state.node, state.path.nodes;
    hide Active, Sends, MeetsFrom, IsDestination, Consistent;
    forall e | EntryTrouble(net, ctx, node, way, e, d)
      ensures d.kind !in {ForwardingLoop, IngressPolicy, NoRoute}
    {
    }
    hide EntryTrouble;
    if e, link :| Active(net, q, ctx, node, e) && LeadsTo(net, dst, ctx, state, visited, e, link, d) {
      CrossesAs(net, ctx, node, e.nextHop, link);
      assert MetBeyond(net, q, ctx, node, visited, way, d, e.nextHop, link, InterfaceOn(link, e.nextHop));
    }
    if next, link, iface :| MetBeyond(net, q, ctx, node, visited, way, d, next, link, iface) {
      var e :| Active(net, q, ctx, node, e) && Sends(net, e, next);
      CrossesAs(net, ctx, node, next, link);
      SendsTo(net, e, next);
      assert LeadsTo(net, dst, ctx, state, visited, e, link, d);
    }
  }

  lemma SendsTo(net: Network, e: FibEntry, next: string)
    requires Sends(net, e, next)
    ensures e.nextHop == next
  {
  }

  // ---------- blocked paths ----------

  /** A path is reported as blocked there, and is in the context. */
  ghost predicate Blocked(bs: seq<BlockedPath>, stage: Stage, node: string, iface: string, way: seq<string>,
                          ctx: Context) {
    exists b :: b in bs && b.stage == stage && b.node == node && b.iface == iface && b.path.nodes == way
      && Eval(b.cond, ctx)
  }

  function PolicyTrouble(stage: Stage, node: string, iface: string, way: seq<string>): Trouble {
    Trouble(if stage == Ingress then IngressPolicy else EgressPolicy, node, "", iface, way)
  }

  /** Blocked paths and policy reasons say the same. */
  ghost predicate BlockedAsSaid(o: Outcome, ctx: Context) {
    forall stage, node, iface, way ::
      Blocked(o.blocked, stage, node, iface, way, ctx) <==>
        Applies(o.reasons, PolicyTrouble(stage, node, iface, way), ctx)
  }

  lemma BlockedThen(a: Outcome, b: Outcome, ctx: Context)
    requires BlockedAsSaid(a, ctx) && BlockedAsSaid(b, ctx)
    ensures BlockedAsSaid(a.Then(b), ctx)
  {
    var o := a.Then(b);
    hide Applies, Eval;
    forall stage, node, iface, way
      ensures Blocked(o.blocked, stage, node, iface, way, ctx) <==>
          Applies(o.reasons, PolicyTrouble(stage, node, iface, way), ctx)
    {
      AppliesThen(a, b, PolicyTrouble(stage, node, iface, way), ctx);
      assert forall p :: p in o.blocked <==> p in a.blocked || p in b.blocked;
    }
  }

  lemma OtherReasons(kind: ReasonKind, node: string, link: string, iface: string, path: Path, cond: Cond, ctx: Context)
    requires kind != IngressPolicy && kind != EgressPolicy
    ensures BlockedAsSaid(Reasons(kind, node, link, iface, path, cond), ctx)
  {
    forall d: Trouble | d.kind == IngressPolicy || d.kind == EgressPolicy
      ensures !Applies(Reasons(kind, node, link, iface, path, cond).reasons, d, ctx)
    {
      ReasonsSay(kind, node, link, iface, path, cond, d, ctx);
    }
    hide Applies, Reported;
  }

  lemma PolicyBlocks(stage: Stage, node: string, iface: string, path: Path, cond: Cond, ctx: Context)
    ensures
      var kind := if stage == Ingress then IngressPolicy else EgressPolicy;
      BlockedAsSaid(Outcome([], [BlockedPath(path, cond, node, iface, stage)], []).Then(
        Reasons(kind, node, "", iface, path, cond)), ctx)
  {
    var kind := if stage == Ingress then IngressPolicy else EgressPolicy;
    var b := BlockedPath(path, cond, node, iface, stage);
    var o := Outcome([], [b], []).Then(Reasons(kind, node, "", iface, path, cond));
    assert o.blocked == [b] && o.reasons == Reasons(kind, node, "", iface, path, cond).reasons;
    forall s, n, f, way
      ensures Blocked(o.blocked, s, n, f, way, ctx) <==> Applies(o.reasons, PolicyTrouble(s, n, f, way), ctx)
    {
      ReasonsSay(kind, node, "", iface, path, cond, PolicyTrouble(s, n, f, way), ctx);
      hide Applies, Reasons;
      assert b in o.blocked;
    }
  }

  lemma NothingBlocked(o: Outcome, ctx: Context)
    requires o.blocked == [] && o.reasons == []
    ensures BlockedAsSaid(o, ctx)
  {
  }

  /** From any state: a path is reported as blocked exactly where a policy reason says so. */
  lemma {:induction false} BlockedExactly(net: Network, dst: PrefixSet, ctx: Context, maxHops: nat, state: SymState,
                                          visited: set<string>, states: seq<SymState>)
    ensures BlockedAsSaid(Explore(net, dst, maxHops, state, visited, states), ctx)
    decreases net.index.nodes - visited, 1, 0
  {
    hide And, Or, Not, OriginatesSet, ExploreAll, BlockedAsSaid, Reasons, IsFalse;
    if IsFalse(state.cond) {
      NothingBlocked(NOTHING, ctx);
    } else if state.node in visited {
      OtherReasons(ForwardingLoop, state.node, "", "", state.path, state.cond, ctx);
    } else if OriginatesSet(net, state.node, dst) {
      NothingBlocked(Explore(net, dst, maxHops, state, visited, states), ctx);
    } else if |state.path.nodes| > maxHops || state.node !in net.index.nodes {
      NothingBlocked(NOTHING, ctx);
    } else if net.denied(state.node, Ingress, state.ingress) {
      PolicyBlocks(Ingress, state.node, state.ingress, state.path, And([state.cond, DecisionCond(true)]), ctx);
    } else {
      var cs := SetCandidates(net, state.node, dst);
      var none := And([state.cond, Not(Or(CandidateConds(cs)))]);
      OtherReasons(NoRoute, state.node, "", "", state.path, none, ctx);
      AllBlocked(net, dst, ctx, maxHops, state, visited + {state.node}, states + [state], cs, |cs|);
      BlockedThen(Reasons(NoRoute, state.node, "", "", state.path, none),
                  ExploreAll(net, dst, maxHops, state, visited + {state.node}, states + [state], cs, |cs|), ctx);
    }
  }

  lemma {:induction false} AllBlocked(net: Network, dst: PrefixSet, ctx: Context, maxHops: nat, state: SymState,
                                      visited: set<string>, states: seq<SymState>, cs: seq<Candidate>, n: nat)
    requires n <= |cs|
    ensures BlockedAsSaid(ExploreAll(net, dst, maxHops, state, visited, states, cs, n), ctx)
    decreases net.index.nodes - visited, 3, n
  {
    hide BlockedAsSaid, ExploreOne;
    if n == 0 {
      NothingBlocked(NOTHING, ctx);
    } else {
      AllBlocked(net, dst, ctx, maxHops, state, visited, states, cs, n - 1);
      OneBlocked(net, dst, ctx, maxHops, state, visited, states, cs[n - 1]);
      BlockedThen(ExploreAll(net, dst, maxHops, state, visited, states, cs, n - 1),
                  ExploreOne(net, dst, maxHops, state, visited, states, cs[n - 1]), ctx);
    }
  }

  lemma {:induction false} OneBlocked(net: Network, dst: PrefixSet, ctx: Context, maxHops: nat, state: SymState,
                                      visited: set<string>, states: seq<SymState>, c: Candidate)
    ensures BlockedAsSaid(ExploreOne(net, dst, maxHops, state, visited, states, c), ctx)
    decreases net.index.nodes - visited, 2, 0
  {
    hide And, Not, BlockedAsSaid, Reasons, Cross, LinkBetween, LinkUp;
    var e, taken := c.entry, And([state.cond, c.cond]);
    var downCond := And([state.cond, c.cond, Not(NodeUp(e.nextHop))]);
    OtherReasons(DiscardRoute, state.node, "", "", state.path, taken, ctx);
    OtherReasons(RecursiveNextHopUnresolved, state.node, "", "", state.path, taken, ctx);
    OtherReasons(NextHopManagementFallback, state.node, "", e.iface, state.path, taken, ctx);
    OtherReasons(NoNextHop, state.node, "", "", state.path, taken, ctx);
    OtherReasons(NodeFailed, e.nextHop, "", "", state.path, downCond, ctx);
    var down := Reasons(NodeFailed, e.nextHop, "", "", state.path, downCond);
    match LinkBetween(net.index, state.node, e.nextHop)
    case None =>
      var apartCond := And([state.cond, c.cond, NodeUp(e.nextHop)]);
      OtherReasons(NextHopNotAdjacent, state.node, state.node + "-" + e.nextHop, "", state.path, apartCond, ctx);
      BlockedThen(down, Reasons(NextHopNotAdjacent, state.node, state.node + "-" + e.nextHop, "", state.path,
        apartCond), ctx);
    case Some(link) =>
      var brokenCond := And([state.cond, c.cond, NodeUp(e.nextHop), Not(LinkUp(net, link))]);
      OtherReasons(LinkFailed, state.node, link.name, "", state.path, brokenCond, ctx);
      CrossBlocked(net, dst, ctx, maxHops, state, visited, states, c, link);
      var broken := Reasons(LinkFailed, state.node, link.name, "", state.path, brokenCond);
      BlockedThen(broken, Cross(net, dst, maxHops, state, visited, states, c, link), ctx);
      BlockedThen(down, broken.Then(Cross(net, dst, maxHops, state, visited, states, c, link)), ctx);
  }

  lemma {:induction false} CrossBlocked(net: Network, dst: PrefixSet, ctx: Context, maxHops: nat, state: SymState,
                                        visited: set<string>, states: seq<SymState>, c: Candidate, link: Link)
    ensures BlockedAsSaid(Cross(net, dst, maxHops, state, visited, states, c, link), ctx)
    decreases net.index.nodes - visited, 1, 1
  {
    hide And, Not, BlockedAsSaid, Reasons, Explore, NextState;
    var iface := InterfaceOn(link, state.node);
    if net.denied(state.node, Egress, iface) {
      PolicyBlocks(Egress, state.node, iface, Extend(state.path, c.entry.nextHop, link),
        And([state.cond, c.cond, DecisionCond(true)]), ctx);
    } else {
      BlockedExactly(net, dst, ctx, maxHops, NextState(net, state, c, link), visited, states);
    }
  }

  // ---------- why the concrete walk fails ----------

  /** The kind of trouble a failure names. */
  function KindOf(why: Why): Option<ReasonKind> {
    match why
    case Looped => Some(ForwardingLoop)
    case DeniedIngress => Some(IngressPolicy)
    case DeniedEgress => Some(EgressPolicy)
    case Unrouted => Some(NoRoute)
    case Discarded => Some(DiscardRoute)
    case Unresolved => Some(RecursiveNextHopUnresolved)
    case ManagementOnly => Some(NextHopManagementFallback)
    case NextHopMissing => Some(NoNextHop)
    case NextHopDown => Some(NodeFailed)
    case NotAdjacent => Some(NextHopNotAdjacent)
    case LinkDown => Some(LinkFailed)
    case _ => None
  }

  /** Some trouble of the kind is met from the node. */
  ghost predicate Justified(net: Network, q: Query, ctx: Context, node: string, ingress: string, seen: set<string>,
                            way: seq<string>, why: Why) {
    exists d: Trouble :: KindOf(why) == Some(d.kind) && MeetsFrom(net, q, ctx, node, ingress, seen, way, d)
  }

  /**
   The failure that an unsuccessful walk reports is true: the first node is down, or a packet from
   there meets, over hops that are up and permitted, a trouble of that kind.
   */
  lemma {:induction false} WalkFailsTruly(net: Network, packet: Packet, ctx: Context, current: string, ingress: string,
                                          visited: set<string>, full: Path)
    requires Consistent(net.index) && !Forward(net, packet, ctx, current, ingress, visited, full).ok
    ensures
      var why := Forward(net, packet, ctx, current, ingress, visited, full).why;
      if ctx.NodeFailed(current) then why == CurrentDown
      else Justified(net, ToAddress(packet), ctx, current, ingress, visited, full.nodes, why)
    decreases net.index.nodes - visited, 2, 0
  {
    var q, way := ToAddress(packet), full.nodes;
    DestinationAs(net, q, current);
    hide Consistent, AddrCandidates, MeetsFrom, IsDestination;
    if !ctx.NodeFailed(current) {
      if current in visited {
        Here(net, q, ctx, current, ingress, visited, way, Trouble(ForwardingLoop, current, "", "", way));
      } else if net.denied(current, Ingress, ingress) {
        Here(net, q, ctx, current, ingress, visited, way, Trouble(IngressPolicy, current, "", ingress, way));
      } else {
        var cs := AddrCandidates(net, current, packet.to);
        TriesFailTruly(net, packet, ctx, current, ingress, visited, full, cs, 0);
      }
    }
  }

  lemma Here(net: Network, q: Query, ctx: Context, node: string, ingress: string, seen: set<string>, way: seq<string>,
             d: Trouble)
    requires NodeTrouble(net, q, ctx, node, ingress, seen, way, d)
    ensures MeetsFrom(net, q, ctx, node, ingress, seen, way, d)
  {
    HereOrBeyond(net, q, ctx, node, ingress, seen, way, d);
  }

  /** Without an earlier failure: the first active candidate decides, and there is no route if there is none. */
  lemma {:induction false} TriesFailTruly(net: Network, packet: Packet, ctx: Context, current: string, ingress: string,
                                          visited: set<string>, full: Path, cs: seq<Candidate>, i: nat)
    requires Consistent(net.index) && i <= |cs| && cs == AddrCandidates(net, current, packet.to)
    requires Forwards(net, ToAddress(packet), current, ingress, visited)
    requires forall j :: 0 <= j < i ==> !Eval(cs[j].cond, ctx)
    requires !TryAll(net, packet, ctx, current, visited, full, cs, i, None).ok
    ensures Justified(net, ToAddress(packet), ctx, current, ingress, visited, full.nodes,
                      TryAll(net, packet, ctx, current, visited, full, cs, i, None).why)
    decreases net.index.nodes - visited, 1, |cs| - i
  {
    var q, way := ToAddress(packet), full.nodes;
    hide Eval, AddrCandidates, Consistent, TryOne, Justified;
    if i == |cs| {
      UnroutedHere(net, packet, ctx, current, ingress, visited, way, cs);
    } else if !Eval(cs[i].cond, ctx) {
      TriesFailTruly(net, packet, ctx, current, ingress, visited, full, cs, i + 1);
    } else {
      var w := TryOne(net, packet, ctx, current, visited, full, cs[i].entry);
      FirstFailureStays(net, packet, ctx, current, visited, full, cs, i + 1, w.why);
      ActiveAt(net, q, ctx, current, cs, i);
      hide Active, Forwards;
      TryFailsTruly(net, packet, ctx, current, ingress, visited, full, cs[i].entry);
    }
  }

  lemma UnroutedHere(net: Network, packet: Packet, ctx: Context, node: string, ingress: string, seen: set<string>,
                     way: seq<string>, cs: seq<Candidate>)
    requires cs == AddrCandidates(net, node, packet.to) && Forwards(net, ToAddress(packet), node, ingress, seen)
    requires forall j :: 0 <= j < |cs| ==> !Eval(cs[j].cond, ctx)
    ensures Justified(net, ToAddress(packet), ctx, node, ingress, seen, way, Unrouted)
  {
    var d := Trouble(NoRoute, node, "", "", way);
    assert CandidatesFor(net, ToAddress(packet), node) == cs;
    hide Eval, AddrCandidates, MeetsFrom, Forwards;
    Here(net, ToAddress(packet), ctx, node, ingress, seen, way, d);
  }

  lemma {:induction false} FirstFailureStays(net: Network, packet: Packet, ctx: Context, current: string,
                                             visited: set<string>, full: Path, cs: seq<Candidate>, i: nat, first: Why)
    requires Consistent(net.index) && i <= |cs| && current !in visited
    ensures
      var w := TryAll(net, packet, ctx, current, visited, full, cs, i, Some(first));
      !w.ok ==> w.why == first
    decreases |cs| - i
  {
    hide Eval, TryOne, Consistent;
    if i < |cs| {
      FirstFailureStays(net, packet, ctx, current, visited, full, cs, i + 1, first);
    }
  }

  /** What becomes of an entry that sends. */
  lemma TrySends(net: Network, packet: Packet, ctx: Context, current: string, visited: set<string>, full: Path,
                 e: FibEntry)
    requires Consistent(net.index) && current !in visited && Sends(net, e, e.nextHop)
    ensures
      var next, found, w := e.nextHop, LinkBetween(net.index, current, e.nextHop),
        TryOne(net, packet, ctx, current, visited, full, e);
      if ctx.NodeFailed(next) then w == Walk(full, false, NextHopDown)
      else if found.None? then w == Walk(full, false, NotAdjacent)
      else if ctx.LinkFailed(found.value.name) then w == Walk(full, false, LinkDown)
      else if net.denied(current, Egress, InterfaceOn(found.value, current)) then w == Walk(full, false, DeniedEgress)
      else w == Forward(net, packet, ctx, next, InterfaceOn(found.value, next), visited + {current},
                        Extend(full, next, found.value))
  {
    SendsAs(net, e, e.nextHop);
    if LinkBetween(net.index, current, e.nextHop).Some? {
      LinkBetweenIsTheirs(net.index, current, e.nextHop);
    }
    hide Forward, EffectiveStatus, Sends, InterfaceOn, LinkBetween, Consistent;
  }

  lemma {:induction false} TryFailsTruly(net: Network, packet: Packet, ctx: Context, current: string, ingress: string,
                                         visited: set<string>, full: Path, e: FibEntry)
    requires Consistent(net.index) && Forwards(net, ToAddress(packet), current, ingress, visited)
    requires Active(net, ToAddress(packet), ctx, current, e) && current !in visited
    requires !TryOne(net, packet, ctx, current, visited, full, e).ok
    ensures Justified(net, ToAddress(packet), ctx, current, ingress, visited, full.nodes,
                      TryOne(net, packet, ctx, current, visited, full, e).why)
    decreases net.index.nodes - visited, 0, 0
  {
    var q, way, next := ToAddress(packet), full.nodes, e.nextHop;
    var w := TryOne(net, packet, ctx, current, visited, full, e);
    if !Sends(net, e, next) {
      TryStuck(net, packet, ctx, current, visited, full, e);
      hide TryOne, Consistent, Active, Forwards, Sends;
      FailureOfStuck(net, q, ctx, current, ingress, visited, way, e, w.why);
    } else {
      TrySends(net, packet, ctx, current, visited, full, e);
      var found := LinkBetween(net.index, current, next);
      if found.Some? {
        LinkBetweenIsTheirs(net.index, current, next);
      }
      hide TryOne, Forward, Consistent, Active, Forwards, Sends, Justified, LinkBetween, InterfaceOn;
      if !ctx.NodeFailed(next) && found.Some? && !ctx.LinkFailed(found.value.name)
        && !net.denied(current, Egress, InterfaceOn(found.value, current)) {
        WalkFailsTruly(net, packet, ctx, next, InterfaceOn(found.value, next), visited + {current},
          Extend(full, next, found.value));
      }
      FailureOfSender(net, q, ctx, current, ingress, visited, way, e, w.why);
    }
  }

  /** What becomes of an entry that does not send. */
  lemma TryStuck(net: Network, packet: Packet, ctx: Context, current: string, visited: set<string>, full: Path,
                 e: FibEntry)
    requires Consistent(net.index) && current !in visited && !Sends(net, e, e.nextHop)
    ensures TryOne(net, packet, ctx, current, visited, full, e) == Walk(full, false, StuckWhy(net, e))
  {
    SendsAs(net, e, e.nextHop);
    hide Forward, Consistent;
  }

  function StuckWhy(net: Network, e: FibEntry): Why {
    if e.discard then Discarded
    else if EffectiveStatus(net, e).UnresolvedRecursive? then Unresolved
    else if EffectiveStatus(net, e).ManagementFallback? then ManagementOnly
    else NextHopMissing
  }

  lemma FailureOfStuck(net: Network, q: Query, ctx: Context, node: string, ingress: string, seen: set<string>,
                       way: seq<string>,
                       e: FibEntry, why: Why)
    requires Forwards(net, q, node, ingress, seen) && Active(net, q, ctx, node, e) && !Sends(net, e, e.nextHop)
    requires why == StuckWhy(net, e)
    ensures Justified(net, q, ctx, node, ingress, seen, way, why)
  {
    StuckTrouble(net, ctx, node, way, e);
    hide Justified, Active, Forwards, EntryTrouble, Sends, StuckWhy;
    EntryJustifies(net, q, ctx, node, ingress, seen, way, e, StuckAt(net, node, way, e), why);
  }

  function StuckAt(net: Network, node: string, way: seq<string>, e: FibEntry): Trouble {
    match StuckWhy(net, e)
    case Discarded => Trouble(DiscardRoute, node, "", "", way)
    case Unresolved => Trouble(RecursiveNextHopUnresolved, node, "", "", way)
    case ManagementOnly => Trouble(NextHopManagementFallback, node, "", e.iface, way)
    case _ => Trouble(NoNextHop, node, "", "", way)
  }

  lemma StuckTrouble(net: Network, ctx: Context, node: string, way: seq<string>, e: FibEntry)
    requires !Sends(net, e, e.nextHop)
    ensures EntryTrouble(net, ctx, node, way, e, StuckAt(net, node, way, e))
    ensures KindOf(StuckWhy(net, e)) == Some(StuckAt(net, node, way, e).kind)
  {
    SendsAs(net, e, e.nextHop);
  }

  /** The failure of an entry that sends is that of its next hop, its link, its policy, or of the walk beyond. */
  lemma FailureOfSender(net: Network, q: Query, ctx: Context, node: string, ingress: string, seen: set<string>,
                        way: seq<string>,
                        e: FibEntry, why: Why)
    requires Consistent(net.index) && Forwards(net, q, node, ingress, seen) && Active(net, q, ctx, node, e)
    requires Sends(net, e, e.nextHop)
    requires
      var next, found := e.nextHop, LinkBetween(net.index, node, e.nextHop);
      if ctx.NodeFailed(next) then why == NextHopDown
      else if found.None? then why == NotAdjacent
      else if ctx.LinkFailed(found.value.name) then why == LinkDown
      else if net.denied(node, Egress, InterfaceOn(found.value, node)) then why == DeniedEgress
      else Justified(net, q, ctx, next, InterfaceOn(found.value, next), seen + {node}, way + [next], why)
    ensures Justified(net, q, ctx, node, ingress, seen, way, why)
  {
    var next, found := e.nextHop, LinkBetween(net.index, node, e.nextHop);
    hide EntryTrouble, Active, Forwards, Justified, Sends, Consistent;
    if ctx.NodeFailed(next) || found.None? {
      ApartTroubles(net, ctx, node, way, e);
      var d := if ctx.NodeFailed(next) then Trouble(NodeFailed, next, "", "", way)
        else Trouble(NextHopNotAdjacent, node, node + "-" + next, "", way);
      EntryJustifies(net, q, ctx, node, ingress, seen, way, e, d, why);
    } else {
      LinkedFailure(net, q, ctx, node, ingress, seen, way, e, found.value, why);
    }
  }

  lemma ApartTroubles(net: Network, ctx: Context, node: string, way: seq<string>, e: FibEntry)
    requires Consistent(net.index) && Sends(net, e, e.nextHop)
    ensures ctx.NodeFailed(e.nextHop) ==>
        EntryTrouble(net, ctx, node, way, e, Trouble(NodeFailed, e.nextHop, "", "", way))
    ensures !ctx.NodeFailed(e.nextHop) && LinkBetween(net.index, node, e.nextHop).None? ==>
      EntryTrouble(net, ctx, node, way, e, Trouble(NextHopNotAdjacent, node, node + "-" + e.nextHop, "", way))
  {
    if LinkBetween(net.index, node, e.nextHop).None? {
      NoLink(net, node, e.nextHop);
    }
    hide Consistent, LinkBetween, Sends, InTopology, Joins;
  }

  lemma LinkedFailure(net: Network, q: Query, ctx: Context, node: string, ingress: string, seen: set<string>,
                      way: seq<string>,
                      e: FibEntry, link: Link, why: Why)
    requires Consistent(net.index) && Forwards(net, q, node, ingress, seen) && Active(net, q, ctx, node, e)
    requires Sends(net, e, e.nextHop) && !ctx.NodeFailed(e.nextHop)
    requires LinkBetween(net.index, node, e.nextHop) == Some(link)
    requires
      if ctx.LinkFailed(link.name) then why == LinkDown
      else if net.denied(node, Egress, InterfaceOn(link, node)) then why == DeniedEgress
      else Justified(net, q, ctx, e.nextHop, InterfaceOn(link, e.nextHop), seen + {node}, way + [e.nextHop], why)
    ensures Justified(net, q, ctx, node, ingress, seen, way, why)
  {
    var next := e.nextHop;
    LinkedTroubles(net, ctx, node, way, e, link);
    CrossesAs(net, ctx, node, next, link);
    hide Consistent, Active, LinkBetween, EntryTrouble, Sends, InterfaceOn, Forwards, Justified, Crosses, EndAt;
    if ctx.LinkFailed(link.name) {
      EntryJustifies(net, q, ctx, node, ingress, seen, way, e, Trouble(LinkFailed, node, link.name, "", way), why);
    } else if net.denied(node, Egress, InterfaceOn(link, node)) {
      EntryJustifies(net, q, ctx, node, ingress, seen, way, e,
        Trouble(EgressPolicy, node, "", InterfaceOn(link, node), way + [next]), why);
    } else {
      assert Hop(net, q, ctx, node, next, link);
      hide Hop;
      JustifiedBeyond(net, q, ctx, node, ingress, seen, way, next, link, InterfaceOn(link, next), why);
    }
  }

  lemma EntryJustifies(net: Network, q: Query, ctx: Context, node: string, ingress: string, seen: set<string>,
                       way: seq<string>,
                       e: FibEntry, d: Trouble, why: Why)
    requires Forwards(net, q, node, ingress, seen) && Active(net, q, ctx, node, e)
    requires EntryTrouble(net, ctx, node, way, e, d)
    requires KindOf(why) == Some(d.kind)
    ensures Justified(net, q, ctx, node, ingress, seen, way, why)
  {
    EntryHere(net, q, ctx, node, ingress, seen, way, e, d);
    hide EntryTrouble, Forwards, Active, MeetsFrom;
  }

  lemma EntryHere(net: Network, q: Query, ctx: Context, node: string, ingress: string, seen: set<string>,
                  way: seq<string>,
                  e: FibEntry, d: Trouble)
    requires Forwards(net, q, node, ingress, seen) && Active(net, q, ctx, node, e)
    requires EntryTrouble(net, ctx, node, way, e, d)
    ensures MeetsFrom(net, q, ctx, node, ingress, seen, way, d)
  {
    assert NodeTrouble(net, q, ctx, node, ingress, seen, way, d) by {
      assert d.kind !in {ForwardingLoop, IngressPolicy, NoRoute};
    }
    Here(net, q, ctx, node, ingress, seen, way, d);
  }

  lemma JustifiedBeyond(net: Network, q: Query, ctx: Context, node: string, ingress: string, seen: set<string>,
                        way: seq<string>, next: string, link: Link, iface: string, why: Why)
    requires Forwards(net, q, node, ingress, seen) && Hop(net, q, ctx, node, next, link) && EndAt(link, next, iface)
    requires Justified(net, q, ctx, next, iface, seen + {node}, way + [next], why)
    ensures Justified(net, q, ctx, node, ingress, seen, way, why)
  {
    var d: Trouble :| KindOf(why) == Some(d.kind)
      && MeetsFrom(net, q, ctx, next, iface, seen + {node}, way + [next], d);
    hide Forwards, Hop, EndAt, MeetsFrom;
    assert MetBeyond(net, q, ctx, node, seen, way, d, next, link, iface);
    HereOrBeyond(net, q, ctx, node, ingress, seen, way, d);
  }

  lemma NoLink(net: Network, a: string, b: string)
    requires Consistent(net.index) && LinkBetween(net.index, a, b).None?
    ensures forall l :: InTopology(net.index, l) ==> !Joins(l, a, b)
  {
    forall l | InTopology(net.index, l)
      ensures !Joins(l, a, b)
    {
      LinkBetweenExactly(net.index, a, b, l);
    }
  }

  lemma LinkedTroubles(net: Network, ctx: Context, node: string, way: seq<string>, e: FibEntry, link: Link)
    requires Consistent(net.index) && Sends(net, e, e.nextHop) && LinkBetween(net.index, node, e.nextHop) == Some(link)
    ensures !ctx.NodeFailed(e.nextHop) && ctx.LinkFailed(link.name) ==>
      EntryTrouble(net, ctx, node, way, e, Trouble(LinkFailed, node, link.name, "", way))
    ensures net.denied(node, Egress, InterfaceOn(link, node)) ==>
      EntryTrouble(net, ctx, node, way, e, Trouble(EgressPolicy, node, "", InterfaceOn(link, node), way + [e.nextHop]))
  {
    LinkedTrouble(net, ctx, node, way, e, link, Trouble(LinkFailed, node, link.name, "", way));
    LinkedTrouble(net, ctx, node, way, e, link,
      Trouble(EgressPolicy, node, "", InterfaceOn(link, node), way + [e.nextHop]));
    hide EntryTrouble, Consistent;
  }
}
