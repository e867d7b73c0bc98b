/** No unexplained loss: where no path is open, some recorded reason applies. */
module DataplaneExplained {
  import opened Conditions
  import opened Conjunctions
  import opened Dataplane
  import opened DataplaneExact
  import opened Failure
  import opened Fib
  import opened NormalForms
  import opened Prefixes
  import opened Topology
  import opened Wrappers

  /** In the context, some path is open or some reason applies. */
  ghost predicate Explained(o: Outcome, ctx: Context) {
    || (exists p :: p in o.paths && Eval(p.cond, ctx))
    || (exists r :: r in o.reasons && Eval(r.cond, ctx))
  }

  lemma ExplainedThen(a: Outcome, b: Outcome, ctx: Context)
    ensures Explained(a.Then(b), ctx) <==> Explained(a, ctx) || Explained(b, ctx)
  {
    hide Eval;
    var c := a.Then(b);
    if Explained(a, ctx) {
      if p :| p in a.paths && Eval(p.cond, ctx) {
        assert p in c.paths;
      } else {
        var r :| r in a.reasons && Eval(r.cond, ctx);
        assert r in c.reasons;
      }
    }
    if Explained(b, ctx) {
      if p :| p in b.paths && Eval(p.cond, ctx) {
        assert p in c.paths;
      } else {
        var r :| r in b.reasons && Eval(r.cond, ctx);
        assert r in c.reasons;
      }
    }
  }

  /** A reason that applies is recorded. */
  lemma ReasonApplies(kind: ReasonKind, node: string, link: string, iface: string, path: Path, cond: Cond, ctx: Context)
    requires Eval(cond, ctx)
    ensures Explained(Reasons(kind, node, link, iface, path, cond), ctx)
  {
    IsFalseExactly(cond);
    var r := Reason(kind, node, link, iface, path, cond);
    assert r in Reported(r);
  }

  lemma {:induction false} AllExplained(net: Network, dst: PrefixSet, ctx: Context, maxHops: nat, state: SymState,
                                        visited: set<string>,
                                        states: seq<SymState>, cs: seq<Candidate>, i: nat, n: nat)
    requires i < n <= |cs| && Explained(ExploreOne(net, dst, maxHops, state, visited, states, cs[i]), ctx)
    ensures Explained(ExploreAll(net, dst, maxHops, state, visited, states, cs, n), ctx)
    decreases n
  {
    hide ExploreOne, Explained;
    ExplainedThen(ExploreAll(net, dst, maxHops, state, visited, states, cs, n - 1),
                  ExploreOne(net, dst, maxHops, state, visited, states, cs[n - 1]), ctx);
    if i < n - 1 {
      AllExplained(net, dst, ctx, maxHops, state, visited, states, cs, i, n - 1);
    }
  }

  /** Wherever a state's condition holds, what is found from it is explained. */
  lemma {:induction false} StateExplained(net: Network, dst: PrefixSet, ctx: Context, maxHops: nat, state: SymState,
                                          visited: set<string>,
                                          states: seq<SymState>)
    requires ContextOf(net, ctx) && Good(net, ctx, state, visited) && Eval(state.cond, ctx)
    requires |net.index.nodes| <= maxHops
    ensures Explained(Explore(net, dst, maxHops, state, visited, states), ctx)
    decreases net.index.nodes - visited, 4
  {
    hide And, Or, Not, Good, CleanNetwork, Consistent, Explained, OriginatesSet, ExploreAll;
    GoodMeans(net, ctx, state, visited);
    IsFalseExactly(state.cond);
    if state.node in visited {
      ReasonApplies(ForwardingLoop, state.node, "", "", state.path, state.cond, ctx);
      return;
    }
    WithinHops(net, ctx, state, visited);
    if OriginatesSet(net, state.node, dst) {
      PathOpens(state, states, ctx);
    } else if net.denied(state.node, Ingress, state.ingress) {
      var cond := And([state.cond, DecisionCond(true)]);
      AndTwo(state.cond, DecisionCond(true), ctx);
      ReasonApplies(IngressPolicy, state.node, "", state.ingress, state.path, cond, ctx);
      ExplainedThen(Outcome([], [BlockedPath(state.path, cond, state.node, state.ingress, Ingress)], []),
                    Reasons(IngressPolicy, state.node, "", state.ingress, state.path, cond), ctx);
    } else {
      BranchesExplained(net, dst, ctx, maxHops, state, visited, states);
    }
  }

  lemma PathOpens(state: SymState, states: seq<SymState>, ctx: Context)
    requires Clean(state.cond) && Clean(NodeUp(state.node)) && Eval(state.cond, ctx) && !ctx.NodeFailed(state.node)
    ensures Explained(Outcome([SymPath(state.path, And([state.cond, NodeUp(state.node)]), states + [state])], [], []),
        ctx)
  {
    AndTwo(state.cond, NodeUp(state.node), ctx);
    var p := SymPath(state.path, And([state.cond, NodeUp(state.node)]), states + [state]);
    assert p in [p];
  }

  /** With no active candidate there is no route; an active one explains itself. */
  lemma {:induction false} BranchesExplained(net: Network, dst: PrefixSet, ctx: Context, maxHops: nat,
                                             state: SymState, visited: set<string>,
                                             states: seq<SymState>)
    requires ContextOf(net, ctx) && Good(net, ctx, state, visited) && Eval(state.cond, ctx)
    requires |net.index.nodes| <= maxHops
    requires !IsFalse(state.cond) && state.node !in visited && !OriginatesSet(net, state.node, dst)
    requires |state.path.nodes| <= maxHops && state.node in net.index.nodes
    requires !net.denied(state.node, Ingress, state.ingress)
    ensures Explained(Explore(net, dst, maxHops, state, visited, states), ctx)
    decreases net.index.nodes - visited, 3
  {
    hide And, Or, Not, Good, CleanNetwork, Consistent, Explained, OriginatesSet, ExploreAll, Explore, IsFalse;
    var cs := SetCandidates(net, state.node, dst);
    ExploreForwards(net, dst, maxHops, state, visited, states);
    CandidatesClean(net, ctx, state.node, MeetsSet(dst));
    GoodMeans(net, ctx, state, visited);
    var none := And([state.cond, Not(Or(CandidateConds(cs)))]);
    NoneOf(CandidateConds(cs), ctx);
    AndTwo(state.cond, Not(Or(CandidateConds(cs))), ctx);
    ExplainedThen(Reasons(NoRoute, state.node, "", "", state.path, none),
                  ExploreAll(net, dst, maxHops, state, visited + {state.node}, states + [state], cs, |cs|), ctx);
    if c :| c in CandidateConds(cs) && Eval(c, ctx) {
      var i :| 0 <= i < |cs| && CandidateConds(cs)[i] == c;
      BranchExplained(net, dst, ctx, maxHops, state, visited, states + [state], cs[i]);
      AllExplained(net, dst, ctx, maxHops, state, visited + {state.node}, states + [state], cs, i, |cs|);
    } else {
      ReasonApplies(NoRoute, state.node, "", "", state.path, none, ctx);
    }
  }

  lemma {:induction false} BranchExplained(net: Network, dst: PrefixSet, ctx: Context, maxHops: nat, state: SymState,
                                           visited: set<string>,
                                           states: seq<SymState>, c: Candidate)
    requires ContextOf(net, ctx) && Good(net, ctx, state, visited) && Eval(state.cond, ctx)
    requires |net.index.nodes| <= maxHops
    requires state.node !in visited && Clean(c.cond) && CleanName(c.entry.nextHop) && Eval(c.cond, ctx)
    ensures Explained(ExploreOne(net, dst, maxHops, state, visited + {state.node}, states, c), ctx)
    decreases net.index.nodes - visited, 2
  {
    hide And, Not, Good, CleanNetwork, Consistent, Explained, Cross, LinkUp, Clean;
    var e, taken := c.entry, And([state.cond, c.cond]);
    GoodMeans(net, ctx, state, visited);
    AndTwo(state.cond, c.cond, ctx);
    if e.discard {
      ReasonApplies(DiscardRoute, state.node, "", "", state.path, taken, ctx);
    } else if EffectiveStatus(net, e).UnresolvedRecursive? {
      ReasonApplies(RecursiveNextHopUnresolved, state.node, "", "", state.path, taken, ctx);
    } else if EffectiveStatus(net, e).ManagementFallback? {
      ReasonApplies(NextHopManagementFallback, state.node, "", e.iface, state.path, taken, ctx);
    } else if e.nextHop == "" {
      ReasonApplies(NoNextHop, state.node, "", "", state.path, taken, ctx);
    } else {
      HopExplained(net, dst, ctx, maxHops, state, visited, states, c);
    }
  }

  /** A next hop that is down, not adjacent, behind a failed link or a policy is reported; else it is explored. */
  lemma {:induction false} HopExplained(net: Network, dst: PrefixSet, ctx: Context, maxHops: nat, state: SymState,
                                        visited: set<string>,
                                        states: seq<SymState>, c: Candidate)
    requires ContextOf(net, ctx) && Good(net, ctx, state, visited) && Eval(state.cond, ctx)
    requires |net.index.nodes| <= maxHops
    requires state.node !in visited && Clean(c.cond) && CleanName(c.entry.nextHop) && Eval(c.cond, ctx)
    requires !c.entry.discard && EffectiveStatus(net, c.entry) !in {UnresolvedRecursive, ManagementFallback}
    requires c.entry.nextHop != ""
    ensures Explained(ExploreOne(net, dst, maxHops, state, visited + {state.node}, states, c), ctx)
    decreases net.index.nodes - visited, 1
  {
    hide And, Not, Good, CleanNetwork, Consistent, Explained, Cross, LinkUp, LinkBetween;
    var hop, all := c.entry.nextHop, visited + {state.node};
    GoodMeans(net, ctx, state, visited);
    NotMeans(NodeUp(hop), ctx);
    NotClean(NodeUp(hop));
    AndThree(state.cond, c.cond, Not(NodeUp(hop)), ctx);
    AndThree(state.cond, c.cond, NodeUp(hop), ctx);
    var down := Reasons(NodeFailed, hop, "", "", state.path, And([state.cond, c.cond, Not(NodeUp(hop))]));
    var found := LinkBetween(net.index, state.node, hop);
    if ctx.NodeFailed(hop) {
      ReasonApplies(NodeFailed, hop, "", "", state.path, And([state.cond, c.cond, Not(NodeUp(hop))]), ctx);
    }
    if found.None? {
      var apart := And([state.cond, c.cond, NodeUp(hop)]);
      if !ctx.NodeFailed(hop) {
        ReasonApplies(NextHopNotAdjacent, state.node, state.node + "-" + hop, "", state.path, apart, ctx);
      }
      ExplainedThen(down, Reasons(NextHopNotAdjacent, state.node, state.node + "-" + hop, "", state.path, apart), ctx);
    } else {
      var link := found.value;
      LinkBetweenIsTheirs(net.index, state.node, hop);
      LinkNamesClean(net, ctx, link);
      LinkUpMeans(net, ctx, link);
      NotMeans(LinkUp(net, link), ctx);
      NotClean(LinkUp(net, link));
      AndFour(state.cond, c.cond, NodeUp(hop), Not(LinkUp(net, link)), ctx);
      var cond := And([state.cond, c.cond, NodeUp(hop), Not(LinkUp(net, link))]);
      var broken := Reasons(LinkFailed, state.node, link.name, "", state.path, cond);
      var crossed := Cross(net, dst, maxHops, state, all, states, c, link);
      if !ctx.NodeFailed(hop) && ctx.LinkFailed(link.name) {
        ReasonApplies(LinkFailed, state.node, link.name, "", state.path, cond, ctx);
      } else if !ctx.LinkFailed(link.name) {
        CrossExplained(net, dst, ctx, maxHops, state, visited, states, c, link);
      }
      ExplainedThen(broken, crossed, ctx);
      ExplainedThen(down, broken.Then(crossed), ctx);
    }
  }

  lemma LinkNamesClean(net: Network, ctx: Context, link: Link)
    requires ContextOf(net, ctx) && link.name in net.index.linksByName
    ensures CleanName(link.name)
  {
  }

  lemma {:induction false} CrossExplained(net: Network, dst: PrefixSet, ctx: Context, maxHops: nat, state: SymState,
                                          visited: set<string>,
                                          states: seq<SymState>, c: Candidate, link: Link)
    requires ContextOf(net, ctx) && Good(net, ctx, state, visited) && Eval(state.cond, ctx)
    requires |net.index.nodes| <= maxHops
    requires state.node !in visited && Clean(c.cond) && Eval(c.cond, ctx)
    requires LinkBetween(net.index, state.node, c.entry.nextHop) == Some(link) && !ctx.LinkFailed(link.name)
    ensures Explained(Cross(net, dst, maxHops, state, visited + {state.node}, states, c, link), ctx)
    decreases net.index.nodes - visited, 0
  {
    hide And, Not, Good, CleanNetwork, Consistent, Explained, Explore, LinkBetween, InterfaceOn, NextState;
    var iface := InterfaceOn(link, state.node);
    GoodMeans(net, ctx, state, visited);
    if net.denied(state.node, Egress, iface) {
      var path, cond := Extend(state.path, c.entry.nextHop, link), And([state.cond, c.cond, DecisionCond(true)]);
      AndThree(state.cond, c.cond, DecisionCond(true), ctx);
      ReasonApplies(EgressPolicy, state.node, "", iface, path, cond, ctx);
      ExplainedThen(Outcome([], [BlockedPath(path, cond, state.node, iface, Egress)], []),
                    Reasons(EgressPolicy, state.node, "", iface, path, cond), ctx);
    } else {
      NextGood(net, ctx, state, visited, c, link);
      StateExplained(net, dst, ctx, maxHops, NextState(net, state, c, link), visited + {state.node}, states);
    }
  }
}
