/** What the symbolic walk decides for a set of addresses: whether an open loop-free path leads to an origin. */
module SetDelivery {
  import opened Conditions
  import opened Conjunctions
  import opened Dataplane
  import opened DataplaneExact
  import opened Delivery
  import opened Failure
  import opened Fib
  import opened NormalForms
  import opened Prefixes
  import opened Topology
  import opened Wrappers

  ghost predicate SomeOpen(paths: seq<SymPath>, ctx: Context) {
    exists p :: p in paths && Eval(p.cond, ctx)
  }

  lemma SomeOpenConcat(a: seq<SymPath>, b: seq<SymPath>, ctx: Context)
    ensures SomeOpen(a + b, ctx) <==> SomeOpen(a, ctx) || SomeOpen(b, ctx)
  {
    hide Eval;
    if p :| p in a && Eval(p.cond, ctx) {
      assert p in a + b;
    }
    if p :| p in b && Eval(p.cond, ctx) {
      assert p in a + b;
    }
  }

  lemma {:induction false} SomeBranch(net: Network, dst: PrefixSet, ctx: Context, maxHops: nat, state: SymState,
                                      visited: set<string>, states: seq<SymState>, cs: seq<Candidate>, n: nat)
    requires n <= |cs|
    ensures SomeOpen(ExploreAll(net, dst, maxHops, state, visited, states, cs, n).paths, ctx) <==>
      exists i :: 0 <= i < n && SomeOpen(ExploreOne(net, dst, maxHops, state, visited, states, cs[i]).paths, ctx)
    decreases n
  {
    hide ExploreOne, SomeOpen;
    if n > 0 {
      SomeBranch(net, dst, ctx, maxHops, state, visited, states, cs, n - 1);
      SomeOpenConcat(ExploreAll(net, dst, maxHops, state, visited, states, cs, n - 1).paths,
                     ExploreOne(net, dst, maxHops, state, visited, states, cs[n - 1]).paths, ctx);
    } else {
      NothingOpen(ctx);
    }
  }

  lemma NothingOpen(ctx: Context)
    ensures !SomeOpen([], ctx)
  {
  }

  /** A candidate leads on only over a link, by a usable entry, past the policy. */
  lemma BranchPaths(net: Network, dst: PrefixSet, maxHops: nat, state: SymState, visited: set<string>,
                    states: seq<SymState>, c: Candidate)
    ensures
      var e := c.entry;
      var found := LinkBetween(net.index, state.node, e.nextHop);
      ExploreOne(net, dst, maxHops, state, visited, states, c).paths ==
        if !e.discard && !EffectiveStatus(net, e).UnresolvedRecursive? && !EffectiveStatus(net, e).ManagementFallback?
          && e.nextHop != "" && found.Some? && !net.denied(state.node, Egress, InterfaceOn(found.value, state.node))
        then Explore(net, dst, maxHops, NextState(net, state, c, found.value), visited, states).paths
        else []
  {
    hide And, Not, Explore, NextState, InterfaceOn, LinkBetween, IsFalse;
  }

  /** From a good state whose branch is taken: what is found beyond a usable hop, and that it is one. */
  lemma BranchHops(net: Network, dst: PrefixSet, ctx: Context, maxHops: nat, state: SymState, visited: set<string>,
                   states: seq<SymState>, c: Candidate)
    requires ContextOf(net, ctx) && Good(net, ctx, state, visited) && state.node !in visited && Clean(c.cond)
    requires SomeOpen(ExploreOne(net, dst, maxHops, state, visited + {state.node}, states, c).paths, ctx)
    ensures
      var found := LinkBetween(net.index, state.node, c.entry.nextHop);
      && found.Some? && var next := NextState(net, state, c, found.value);
      && Good(net, ctx, next, visited + {state.node})
      && SomeOpen(Explore(net, dst, maxHops, next, visited + {state.node}, states).paths, ctx)
      && (Eval(next.cond, ctx) ==>
           && Eval(state.cond, ctx) && Eval(c.cond, ctx) && Sends(net, c.entry, c.entry.nextHop)
           && Crosses(net, ctx, state.node, c.entry.nextHop, found.value))
  {
    BranchPaths(net, dst, maxHops, state, visited + {state.node}, states, c);
    hide ExploreOne, Explore, SomeOpen, Good, CleanNetwork, Consistent, Eval, Clean, NextState, EffectiveStatus,
        InterfaceOn;
    NothingOpen(ctx);
    var link := LinkBetween(net.index, state.node, c.entry.nextHop).value;
    NextGood(net, ctx, state, visited, c, link);
    SendsAs(net, c.entry, c.entry.nextHop);
    CrossesAs(net, ctx, state.node, c.entry.nextHop, link);
    hide Sends, Crosses;
  }

  lemma SetCandidatesClean(net: Network, ctx: Context, node: string, dst: PrefixSet)
    requires ContextOf(net, ctx)
    ensures CleanCandidates(SetCandidates(net, node, dst))
  {
    CandidatesClean(net, ctx, node, MeetsSet(dst));
  }

  // ---------- what is found is an open path ----------

  /** Where some path found from a state is open, the state holds and an open path leads on. */
  lemma {:induction false} ExploreOpen(net: Network, dst: PrefixSet, ctx: Context, maxHops: nat, state: SymState,
                                       visited: set<string>, states: seq<SymState>) returns (nodes: seq<string>)
    requires ContextOf(net, ctx) && Good(net, ctx, state, visited) && |net.index.nodes| <= maxHops
    requires SomeOpen(Explore(net, dst, maxHops, state, visited, states).paths, ctx)
    ensures Eval(state.cond, ctx) && OpenFrom(net, ToSet(dst), ctx, state.node, state.ingress, visited, nodes)
    decreases net.index.nodes - visited, 1
  {
    hide And, Or, Not, Good, CleanNetwork, Consistent, Clean, OriginatesSet, ExploreAll, Eval;
    GoodMeans(net, ctx, state, visited);
    assert !IsFalse(state.cond) && state.node !in visited by {
      NothingOpen(ctx);
    }
    WithinHops(net, ctx, state, visited);
    if OriginatesSet(net, state.node, dst) {
      var path := SymPath(state.path, And([state.cond, NodeUp(state.node)]), states + [state]);
      assert Explore(net, dst, maxHops, state, visited, states).paths == [path];
      AndTwo(state.cond, NodeUp(state.node), ctx);
      nodes := [state.node];
      DestinationAs(net, ToSet(dst), state.node);
    } else {
      assert !net.denied(state.node, Ingress, state.ingress) by {
        NothingOpen(ctx);
      }
      nodes := ForwardOpens(net, dst, ctx, maxHops, state, visited, states);
    }
  }

  lemma {:induction false} ForwardOpens(net: Network, dst: PrefixSet, ctx: Context, maxHops: nat, state: SymState,
                                        visited: set<string>, states: seq<SymState>) returns (nodes: seq<string>)
    requires ContextOf(net, ctx) && Good(net, ctx, state, visited) && |net.index.nodes| <= maxHops
    requires !IsFalse(state.cond) && state.node !in visited && !OriginatesSet(net, state.node, dst)
    requires |state.path.nodes| <= maxHops && state.node in net.index.nodes
    requires !net.denied(state.node, Ingress, state.ingress)
    requires SomeOpen(Explore(net, dst, maxHops, state, visited, states).paths, ctx)
    ensures Eval(state.cond, ctx) && OpenFrom(net, ToSet(dst), ctx, state.node, state.ingress, visited, nodes)
    decreases net.index.nodes - visited, 0
  {
    hide And, Or, Not, Good, CleanNetwork, Consistent, Clean, OriginatesSet, ExploreAll, Explore, ExploreOne, Eval,
        IsFalse,
        SomeOpen, NextState, LinkBetween, InterfaceOn, SetCandidates, OpenFrom;
    GoodMeans(net, ctx, state, visited);
    OnlyReasons(net, dst, maxHops, state, visited, states);
    var cs := SetCandidates(net, state.node, dst);
    SetCandidatesClean(net, ctx, state.node, dst);
    SomeBranch(net, dst, ctx, maxHops, state, visited + {state.node}, states + [state], cs, |cs|);
    var i :| 0 <= i < |cs| &&
      SomeOpen(ExploreOne(net, dst, maxHops, state, visited + {state.node}, states + [state], cs[i]).paths, ctx);
    BranchHops(net, dst, ctx, maxHops, state, visited, states + [state], cs[i]);
    var link := LinkBetween(net.index, state.node, cs[i].entry.nextHop).value;
    NextStateIs(net, state, cs[i], link);
    var rest := ExploreOpen(net, dst, ctx, maxHops, NextState(net, state, cs[i], link), visited + {state.node},
      states + [state]);
    var iface := InterfaceOn(link, cs[i].entry.nextHop);
    OpenUnvisited(net, ToSet(dst), ctx, cs[i].entry.nextHop, iface, visited + {state.node}, rest);
    assert CandidatesFor(net, ToSet(dst), state.node) == cs;
    ActiveAt(net, ToSet(dst), ctx, state.node, cs, i);
    assert Hop(net, ToSet(dst), ctx, state.node, cs[i].entry.nextHop, link);
    CrossesAs(net, ctx, state.node, cs[i].entry.nextHop, link);
    Prepend(net, ToSet(dst), ctx, state.node, state.ingress, visited, link, iface, rest);
    nodes := [state.node] + rest;
  }

  // ---------- an open path is found ----------

  /** Where a state holds and an open path leads on from it, some path found from it is open. */
  lemma {:induction false} OpenExplores(net: Network, dst: PrefixSet, ctx: Context, maxHops: nat, state: SymState,
                                        visited: set<string>, states: seq<SymState>, nodes: seq<string>)
    requires ContextOf(net, ctx) && Good(net, ctx, state, visited) && |net.index.nodes| <= maxHops
    requires Eval(state.cond, ctx) && OpenFrom(net, ToSet(dst), ctx, state.node, state.ingress, visited, nodes)
    ensures SomeOpen(Explore(net, dst, maxHops, state, visited, states).paths, ctx)
    decreases |nodes|
  {
    IsFalseExactly(state.cond);
    assert !IsFalse(state.cond);
    hide And, Or, Not, Good, CleanNetwork, Consistent, Clean, OriginatesSet, ExploreAll, Eval, Hop, SomeOpen;
    GoodMeans(net, ctx, state, visited);
    OpenUnvisited(net, ToSet(dst), ctx, state.node, state.ingress, visited, nodes);
    DestinationAs(net, ToSet(dst), state.node);
    WithinHops(net, ctx, state, visited);
    if OriginatesSet(net, state.node, dst) {
      OriginOpens(net, dst, ctx, maxHops, state, visited, states);
    } else {
      assert |nodes| > 1;
      var link, iface := FirstHop(net, ToSet(dst), ctx, state.node, state.ingress, visited, nodes);
      hide OpenFrom, Explore, IsFalse;
      BranchOpens(net, dst, ctx, maxHops, state, visited, states, nodes, link, iface);
    }
  }

  lemma OriginOpens(net: Network, dst: PrefixSet, ctx: Context, maxHops: nat, state: SymState,
                    visited: set<string>, states: seq<SymState>)
    requires Clean(state.cond) && Clean(NodeUp(state.node)) && Eval(state.cond, ctx) && !ctx.NodeFailed(state.node)
    requires !IsFalse(state.cond) && state.node !in visited && OriginatesSet(net, state.node, dst)
    ensures SomeOpen(Explore(net, dst, maxHops, state, visited, states).paths, ctx)
  {
    AndTwo(state.cond, NodeUp(state.node), ctx);
    var path := SymPath(state.path, And([state.cond, NodeUp(state.node)]), states + [state]);
    hide And, Clean, OriginatesSet, IsFalse;
    assert path in [path];
  }

  lemma {:induction false} BranchOpens(net: Network, dst: PrefixSet, ctx: Context, maxHops: nat, state: SymState,
                                       visited: set<string>, states: seq<SymState>, nodes: seq<string>, link: Link,
                                       iface: string)
    requires ContextOf(net, ctx) && Good(net, ctx, state, visited) && |net.index.nodes| <= maxHops && |nodes| > 1
    requires !IsFalse(state.cond) && state.node !in visited && !OriginatesSet(net, state.node, dst)
    requires |state.path.nodes| <= maxHops && state.node in net.index.nodes
    requires !net.denied(state.node, Ingress, state.ingress)
    requires Eval(state.cond, ctx) && Hop(net, ToSet(dst), ctx, state.node, nodes[1], link)
    requires EndAt(link, nodes[1], iface)
    requires OpenFrom(net, ToSet(dst), ctx, nodes[1], iface, visited + {state.node}, nodes[1..])
    ensures SomeOpen(Explore(net, dst, maxHops, state, visited, states).paths, ctx)
    decreases |nodes|, 0
  {
    hide And, Or, Not, Good, CleanNetwork, Consistent, Clean, OriginatesSet, ExploreAll, Explore, ExploreOne, Eval,
        IsFalse,
        SomeOpen, NextState, LinkBetween, InterfaceOn, SetCandidates, OpenFrom;
    var cs := SetCandidates(net, state.node, dst);
    assert CandidatesFor(net, ToSet(dst), state.node) == cs;
    var e :| Active(net, ToSet(dst), ctx, state.node, e) && Sends(net, e, nodes[1]);
    var i :| 0 <= i < |cs| && cs[i].entry == e && Eval(cs[i].cond, ctx);
    CrossesAs(net, ctx, state.node, nodes[1], link);
    SendsAs(net, e, nodes[1]);
    SetCandidatesClean(net, ctx, state.node, dst);
    NextGood(net, ctx, state, visited, cs[i], link);
    NextStateIs(net, state, cs[i], link);
    BranchPaths(net, dst, maxHops, state, visited + {state.node}, states + [state], cs[i]);
    hide Crosses, Sends, EffectiveStatus;
    OpenExplores(net, dst, ctx, maxHops, NextState(net, state, cs[i], link), visited + {state.node}, states + [state],
      nodes[1..]);
    SomeBranch(net, dst, ctx, maxHops, state, visited + {state.node}, states + [state], cs, |cs|);
    OnlyReasons(net, dst, maxHops, state, visited, states);
  }

  /**
   From any state: some explored path is open exactly where the state's condition holds and an
   open loop-free path leads on to a node that originates something in the set.
   */
  lemma ExploreExactly(net: Network, dst: PrefixSet, ctx: Context, maxHops: nat, state: SymState, visited: set<string>,
                       states: seq<SymState>)
    requires ContextOf(net, ctx) && Good(net, ctx, state, visited) && |net.index.nodes| <= maxHops
    ensures SomeOpen(Explore(net, dst, maxHops, state, visited, states).paths, ctx) <==>
      Eval(state.cond, ctx) && exists nodes :: OpenFrom(net, ToSet(dst), ctx, state.node, state.ingress, visited, nodes)
  {
    hide Explore, OpenFrom, Eval, SomeOpen, Good, ContextOf;
    if SomeOpen(Explore(net, dst, maxHops, state, visited, states).paths, ctx) {
      var nodes := ExploreOpen(net, dst, ctx, maxHops, state, visited, states);
    }
    if nodes :| Eval(state.cond, ctx) && OpenFrom(net, ToSet(dst), ctx, state.node, state.ingress, visited, nodes) {
      OpenExplores(net, dst, ctx, maxHops, state, visited, states, nodes);
    }
  }
}
