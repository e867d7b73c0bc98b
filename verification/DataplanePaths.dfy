/** What every reported path is: a loop-free walk to an origin, open only when all of it is up. */
module DataplanePaths {
  import opened Conditions
  import opened Conjunctions
  import opened Dataplane
  import opened DataplaneExact
  import opened Failure
  import opened Fib
  import opened NormalForms
  import opened Prefixes
  import opened Sorting
  import opened Topology
  import opened Wrappers

  function CostOf(net: Network, links: seq<string>): int {
    if links == [] then 0
    else
      var last := links[|links| - 1];
      CostOf(net, links[..|links| - 1]) + if last in net.index.linksByName then net.index.linksByName[last].cost else 0
  }

  /** The name is that of a link of the topology between the two nodes. */
  ghost predicate Linked(net: Network, a: string, b: string, name: string) {
    exists l :: InTopology(net.index, l) && Joins(l, a, b) && l.name == name
  }

  /** Each node is followed by a neighbour, over the link between the two. */
  ghost predicate Chained(net: Network, nodes: seq<string>, links: seq<string>) {
    && |nodes| == |links| + 1
    && forall i :: 0 <= i < |links| ==> Linked(net, nodes[i], nodes[i + 1], links[i])
  }

  ghost predicate Steps(net: Network, path: Path) {
    Chained(net, path.nodes, path.links) && path.cost == CostOf(net, path.links)
  }

  ghost predicate AllUp(path: Path, ctx: Context) {
    && (forall n :: n in path.nodes ==> !ctx.NodeFailed(n))
    && (forall l :: l in path.links ==> !ctx.LinkFailed(l))
  }

  /** A path from a node to an origin of the destination that visits no node twice. */
  ghost predicate Genuine(net: Network, dst: PrefixSet, from: string, path: Path) {
    && Steps(net, path) && path.nodes[0] == from && NoDuplicates(path.nodes)
    && OriginatesSet(net, path.nodes[|path.nodes| - 1], dst)
  }

  /** What is known of the path to an explored state. */
  ghost predicate OnPath(net: Network, ctx: Context, from: string, state: SymState, visited: set<string>) {
    && Steps(net, state.path) && state.path.nodes[0] == from && state.path.nodes[|state.path.nodes| - 1] == state.node
    && NoDuplicates(state.path.nodes[..|state.path.nodes| - 1])
    && (forall n :: n in state.path.nodes[..|state.path.nodes| - 1] ==> n in visited)
    && (Eval(state.cond, ctx) ==> AllUp(state.path, ctx))
  }

  lemma NotVisitedNoDuplicates(net: Network, ctx: Context, from: string, state: SymState, visited: set<string>)
    requires OnPath(net, ctx, from, state, visited) && state.node !in visited
    ensures NoDuplicates(state.path.nodes)
    ensures forall n :: n in state.path.nodes ==> n in visited + {state.node}
  {
    var ns := state.path.nodes;
    assert ns == ns[..|ns| - 1] + [state.node];
  }

  lemma ExtendSteps(net: Network, path: Path, node: string, link: Link)
    requires Steps(net, path) && Consistent(net.index)
    requires LinkBetween(net.index, path.nodes[|path.nodes| - 1], node) == Some(link)
    ensures Steps(net, Extend(path, node, link))
  {
    LinkBetweenExactly(net.index, path.nodes[|path.nodes| - 1], node, link);
    CostOfLast(net, path.links, link.name);
    assert Linked(net, path.nodes[|path.nodes| - 1], node, link.name);
    ChainExtends(net, path.nodes, path.links, node, link.name);
    hide Consistent, Chained, CostOf, LinkBetween;
  }

  lemma ChainExtends(net: Network, nodes: seq<string>, links: seq<string>, node: string, name: string)
    requires Chained(net, nodes, links) && Linked(net, nodes[|nodes| - 1], node, name)
    ensures Chained(net, nodes + [node], links + [name])
  {
    hide Linked;
  }

  lemma CostOfLast(net: Network, links: seq<string>, name: string)
    ensures CostOf(net, links + [name]) ==
      CostOf(net, links) + if name in net.index.linksByName then net.index.linksByName[name].cost else 0
  {
    assert (links + [name])[..|links|] == links;
  }

  lemma ExtendUp(path: Path, node: string, link: Link, ctx: Context)
    requires AllUp(path, ctx) && !ctx.NodeFailed(node) && !ctx.LinkFailed(link.name)
    ensures AllUp(Extend(path, node, link), ctx)
  {
  }

  lemma NextOnPath(net: Network, ctx: Context, from: string, state: SymState, visited: set<string>, c: Candidate,
                   link: Link)
    requires ContextOf(net, ctx) && Good(net, ctx, state, visited) && state.node !in visited && Clean(c.cond)
    requires LinkBetween(net.index, state.node, c.entry.nextHop) == Some(link)
    requires OnPath(net, ctx, from, state, visited)
    ensures OnPath(net, ctx, from, NextState(net, state, c, link), visited + {state.node})
  {
    var next := NextState(net, state, c, link);
    NextGood(net, ctx, state, visited, c, link);
    NextStateIs(net, state, c, link);
    NotVisitedNoDuplicates(net, ctx, from, state, visited);
    ExtendSteps(net, state.path, c.entry.nextHop, link);
    assert next.path.nodes[..|next.path.nodes| - 1] == state.path.nodes;
    hide NextState, Steps, Good, ContextOf, AllUp;
    if Eval(next.cond, ctx) {
      ExtendUp(state.path, c.entry.nextHop, link, ctx);
    }
  }

  ghost predicate AllGenuine(net: Network, dst: PrefixSet, ctx: Context, from: string, paths: seq<SymPath>) {
    forall p :: p in paths ==>
      Clean(p.cond) && Genuine(net, dst, from, p.path) && (Eval(p.cond, ctx) ==> AllUp(p.path, ctx))
  }

  lemma {:induction false} PathsGenuine(net: Network, dst: PrefixSet, ctx: Context, maxHops: nat, from: string,
                                        state: SymState,
                                        visited: set<string>, states: seq<SymState>)
    requires ContextOf(net, ctx) && Good(net, ctx, state, visited) && OnPath(net, ctx, from, state, visited)
    ensures AllGenuine(net, dst, ctx, from, Explore(net, dst, maxHops, state, visited, states).paths)
    decreases net.index.nodes - visited, 4
  {
    hide And, Or, Not, Good, OnPath, CleanNetwork, Consistent, OriginatesSet, ExploreAll;
    if !IsFalse(state.cond) && state.node !in visited {
      if OriginatesSet(net, state.node, dst) {
        OriginGenuine(net, dst, ctx, from, state, visited, states);
      } else if |state.path.nodes| <= maxHops && state.node in net.index.nodes
        && !net.denied(state.node, Ingress, state.ingress) {
        var cs := SetCandidates(net, state.node, dst);
        CandidatesClean(net, ctx, state.node, MeetsSet(dst));
        OnlyReasons(net, dst, maxHops, state, visited, states);
        BranchesGenuine(net, dst, ctx, maxHops, from, state, visited, states + [state], cs, |cs|);
      }
    }
  }

  lemma OriginGenuine(net: Network, dst: PrefixSet, ctx: Context, from: string, state: SymState, visited: set<string>,
                      states: seq<SymState>)
    requires ContextOf(net, ctx) && Good(net, ctx, state, visited) && OnPath(net, ctx, from, state, visited)
    requires state.node !in visited && OriginatesSet(net, state.node, dst)
    ensures AllGenuine(net, dst, ctx, from,
        [SymPath(state.path, And([state.cond, NodeUp(state.node)]), states + [state])])
  {
    GoodMeans(net, ctx, state, visited);
    NotVisitedNoDuplicates(net, ctx, from, state, visited);
    AndTwo(state.cond, NodeUp(state.node), ctx);
    hide And, AllUp, Steps, OriginatesSet;
  }

  lemma {:induction false} BranchesGenuine(net: Network, dst: PrefixSet, ctx: Context, maxHops: nat, from: string,
                                           state: SymState,
                                           visited: set<string>, states: seq<SymState>, cs: seq<Candidate>, n: nat)
    requires ContextOf(net, ctx) && Good(net, ctx, state, visited) && OnPath(net, ctx, from, state, visited)
    requires state.node !in visited && CleanCandidates(cs) && n <= |cs|
    ensures AllGenuine(net, dst, ctx, from,
        ExploreAll(net, dst, maxHops, state, visited + {state.node}, states, cs, n).paths)
    decreases net.index.nodes - visited, 3, n
  {
    hide And, Not, Good, OnPath, CleanNetwork, Consistent, ExploreOne, Genuine, AllUp;
    if n > 0 {
      BranchesGenuine(net, dst, ctx, maxHops, from, state, visited, states, cs, n - 1);
      BranchGenuine(net, dst, ctx, maxHops, from, state, visited, states, cs[n - 1]);
    }
  }

  lemma {:induction false} BranchGenuine(net: Network, dst: PrefixSet, ctx: Context, maxHops: nat, from: string,
                                         state: SymState,
                                         visited: set<string>, states: seq<SymState>, c: Candidate)
    requires ContextOf(net, ctx) && Good(net, ctx, state, visited) && OnPath(net, ctx, from, state, visited)
    requires state.node !in visited && Clean(c.cond)
    ensures AllGenuine(net, dst, ctx, from,
        ExploreOne(net, dst, maxHops, state, visited + {state.node}, states, c).paths)
    decreases net.index.nodes - visited, 2
  {
    hide And, Not, Good, OnPath, CleanNetwork, Consistent, Explore, LinkBetween, InterfaceOn, NextState, AllUp, Genuine;
    GoodMeans(net, ctx, state, visited);
    var e := c.entry;
    var found := LinkBetween(net.index, state.node, e.nextHop);
    if !e.discard && EffectiveStatus(net, e) !in {UnresolvedRecursive, ManagementFallback} && e.nextHop != ""
      && found.Some? {
      var link := found.value;
      if !net.denied(state.node, Egress, InterfaceOn(link, state.node)) {
        NextGood(net, ctx, state, visited, c, link);
        NextOnPath(net, ctx, from, state, visited, c, link);
        OnlyCrossed(net, dst, maxHops, state, visited + {state.node}, states, c, link);
        PathsGenuine(net, dst, ctx, maxHops, from, NextState(net, state, c, link), visited + {state.node}, states);
      }
    }
  }

  // ---------- the states along a path ----------

  /** The state stands where the path has got to after i hops, at the end of the link it came over. */
  ghost predicate Stands(net: Network, path: Path, i: nat, s: SymState)
    requires |path.nodes| == |path.links| + 1 && i < |path.nodes|
  {
    && s.node == path.nodes[i]
    && s.path == Path(path.nodes[..i + 1], path.links[..i], CostOf(net, path.links[..i]))
    && (i > 0 ==>
        exists l ::
          && InTopology(net.index, l) && l.name == path.links[i - 1]
          && Joins(l, path.nodes[i - 1], path.nodes[i]) && EndAt(l, path.nodes[i], s.ingress))
  }

  /** One state for every node of the path, the given one first. */
  ghost predicate Trace(net: Network, first: SymState, path: Path, states: seq<SymState>) {
    && |states| == |path.nodes| == |path.links| + 1 && states[0] == first
    && forall i :: 0 <= i < |states| ==> Stands(net, path, i, states[i])
  }

  ghost predicate AllTraced(net: Network, first: SymState, paths: seq<SymPath>) {
    forall p :: p in paths ==> Trace(net, first, p.path, p.states)
  }

  lemma TraceExtends(net: Network, first: SymState, state: SymState, states: seq<SymState>, c: Candidate, link: Link)
    requires Consistent(net.index) && Trace(net, first, state.path, states + [state])
    requires LinkBetween(net.index, state.node, c.entry.nextHop) == Some(link)
    ensures
      var next := NextState(net, state, c, link);
      Trace(net, first, next.path, states + [state] + [next])
  {
    var here, next := states + [state], NextState(net, state, c, link);
    var path, path' := state.path, next.path;
    NextStateIs(net, state, c, link);
    LinkBetweenExactly(net.index, state.node, c.entry.nextHop, link);
    InterfaceOnExactly(link, c.entry.nextHop, state.node, next.ingress);
    CostOfLast(net, path.links, link.name);
    hide NextState, Consistent, LinkBetween, CostOf, InterfaceOn;
    assert Stands(net, path, |states|, here[|states|]);
    TraceKept(net, first, path, path', here);
    assert path.nodes[..|states| + 1] == path.nodes && path.links[..|states|] == path.links;
    assert path'.nodes[..|here| + 1] == path'.nodes && path'.links[..|here|] == path'.links;
    assert Stands(net, path', |here|, next);
  }

  lemma TraceKept(net: Network, first: SymState, path: Path, path': Path, states: seq<SymState>)
    requires Trace(net, first, path, states) && |path'.nodes| == |path'.links| + 1
    requires path.nodes <= path'.nodes && path.links <= path'.links
    ensures forall i :: 0 <= i < |states| ==> Stands(net, path', i, states[i])
  {
    forall i | 0 <= i < |states|
      ensures Stands(net, path', i, states[i])
    {
      StandsBefore(net, path, path', i, states[i]);
    }
    hide Stands;
  }

  lemma StandsBefore(net: Network, path: Path, path': Path, i: nat, s: SymState)
    requires |path.nodes| == |path.links| + 1 && i < |path.nodes| && |path'.nodes| == |path'.links| + 1
    requires path.nodes <= path'.nodes && path.links <= path'.links
    requires Stands(net, path, i, s)
    ensures Stands(net, path', i, s)
  {
    assert path'.nodes[..i + 1] == path.nodes[..i + 1] && path'.links[..i] == path.links[..i];
    hide CostOf, EndAt, Joins;
  }

  /** Every path found comes with the states along it. */
  lemma {:induction false} PathsTraced(net: Network, dst: PrefixSet, maxHops: nat, first: SymState, state: SymState,
                                       visited: set<string>, states: seq<SymState>)
    requires Consistent(net.index) && Trace(net, first, state.path, states + [state])
    ensures AllTraced(net, first, Explore(net, dst, maxHops, state, visited, states).paths)
    decreases net.index.nodes - visited, 4
  {
    hide And, Or, Not, Consistent, OriginatesSet, ExploreAll, Trace;
    if !IsFalse(state.cond) && state.node !in visited && !OriginatesSet(net, state.node, dst)
      && |state.path.nodes| <= maxHops && state.node in net.index.nodes
      && !net.denied(state.node, Ingress, state.ingress) {
      var cs := SetCandidates(net, state.node, dst);
      OnlyReasons(net, dst, maxHops, state, visited, states);
      BranchesTraced(net, dst, maxHops, first, state, visited, states, cs, |cs|);
    }
  }

  lemma {:induction false} BranchesTraced(net: Network, dst: PrefixSet, maxHops: nat, first: SymState, state: SymState,
                                          visited: set<string>, states: seq<SymState>, cs: seq<Candidate>, n: nat)
    requires Consistent(net.index) && Trace(net, first, state.path, states + [state])
    requires state.node !in visited && state.node in net.index.nodes && n <= |cs|
    ensures AllTraced(net, first,
        ExploreAll(net, dst, maxHops, state, visited + {state.node}, states + [state], cs, n).paths)
    decreases net.index.nodes - visited, 3, n
  {
    hide Consistent, ExploreOne, Trace;
    if n > 0 {
      BranchesTraced(net, dst, maxHops, first, state, visited, states, cs, n - 1);
      BranchTraced(net, dst, maxHops, first, state, visited, states, cs[n - 1]);
    }
  }

  lemma {:induction false} BranchTraced(net: Network, dst: PrefixSet, maxHops: nat, first: SymState, state: SymState,
                                        visited: set<string>, states: seq<SymState>, c: Candidate)
    requires Consistent(net.index) && Trace(net, first, state.path, states + [state])
    requires state.node !in visited && state.node in net.index.nodes
    ensures AllTraced(net, first,
        ExploreOne(net, dst, maxHops, state, visited + {state.node}, states + [state], c).paths)
    decreases net.index.nodes - visited, 2
  {
    hide And, Not, Consistent, Explore, LinkBetween, InterfaceOn, NextState, Trace;
    var e := c.entry;
    var found := LinkBetween(net.index, state.node, e.nextHop);
    if !e.discard && EffectiveStatus(net, e) !in {UnresolvedRecursive, ManagementFallback} && e.nextHop != ""
      && found.Some? {
      var link := found.value;
      if !net.denied(state.node, Egress, InterfaceOn(link, state.node)) {
        TraceExtends(net, first, state, states, c, link);
        OnlyCrossed(net, dst, maxHops, state, visited + {state.node}, states + [state], c, link);
        PathsTraced(net, dst, maxHops, first, NextState(net, state, c, link), visited + {state.node},
          states + [state]);
      }
    }
  }

  // ---------- the bound on hops ----------

  /** With at least one hop per node allowed, a larger bound finds nothing more. */
  lemma {:induction false} BoundNeverCuts(net: Network, dst: PrefixSet, ctx: Context, m: nat, n: nat, state: SymState,
                                          visited: set<string>, states: seq<SymState>)
    requires ContextOf(net, ctx) && Good(net, ctx, state, visited) && |net.index.nodes| <= m && |net.index.nodes| <= n
    ensures Explore(net, dst, m, state, visited, states) == Explore(net, dst, n, state, visited, states)
    decreases net.index.nodes - visited, 4
  {
    hide And, Or, Not, Good, CleanNetwork, Consistent, OriginatesSet, ExploreAll;
    GoodMeans(net, ctx, state, visited);
    if state.node !in visited {
      WithinHops(net, ctx, state, visited);
      var cs := SetCandidates(net, state.node, dst);
      CandidatesClean(net, ctx, state.node, MeetsSet(dst));
      BranchesSame(net, dst, ctx, m, n, state, visited, states + [state], cs, |cs|);
    }
  }

  lemma {:induction false} BranchesSame(net: Network, dst: PrefixSet, ctx: Context, m: nat, n: nat, state: SymState,
                                        visited: set<string>, states: seq<SymState>, cs: seq<Candidate>, k: nat)
    requires ContextOf(net, ctx) && Good(net, ctx, state, visited) && |net.index.nodes| <= m && |net.index.nodes| <= n
    requires state.node !in visited && CleanCandidates(cs) && k <= |cs|
    ensures ExploreAll(net, dst, m, state, visited + {state.node}, states, cs, k) == ExploreAll(net, dst, n, state,
        visited + {state.node}, states, cs, k)
    decreases net.index.nodes - visited, 3, k
  {
    hide And, Not, Good, CleanNetwork, Consistent, Explore, LinkBetween, NextState, ExploreOne;
    GoodMeans(net, ctx, state, visited);
    if k > 0 {
      BranchesSame(net, dst, ctx, m, n, state, visited, states, cs, k - 1);
      var c, all := cs[k - 1], visited + {state.node};
      var found := LinkBetween(net.index, state.node, c.entry.nextHop);
      if found.Some? {
        NextGood(net, ctx, state, visited, c, found.value);
        BoundNeverCuts(net, dst, ctx, m, n, NextState(net, state, c, found.value), all, states);
      }
      OneSame(net, dst, m, n, state, all, states, c);
    }
  }

  lemma OneSame(net: Network, dst: PrefixSet, m: nat, n: nat, state: SymState, visited: set<string>,
                states: seq<SymState>, c: Candidate)
    requires
      var found := LinkBetween(net.index, state.node, c.entry.nextHop);
      found.Some? ==>
        Explore(net, dst, m, NextState(net, state, c, found.value), visited, states) ==
        Explore(net, dst, n, NextState(net, state, c, found.value), visited, states)
    ensures ExploreOne(net, dst, m, state, visited, states, c) == ExploreOne(net, dst, n, state, visited, states, c)
  {
    hide And, Not, Explore, LinkBetween, InterfaceOn, NextState;
  }
}
