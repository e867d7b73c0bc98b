/** The symbolic data plane summarises the concrete one exactly, in every failure context. */
module DataplaneExact {
  import opened Conditions
  import opened Conjunctions
  import opened Dataplane
  import opened Failure
  import opened Fib
  import opened FibLookup
  import opened NormalForms
  import opened Prefixes
  import opened Reachability
  import opened SolverGoal
  import opened Topology
  import opened Wrappers
  import Sorting

  /** Every name that can become a variable is clean. */
  ghost predicate CleanNetwork(net: Network) {
    && CleanLinks(net.index.linksByName)
    && (forall name :: name in net.index.linksByName ==> CleanName(name))
    && (forall node :: node in net.index.nodes ==> CleanName(node))
    && (forall node :: CleanEntries(net.FibOf(node)) && forall e :: e in net.FibOf(node) ==> CleanName(e.nextHop))
  }

  /** The context is one of the network's. */
  ghost predicate ContextOf(net: Network, ctx: Context) {
    Consistent(net.index) && CleanNetwork(net) && ctx.linksByName == net.index.linksByName
  }

  // ---------- what is known of every explored state ----------

  ghost predicate Good(net: Network, ctx: Context, state: SymState, visited: set<string>) {
    && Clean(state.cond)
    && state.node in net.index.nodes && visited <= net.index.nodes
    && |state.path.nodes| == |visited| + 1
    && (Eval(state.cond, ctx) ==> !ctx.NodeFailed(state.node))
  }

  lemma LinkUpMeans(net: Network, ctx: Context, link: Link)
    requires ContextOf(net, ctx) && CleanName(link.name)
    ensures Clean(LinkUp(net, link)) && (Eval(LinkUp(net, link), ctx) <==> !ctx.LinkFailed(link.name))
  {
    ExpandEval(Lit(LinkVar(link.name)), ctx);
  }

  lemma NotDeniedMeans(ctx: Context)
    ensures Clean(Not(DecisionCond(false))) && Eval(Not(DecisionCond(false)), ctx)
  {
    NotClean(False);
    NotMeans(False, ctx);
  }

  /** The handed-on state is good, and its condition adds that the candidate is active and the link up. */
  lemma NextGood(net: Network, ctx: Context, state: SymState, visited: set<string>, c: Candidate, link: Link)
    requires ContextOf(net, ctx) && Good(net, ctx, state, visited) && state.node !in visited && Clean(c.cond)
    requires LinkBetween(net.index, state.node, c.entry.nextHop) == Some(link)
    ensures Good(net, ctx, NextState(net, state, c, link), visited + {state.node})
    ensures Eval(NextState(net, state, c, link).cond, ctx) <==>
        Eval(state.cond, ctx) && Eval(c.cond, ctx) && !ctx.LinkFailed(link.name)
    ensures !ctx.LinkFailed(link.name) ==> !ctx.NodeFailed(c.entry.nextHop)
  {
    LinkBetweenIsTheirs(net.index, state.node, c.entry.nextHop);
    LinkUpMeans(net, ctx, link);
    NotDeniedMeans(ctx);
    AndFour(state.cond, c.cond, Not(DecisionCond(false)), LinkUp(net, link), ctx);
    hide And, Not, LinkUp, DecisionCond, CleanNetwork, Consistent, LinkBetween;
  }

  /** The bound on hops is never reached: a state at an unvisited node has a node left. */
  lemma WithinHops(net: Network, ctx: Context, state: SymState, visited: set<string>)
    requires Good(net, ctx, state, visited) && state.node !in visited
    ensures |state.path.nodes| <= |net.index.nodes|
  {
    Sorting.SubsetSize(visited + {state.node}, net.index.nodes);
  }

  lemma CandidatesClean(net: Network, ctx: Context, node: string, keep: FibEntry -> bool)
    requires ContextOf(net, ctx)
    ensures
      var m := Matching(net.FibOf(node), keep);
      CleanEntries(m) && forall i :: 0 <= i < |m| ==>
        Clean(Candidates(net.index.linksByName, m)[i].cond) && CleanName(m[i].nextHop)
  {
    var fib := net.FibOf(node);
    var m := Matching(fib, keep);
    KeptClean(fib, keep);
    KeptMembers(fib, keep);
    Sorting.SortMembers(Kept(fib, keep), ByPrefixAndRank);
    forall i | 0 <= i < |m|
      ensures Clean(CondOrTrue(m[i].condition)) && CleanName(m[i].nextHop)
    {
      assert m[i] in Kept(fib, keep);
      var j :| 0 <= j < |Kept(fib, keep)| && Kept(fib, keep)[j] == m[i];
    }
    hide Kept, Matching;
    forall i | 0 <= i < |m|
      ensures Clean(Candidates(net.index.linksByName, m)[i].cond)
    {
      CandidateMeans(m, i, ctx);
    }
  }

  // ---------- the first path that is open ----------

  function FirstTrue(paths: seq<SymPath>, ctx: Context): Option<Path> {
    if paths == [] then None
    else if Eval(paths[0].cond, ctx) then Some(paths[0].path)
    else FirstTrue(paths[1..], ctx)
  }

  lemma {:induction false} FirstTrueConcat(a: seq<SymPath>, b: seq<SymPath>, ctx: Context)
    ensures FirstTrue(a + b, ctx) == if FirstTrue(a, ctx).Some? then FirstTrue(a, ctx) else FirstTrue(b, ctx)
  {
    if a == [] {
      assert a + b == b;
    } else {
      assert (a + b)[1..] == a[1..] + b;
      FirstTrueConcat(a[1..], b, ctx);
    }
  }

  lemma {:induction false} FirstTrueSome(paths: seq<SymPath>, ctx: Context)
    ensures FirstTrue(paths, ctx).Some? <==> exists p :: p in paths && Eval(p.cond, ctx)
  {
    if paths != [] {
      FirstTrueSome(paths[1..], ctx);
      assert forall p :: p in paths <==> p == paths[0] || p in paths[1..];
    }
  }

  function Delivered(w: Walk): Option<Path> {
    if w.ok then Some(w.path) else None
  }

  /** The first of the first n candidates that delivers the packet. */
  function Successes(net: Network, packet: Packet, ctx: Context, current: string, visited: set<string>, full: Path,
                     cs: seq<Candidate>, n: nat): Option<Path>
    requires Consistent(net.index) && n <= |cs| && current !in visited
  {
    if n == 0 then None
    else
      var before := Successes(net, packet, ctx, current, visited, full, cs, n - 1);
      if before.Some? then before
      else if Eval(cs[n - 1].cond, ctx)
        then Delivered(TryOne(net, packet, ctx, current, visited, full, cs[n - 1].entry))
      else None
  }

  lemma {:induction false} TryAllDelivers(net: Network, packet: Packet, ctx: Context, current: string,
                                          visited: set<string>, full: Path,
                                          cs: seq<Candidate>, i: nat, first: Option<Why>)
    requires Consistent(net.index) && i <= |cs| && current !in visited
    requires Successes(net, packet, ctx, current, visited, full, cs, i).None?
    ensures Delivered(TryAll(net, packet, ctx, current, visited, full, cs, i, first))
         == Successes(net, packet, ctx, current, visited, full, cs, |cs|)
    decreases |cs| - i
  {
    hide TryOne, Consistent, Eval;
    if i < |cs| {
      var w := TryOne(net, packet, ctx, current, visited, full, cs[i].entry);
      if Eval(cs[i].cond, ctx) && w.ok {
        SuccessStays(net, packet, ctx, current, visited, full, cs, i + 1, |cs|);
      } else if Eval(cs[i].cond, ctx) {
        TryAllDelivers(net, packet, ctx, current, visited, full, cs, i + 1, if first.Some? then first else Some(w.why));
      } else {
        TryAllDelivers(net, packet, ctx, current, visited, full, cs, i + 1, first);
      }
    }
  }

  lemma {:induction false} SuccessStays(net: Network, packet: Packet, ctx: Context, current: string,
                                        visited: set<string>, full: Path,
                                        cs: seq<Candidate>, n: nat, m: nat)
    requires Consistent(net.index) && n <= m <= |cs| && current !in visited
    requires Successes(net, packet, ctx, current, visited, full, cs, n).Some?
    ensures Successes(net, packet, ctx, current, visited, full, cs, m) == Successes(net, packet, ctx, current,
        visited, full, cs, n)
    decreases m
  {
    hide TryOne, Consistent, Eval;
    if n < m {
      SuccessStays(net, packet, ctx, current, visited, full, cs, n, m - 1);
    }
  }

  // ---------- the premises under which a prefix stands for an address ----------

  /** Every table entry that meets the origin's prefix contains the address. */
  ghost predicate TablesAgree(net: Network, packet: Packet) {
    forall node, e :: e in net.FibOf(node) && Overlaps(packet.dstPrefix, e.prefix) ==> Contains(e.prefix, packet.to)
  }

  /** Every originated prefix that meets the origin's prefix is that prefix. */
  ghost predicate OriginsAgree(net: Network, packet: Packet) {
    forall node, p :: p in net.PrefixesOf(node) && Overlaps(packet.dstPrefix, p) ==> p == packet.dstPrefix
  }

  ghost predicate Agrees(net: Network, packet: Packet) {
    Contains(packet.dstPrefix, packet.to) && TablesAgree(net, packet) && OriginsAgree(net, packet)
  }

  lemma SameOrigins(net: Network, packet: Packet, node: string)
    requires Agrees(net, packet)
    ensures OriginatesSet(net, node, ExactSet(packet.dstPrefix)) <==> Originates(net, node, packet.dstPrefix)
  {
    assert Overlaps(packet.dstPrefix, packet.dstPrefix);
  }

  lemma {:induction false} KeptSame(s: seq<FibEntry>, f: FibEntry -> bool, g: FibEntry -> bool)
    requires forall e :: e in s ==> f(e) == g(e)
    ensures Kept(s, f) == Kept(s, g)
  {
    if s != [] {
      assert forall e :: e in s[..|s| - 1] ==> e in s;
      KeptSame(s[..|s| - 1], f, g);
    }
  }

  lemma SameCandidates(net: Network, packet: Packet, node: string)
    requires Agrees(net, packet)
    ensures SetCandidates(net, node, ExactSet(packet.dstPrefix)) == AddrCandidates(net, node, packet.to)
  {
    var fib, dst := net.FibOf(node), ExactSet(packet.dstPrefix);
    forall e | e in fib
      ensures MeetsSet(dst)(e) == HasAddr(packet.to)(e)
    {
      OverlapsShares(packet.dstPrefix, e.prefix);
    }
    KeptSame(fib, MeetsSet(dst), HasAddr(packet.to));
  }

  // ---------- exactness ----------

  /** What the paths found from a state should amount to. */
  function Expected(net: Network, packet: Packet, ctx: Context, state: SymState, visited: set<string>): Option<Path>
    requires Consistent(net.index)
  {
    if Eval(state.cond, ctx) then Delivered(Forward(net, packet, ctx, state.node, state.ingress, visited, state.path))
      else None
  }

  /**
   From any state: the first explored path whose condition holds is the path the concrete walk
   takes, and there is none exactly when the walk fails.
   */
  lemma {:induction false} ForwardExact(net: Network, packet: Packet, ctx: Context, maxHops: nat, state: SymState,
                                        visited: set<string>,
                                        states: seq<SymState>)
    requires ContextOf(net, ctx) && Agrees(net, packet) && Good(net, ctx, state, visited)
    requires |net.index.nodes| <= maxHops
    ensures FirstTrue(Explore(net, ExactSet(packet.dstPrefix), maxHops, state, visited, states).paths, ctx)
         == Expected(net, packet, ctx, state, visited)
    decreases net.index.nodes - visited, 1, 0
  {
    hide And, Or, Not, Good, Agrees, CleanNetwork, Consistent;
    var dst := ExactSet(packet.dstPrefix);
    GoodMeans(net, ctx, state, visited);
    IsFalseExactly(state.cond);
    SameOrigins(net, packet, state.node);
    if !IsFalse(state.cond) && state.node !in visited {
      WithinHops(net, ctx, state, visited);
      if OriginatesSet(net, state.node, dst) {
        AndTwo(state.cond, NodeUp(state.node), ctx);
        assert [SymPath(state.path, And([state.cond, NodeUp(state.node)]), states + [state])][1..] == [];
      } else if !net.denied(state.node, Ingress, state.ingress) {
        SameCandidates(net, packet, state.node);
        var cs := SetCandidates(net, state.node, dst);
        CandidatesClean(net, ctx, state.node, MeetsSet(dst));
        BranchesExact(net, packet, ctx, maxHops, state, visited, states + [state], cs, |cs|);
        TryAllDelivers(net, packet, ctx, state.node, visited, state.path, cs, 0, None);
        OnlyReasons(net, dst, maxHops, state, visited, states);
      }
    }
  }

  lemma GoodMeans(net: Network, ctx: Context, state: SymState, visited: set<string>)
    requires ContextOf(net, ctx) && Good(net, ctx, state, visited)
    ensures Clean(state.cond) && state.node in net.index.nodes && Clean(NodeUp(state.node))
    ensures Eval(state.cond, ctx) ==> !ctx.NodeFailed(state.node)
  {
  }

  /** The paths of a state that forwards are those of its candidates. */
  lemma OnlyReasons(net: Network, dst: PrefixSet, maxHops: nat, state: SymState, visited: set<string>,
                    states: seq<SymState>)
    requires !IsFalse(state.cond) && state.node !in visited && !OriginatesSet(net, state.node, dst)
    requires |state.path.nodes| <= maxHops && state.node in net.index.nodes
    requires !net.denied(state.node, Ingress, state.ingress)
    ensures
      var cs := SetCandidates(net, state.node, dst);
      Explore(net, dst, maxHops, state, visited, states).paths ==
        ExploreAll(net, dst, maxHops, state, visited + {state.node}, states + [state], cs, |cs|).paths
  {
    ExploreForwards(net, dst, maxHops, state, visited, states);
    hide ExploreAll, Explore, And, Or, Not, SetCandidates;
  }

  ghost predicate CleanCandidates(cs: seq<Candidate>) {
    forall i :: 0 <= i < |cs| ==> Clean(cs[i].cond)
  }

  lemma {:induction false} BranchesExact(net: Network, packet: Packet, ctx: Context, maxHops: nat, state: SymState,
                                         visited: set<string>,
                                         states: seq<SymState>, cs: seq<Candidate>, n: nat)
    requires ContextOf(net, ctx) && Agrees(net, packet) && Good(net, ctx, state, visited)
    requires |net.index.nodes| <= maxHops
    requires state.node !in visited && CleanCandidates(cs) && n <= |cs|
    ensures FirstTrue(ExploreAll(net, ExactSet(packet.dstPrefix), maxHops, state, visited + {state.node}, states, cs,
        n).paths, ctx)
         == if Eval(state.cond, ctx) then Successes(net, packet, ctx, state.node, visited, state.path, cs, n) else None
    decreases net.index.nodes - visited, 0, 2 + n
  {
    hide And, Or, Not, Good, Agrees, CleanNetwork, Consistent, ExploreOne, TryOne;
    if n > 0 {
      var dst := ExactSet(packet.dstPrefix);
      BranchesExact(net, packet, ctx, maxHops, state, visited, states, cs, n - 1);
      BranchExact(net, packet, ctx, maxHops, state, visited, states, cs[n - 1]);
      FirstTrueConcat(ExploreAll(net, dst, maxHops, state, visited + {state.node}, states, cs, n - 1).paths,
                      ExploreOne(net, dst, maxHops, state, visited + {state.node}, states, cs[n - 1]).paths, ctx);
    }
  }

  lemma {:induction false} BranchExact(net: Network, packet: Packet, ctx: Context, maxHops: nat, state: SymState,
                                       visited: set<string>,
                                       states: seq<SymState>, c: Candidate)
    requires ContextOf(net, ctx) && Agrees(net, packet) && Good(net, ctx, state, visited)
    requires |net.index.nodes| <= maxHops
    requires state.node !in visited && Clean(c.cond)
    ensures FirstTrue(ExploreOne(net, ExactSet(packet.dstPrefix), maxHops, state, visited + {state.node}, states,
        c).paths, ctx)
         == if Eval(state.cond, ctx) && Eval(c.cond, ctx)
           then Delivered(TryOne(net, packet, ctx, state.node, visited, state.path, c.entry)) else None
    decreases net.index.nodes - visited, 0, 1
  {
    hide And, Or, Not, Good, Agrees, CleanNetwork, Consistent, Explore, Forward, LinkBetween, InterfaceOn, NextState;
    var e := c.entry;
    var found := LinkBetween(net.index, state.node, e.nextHop);
    if !e.discard && EffectiveStatus(net, e) !in {UnresolvedRecursive, ManagementFallback} && e.nextHop != ""
      && found.Some? {
      var link := found.value;
      NextGood(net, ctx, state, visited, c, link);
      if !net.denied(state.node, Egress, InterfaceOn(link, state.node)) {
        NextStateIs(net, state, c, link);
        OnlyCrossed(net, ExactSet(packet.dstPrefix), maxHops, state, visited + {state.node}, states, c, link);
        LinkBetweenIsTheirs(net.index, state.node, e.nextHop);
        ForwardExact(net, packet, ctx, maxHops, NextState(net, state, c, link), visited + {state.node}, states);
      }
    }
  }

  /** The paths of a permitted candidate are those of the state it leads to. */
  lemma OnlyCrossed(net: Network, dst: PrefixSet, maxHops: nat, state: SymState, visited: set<string>,
                    states: seq<SymState>,
                    c: Candidate, link: Link)
    requires !c.entry.discard && EffectiveStatus(net, c.entry) !in {UnresolvedRecursive, ManagementFallback}
    requires c.entry.nextHop != ""
    requires LinkBetween(net.index, state.node, c.entry.nextHop) == Some(link)
    requires !net.denied(state.node, Egress, InterfaceOn(link, state.node))
    ensures ExploreOne(net, dst, maxHops, state, visited, states, c).paths ==
      Explore(net, dst, maxHops, NextState(net, state, c, link), visited, states).paths
  {
    hide And, Not, Explore, NextState, InterfaceOn, LinkBetween;
  }

  lemma NextStateIs(net: Network, state: SymState, c: Candidate, link: Link)
    ensures
      var next := NextState(net, state, c, link);
      && next.node == c.entry.nextHop && next.ingress == InterfaceOn(link, c.entry.nextHop)
      && next.path == Extend(state.path, c.entry.nextHop, link)
  {
  }
}
