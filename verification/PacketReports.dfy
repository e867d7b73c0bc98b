/** The packet reachability queries and what their reports promise. */
module PacketReports {
  import opened Conditions
  import opened Conjunctions
  import opened Dataplane
  import opened DataplaneExact
  import opened DataplaneExplained
  import opened DataplanePaths
  import opened Delivery
  import opened Diagnosis
  import opened Failure
  import opened Fib
  import opened NormalForms
  import opened Prefixes
  import opened Reachability
  import opened SetDelivery
  import opened Topology
  import opened Wrappers
  import Sorting
  import Text

  datatype Message = NotAdvertisedMessage | SourceUnknown | SetUnsupported

  datatype Report = Report(reachable: Cond, unreachable: Cond, outcome: Outcome, message: Option<Message>)

  function Nowhere(message: Message, reasons: seq<Reason>): Report {
    Report(False, True, Outcome([], [], reasons), Some(message))
  }

  /** The nodes that originate something in the set, in name order. */
  ghost predicate OriginNodes(net: Network, dst: PrefixSet, origins: seq<string>) {
    Sorting.NoDuplicates(origins) && forall n :: n in origins <==> OriginatesSet(net, n, dst)
  }

  /** originNodesForPrefixSetVRF */
  method FindOriginNodes(net: Network, dst: PrefixSet) returns (origins: seq<string>)
    ensures OriginNodes(net, dst, origins) && Sorting.Sorted(origins, Text.Less)
  {
    origins := [];
    var todo := net.index.nodes;
    hide OriginatesSet;
    while todo != {}
      invariant todo <= net.index.nodes && Sorting.NoDuplicates(origins)
      invariant forall n :: n in origins <==> n in net.index.nodes - todo && OriginatesSet(net, n, dst)
      decreases todo
    {
      var node :| node in todo;
      if OriginatesSet(net, node, dst) {
        origins := origins + [node];
      }
      todo := todo - {node};
    }
    OnlyNodesOriginate(net, dst);
    Sorting.SortNoDuplicates(origins, Text.Less);
    Sorting.SortMembers(origins, Text.Less);
    NameOrder();
    Sorting.SortSorts(origins, Text.Less);
    origins := Sorting.Sort(origins, Text.Less);
  }

  lemma OnlyNodesOriginate(net: Network, dst: PrefixSet)
    ensures forall n :: OriginatesSet(net, n, dst) ==> n in net.index.nodes
  {
  }

  lemma NameOrder()
    ensures Sorting.WeakOrder(Text.Less)
  {
    forall a, b | Text.Less(a, b)
      ensures !Text.Less(b, a)
    {
      Text.LessAsymmetric(a, b);
    }
    forall a, b, c | !Text.Less(b, a) && !Text.Less(c, b)
      ensures !Text.Less(c, a)
    {
      Text.LessTotal(a, b);
      Text.LessTotal(b, c);
      if Text.Less(c, a) {
        if Text.Less(a, b) {
          Text.LessTransitive(c, a, b);
        }
      }
    }
  }

  function NodeDown(node: string, from: string): Outcome {
    Reasons(NodeFailed, node, "", "", Path([from], [], 0), Not(NodeUp(node)))
  }

  /** A reason for each of the first n origins that is not the source itself. */
  function OriginsDown(from: string, origins: seq<string>, n: nat): Outcome
    requires n <= |origins|
  {
    if n == 0 then NOTHING
    else OriginsDown(from, origins, n - 1).Then(if origins[n - 1] == from then NOTHING
      else NodeDown(origins[n - 1], from))
  }

  function MaxHops(net: Network): nat {
    if |net.index.nodes| == 0 then |net.fib| + 1 else |net.index.nodes|
  }

  function Initial(from: string, cond: Cond): SymState {
    SymState(from, "", cond, Path([from], [], 0))
  }

  function PathConds(ps: seq<SymPath>): (r: seq<Cond>)
    ensures |r| == |ps| && forall i :: 0 <= i < |ps| ==> r[i] == ps[i].cond
  {
    seq(|ps|, i requires 0 <= i < |ps| => ps[i].cond)
  }

  /** The outcome of a query from a known node. */
  function Searched(net: Network, from: string, dst: PrefixSet, cond: Cond, origins: seq<string>): Outcome {
    NodeDown(from, from).Then(OriginsDown(from, origins, |origins|)).Then(
      Explore(net, dst, MaxHops(net), Initial(from, cond), {}, []))
  }

  function Answered(net: Network, from: string, dst: PrefixSet, cond: Cond, origins: seq<string>): Report {
    var o := Searched(net, from, dst, cond, origins);
    var reachable := Or(PathConds(o.paths));
    Report(reachable, Not(reachable), o, None)
  }

  /** symbolicPacketReachabilityForPrefixSet */
  method ReachabilityForPrefixSet(net: Network, from: string, dst: PrefixSet, cond: Cond)
    returns (r: Report, ghost origins: seq<string>)
    ensures OriginNodes(net, dst, origins) && r == Answered(net, from, dst, cond, origins)
  {
    hide Explore, Or, Not, IsFalse, OriginNodes;
    var findings := new Findings();
    ghost var start := findings.Found();
    findings.AddUnreachableReason(Reason(NodeFailed, from, "", "", Path([from], [], 0), Not(NodeUp(from))));
    ghost var source := NodeDown(from, from);
    ThenAssociates(source, NOTHING, NOTHING);
    var dstNodes := FindOriginNodes(net, dst);
    origins := dstNodes;
    for i := 0 to |dstNodes|
      invariant findings.Found() == source.Then(OriginsDown(from, origins, i))
      invariant fresh(findings)
    {
      ThenAssociates(source, OriginsDown(from, origins, i), NodeDown(dstNodes[i], from));
      ThenAssociates(OriginsDown(from, origins, i), NOTHING, NOTHING);
      if dstNodes[i] == from {
        continue;
      }
      findings.AddUnreachableReason(Reason(NodeFailed, dstNodes[i], "", "", Path([from], [], 0),
        Not(NodeUp(dstNodes[i]))));
    }
    findings.SymbolicForward(net, dst, MaxHops(net), Initial(from, cond), {}, []);
    var reachable := Or(PathConds(findings.paths));
    r := Report(reachable, Not(reachable), findings.Found(), None);
  }

  // ---------- the queries ----------

  /** By address, given the origin found for it. */
  function SpecReport(net: Network, from: string, origin: Option<(string, Prefix)>, origins: seq<string>): Report {
    if origin.None? then
      Nowhere(NotAdvertisedMessage, [Reason(DestinationNotAdvertised, "", "", "", Path([], [], 0), True)])
    else if from !in net.index.nodes then Nowhere(SourceUnknown, [])
    else Answered(net, from, ExactSet(origin.value.1), And([NodeUp(from), NodeUp(origin.value.0)]), origins)
  }

  /** By prefix set: only a single prefix or range can be queried, and something must originate it. */
  function SetReport(net: Network, from: string, dst: PrefixSet, origins: seq<string>): Report {
    if from !in net.index.nodes then Nowhere(SourceUnknown, [])
    else if !Representative(dst) then Nowhere(SetUnsupported, [])
    else if origins == [] then Nowhere(NotAdvertisedMessage, [])
    else Answered(net, from, dst, NodeUp(from), origins)
  }

  predicate Representative(dst: PrefixSet) {
    (dst.ExactSet? && dst.prefix.Net?) || (dst.RangeSet? && dst.base.Net?)
  }

  method SymbolicPacketReachabilitySpec(net: Network, from: string, origin: Option<(string, Prefix)>)
    returns (r: Report, ghost origins: seq<string>)
    ensures origin.Some? && from in net.index.nodes ==> OriginNodes(net, ExactSet(origin.value.1), origins)
    ensures r == SpecReport(net, from, origin, origins)
  {
    origins := [];
    if origin.None? {
      return Nowhere(NotAdvertisedMessage, [Reason(DestinationNotAdvertised, "", "", "", Path([], [], 0), True)]),
        origins;
    }
    if from !in net.index.nodes {
      return Nowhere(SourceUnknown, []), origins;
    }
    r, origins := ReachabilityForPrefixSet(net, from, ExactSet(origin.value.1),
      And([NodeUp(from), NodeUp(origin.value.0)]));
  }

  method SymbolicPacketReachabilityForSet(net: Network, from: string, dst: PrefixSet)
    returns (r: Report, ghost origins: seq<string>)
    ensures OriginNodes(net, dst, origins) && r == SetReport(net, from, dst, origins)
  {
    var found := FindOriginNodes(net, dst);
    origins := found;
    if from !in net.index.nodes {
      return Nowhere(SourceUnknown, []), origins;
    }
    if !Representative(dst) {
      return Nowhere(SetUnsupported, []), origins;
    }
    if found == [] {
      return Nowhere(NotAdvertisedMessage, []), origins;
    }
    r, origins := ReachabilityForPrefixSet(net, from, dst, NodeUp(from));
    assert origins != [] by {
      assert OriginatesSet(net, found[0], dst);
    }
  }

  /** Which query is refused, and why: the source comes first, then the form of the set, then its origins. */
  lemma MessagesExactly(net: Network, from: string, dst: PrefixSet, origins: seq<string>)
    requires OriginNodes(net, dst, origins)
    ensures
      var m := SetReport(net, from, dst, origins).message;
      var single := (dst.ExactSet? && dst.prefix.Net?) || (dst.RangeSet? && dst.base.Net?);
      && (m == Some(SourceUnknown) <==> from !in net.index.nodes)
      && (m == Some(SetUnsupported) <==> from in net.index.nodes && !single)
      && (m == Some(NotAdvertisedMessage) <==>
        from in net.index.nodes && single && forall n :: !OriginatesSet(net, n, dst))
      && (m == None <==> from in net.index.nodes && single && exists n :: OriginatesSet(net, n, dst))
  {
    hide Searched, Or, Not, OriginatesSet;
    if origins != [] {
      assert origins[0] in origins;
    }
  }

  // ---------- the address query is exact ----------

  /** What originForIPVRF may return: some node and prefix that contain the address, or none if there is none. */
  ghost predicate IsOrigin(net: Network, to: Addr, origin: Option<(string, Prefix)>) {
    if origin.Some? then
      && origin.value.0 in net.index.nodes
      && origin.value.1 in net.PrefixesOf(origin.value.0)
      && Contains(origin.value.1, to)
    else forall node, p :: node in net.index.nodes && p in net.PrefixesOf(node) ==> !Contains(p, to)
  }

  lemma {:induction false} OriginsDownHasNoPaths(from: string, origins: seq<string>, n: nat)
    requires n <= |origins|
    ensures OriginsDown(from, origins, n).paths == []
  {
    if n > 0 {
      OriginsDownHasNoPaths(from, origins, n - 1);
    }
  }

  lemma SearchedPaths(net: Network, from: string, dst: PrefixSet, cond: Cond, origins: seq<string>)
    ensures Searched(net, from, dst, cond, origins).paths == Explore(net, dst, MaxHops(net), Initial(from, cond), {},
        []).paths
  {
    OriginsDownHasNoPaths(from, origins, |origins|);
    hide Explore, OriginsDown, Not, IsFalse, MaxHops, Initial;
    var explored := Explore(net, dst, MaxHops(net), Initial(from, cond), {}, []);
    assert NodeDown(from, from).paths == [];
    assert [] + [] + explored.paths == explored.paths;
  }

  lemma InitialGood(net: Network, ctx: Context, from: string, cond: Cond)
    requires ContextOf(net, ctx) && from in net.index.nodes && Clean(cond)
    requires Eval(cond, ctx) ==> !ctx.NodeFailed(from)
    ensures Good(net, ctx, Initial(from, cond), {}) && OnPath(net, ctx, from, Initial(from, cond), {})
    ensures |net.index.nodes| <= MaxHops(net)
  {
  }

  /** A report is true exactly where one of its paths is open. */
  lemma AnsweredMeans(net: Network, from: string, dst: PrefixSet, cond: Cond, origins: seq<string>, ctx: Context)
    requires ContextOf(net, ctx) && from in net.index.nodes && Clean(cond)
    requires Eval(cond, ctx) ==> !ctx.NodeFailed(from)
    ensures
      var r := Answered(net, from, dst, cond, origins);
      && (Eval(r.reachable, ctx) <==> exists p :: p in r.outcome.paths && Eval(p.cond, ctx))
      && (Eval(r.unreachable, ctx) <==> !Eval(r.reachable, ctx))
      && AllGenuine(net, dst, ctx, from, r.outcome.paths)
  {
    var paths := Searched(net, from, dst, cond, origins).paths;
    InitialGood(net, ctx, from, cond);
    SearchedPaths(net, from, dst, cond, origins);
    PathsGenuine(net, dst, ctx, MaxHops(net), from, Initial(from, cond), {}, []);
    OpenPaths(paths, ctx);
    hide Explore, Or, Not, Searched, Genuine, AllUp, Good, OnPath, ContextOf;
  }

  lemma OpenPaths(paths: seq<SymPath>, ctx: Context)
    requires forall p :: p in paths ==> Clean(p.cond)
    ensures Eval(Or(PathConds(paths)), ctx) <==> exists p :: p in paths && Eval(p.cond, ctx)
    ensures Eval(Not(Or(PathConds(paths))), ctx) <==> !Eval(Or(PathConds(paths)), ctx)
  {
    var cs := PathConds(paths);
    assert forall i :: 0 <= i < |cs| ==> paths[i] in paths;
    OrMeans(cs, ctx);
    FlattenClean(OrOp, cs);
    NotMeans(Or(cs), ctx);
    hide Or, Not, Eval, Clean;
    if p :| p in paths && Eval(p.cond, ctx) {
      var i :| 0 <= i < |paths| && paths[i] == p;
      assert cs[i] in cs;
    }
    if c :| c in cs && Eval(c, ctx) {
      var i :| 0 <= i < |cs| && cs[i] == c;
      assert paths[i] in paths;
    }
  }

  lemma BothUp(net: Network, ctx: Context, a: string, b: string)
    requires ContextOf(net, ctx) && a in net.index.nodes && b in net.index.nodes
    ensures Clean(And([NodeUp(a), NodeUp(b)]))
    ensures Eval(And([NodeUp(a), NodeUp(b)]), ctx) <==> !ctx.NodeFailed(a) && !ctx.NodeFailed(b)
  {
    AndTwo(NodeUp(a), NodeUp(b), ctx);
  }

  /** A packet that starts at an unknown node goes nowhere. */
  lemma {:induction false} UnknownTries(net: Network, packet: Packet, ctx: Context, from: string, cs: seq<Candidate>,
                                        i: nat, first: Option<Why>)
    requires Consistent(net.index) && from !in net.index.nodes && i <= |cs|
    ensures !TryAll(net, packet, ctx, from, {}, Path([from], [], 0), cs, i, first).ok
    decreases |cs| - i
  {
    if i < |cs| {
      var w := TryOne(net, packet, ctx, from, {}, Path([from], [], 0), cs[i].entry);
      if LinkBetween(net.index, from, cs[i].entry.nextHop).Some? {
        LinkBetweenIsTheirs(net.index, from, cs[i].entry.nextHop);
      }
      assert !w.ok;
      hide TryOne, Eval;
      UnknownTries(net, packet, ctx, from, cs, i + 1, if first.Some? then first else Some(w.why));
      UnknownTries(net, packet, ctx, from, cs, i + 1, first);
    }
  }

  /**
   For every address and in every context: the symbolic answer is true exactly when the
   concrete walk delivers, and the first open path is the path that walk takes.
   */
  lemma SpecExact(net: Network, from: string, to: Addr, origin: Option<(string, Prefix)>, origins: seq<string>,
                  ctx: Context)
    requires ContextOf(net, ctx) && IsOrigin(net, to, origin)
    requires origin.Some? ==> Agrees(net, Packet(to, origin.value.1))
    ensures
      var r := SpecReport(net, from, origin, origins);
      var w := Concrete(net, from, to, origin, ctx);
      && (Eval(r.reachable, ctx) <==> w.ok)
      && (Eval(r.unreachable, ctx) <==> !w.ok)
      && FirstTrue(r.outcome.paths, ctx) == Delivered(w)
  {
    if origin.Some? {
      var packet := Packet(to, origin.value.1);
      if from in net.index.nodes {
        var cond := And([NodeUp(from), NodeUp(origin.value.0)]);
        BothUp(net, ctx, from, origin.value.0);
        AnsweredMeans(net, from, ExactSet(packet.dstPrefix), cond, origins, ctx);
        InitialGood(net, ctx, from, cond);
        SearchedPaths(net, from, ExactSet(packet.dstPrefix), cond, origins);
        ForwardExact(net, packet, ctx, MaxHops(net), Initial(from, cond), {}, []);
        FirstTrueSome(Searched(net, from, ExactSet(packet.dstPrefix), cond, origins).paths, ctx);
        hide Explore, Forward, Searched, And, Or, Not, AllGenuine, ContextOf, Agrees, Good, OnPath;
      } else {
        UnknownTries(net, packet, ctx, from, AddrCandidates(net, from, to), 0, None);
        hide TryAll, Eval;
        assert !Concrete(net, from, to, origin, ctx).ok;
      }
    }
  }

  /**
   What the symbolic answer says of the network, without mention of any walk: it is true exactly
   where the source and the origin are up and an open loop-free path leads to an origin.
   */
  lemma SpecMeansOpenPath(net: Network, from: string, to: Addr, origin: Option<(string, Prefix)>,
                          origins: seq<string>, ctx: Context)
    requires ContextOf(net, ctx) && IsOrigin(net, to, origin)
    requires origin.Some? ==> Agrees(net, Packet(to, origin.value.1))
    ensures Eval(SpecReport(net, from, origin, origins).reachable, ctx) <==>
      && origin.Some? && !ctx.NodeFailed(from) && !ctx.NodeFailed(origin.value.0)
      && exists nodes :: OpenFrom(net, ToAddress(Packet(to, origin.value.1)), ctx, from, "", {}, nodes)
  {
    SpecExact(net, from, to, origin, origins, ctx);
    DeliveredExactly(net, from, to, origin, ctx);
    hide SpecReport, Concrete, OpenFrom;
  }

  /**
   What a set query answers: yes exactly where the set can be queried and an open loop-free path
   leads from the source, up itself, to a node that originates something in the set.
   */
  lemma SetMeansOpenPath(net: Network, from: string, dst: PrefixSet, origins: seq<string>, ctx: Context)
    requires ContextOf(net, ctx) && OriginNodes(net, dst, origins)
    ensures Eval(SetReport(net, from, dst, origins).reachable, ctx) <==>
      Representative(dst) && exists nodes :: OpenFrom(net, ToSet(dst), ctx, from, "", {}, nodes)
  {
    forall nodes | OpenFrom(net, ToSet(dst), ctx, from, "", {}, nodes)
      ensures from in net.index.nodes && origins != []
    {
      OpenLeads(net, dst, ctx, from, "", {}, nodes);
    }
    if from in net.index.nodes && Representative(dst) && origins != [] {
      CleanNode(net, ctx, from);
      InitialGood(net, ctx, from, NodeUp(from));
      AnsweredMeans(net, from, dst, NodeUp(from), origins, ctx);
      AnsweredPaths(net, from, dst, NodeUp(from), origins);
      ExploreExactly(net, dst, ctx, MaxHops(net), Initial(from, NodeUp(from)), {}, []);
      forall nodes | OpenFrom(net, ToSet(dst), ctx, from, "", {}, nodes)
        ensures Eval(NodeUp(from), ctx)
      {
        OpenUnvisited(net, ToSet(dst), ctx, from, "", {}, nodes);
      }
      hide Explore, OpenFrom, Answered, Good, OnPath, ContextOf, OriginNodes, AllGenuine, MaxHops;
    }
  }

  /** An open path starts at a known node and ends at an origin. */
  lemma {:induction false} OpenLeads(net: Network, dst: PrefixSet, ctx: Context, from: string, ingress: string,
                                     visited: set<string>, nodes: seq<string>)
    requires Consistent(net.index) && OpenFrom(net, ToSet(dst), ctx, from, ingress, visited, nodes)
    ensures from in net.index.nodes && exists n :: OriginatesSet(net, n, dst)
    decreases |nodes|
  {
    DestinationAs(net, ToSet(dst), from);
    if |nodes| > 1 {
      var link, iface := FirstHop(net, ToSet(dst), ctx, from, ingress, visited, nodes);
      HopEnds(net, ToSet(dst), ctx, from, nodes[1], link);
      hide OriginatesSet, Hop, OpenFrom, EndAt;
      OpenLeads(net, dst, ctx, nodes[1], iface, visited + {from}, nodes[1..]);
    }
  }

  // ---------- no unexplained loss ----------

  lemma DownExplained(net: Network, ctx: Context, node: string, from: string)
    requires ContextOf(net, ctx) && node in net.index.nodes && ctx.NodeFailed(node)
    ensures Explained(NodeDown(node, from), ctx)
  {
    NotMeans(NodeUp(node), ctx);
    ReasonApplies(NodeFailed, node, "", "", Path([from], [], 0), Not(NodeUp(node)), ctx);
  }

  lemma {:induction false} OriginDownExplained(net: Network, ctx: Context, from: string, origins: seq<string>, i: nat,
                                               n: nat)
    requires ContextOf(net, ctx) && i < n <= |origins| && origins[i] in net.index.nodes
    requires ctx.NodeFailed(origins[i]) && origins[i] != from
    ensures Explained(OriginsDown(from, origins, n), ctx)
    decreases n
  {
    hide Explained, NodeDown, ContextOf;
    ExplainedThen(OriginsDown(from, origins, n - 1), if origins[n - 1] == from then NOTHING
      else NodeDown(origins[n - 1], from), ctx);
    if i < n - 1 {
      OriginDownExplained(net, ctx, from, origins, i, n - 1);
    } else {
      DownExplained(net, ctx, origins[i], from);
    }
  }

  /** The query starts wherever its source and the origin it is asked for are up. */
  lemma AnsweredExplained(net: Network, from: string, dst: PrefixSet, cond: Cond, origins: seq<string>, ctx: Context)
    requires ContextOf(net, ctx) && from in net.index.nodes && Clean(cond) && OriginNodes(net, dst, origins)
    requires Eval(cond, ctx) ==> !ctx.NodeFailed(from)
    requires Eval(cond, ctx) || ctx.NodeFailed(from) || exists n :: n in origins && ctx.NodeFailed(n)
    ensures Explained(Answered(net, from, dst, cond, origins).outcome, ctx)
  {
    var source, down := NodeDown(from, from), OriginsDown(from, origins, |origins|);
    var explored := Explore(net, dst, MaxHops(net), Initial(from, cond), {}, []);
    InitialGood(net, ctx, from, cond);
    if ctx.NodeFailed(from) {
      DownExplained(net, ctx, from, from);
    } else if Eval(cond, ctx) {
      StateExplained(net, dst, ctx, MaxHops(net), Initial(from, cond), {}, []);
    } else {
      var n :| n in origins && ctx.NodeFailed(n);
      var i :| 0 <= i < |origins| && origins[i] == n;
      OnlyNodesOriginate(net, dst);
      OriginDownExplained(net, ctx, from, origins, i, |origins|);
    }
    hide Explore, Explained, NodeDown, OriginsDown, Good, ContextOf;
    ExplainedThen(source, down, ctx);
    ExplainedThen(source.Then(down), explored, ctx);
  }

  /** The report speaks for the context: some path is open or some reason applies. */
  ghost predicate Speaks(r: Report, ctx: Context) {
    Explained(r.outcome, ctx)
  }

  /** The address query leaves a context unexplained exactly when its source is not a node. */
  lemma SpecExplained(net: Network, from: string, to: Addr, origin: Option<(string, Prefix)>, origins: seq<string>,
                      ctx: Context)
    requires ContextOf(net, ctx) && IsOrigin(net, to, origin)
    requires origin.Some? ==> OriginNodes(net, ExactSet(origin.value.1), origins)
    ensures Speaks(SpecReport(net, from, origin, origins), ctx) <==> origin.None? || from in net.index.nodes
  {
    if origin.None? {
      var r := Reason(DestinationNotAdvertised, "", "", "", Path([], [], 0), True);
      assert r in [r] && Eval(r.cond, ctx);
    } else if from in net.index.nodes {
      var (node, prefix) := origin.value;
      BothUp(net, ctx, from, node);
      assert OriginatesSet(net, node, ExactSet(prefix)) by {
        assert Overlaps(prefix, prefix);
      }
      hide OriginatesSet, ContextOf, Explained, And;
      AnsweredExplained(net, from, ExactSet(prefix), And([NodeUp(from), NodeUp(node)]), origins, ctx);
    }
  }

  /** The set query does so as well when the set is not a prefix or range, or nothing originates it. */
  lemma SetExplained(net: Network, from: string, dst: PrefixSet, origins: seq<string>, ctx: Context)
    requires ContextOf(net, ctx) && OriginNodes(net, dst, origins)
    ensures Speaks(SetReport(net, from, dst, origins), ctx) <==>
        from in net.index.nodes && Representative(dst) && origins != []
  {
    if from in net.index.nodes && Representative(dst) && origins != [] {
      assert Clean(NodeUp(from));
      hide OriginatesSet, ContextOf, Explained;
      AnsweredExplained(net, from, dst, NodeUp(from), origins, ctx);
    }
  }

  // ---------- what the reported paths are ----------

  /** Every path of either report is a loop-free walk to an origin, open only when all of it is up. */
  lemma ReportedPathsGenuine(net: Network, from: string, to: Addr, origin: Option<(string, Prefix)>, dst: PrefixSet,
                             origins: seq<string>, ctx: Context)
    requires ContextOf(net, ctx) && IsOrigin(net, to, origin)
    ensures origin.Some? ==> AllGenuine(net, ExactSet(origin.value.1), ctx, from,
        SpecReport(net, from, origin, origins).outcome.paths)
    ensures AllGenuine(net, dst, ctx, from, SetReport(net, from, dst, origins).outcome.paths)
  {
    hide Answered, ContextOf, And, Genuine, AllUp;
    if from in net.index.nodes {
      assert Clean(NodeUp(from)) by {
        CleanNode(net, ctx, from);
      }
      AnsweredMeans(net, from, dst, NodeUp(from), origins, ctx);
      if origin.Some? {
        BothUp(net, ctx, from, origin.value.0);
        AnsweredMeans(net, from, ExactSet(origin.value.1), And([NodeUp(from), NodeUp(origin.value.0)]), origins, ctx);
      }
    }
  }

  /** Every path of either report comes with the states along it, from the source at no interface. */
  lemma ReportedPathsTraced(net: Network, from: string, origin: Option<(string, Prefix)>, dst: PrefixSet,
                            origins: seq<string>)
    requires Topology.Consistent(net.index)
    ensures origin.Some? ==>
      forall p :: p in SpecReport(net, from, origin, origins).outcome.paths ==> TracedFrom(net, from, p)
    ensures forall p :: p in SetReport(net, from, dst, origins).outcome.paths ==> TracedFrom(net, from, p)
  {
    hide Answered, And, Topology.Consistent;
    AnsweredTraced(net, from, dst, NodeUp(from), origins);
    if origin.Some? {
      AnsweredTraced(net, from, ExactSet(origin.value.1), And([NodeUp(from), NodeUp(origin.value.0)]), origins);
    }
  }

  ghost predicate TracedFrom(net: Network, from: string, p: SymPath) {
    exists cond :: Trace(net, SymState(from, "", cond, Path([from], [], 0)), p.path, p.states)
  }

  lemma AnsweredTraced(net: Network, from: string, dst: PrefixSet, cond: Cond, origins: seq<string>)
    requires Topology.Consistent(net.index)
    ensures forall p :: p in Answered(net, from, dst, cond, origins).outcome.paths ==> TracedFrom(net, from, p)
  {
    var first := Initial(from, cond);
    SearchedPaths(net, from, dst, cond, origins);
    assert [] + [first] == [first] && first.path.nodes[..1] == [from] && first.path.links[..0] == [];
    assert Stands(net, first.path, 0, first);
    PathsTraced(net, dst, MaxHops(net), first, first, {}, []);
    hide Explore, Searched, Or, Not, Trace, MaxHops;
  }

  lemma CleanNode(net: Network, ctx: Context, node: string)
    requires ContextOf(net, ctx) && node in net.index.nodes
    ensures Clean(NodeUp(node))
  {
  }

  // ---------- why the premises are there ----------

  /** A packet at an origin is delivered on the spot. */
  lemma AtOrigin(net: Network, dst: PrefixSet, maxHops: nat, state: SymState)
    requires !IsFalse(state.cond) && OriginatesSet(net, state.node, dst)
    ensures Explore(net, dst, maxHops, state, {},
        []).paths == [SymPath(state.path, And([state.cond, NodeUp(state.node)]), [state])]
  {
    hide And, OriginatesSet;
    assert [] + [state] == [state];
  }

  lemma SourceIsOrigin(net: Network, from: string, dst: PrefixSet, cond: Cond, origins: seq<string>, ctx: Context)
    requires ContextOf(net, ctx) && OriginatesSet(net, from, dst) && Clean(cond) && Eval(cond, ctx)
    requires !ctx.NodeFailed(from)
    ensures Eval(Answered(net, from, dst, cond, origins).reachable, ctx)
  {
    OnlyNodesOriginate(net, dst);
    CleanNode(net, ctx, from);
    AndTwo(cond, NodeUp(from), ctx);
    IsFalseExactly(cond);
    hide Explore, And, Answered, OriginatesSet, IsFalse, AllGenuine, ContextOf, Clean;
    AnsweredMeans(net, from, dst, cond, origins, ctx);
    AtOrigin(net, dst, MaxHops(net), Initial(from, cond));
    AnsweredPaths(net, from, dst, cond, origins);
    var p := SymPath(Path([from], [], 0), And([cond, NodeUp(from)]), [Initial(from, cond)]);
    assert p in [p];
  }

  lemma AnsweredPaths(net: Network, from: string, dst: PrefixSet, cond: Cond, origins: seq<string>)
    ensures Answered(net, from, dst, cond, origins).outcome.paths == Explore(net, dst, MaxHops(net),
        Initial(from, cond), {}, []).paths
  {
    SearchedPaths(net, from, dst, cond, origins);
  }

  /**
   With two origins of one prefix: the symbolic answer by way of one and the concrete answer by way
   of the other agree in a context exactly when both origins are up or both down, or the source
   is down, or no open path leads to any origin.
   */
  lemma AnycastExactly(net: Network, from: string, near: string, far: string, prefix: Prefix, to: Addr,
                       origins: seq<string>, ctx: Context)
    requires ContextOf(net, ctx) && Agrees(net, Packet(to, prefix))
    requires IsOrigin(net, to, Some((near, prefix))) && IsOrigin(net, to, Some((far, prefix)))
    ensures (Eval(SpecReport(net, from, Some((near, prefix)), origins).reachable, ctx) <==>
             Concrete(net, from, to, Some((far, prefix)), ctx).ok) <==>
      || (ctx.NodeFailed(near) <==> ctx.NodeFailed(far))
      || ctx.NodeFailed(from)
      || !exists nodes :: OpenFrom(net, ToAddress(Packet(to, prefix)), ctx, from, "", {}, nodes)
  {
    SpecMeansOpenPath(net, from, to, Some((near, prefix)), origins, ctx);
    DeliveredExactly(net, from, to, Some((far, prefix)), ctx);
    hide SpecReport, Concrete, OpenFrom, Agrees, ContextOf;
  }

  /**
   Two origins of one prefix: the two queries each take one of them, in no fixed order, and
   disagree when they take different ones and the concrete query's is down.
   */
  lemma AnycastDisagrees(net: Network, near: string, far: string, prefix: Prefix, to: Addr, origins: seq<string>,
                         ctx: Context)
    requires ContextOf(net, ctx) && Contains(prefix, to) && near != far
    requires IsOrigin(net, to, Some((near, prefix))) && IsOrigin(net, to, Some((far, prefix)))
    requires !ctx.NodeFailed(near) && ctx.NodeFailed(far)
    ensures Eval(SpecReport(net, near, Some((near, prefix)), origins).reachable, ctx)
    ensures !Concrete(net, near, to, Some((far, prefix)), ctx).ok
  {
    BothUp(net, ctx, near, near);
    assert OriginatesSet(net, near, ExactSet(prefix)) by {
      assert Overlaps(prefix, prefix);
    }
    hide OriginatesSet, Answered, And, ContextOf;
    SourceIsOrigin(net, near, ExactSet(prefix), And([NodeUp(near), NodeUp(near)]), origins, ctx);
  }

  // ---------- what the reasons say ----------

  /** A node that is down when the query starts. */
  ghost predicate DownAtStart(ctx: Context, from: string, node: string, d: Trouble) {
    ctx.NodeFailed(node) && d == Trouble(NodeFailed, node, "", "", [from])
  }

  lemma NodeDownSays(net: Network, ctx: Context, node: string, from: string, d: Trouble)
    requires ContextOf(net, ctx) && node in net.index.nodes
    ensures Applies(NodeDown(node, from).reasons, d, ctx) <==> DownAtStart(ctx, from, node, d)
  {
    CleanNode(net, ctx, node);
    NotMeans(NodeUp(node), ctx);
    ReasonsSay(NodeFailed, node, "", "", Path([from], [], 0), Not(NodeUp(node)), d, ctx);
  }

  lemma {:induction false} OriginsDownSay(net: Network, ctx: Context, from: string, origins: seq<string>, n: nat,
                                          d: Trouble)
    requires ContextOf(net, ctx) && n <= |origins| && forall o :: o in origins ==> o in net.index.nodes
    ensures Applies(OriginsDown(from, origins, n).reasons, d, ctx) <==>
      exists i :: 0 <= i < n && origins[i] != from && DownAtStart(ctx, from, origins[i], d)
  {
    hide Applies, NodeDown, ContextOf, DownAtStart;
    NothingApplies(d, ctx);
    if n > 0 {
      OriginsDownSay(net, ctx, from, origins, n - 1, d);
      var last := if origins[n - 1] == from then NOTHING else NodeDown(origins[n - 1], from);
      AppliesThen(OriginsDown(from, origins, n - 1), last, d, ctx);
      if origins[n - 1] != from {
        assert origins[n - 1] in origins;
        NodeDownSays(net, ctx, origins[n - 1], from, d);
      }
    }
  }

  /** A report's reasons: the source or an origin is down, or the packet meets the trouble on its way. */
  lemma AnsweredSays(net: Network, from: string, dst: PrefixSet, cond: Cond, origins: seq<string>, ctx: Context,
                     d: Trouble)
    requires ContextOf(net, ctx) && from in net.index.nodes && Clean(cond)
    requires (Eval(cond, ctx) ==> !ctx.NodeFailed(from)) && forall o :: o in origins ==> o in net.index.nodes
    ensures Applies(Answered(net, from, dst, cond, origins).outcome.reasons, d, ctx) <==>
      || DownAtStart(ctx, from, from, d)
      || (exists o :: o in origins && o != from && DownAtStart(ctx, from, o, d))
      || (Eval(cond, ctx) && MeetsFrom(net, ToSet(dst), ctx, from, "", {}, [from], d))
  {
    InitialGood(net, ctx, from, cond);
    NodeDownSays(net, ctx, from, from, d);
    OriginsDownSay(net, ctx, from, origins, |origins|, d);
    ReasonsExactly(net, dst, ctx, MaxHops(net), Initial(from, cond), {}, [], d);
    var down := NodeDown(from, from).Then(OriginsDown(from, origins, |origins|));
    AppliesThen(NodeDown(from, from), OriginsDown(from, origins, |origins|), d, ctx);
    AppliesThen(down, Explore(net, dst, MaxHops(net), Initial(from, cond), {}, []), d, ctx);
    hide Explore, Applies, NodeDown, OriginsDown, ContextOf, DownAtStart, MeetsFrom, Good, OnPath, Eval, Or, Not;
    if o :| o in origins && o != from && DownAtStart(ctx, from, o, d) {
      var i :| 0 <= i < |origins| && origins[i] == o;
    }
  }

  /**
   The reasons of a set query, in any context: exactly the source and the origins that are down
   and, when the source is up, the troubles that a packet from there meets.
   */
  lemma SetReasonsExactly(net: Network, from: string, dst: PrefixSet, origins: seq<string>, ctx: Context, d: Trouble)
    requires ContextOf(net, ctx) && OriginNodes(net, dst, origins)
    requires from in net.index.nodes && Representative(dst) && origins != []
    ensures Applies(SetReport(net, from, dst, origins).outcome.reasons, d, ctx) <==>
      || DownAtStart(ctx, from, from, d)
      || (exists o :: o in origins && o != from && DownAtStart(ctx, from, o, d))
      || (!ctx.NodeFailed(from) && MeetsFrom(net, ToSet(dst), ctx, from, "", {}, [from], d))
  {
    CleanNode(net, ctx, from);
    OriginsKnown(net, dst, origins);
    AnsweredSays(net, from, dst, NodeUp(from), origins, ctx, d);
    hide Answered, Applies, MeetsFrom, DownAtStart, OriginNodes, ContextOf;
  }

  lemma OriginsKnown(net: Network, dst: PrefixSet, origins: seq<string>)
    requires OriginNodes(net, dst, origins)
    ensures forall o :: o in origins ==> o in net.index.nodes
  {
  }

  /** The same for an address query, whose packets start when source and origin are up. */
  lemma SpecReasonsExactly(net: Network, from: string, node: string, prefix: Prefix, origins: seq<string>, ctx: Context,
                           d: Trouble)
    requires ContextOf(net, ctx) && OriginNodes(net, ExactSet(prefix), origins)
    requires from in net.index.nodes && node in net.index.nodes
    ensures Applies(SpecReport(net, from, Some((node, prefix)), origins).outcome.reasons, d, ctx) <==>
      || DownAtStart(ctx, from, from, d)
      || (exists o :: o in origins && o != from && DownAtStart(ctx, from, o, d))
      || (!ctx.NodeFailed(from) && !ctx.NodeFailed(node)
          && MeetsFrom(net, ToSet(ExactSet(prefix)), ctx, from, "", {}, [from], d))
  {
    BothUp(net, ctx, from, node);
    OriginsKnown(net, ExactSet(prefix), origins);
    AnsweredSays(net, from, ExactSet(prefix), And([NodeUp(from), NodeUp(node)]), origins, ctx, d);
    hide Answered, Applies, MeetsFrom, DownAtStart, OriginNodes, ContextOf, And;
  }

  /** Each report lists a path as blocked exactly where a policy reason says so. */
  lemma ReportedBlocks(net: Network, from: string, dst: PrefixSet, cond: Cond, origins: seq<string>, ctx: Context)
    ensures
      var o := Answered(net, from, dst, cond, origins).outcome;
      o.blocked == Explore(net, dst, MaxHops(net), Initial(from, cond), {}, []).blocked
      && BlockedAsSaid(Explore(net, dst, MaxHops(net), Initial(from, cond), {}, []), ctx)
  {
    BlockedExactly(net, dst, ctx, MaxHops(net), Initial(from, cond), {}, []);
    OriginsBlockNothing(from, origins, |origins|);
    hide Explore, OriginsDown, Or, Not, BlockedAsSaid;
  }

  lemma {:induction false} OriginsBlockNothing(from: string, origins: seq<string>, n: nat)
    requires n <= |origins|
    ensures OriginsDown(from, origins, n).blocked == []
  {
    if n > 0 {
      OriginsBlockNothing(from, origins, n - 1);
    }
  }
}
