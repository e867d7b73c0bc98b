/** The BGP decision: the order of routes, equivalence, and when the order is none. */
module Decision {
  import opened NormalForms
  import opened Rib
  import opened Wrappers
  import Sorting
  import Text

  datatype Options = Options(alwaysCompareMed: bool, deterministicMed: bool, compareRouterId: bool,
    preferLowerRouterId: bool)

  type AddressOrder = (string, string) -> bool

  function OspfRouteTypeRank(routeType: string): int {
    if routeType == "" || routeType == "intra-area" then 0
    else if routeType == "inter-area" then 1
    else if routeType == "external-type-1" then 2
    else if routeType == "external-type-2" then 3
    else 4
  }

  function NeighboringAs(path: seq<int>): int {
    if path == [] then 0 else path[0]
  }

  predicate ComparesMed(o: Options, a: Attrs, b: Attrs) {
    if !o.deterministicMed && o.alwaysCompareMed then true else NeighboringAs(a.asPath) == NeighboringAs(b.asPath)
  }

  predicate PathTie(a: Attrs, b: Attrs, reverse: bool) {
    var x, y := Text.Join(a.pathNodes, ","), Text.Join(b.pathNodes, ",");
    if reverse then Text.Less(y, x) else Text.Less(x, y)
  }

  predicate OspfLess(a: Attrs, b: Attrs, reverse: bool) {
    if OspfRouteTypeRank(a.ospfType) != OspfRouteTypeRank(b.ospfType)
      then OspfRouteTypeRank(a.ospfType) < OspfRouteTypeRank(b.ospfType)
    else if a.ospfMetric != b.ospfMetric then a.ospfMetric < b.ospfMetric
    else if |a.pathLinks| != |b.pathLinks| then |a.pathLinks| < |b.pathLinks|
    else PathTie(a, b, reverse)
  }

  /** less: does the receiver prefer a? ipLess compares originator addresses. */
  predicate Less(o: Options, ipLess: AddressOrder, receiver: string, a: Attrs, b: Attrs, reverse: bool) {
    if a.kind.Ospf? && b.kind.Ospf? then OspfLess(a, b, reverse)
    else if a.weight != b.weight then a.weight > b.weight
    else if a.localPref != b.localPref then a.localPref > b.localPref
    else if a.originNode == receiver || b.originNode == receiver then a.originNode == receiver
    else Rest(o, ipLess, a, b, reverse)
  }

  predicate Rest(o: Options, ipLess: AddressOrder, a: Attrs, b: Attrs, reverse: bool) {
    if |a.asPath| != |b.asPath| then |a.asPath| < |b.asPath|
    else if a.originRank != b.originRank then a.originRank < b.originRank
    else if ComparesMed(o, a, b) && a.med != b.med then a.med < b.med
    else if a.learnedIbgp != b.learnedIbgp then !a.learnedIbgp
    else if a.igpCost != b.igpCost then a.igpCost < b.igpCost
    else if a.clusterLength != b.clusterLength then a.clusterLength < b.clusterLength
    else if a.originatorId != "" && b.originatorId != "" && a.originatorId != b.originatorId then
      if o.preferLowerRouterId then ipLess(a.originatorId, b.originatorId) else ipLess(b.originatorId, a.originatorId)
    else if o.compareRouterId && a.fromNode != b.fromNode then
      if o.preferLowerRouterId then Text.Less(a.fromNode, b.fromNode) else Text.Less(b.fromNode, a.fromNode)
    else if |a.pathLinks| != |b.pathLinks| then |a.pathLinks| < |b.pathLinks|
    else PathTie(a, b, reverse)
  }

  /** Equivalent of the default process. */
  predicate Equivalent(o: Options, receiver: string, a: Attrs, b: Attrs) {
    if a.kind.Ospf? || b.kind.Ospf? then a.kind == b.kind && a.ospfType == b.ospfType && a.ospfMetric == b.ospfMetric
    else
      && a.weight == b.weight && a.localPref == b.localPref
      && (a.originNode == receiver <==> b.originNode == receiver)
      && |a.asPath| == |b.asPath| && a.originRank == b.originRank
      && !(ComparesMed(o, a, b) && a.med != b.med)
      && a.igpCost == b.igpCost && a.learnedIbgp == b.learnedIbgp
  }

  /** The two locally originated routes that each come before the other. */
  predicate LocalTwins(receiver: string, a: Attrs, b: Attrs) {
    && !(a.kind.Ospf? && b.kind.Ospf?)
    && a.weight == b.weight && a.localPref == b.localPref
    && a.originNode == receiver && b.originNode == receiver
  }

  lemma TieOneWay(a: Attrs, b: Attrs, reverse: bool)
    ensures !(PathTie(a, b, reverse) && PathTie(b, a, reverse))
  {
    var x, y := Text.Join(a.pathNodes, ","), Text.Join(b.pathNodes, ",");
    if Text.Less(x, y) {
      Text.LessAsymmetric(x, y);
    }
  }

  lemma RestOneWay(o: Options, ipLess: AddressOrder, a: Attrs, b: Attrs, reverse: bool)
    requires forall x, y :: ipLess(x, y) ==> !ipLess(y, x)
    ensures !(Rest(o, ipLess, a, b, reverse) && Rest(o, ipLess, b, a, reverse))
  {
    TieOneWay(a, b, reverse);
    if Text.Less(a.fromNode, b.fromNode) {
      Text.LessAsymmetric(a.fromNode, b.fromNode);
    }
    hide PathTie, Text.Less;
  }

  /** The decision prefers two routes to each other exactly when they are local twins. */
  lemma LessBothWays(o: Options, ipLess: AddressOrder, receiver: string, a: Attrs, b: Attrs, reverse: bool)
    requires forall x, y :: ipLess(x, y) ==> !ipLess(y, x)
    ensures Less(o, ipLess, receiver, a, b, reverse) && Less(o, ipLess, receiver, b, a, reverse) <==>
        LocalTwins(receiver, a, b)
  {
    RestOneWay(o, ipLess, a, b, reverse);
    TieOneWay(a, b, reverse);
    hide Rest, PathTie;
  }

  /** A device: its decision process, what it accepts, and what its library sort makes of long lists. */
  datatype Device = Device(
    options: Options, ipLess: AddressOrder, reverse: bool, neverEquivalent: bool,
    valid: Attrs -> bool, arrange: seq<RibEntry> -> seq<RibEntry>)

  /** Originator addresses are never each before the other. */
  ghost predicate OneWay(ipLess: AddressOrder) {
    forall x, y :: ipLess(x, y) ==> !ipLess(y, x)
  }

  function BehaviorOf(d: Device, receiver: string): Behavior {
    Behavior(
      (a: Attrs, b: Attrs) => Less(d.options, d.ipLess, receiver, a, b, d.reverse),
      (a: Attrs, b: Attrs) => !d.neverEquivalent && Equivalent(d.options, receiver, a, b),
      d.valid,
      d.arrange)
  }

  /** The decision never prefers two routes to each other exactly when they hold no local twins. */
  lemma RankableExactly(d: Device, receiver: string, routes: seq<RibEntry>)
    requires OneWay(d.ipLess)
    ensures Sorting.AsymmetricOn(routes, Rank(BehaviorOf(d, receiver))) <==>
      forall i, j :: 0 <= i < j < |routes| ==> !LocalTwins(receiver, routes[i].attrs, routes[j].attrs)
  {
    var b := BehaviorOf(d, receiver);
    forall i, j | 0 <= i < |routes| && 0 <= j < |routes|
      ensures (Rank(b)(routes[i], routes[j]) && Rank(b)(routes[j], routes[i])) <==>
          LocalTwins(receiver, routes[i].attrs, routes[j].attrs)
    {
      LessBothWays(d.options, d.ipLess, receiver, routes[i].attrs, routes[j].attrs, d.reverse);
    }
    hide Rank, LocalTwins;
  }

  /** Two routes that are inequivalent local twins: selecting puts the later one first and lets the other give way. */
  lemma TwinsSwap(d: Device, receiver: string, x: RibEntry, y: RibEntry)
    requires OneWay(d.ipLess) && LocalTwins(receiver, x.attrs, y.attrs)
    requires d.valid(x.attrs) && d.valid(y.attrs) && FamilyOf(x.attrs) == FamilyOf(y.attrs)
    requires d.neverEquivalent || !Equivalent(d.options, receiver, y.attrs, x.attrs)
    ensures
      var b := BehaviorOf(d, receiver);
      var first, second := Some(y.condition), Some(And([x.condition, Not(Or([y.condition]))]));
      SelectAt(b, [x, y]) == [y.(selected := first), x.(selected := second)]
  {
    var b := BehaviorOf(d, receiver);
    LessBothWays(d.options, d.ipLess, receiver, x.attrs, y.attrs, d.reverse);
    hide Less, LocalTwins, And, Or, Not, Equivalent;
    assert [x, y][..1] == [x] && [x][..0] == [];
    assert Sorting.Sort([x], Rank(b)) == [x];
    assert Sorting.Insert(y, [], Rank(b)) == [y];
    assert Sorting.Sort([x, y], Rank(b)) == [y] + [x] == [y, x];
    assert HigherDistinct(b, [y, x], 0, 0) == [];
    assert HigherDistinct(b, [y, x], 1, 0) == [];
    assert Beats(b, [y, x], 0, 1);
    assert HigherDistinct(b, [y, x], 1, 1) == [] + [y.condition] == [y.condition];
  }
}
