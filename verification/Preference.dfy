/** What the decision prefers: the criteria in their order, each by the attributes it looks at. */
module Preference {
  import opened Failure
  import opened Rib
  import opened Decision
  import Sorting
  import Text

  datatype Criterion = Weight | LocalPref | Own | AsPathLength | OriginCode | Med | External | IgpCost | ClusterList
    | Originator | Sender | RouteType | Metric | Links | Path

  /** The criteria for two routes, the first to be asked first. */
  function Criteria(a: Attrs, b: Attrs): seq<Criterion> {
    if a.kind == Ospf && b.kind == Ospf then [RouteType, Metric, Links, Path]
    else
      [Weight, LocalPref, Own, AsPathLength, OriginCode, Med, External, IgpCost, ClusterList, Originator, Sender,
        Links, Path]
  }

  /** The order of OSPF route types; the empty type is an intra-area route, an unknown one comes last. */
  predicate Nearer(s: string, t: string) {
    || (s in ["", "intra-area"] && t !in ["", "intra-area"])
    || (s == "inter-area" && t !in ["", "intra-area", "inter-area"])
    || (s == "external-type-1" && t !in ["", "intra-area", "inter-area", "external-type-1"])
    || (s == "external-type-2" && t !in ["", "intra-area", "inter-area", "external-type-1", "external-type-2"])
  }

  /** Metrics of different neighbours are only compared when that is asked for without determinism. */
  predicate MedCounts(o: Options, a: Attrs, b: Attrs) {
    || (o.alwaysCompareMed && !o.deterministicMed)
    || (if a.asPath == [] then b.asPath == [] || b.asPath[0] == 0
      else if b.asPath == [] then a.asPath[0] == 0
      else a.asPath[0] == b.asPath[0])
  }

  /** The criterion tells the two routes apart and so ends the comparison. */
  predicate Settles(d: Device, receiver: string, c: Criterion, a: Attrs, b: Attrs) {
    match c
    case Weight => a.weight != b.weight
    case LocalPref => a.localPref != b.localPref
    case Own => a.originNode == receiver || b.originNode == receiver
    case AsPathLength => |a.asPath| != |b.asPath|
    case OriginCode => a.originRank != b.originRank
    case Med => MedCounts(d.options, a, b) && a.med != b.med
    case External => a.learnedIbgp != b.learnedIbgp
    case IgpCost => a.igpCost != b.igpCost
    case ClusterList => a.clusterLength != b.clusterLength
    case Originator => a.originatorId != "" && b.originatorId != "" && a.originatorId != b.originatorId
    case Sender => d.options.compareRouterId && a.fromNode != b.fromNode
    case RouteType => Nearer(a.ospfType, b.ospfType) || Nearer(b.ospfType, a.ospfType)
    case Metric => a.ospfMetric != b.ospfMetric
    case Links => |a.pathLinks| != |b.pathLinks|
    case Path => true
  }

  /** The first route is the better one by this criterion. */
  predicate Better(d: Device, receiver: string, c: Criterion, a: Attrs, b: Attrs) {
    match c
    case Weight => a.weight > b.weight
    case LocalPref => a.localPref > b.localPref
    case Own => a.originNode == receiver
    case AsPathLength => |a.asPath| < |b.asPath|
    case OriginCode => a.originRank < b.originRank
    case Med => a.med < b.med
    case External => !a.learnedIbgp && b.learnedIbgp
    case IgpCost => a.igpCost < b.igpCost
    case ClusterList => a.clusterLength < b.clusterLength
    case Originator =>
      if d.options.preferLowerRouterId then d.ipLess(a.originatorId, b.originatorId)
      else d.ipLess(b.originatorId, a.originatorId)
    case Sender =>
      if d.options.preferLowerRouterId then Text.Less(a.fromNode, b.fromNode) else Text.Less(b.fromNode, a.fromNode)
    case RouteType => Nearer(a.ospfType, b.ospfType)
    case Metric => a.ospfMetric < b.ospfMetric
    case Links => |a.pathLinks| < |b.pathLinks|
    case Path =>
      if d.reverse then Text.Less(Text.Join(b.pathNodes, ","), Text.Join(a.pathNodes, ","))
      else Text.Less(Text.Join(a.pathNodes, ","), Text.Join(b.pathNodes, ","))
  }

  /** The k-th criterion tells the routes apart, none before it does. */
  predicate Decides(d: Device, receiver: string, a: Attrs, b: Attrs, k: nat) {
    && k < |Criteria(a, b)|
    && Settles(d, receiver, Criteria(a, b)[k], a, b)
    && forall i :: 0 <= i < k ==> !Settles(d, receiver, Criteria(a, b)[i], a, b)
  }

  /** Some criterion decides: at the latest the last one. */
  lemma SomeDecides(d: Device, receiver: string, a: Attrs, b: Attrs, n: nat) returns (k: nat)
    requires n < |Criteria(a, b)|
    requires forall i :: 0 <= i < n ==> !Settles(d, receiver, Criteria(a, b)[i], a, b)
    ensures Decides(d, receiver, a, b, k)
    decreases |Criteria(a, b)| - n
  {
    if Settles(d, receiver, Criteria(a, b)[n], a, b) {
      k := n;
    } else {
      assert Criteria(a, b)[|Criteria(a, b)| - 1] == Path;
      k := SomeDecides(d, receiver, a, b, n + 1);
    }
  }

  /**
   The first criterion that tells two routes apart decides between them, whatever the later ones say,
   and the route that is better by it is preferred.
   */
  lemma FirstDecides(d: Device, receiver: string, a: Attrs, b: Attrs, k: nat)
    requires Decides(d, receiver, a, b, k)
    ensures Less(d.options, d.ipLess, receiver, a, b, d.reverse) <==>
        Better(d, receiver, Criteria(a, b)[k], a, b)
  {
    var cs := Criteria(a, b);
    if a.kind == Ospf && b.kind == Ospf {
      OspfDecides(d, receiver, a, b, k);
    } else if k < 3 {
      assert cs[0] == Weight && cs[1] == LocalPref && cs[2] == Own;
      hide Rest, OspfLess;
    } else {
      assert cs[0] == Weight && cs[1] == LocalPref && cs[2] == Own;
      RestDecides(d, receiver, a, b, k);
      hide Rest, Better;
    }
  }

  lemma OspfDecides(d: Device, receiver: string, a: Attrs, b: Attrs, k: nat)
    requires a.kind == Ospf && b.kind == Ospf && Decides(d, receiver, a, b, k)
    ensures OspfLess(a, b, d.reverse) <==> Better(d, receiver, Criteria(a, b)[k], a, b)
  {
    var cs := Criteria(a, b);
    assert cs[0] == RouteType && cs[1] == Metric && cs[2] == Links && cs[3] == Path;
    TypeOrder(a.ospfType, b.ospfType);
    TypeOrder(b.ospfType, a.ospfType);
    hide Nearer, OspfRouteTypeRank, Text.Less, Text.Join;
  }

  lemma RestDecides(d: Device, receiver: string, a: Attrs, b: Attrs, k: nat)
    requires !(a.kind == Ospf && b.kind == Ospf) && Decides(d, receiver, a, b, k) && k >= 3
    ensures Rest(d.options, d.ipLess, a, b, d.reverse) <==> Better(d, receiver, Criteria(a, b)[k], a, b)
  {
    var cs := Criteria(a, b);
    assert cs[3] == AsPathLength && cs[4] == OriginCode && cs[5] == Med && cs[6] == External && cs[7] == IgpCost;
    MedOrder(d.options, a, b);
    if k >= 8 {
      assert forall i :: 3 <= i < 8 ==> !Settles(d, receiver, cs[i], a, b);
      LastDecides(d, receiver, a, b, k);
      hide Better, Criteria;
    } else {
      hide PathTie;
    }
    hide MedCounts, ComparesMed, Nearer;
  }

  lemma LastDecides(d: Device, receiver: string, a: Attrs, b: Attrs, k: nat)
    requires !(a.kind == Ospf && b.kind == Ospf) && Decides(d, receiver, a, b, k) && k >= 8
    requires |a.asPath| == |b.asPath| && a.originRank == b.originRank
    requires !(ComparesMed(d.options, a, b) && a.med != b.med)
    requires a.learnedIbgp == b.learnedIbgp && a.igpCost == b.igpCost
    ensures Rest(d.options, d.ipLess, a, b, d.reverse) <==> Better(d, receiver, Criteria(a, b)[k], a, b)
  {
    var cs := Criteria(a, b);
    assert cs[8] == ClusterList && cs[9] == Originator && cs[10] == Sender && cs[11] == Links && cs[12] == Path;
    hide MedCounts, ComparesMed, Nearer, Text.Less, Text.Join;
  }

  lemma TypeOrder(s: string, t: string)
    ensures Nearer(s, t) <==> OspfRouteTypeRank(s) < OspfRouteTypeRank(t)
  {
  }

  lemma MedOrder(o: Options, a: Attrs, b: Attrs)
    ensures MedCounts(o, a, b) == ComparesMed(o, a, b)
  {
  }

  /** The decision prefers a route exactly when it is better by the first criterion that tells the two apart. */
  lemma LessExactly(d: Device, receiver: string, a: Attrs, b: Attrs)
    ensures Less(d.options, d.ipLess, receiver, a, b, d.reverse) <==>
      exists k: nat :: Decides(d, receiver, a, b, k) && Better(d, receiver, Criteria(a, b)[k], a, b)
  {
    var k := SomeDecides(d, receiver, a, b, 0);
    FirstDecides(d, receiver, a, b, k);
    forall i: nat | Decides(d, receiver, a, b, i)
      ensures i == k
    {
    }
  }

  // ---------- one attribute at a time ----------

  /** The first route is preferred and the second is not. */
  predicate Prefers(d: Device, receiver: string, a: Attrs, b: Attrs) {
    && Less(d.options, d.ipLess, receiver, a, b, d.reverse)
    && !Less(d.options, d.ipLess, receiver, b, a, d.reverse)
  }

  /** The order the device asks for between router ids. */
  predicate IdBefore(d: Device, before: AddressOrder, s: string, t: string) {
    if d.options.preferLowerRouterId then before(s, t) && !before(t, s) else before(t, s) && !before(s, t)
  }

  /** A route that is alike in all else is preferred for the better value of any one attribute. */
  lemma BetterInOne(d: Device, receiver: string, a: Attrs, b: Attrs)
    requires b.kind != Ospf
    ensures a == b.(weight := a.weight) && a.weight > b.weight ==> Prefers(d, receiver, a, b)
    ensures a == b.(localPref := a.localPref) && a.localPref > b.localPref ==> Prefers(d, receiver, a, b)
    ensures a == b.(originNode := receiver) && b.originNode != receiver ==> Prefers(d, receiver, a, b)
    ensures b.originNode != receiver ==>
      && (a == b.(asPath := a.asPath) && |a.asPath| < |b.asPath| ==> Prefers(d, receiver, a, b))
      && (a == b.(originRank := a.originRank) && a.originRank < b.originRank ==> Prefers(d, receiver, a, b))
      && (a == b.(med := a.med) && a.med < b.med ==> Prefers(d, receiver, a, b))
      && (a == b.(learnedIbgp := false) && b.learnedIbgp ==> Prefers(d, receiver, a, b))
      && (a == b.(igpCost := a.igpCost) && a.igpCost < b.igpCost ==> Prefers(d, receiver, a, b))
      && (a == b.(clusterLength := a.clusterLength) && a.clusterLength < b.clusterLength ==>
          Prefers(d, receiver, a, b))
  {
    hide Text.Less, Text.Join, OspfLess, PathTie;
  }

  /** The attributes that only break ties. */
  lemma BetterInTie(d: Device, receiver: string, a: Attrs, b: Attrs)
    requires b.kind != Ospf && b.originNode != receiver
    ensures a == b.(originatorId := a.originatorId) && a.originatorId != "" && b.originatorId != "" ==>
        IdBefore(d, d.ipLess, a.originatorId, b.originatorId) && a.originatorId != b.originatorId ==>
          Prefers(d, receiver, a, b)
    ensures a == b.(fromNode := a.fromNode) && d.options.compareRouterId ==>
        IdBefore(d, Text.Less, a.fromNode, b.fromNode) ==> Prefers(d, receiver, a, b)
    ensures a == b.(pathLinks := a.pathLinks) && |a.pathLinks| < |b.pathLinks| ==> Prefers(d, receiver, a, b)
    ensures a == b.(pathNodes := a.pathNodes) ==>
        (Prefers(d, receiver, a, b) <==>
          if d.reverse then Text.Less(Text.Join(b.pathNodes, ","), Text.Join(a.pathNodes, ","))
          else Text.Less(Text.Join(a.pathNodes, ","), Text.Join(b.pathNodes, ",")))
  {
    TieOneWay(a, b, d.reverse);
    hide Text.Less, Text.Join, OspfLess;
  }

  /** OSPF routes: the type, the metric, the number of links and the path. */
  lemma BetterOspf(d: Device, receiver: string, a: Attrs, b: Attrs)
    requires b.kind == Ospf
    ensures a == b.(ospfType := a.ospfType) && Nearer(a.ospfType, b.ospfType) ==> Prefers(d, receiver, a, b)
    ensures a == b.(ospfMetric := a.ospfMetric) && a.ospfMetric < b.ospfMetric ==> Prefers(d, receiver, a, b)
    ensures a == b.(pathLinks := a.pathLinks) && |a.pathLinks| < |b.pathLinks| ==> Prefers(d, receiver, a, b)
    ensures a == b.(pathNodes := a.pathNodes) ==>
        (Prefers(d, receiver, a, b) <==>
          if d.reverse then Text.Less(Text.Join(b.pathNodes, ","), Text.Join(a.pathNodes, ","))
          else Text.Less(Text.Join(a.pathNodes, ","), Text.Join(b.pathNodes, ",")))
  {
    TieOneWay(a, b, d.reverse);
    TypeOrder(a.ospfType, b.ospfType);
    hide Text.Less, Text.Join, Nearer, OspfRouteTypeRank, Rest;
  }

  // ---------- equivalence ----------

  /** The criterion tells the routes apart and does more than break a tie; two local routes are alike. */
  predicate TellsApart(d: Device, receiver: string, c: Criterion, a: Attrs, b: Attrs) {
    && !(c.ClusterList? || c.Originator? || c.Sender? || c.Links? || c.Path?)
    && Settles(d, receiver, c, a, b)
    && !(c == Own && a.originNode == b.originNode == receiver)
  }

  /**
   Routes are equivalent exactly when no criterion before the tie breakers tells them apart, two local
   routes counting as alike; with OSPF, when both are of one kind, type and metric.
   */
  lemma EquivalentExactly(d: Device, receiver: string, a: Attrs, b: Attrs)
    ensures Equivalent(d.options, receiver, a, b) <==>
        if a.kind == Ospf || b.kind == Ospf then
          a.kind == b.kind && a.ospfType == b.ospfType && a.ospfMetric == b.ospfMetric
        else
          forall c <- Criteria(a, b) :: !TellsApart(d, receiver, c, a, b)
  {
    if a.kind != Ospf && b.kind != Ospf {
      var cs := Criteria(a, b);
      if forall c <- cs :: !TellsApart(d, receiver, c, a, b) {
        forall i | 0 <= i < 8
          ensures !TellsApart(d, receiver, cs[i], a, b)
        {
          assert cs[i] in cs;
        }
        NoneApart(d, receiver, a, b);
      } else {
        var c :| c in cs && TellsApart(d, receiver, c, a, b);
        MedOrder(d.options, a, b);
      }
    }
    hide MedCounts, ComparesMed;
  }

  lemma NoneApart(d: Device, receiver: string, a: Attrs, b: Attrs)
    requires a.kind != Ospf && b.kind != Ospf
    requires forall i :: 0 <= i < 8 ==> !TellsApart(d, receiver, Criteria(a, b)[i], a, b)
    ensures Equivalent(d.options, receiver, a, b)
  {
    MedOrder(d.options, a, b);
    var cs := Criteria(a, b);
    assert cs[0] == Weight && cs[1] == LocalPref && cs[2] == Own && cs[3] == AsPathLength;
    assert cs[4] == OriginCode && cs[5] == Med && cs[6] == External && cs[7] == IgpCost;
    hide MedCounts, ComparesMed;
  }

  // ---------- what is selected ----------

  /** BGP and aggregate routes compete, OSPF routes do, and so do all the others. */
  predicate Compete(a: Attrs, b: Attrs) {
    && ((a.kind == Bgp || a.kind == Aggregate) <==> (b.kind == Bgp || b.kind == Aggregate))
    && (a.kind == Ospf <==> b.kind == Ospf)
  }

  /** The device keeps the second route from being selected where the first one is. */
  predicate Displaces(d: Device, receiver: string, a: Attrs, b: Attrs) {
    && d.valid(a) && Compete(a, b)
    && (d.neverEquivalent ||
        if a.kind == Ospf then a.ospfType != b.ospfType || a.ospfMetric != b.ospfMetric
        else exists c <- Criteria(a, b) :: TellsApart(d, receiver, c, a, b))
  }

  /** A route is selected exactly when it is valid and live and no live route ahead of it displaces it. */
  lemma ChosenExactly(d: Device, receiver: string, routes: seq<RibEntry>, i: nat, ctx: Context)
    requires CleanRoutes(routes) && i < |routes|
    ensures
      var r := SelectAt(BehaviorOf(d, receiver), routes);
      IsSelected(r[i], ctx) <==>
        && d.valid(r[i].attrs)
        && Live(r[i], ctx)
        && !exists j :: 0 <= j < i && Displaces(d, receiver, r[j].attrs, r[i].attrs) && Live(r[j], ctx)
  {
    var b := BehaviorOf(d, receiver);
    var s, r := Arranged(b, routes), SelectAt(b, routes);
    ArrangedPermutes(b, routes);
    assert forall j :: 0 <= j < |s| ==> s[j] in routes;
    SelectedExactly(b, s, i, ctx);
    forall j | 0 <= j < i
      ensures Beats(b, s, j, i) <==> Displaces(d, receiver, r[j].attrs, r[i].attrs)
    {
      RivalExactly(d, receiver, s[j], s[i]);
    }
    hide Beats, Displaces, Arranged, SelectedCond;
  }

  lemma RivalExactly(d: Device, receiver: string, x: RibEntry, y: RibEntry)
    ensures Rival(BehaviorOf(d, receiver), x, y) <==> Displaces(d, receiver, x.attrs, y.attrs)
  {
    EquivalentExactly(d, receiver, x.attrs, y.attrs);
    hide Equivalent, TellsApart, Less;
  }

  /**
   Where the decision orders the routes, a valid live route that comes before every live route that
   could displace it is selected.
   */
  lemma BestIsSelected(d: Device, receiver: string, routes: seq<RibEntry>, k: nat, ctx: Context)
    requires CleanRoutes(routes) && Sorting.WeakOn(routes, Rank(BehaviorOf(d, receiver))) && k < |routes|
    requires
      var r := SelectAt(BehaviorOf(d, receiver), routes);
      && d.valid(r[k].attrs) && Live(r[k], ctx)
      && forall j :: 0 <= j < |r| && Displaces(d, receiver, r[j].attrs, r[k].attrs) && Live(r[j], ctx) ==>
          Less(d.options, d.ipLess, receiver, r[k].attrs, r[j].attrs, d.reverse)
    ensures IsSelected(SelectAt(BehaviorOf(d, receiver), routes)[k], ctx)
  {
    var b := BehaviorOf(d, receiver);
    var s, r := Arranged(b, routes), SelectAt(b, routes);
    ChosenExactly(d, receiver, routes, k, ctx);
    Sorting.SortSortsOn(routes, Rank(b));
    forall j | 0 <= j < k
      ensures !Less(d.options, d.ipLess, receiver, r[k].attrs, r[j].attrs, d.reverse)
    {
      assert !Rank(b)(s[k], s[j]);
      assert r[j].attrs == s[j].attrs && r[k].attrs == s[k].attrs;
    }
    hide Less, Displaces, Sorting.WeakOn, SelectedCond;
  }
}
