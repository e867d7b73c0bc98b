/** Long lists of routes: when the order, and with it selection, depends on the sort in the library. */
module Ranking {
  import opened Decision
  import opened Rib
  import opened Stability
  import Sorting
  import Text

  // ---------- selection that no sort can upset ----------

  /** Selecting again changes nothing when long lists are sorted this way. */
  ghost predicate StableUnder(b: Behavior, arrange: seq<RibEntry> -> seq<RibEntry>, routes: seq<RibEntry>) {
    var c := b.(arrange := arrange);
    SelectAt(c, SelectAt(c, routes)) == SelectAt(c, routes)
  }

  function Reverse(s: seq<RibEntry>): (r: seq<RibEntry>)
    ensures |r| == |s| && forall i :: 0 <= i < |s| ==> r[i] == s[|s| - 1 - i]
  {
    if s == [] then [] else Reverse(s[1..]) + [s[0]]
  }

  lemma {:induction false} ReversePermutes(s: seq<RibEntry>)
    ensures multiset(Reverse(s)) == multiset(s)
  {
    if s != [] {
      ReversePermutes(s[1..]);
      assert s == [s[0]] + s[1..];
    }
  }

  /** A sort that turns a list round first, and leaves it so when there is no order to restore. */
  function Contrary(b: Behavior): seq<RibEntry> -> seq<RibEntry> {
    (s: seq<RibEntry>) => if Sorting.WeakOn(s, Rank(b)) then Sorting.Sort(Reverse(s), Rank(b)) else Reverse(s)
  }

  lemma ContraryAdmissible(b: Behavior, s: seq<RibEntry>)
    ensures Admissible(b, s, Contrary(b)(s))
  {
    ReversePermutes(s);
    if Sorting.WeakOn(s, Rank(b)) {
      Sorting.SortPermutes(Reverse(s), Rank(b));
      Sorting.WeakPermutes(s, Reverse(s), Rank(b));
      Sorting.SortSortsOn(Reverse(s), Rank(b));
      assert Sorting.Sorted(Contrary(b)(s), Rank(b));
    }
  }

  lemma ContraryArranges(b: Behavior, s: seq<RibEntry>)
    requires |s| > SHORT
    ensures Arranged(b.(arrange := Contrary(b)), s) == Contrary(b)(s)
  {
    var c := b.(arrange := Contrary(b));
    ContraryAdmissible(b, s);
    SameRank(b, c);
    assert Rank(c) == Rank(b);
  }

  lemma SameRank(b: Behavior, c: Behavior)
    requires b.less == c.less
    ensures Rank(b) == Rank(c)
  {
  }

  /** Where the decision does not rank the routes, such a sort upsets any selection. */
  lemma ContraryUpsets(b: Behavior, routes: seq<RibEntry>)
    requires |routes| > 12 && DistinctRoutes(routes) && !Ranks(b, routes)
    ensures !StableUnder(b, Contrary(b), routes)
  {
    var c := b.(arrange := Contrary(b));
    var r := SelectAt(c, routes);
    SelectBares(c, routes);
    DistinctPermutes(routes, r);
    hide Arranged;
    if SelectAt(c, r) == r {
      ArrangedInPlace(c, r);
      ContraryArranges(b, r);
      if Ranks(b, r) {
        SortableBares(b, r, routes);
        assert false;
      }
      DistinctBares(r);
      hide SelectAt, DistinctRoutes, Bares;
      ContraryMoves(b, r);
    }
  }

  lemma ContraryMoves(b: Behavior, r: seq<RibEntry>)
    requires |r| > 1 && Sorting.NoDuplicates(r) && !Ranks(b, r)
    ensures Contrary(b)(r) != r
  {
    if Sorting.WeakOn(r, Rank(b)) {
      var p, q := TiedPlaces(b, r);
      TiesTurn(b, r, p, q);
    } else {
      assert Reverse(r)[0] == r[|r| - 1];
    }
  }

  lemma TiedPlaces(b: Behavior, r: seq<RibEntry>) returns (p: nat, q: nat)
    requires Sorting.WeakOn(r, Rank(b)) && !Ranks(b, r)
    ensures p < q < |r| && !Rank(b)(r[p], r[q]) && !Rank(b)(r[q], r[p])
  {
    hide Sorting.WeakOn;
    p, q :| 0 <= p < |r| && 0 <= q < |r| && p != q && !Rank(b)(r[p], r[q]) && !Rank(b)(r[q], r[p]);
    if q < p {
      p, q := q, p;
    }
  }

  /** Tied routes come out in the order they went in, so turning the list round first turns them round. */
  lemma TiesTurn(b: Behavior, r: seq<RibEntry>, p: nat, q: nat)
    requires Sorting.NoDuplicates(r) && p < q < |r| && !Rank(b)(r[p], r[q])
    ensures Sorting.Sort(Reverse(r), Rank(b)) != r
  {
    var k, l := Sorting.SortKeepsOrder(Reverse(r), Rank(b), |r| - 1 - q, |r| - 1 - p);
    TurnedRound(r, Sorting.Sort(Reverse(r), Rank(b)), p, q, k, l);
  }

  lemma TurnedRound(r: seq<RibEntry>, v: seq<RibEntry>, p: nat, q: nat, k: nat, l: nat)
    requires Sorting.NoDuplicates(r) && p < q < |r| && k < l < |v| && v[k] == r[q] && v[l] == r[p]
    ensures v != r
  {
  }

  /** A ranking leaves the sort no choice. */
  lemma RankedStable(b: Behavior, arrange: seq<RibEntry> -> seq<RibEntry>, routes: seq<RibEntry>)
    requires Ranks(b, routes)
    ensures StableUnder(b, arrange, routes)
  {
    var c := b.(arrange := arrange);
    SameRank(b, c);
    assert Ranks(c, routes);
    assert Sorting.AsymmetricOn(routes, Rank(c));
    SelectAgain(c, routes);
  }

  /**
   Of more than twelve routes: selecting again changes nothing, whatever the library makes of
   long lists, exactly when the decision ranks them.
   */
  lemma LongStableExactly(b: Behavior, routes: seq<RibEntry>)
    requires |routes| > 12 && DistinctRoutes(routes)
    ensures (forall arrange :: StableUnder(b, arrange, routes)) <==> Ranks(b, routes)
  {
    if Ranks(b, routes) {
      forall arrange
        ensures StableUnder(b, arrange, routes)
      {
        RankedStable(b, arrange, routes);
      }
    } else {
      ContraryUpsets(b, routes);
    }
  }

  // ---------- when the BGP decision ranks routes ----------

  /** MED is compared between all the routes or between no two of them. */
  ghost predicate MedUniform(o: Options, s: seq<RibEntry>) {
    || (forall i, j :: 0 <= i < |s| && 0 <= j < |s| ==> ComparesMed(o, s[i].attrs, s[j].attrs))
    || (forall i, j :: 0 <= i < |s| && 0 <= j < |s| && i != j ==> !ComparesMed(o, s[i].attrs, s[j].attrs))
  }

  /** Either no route has an originator, or all have one and their addresses are in order. */
  ghost predicate IdsOrdered(ipLess: AddressOrder, s: seq<RibEntry>) {
    || (forall i :: 0 <= i < |s| ==> s[i].attrs.originatorId == "")
    || ((forall i :: 0 <= i < |s| ==> s[i].attrs.originatorId != "")
      && IdOrder(ipLess, set e | e in s :: e.attrs.originatorId))
  }

  ghost predicate IdOrder(ipLess: AddressOrder, ids: set<string>) {
    && (forall x, y :: x in ids && y in ids && x != y ==> ipLess(x, y) || ipLess(y, x))
    && (forall x, y, z :: x in ids && y in ids && z in ids && ipLess(x, y) && ipLess(y, z) ==> ipLess(x, z))
  }

  function PathText(a: Attrs): string {
    Text.Join(a.pathNodes, ",")
  }

  ghost predicate PathsDiffer(s: seq<RibEntry>) {
    forall i, j :: 0 <= i < |s| && 0 <= j < |s| && i != j ==> PathText(s[i].attrs) != PathText(s[j].attrs)
  }

  ghost predicate AllOspf(s: seq<RibEntry>) {
    forall i :: 0 <= i < |s| ==> s[i].attrs.kind.Ospf?
  }

  /** Conditions under which the decision ranks the routes. */
  ghost predicate Rankworthy(d: Device, receiver: string, s: seq<RibEntry>) {
    && PathsDiffer(s)
    && (AllOspf(s) || (NoOspf(s) && NoTwins(receiver, s) && MedUniform(d.options, s) && IdsOrdered(d.ipLess, s)))
  }

  /** What the comparison of originators needs of the routes it is made between. */
  ghost predicate IdsFit(ipLess: AddressOrder, ids: set<string>) {
    (forall x :: x in ids ==> x == "") || ((forall x :: x in ids ==> x != "") && IdOrder(ipLess, ids))
  }

  lemma TieTransitive(a: Attrs, b: Attrs, c: Attrs, reverse: bool)
    ensures PathTie(a, b, reverse) && PathTie(b, c, reverse) ==> PathTie(a, c, reverse)
  {
    var x, y, z := PathText(a), PathText(b), PathText(c);
    if Text.Less(x, y) && Text.Less(y, z) {
      Text.LessTransitive(x, y, z);
    }
    if Text.Less(z, y) && Text.Less(y, x) {
      Text.LessTransitive(z, y, x);
    }
  }

  lemma NamesTransitive(x: string, y: string, z: string)
    ensures Text.Less(x, y) && Text.Less(y, z) ==> Text.Less(x, z)
  {
    if Text.Less(x, y) && Text.Less(y, z) {
      Text.LessTransitive(x, y, z);
    }
  }

  lemma RestTransitive(o: Options, ipLess: AddressOrder, a: Attrs, b: Attrs, c: Attrs, reverse: bool)
    requires ComparesMed(o, a, b) == ComparesMed(o, b, c) == ComparesMed(o, a, c)
    requires OneWay(ipLess) && IdsFit(ipLess, {a.originatorId, b.originatorId, c.originatorId})
    requires Rest(o, ipLess, a, b, reverse) && Rest(o, ipLess, b, c, reverse)
    ensures Rest(o, ipLess, a, c, reverse)
  {
    TieTransitive(a, b, c, reverse);
    NamesTransitive(a.fromNode, b.fromNode, c.fromNode);
    NamesTransitive(c.fromNode, b.fromNode, a.fromNode);
    if Text.Less(a.fromNode, b.fromNode) {
      Text.LessAsymmetric(a.fromNode, b.fromNode);
    }
    if Text.Less(b.fromNode, a.fromNode) {
      Text.LessAsymmetric(b.fromNode, a.fromNode);
    }
    hide PathTie, Text.Less, ComparesMed;
  }

  lemma RestTotal(o: Options, ipLess: AddressOrder, a: Attrs, b: Attrs, reverse: bool)
    requires ComparesMed(o, a, b) == ComparesMed(o, b, a)
    requires IdsFit(ipLess, {a.originatorId, b.originatorId}) && PathText(a) != PathText(b)
    ensures Rest(o, ipLess, a, b, reverse) || Rest(o, ipLess, b, a, reverse)
  {
    Text.LessTotal(PathText(a), PathText(b));
    Text.LessTotal(a.fromNode, b.fromNode);
    assert PathTie(a, b, reverse) || PathTie(b, a, reverse);
    hide PathTie, Text.Less, ComparesMed;
  }

  lemma OspfRanks(a: Attrs, b: Attrs, c: Attrs, reverse: bool)
    ensures OspfLess(a, b, reverse) && OspfLess(b, c, reverse) ==> OspfLess(a, c, reverse)
    ensures !(OspfLess(a, b, reverse) && OspfLess(b, a, reverse))
    ensures PathText(a) != PathText(b) ==> OspfLess(a, b, reverse) || OspfLess(b, a, reverse)
  {
    TieTransitive(a, b, c, reverse);
    TieOneWay(a, b, reverse);
    Text.LessTotal(PathText(a), PathText(b));
    assert PathText(a) != PathText(b) ==> PathTie(a, b, reverse) || PathTie(b, a, reverse);
    hide PathTie, OspfRouteTypeRank, PathText;
  }

  lemma LessTransitive(d: Device, receiver: string, a: Attrs, b: Attrs, c: Attrs)
    requires !a.kind.Ospf? && !b.kind.Ospf? && !c.kind.Ospf?
    requires !LocalTwins(receiver, a, b) && !LocalTwins(receiver, b, c) && !LocalTwins(receiver, a, c)
    requires ComparesMed(d.options, a, b) == ComparesMed(d.options, b, c) == ComparesMed(d.options, a, c)
    requires OneWay(d.ipLess) && IdsFit(d.ipLess, {a.originatorId, b.originatorId, c.originatorId})
    requires Less(d.options, d.ipLess, receiver, a, b, d.reverse)
    requires Less(d.options, d.ipLess, receiver, b, c, d.reverse)
    ensures Less(d.options, d.ipLess, receiver, a, c, d.reverse)
  {
    if Rest(d.options, d.ipLess, a, b, d.reverse) && Rest(d.options, d.ipLess, b, c, d.reverse) {
      RestTransitive(d.options, d.ipLess, a, b, c, d.reverse);
    }
    hide Rest, ComparesMed, OneWay, IdsFit;
  }

  lemma LessTotal(d: Device, receiver: string, a: Attrs, b: Attrs)
    requires !a.kind.Ospf? && !b.kind.Ospf? && ComparesMed(d.options, a, b) == ComparesMed(d.options, b, a)
    requires IdsFit(d.ipLess, {a.originatorId, b.originatorId}) && PathText(a) != PathText(b)
    ensures Less(d.options, d.ipLess, receiver, a, b, d.reverse) || Less(d.options, d.ipLess, receiver, b, a, d.reverse)
  {
    RestTotal(d.options, d.ipLess, a, b, d.reverse);
    hide Rest, ComparesMed, IdsFit;
  }

  lemma IdsFitSome(ipLess: AddressOrder, s: seq<RibEntry>, i: nat, j: nat, k: nat)
    requires IdsOrdered(ipLess, s) && i < |s| && j < |s| && k < |s|
    ensures IdsFit(ipLess, {s[i].attrs.originatorId, s[j].attrs.originatorId, s[k].attrs.originatorId})
    ensures IdsFit(ipLess, {s[i].attrs.originatorId, s[j].attrs.originatorId})
  {
    assert s[i] in s && s[j] in s && s[k] in s;
  }

  lemma MedFits(o: Options, s: seq<RibEntry>, i: nat, j: nat, k: nat)
    requires MedUniform(o, s) && i < |s| && j < |s| && k < |s| && i != j && j != k && i != k
    ensures ComparesMed(o, s[i].attrs, s[j].attrs) == ComparesMed(o, s[j].attrs, s[k].attrs)
        == ComparesMed(o, s[i].attrs, s[k].attrs)
  {
    hide ComparesMed;
  }

  /** The decision ranks routes of these kinds, so any sort leaves them in one and the same order. */
  lemma BgpRanks(d: Device, receiver: string, s: seq<RibEntry>)
    requires OneWay(d.ipLess) && Rankworthy(d, receiver, s)
    ensures Ranks(BehaviorOf(d, receiver), s)
  {
    var less := Rank(BehaviorOf(d, receiver));
    hide LocalTwins, Less, OspfLess, ComparesMed, MedUniform, IdsOrdered, IdsFit, PathText, OneWay;
    if AllOspf(s) {
      OspfOrders(d, receiver, s);
    } else {
      RankableExactly(d, receiver, s);
      forall i, j | 0 <= i < |s| && 0 <= j < |s| && i != j
        ensures less(s[i], s[j]) || less(s[j], s[i])
      {
        IdsFitSome(d.ipLess, s, i, j, j);
        MedSymmetric(d.options, s[i].attrs, s[j].attrs);
        LessTotal(d, receiver, s[i].attrs, s[j].attrs);
      }
      forall i, j, k | 0 <= i < |s| && 0 <= j < |s| && 0 <= k < |s| && i != j && j != k && i != k
        ensures less(s[i], s[j]) && less(s[j], s[k]) ==> less(s[i], s[k])
      {
        if less(s[i], s[j]) && less(s[j], s[k]) {
          BgpOrders(d, receiver, s, i, j, k);
        }
      }
    }
    hide BehaviorOf;
    Sorting.StrictIsRanking(s, less);
  }

  lemma MedSymmetric(o: Options, a: Attrs, b: Attrs)
    ensures ComparesMed(o, a, b) == ComparesMed(o, b, a)
  {
  }

  lemma TwinsSymmetric(receiver: string, a: Attrs, b: Attrs)
    ensures LocalTwins(receiver, a, b) == LocalTwins(receiver, b, a)
  {
  }

  lemma BgpOrders(d: Device, receiver: string, s: seq<RibEntry>, i: nat, j: nat, k: nat)
    requires OneWay(d.ipLess) && NoOspf(s) && NoTwins(receiver, s) && MedUniform(d.options, s)
    requires IdsOrdered(d.ipLess, s)
    requires i < |s| && j < |s| && k < |s| && i != j && j != k && i != k
    requires Rank(BehaviorOf(d, receiver))(s[i], s[j]) && Rank(BehaviorOf(d, receiver))(s[j], s[k])
    ensures Rank(BehaviorOf(d, receiver))(s[i], s[k])
  {
    hide LocalTwins, Less, ComparesMed, MedUniform, IdsOrdered, IdsFit, OneWay;
    var a, b, c := s[i].attrs, s[j].attrs, s[k].attrs;
    IdsFitSome(d.ipLess, s, i, j, k);
    MedFits(d.options, s, i, j, k);
    TwinsSymmetric(receiver, a, b);
    TwinsSymmetric(receiver, b, c);
    TwinsSymmetric(receiver, a, c);
    assert !LocalTwins(receiver, a, b) && !LocalTwins(receiver, b, c) && !LocalTwins(receiver, a, c);
    LessTransitive(d, receiver, a, b, c);
  }

  lemma OspfOrders(d: Device, receiver: string, s: seq<RibEntry>)
    requires AllOspf(s) && PathsDiffer(s)
    ensures
      var less := Rank(BehaviorOf(d, receiver));
      Sorting.TotalOn(s, less) && Sorting.AsymmetricOn(s, less) && Sorting.TransitiveOn(s, less)
  {
    var less := Rank(BehaviorOf(d, receiver));
    forall i, j | 0 <= i < |s| && 0 <= j < |s|
      ensures less(s[i], s[j]) == OspfLess(s[i].attrs, s[j].attrs, d.reverse)
    {
    }
    hide OspfLess, PathText, BehaviorOf;
    forall i, j, k | 0 <= i < |s| && 0 <= j < |s| && 0 <= k < |s|
      ensures less(s[i], s[j]) && less(s[j], s[k]) ==> less(s[i], s[k])
      ensures !(less(s[i], s[j]) && less(s[j], s[i]))
      ensures i != j ==> less(s[i], s[j]) || less(s[j], s[i])
    {
      OspfRanks(s[i].attrs, s[j].attrs, s[k].attrs, d.reverse);
    }
  }

  // ---------- why MED must be uniform ----------

  /** Three routes that differ only in neighbouring AS, MED and path. */
  ghost predicate TiedButMed(receiver: string, a: Attrs, b: Attrs) {
    && !a.kind.Ospf? && !b.kind.Ospf? && a.originNode != receiver && b.originNode != receiver
    && a.weight == b.weight && a.localPref == b.localPref && |a.asPath| == |b.asPath| && a.originRank == b.originRank
    && a.learnedIbgp == b.learnedIbgp && a.igpCost == b.igpCost && a.clusterLength == b.clusterLength
    && a.originatorId == "" && b.originatorId == "" && a.fromNode == b.fromNode && |a.pathLinks| == |b.pathLinks|
  }

  /**
   MED compared within one neighbouring AS only: of three routes in path order, the last beats the
   first on MED, so each is preferred to the next, round in a circle. No two are local twins.
   */
  lemma MedCycle(d: Device, receiver: string, a: Attrs, b: Attrs, c: Attrs)
    requires d.options.deterministicMed || !d.options.alwaysCompareMed
    requires TiedButMed(receiver, a, b) && TiedButMed(receiver, b, c) && TiedButMed(receiver, c, a)
    requires NeighboringAs(a.asPath) == NeighboringAs(c.asPath) != NeighboringAs(b.asPath) && c.med < a.med
    requires PathTie(a, b, d.reverse) && PathTie(b, c, d.reverse)
    ensures Less(d.options, d.ipLess, receiver, a, b, d.reverse)
    ensures Less(d.options, d.ipLess, receiver, b, c, d.reverse)
    ensures Less(d.options, d.ipLess, receiver, c, a, d.reverse)
    ensures !LocalTwins(receiver, a, b) && !LocalTwins(receiver, b, c) && !LocalTwins(receiver, a, c)
  {
    hide PathTie;
  }

  /**
   A list with such a circle is not ranked: if it is long, some sort makes a second selection differ
   from the first.
   */
  lemma CycleUpsets(b: Behavior, routes: seq<RibEntry>, i: nat, j: nat, k: nat)
    requires DistinctRoutes(routes) && i < |routes| && j < |routes| && k < |routes| && i != j && j != k && i != k
    requires Rank(b)(routes[i], routes[j]) && Rank(b)(routes[j], routes[k]) && Rank(b)(routes[k], routes[i])
    ensures !Ranks(b, routes)
    ensures |routes| > 12 ==> exists arrange :: !StableUnder(b, arrange, routes)
  {
    if Ranks(b, routes) {
      Sorting.NoCircle(routes, Rank(b), i, j, k);
      assert false;
    }
    if |routes| > 12 {
      ContraryUpsets(b, routes);
    }
  }
}
