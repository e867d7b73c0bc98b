/** What selecting a second time does: local twins change places, nothing else moves, and when that matters. */
module Stability {
  import opened Conditions
  import opened ControlPlane
  import opened Decision
  import opened Failure
  import opened NormalForms
  import opened Rib
  import Sorting

  // ---------- selection by order alone ----------

  ghost predicate Precedes(s: seq<RibEntry>, x: RibEntry, y: RibEntry) {
    exists i, j :: 0 <= i < j < |s| && s[i] == x && s[j] == y
  }

  ghost predicate Beaten(b: Behavior, s: seq<RibEntry>, e: RibEntry, ctx: Context) {
    exists x :: Precedes(s, x, e) && Rival(b, x, e) && Live(x, ctx)
  }

  ghost predicate Picked(b: Behavior, s: seq<RibEntry>, e: RibEntry, ctx: Context) {
    b.valid(e.attrs) && Live(e, ctx) && !Beaten(b, s, e, ctx)
  }

  lemma PickedExactly(b: Behavior, s: seq<RibEntry>, i: nat, ctx: Context)
    requires i < |s| && CleanRoutes(s) && Sorting.NoDuplicates(s)
    ensures Eval(SelectedCond(b, s, i), ctx) <==> Picked(b, s, s[i], ctx)
  {
    SelectedExactly(b, s, i, ctx);
    hide SelectedCond, Eval, Live;
    if j :| 0 <= j < i && Beats(b, s, j, i) && Live(s[j], ctx) {
      assert Precedes(s, s[j], s[i]) && Rival(b, s[j], s[i]);
    }
    if x :| Precedes(s, x, s[i]) && Rival(b, x, s[i]) && Live(x, ctx) {
      var j, k :| 0 <= j < k < |s| && s[j] == x && s[k] == s[i];
      assert k == i && Beats(b, s, j, i);
    }
  }

  /** The same routes are selected, each known by everything but its conditions. */
  ghost predicate SameSelection(r: seq<RibEntry>, s: seq<RibEntry>, ctx: Context) {
    forall e, f :: e in r && f in s && Bare(e) == Bare(f) ==> (IsSelected(e, ctx) <==> IsSelected(f, ctx))
  }

  /** A second selection is decided by the order alone. */
  lemma SelectionByOrder(b: Behavior, routes: seq<RibEntry>, ctx: Context)
    requires CleanRoutes(routes) && DistinctRoutes(routes)
    ensures
      var r := SelectAt(b, routes);
      var u := Arranged(b, r);
      && DistinctRoutes(r) && DistinctRoutes(u) && (forall e :: e in r <==> e in u)
      && (SameSelection(r, SelectAt(b, r), ctx) <==> forall e :: e in r ==>
        (Picked(b, r, e, ctx) <==> Picked(b, u, e, ctx)))
  {
    var s, r := Arranged(b, routes), SelectAt(b, routes);
    var u := Arranged(b, r);
    SelectBares(b, routes);
    DistinctPermutes(routes, r);
    ArrangedPermutes(b, r);
    BaresPermute(u, r);
    DistinctPermutes(r, u);
    SelectTwice(b, s);
    SelectKeepsClean(b, routes);
    SelectedOf(b, r, ctx);
    assert CleanRoutes(u) by {
      assert forall i :: 0 <= i < |u| ==> u[i] in r;
    }
    SelectedOf(b, u, ctx);
    SelectKeepsBares(b, u);
    hide SelectAt, Arranged, Select, Picked, IsSelected;
    SelectionMatches(b, r, u, Select(b, u), ctx);
  }

  lemma SelectKeepsBares(b: Behavior, u: seq<RibEntry>)
    ensures |Select(b, u)| == |u| && forall i :: 0 <= i < |u| ==> Bare(Select(b, u)[i]) == Bare(u[i])
  {
  }

  lemma SelectedOf(b: Behavior, s: seq<RibEntry>, ctx: Context)
    requires CleanRoutes(s) && DistinctRoutes(s)
    ensures forall i :: 0 <= i < |s| ==> (IsSelected(Select(b, s)[i], ctx) <==> Picked(b, s, s[i], ctx))
  {
    DistinctBares(s);
    forall i | 0 <= i < |s|
      ensures IsSelected(Select(b, s)[i], ctx) <==> Picked(b, s, s[i], ctx)
    {
      PickedExactly(b, s, i, ctx);
    }
  }

  lemma SelectionMatches(b: Behavior, r: seq<RibEntry>, u: seq<RibEntry>, v: seq<RibEntry>, ctx: Context)
    requires DistinctRoutes(r) && (forall e :: e in r <==> e in u)
    requires |v| == |u| && forall i :: 0 <= i < |u| ==> Bare(v[i]) == Bare(u[i])
    requires forall i :: 0 <= i < |r| ==> (IsSelected(r[i], ctx) <==> Picked(b, r, r[i], ctx))
    requires forall i :: 0 <= i < |u| ==> (IsSelected(v[i], ctx) <==> Picked(b, u, u[i], ctx))
    ensures SameSelection(r, v, ctx) <==> forall e :: e in r ==> (Picked(b, r, e, ctx) <==> Picked(b, u, e, ctx))
  {
    hide Picked, IsSelected, Bare;
    forall e, f | e in r && f in v && Bare(e) == Bare(f)
      ensures IsSelected(e, ctx) <==> Picked(b, r, e, ctx)
      ensures IsSelected(f, ctx) <==> Picked(b, u, e, ctx)
    {
      var i :| 0 <= i < |r| && r[i] == e;
      var j :| 0 <= j < |v| && v[j] == f;
      assert u[j] in r;
      var k :| 0 <= k < |r| && r[k] == u[j];
      assert k == i;
    }
    if SameSelection(r, v, ctx) {
      forall e | e in r
        ensures Picked(b, r, e, ctx) <==> Picked(b, u, e, ctx)
      {
        var j :| 0 <= j < |u| && u[j] == e;
        assert v[j] in v && Bare(e) == Bare(v[j]);
      }
    }
  }

  /**
   For any order of preference: the selection changes between two orders of the same routes
   exactly when a route selected in one of them comes after a live rival in the other.
   */
  lemma SelectionChangesExactly(b: Behavior, s: seq<RibEntry>, t: seq<RibEntry>, ctx: Context)
    requires Sorting.NoDuplicates(s) && Sorting.NoDuplicates(t) && forall e :: e in s <==> e in t
    ensures (forall e :: e in s ==> (Picked(b, s, e, ctx) <==> Picked(b, t, e, ctx))) <==>
      !exists x, y :: Precedes(s, x, y) && Precedes(t, y, x) && Live(x, ctx) && Live(y, ctx)
        && ((Picked(b, s, x, ctx) && Rival(b, y, x)) || (Picked(b, t, y, ctx) && Rival(b, x, y)))
  {
    hide Live, Rival;
    forall e | e in s && Picked(b, s, e, ctx) && !Picked(b, t, e, ctx)
      ensures exists y :: Precedes(s, e, y) && Precedes(t, y, e) && Live(y, ctx) && Rival(b, y, e)
    {
      var y :| Precedes(t, y, e) && Rival(b, y, e) && Live(y, ctx);
      OneOrOther(s, t, y, e);
    }
    forall e | e in s && Picked(b, t, e, ctx) && !Picked(b, s, e, ctx)
      ensures exists x :: Precedes(t, e, x) && Precedes(s, x, e) && Live(x, ctx) && Rival(b, x, e)
    {
      var x :| Precedes(s, x, e) && Rival(b, x, e) && Live(x, ctx);
      OneOrOther(t, s, x, e);
    }
  }

  lemma OneOrOther(s: seq<RibEntry>, t: seq<RibEntry>, x: RibEntry, y: RibEntry)
    requires Sorting.NoDuplicates(s) && Sorting.NoDuplicates(t) && (forall e :: e in s <==> e in t) && Precedes(t, x, y)
    ensures x in s && y in s && (Precedes(s, y, x) <==> !Precedes(s, x, y))
  {
    assert x in t && y in t;
    var i :| 0 <= i < |s| && s[i] == x;
    var j :| 0 <= j < |s| && s[j] == y;
    assert i != j;
    assert if i < j then Precedes(s, x, y) else Precedes(s, y, x);
  }

  // ---------- the order of the decision ----------

  /** a's weight, local preference and being local put it in c's class or a better one. */
  predicate NotBelow(receiver: string, a: Attrs, c: Attrs) {
    || Outweighs(a, c)
    || (a.weight == c.weight && a.localPref == c.localPref && (a.originNode == receiver || c.originNode != receiver))
  }

  predicate Outweighs(a: Attrs, c: Attrs) {
    a.weight > c.weight || (a.weight == c.weight && a.localPref > c.localPref)
  }

  predicate OneClass(receiver: string, a: Attrs, c: Attrs) {
    NotBelow(receiver, a, c) && NotBelow(receiver, c, a)
  }

  /** What reordering depends on: classes first, and in the class of local routes each before the other. */
  ghost predicate LocalFirst(b: Behavior, receiver: string) {
    && (forall a: Attrs, c: Attrs :: !a.kind.Ospf? && !c.kind.Ospf? ==> ClassesFirst(b, receiver, a, c))
    && (forall a: Attrs, c: Attrs :: b.equivalent(a, c) ==> b.equivalent(c, a))
  }

  predicate ClassesFirst(b: Behavior, receiver: string, a: Attrs, c: Attrs) {
    && (!b.less(c, a) ==> NotBelow(receiver, a, c))
    && (b.less(c, a) ==> NotBelow(receiver, c, a))
    && (b.less(a, c) && b.less(c, a) <==> LocalTwins(receiver, a, c))
    && (b.equivalent(a, c) ==> OneClass(receiver, a, c))
  }

  lemma BgpLocalFirst(d: Device, receiver: string)
    requires OneWay(d.ipLess)
    ensures LocalFirst(BehaviorOf(d, receiver), receiver)
  {
    var b := BehaviorOf(d, receiver);
    forall a: Attrs, c: Attrs | !a.kind.Ospf? && !c.kind.Ospf?
      ensures ClassesFirst(b, receiver, a, c)
    {
      LessBothWays(d.options, d.ipLess, receiver, a, c, d.reverse);
      hide Decision.Rest;
    }
    hide ClassesFirst, Less;
  }

  ghost predicate NoOspf(s: seq<RibEntry>) {
    forall i :: 0 <= i < |s| ==> !s[i].attrs.kind.Ospf?
  }

  ghost predicate Twins(receiver: string, x: RibEntry, y: RibEntry) {
    LocalTwins(receiver, x.attrs, y.attrs)
  }

  ghost predicate Descending(receiver: string, s: seq<RibEntry>) {
    forall p, q :: 0 <= p <= q < |s| ==> NotBelow(receiver, s[p].attrs, s[q].attrs)
  }

  lemma Descends(b: Behavior, receiver: string, t: seq<RibEntry>)
    requires LocalFirst(b, receiver) && NoOspf(t) && Sorting.InversionsMutual(t, Rank(b))
    ensures Descending(receiver, t)
  {
    forall p, q | 0 <= p <= q < |t|
      ensures NotBelow(receiver, t[p].attrs, t[q].attrs)
    {
      DescendsTo(b, receiver, t, p, q);
    }
  }

  lemma {:induction false} DescendsTo(b: Behavior, receiver: string, t: seq<RibEntry>, p: nat, q: nat)
    requires LocalFirst(b, receiver) && NoOspf(t) && Sorting.InversionsMutual(t, Rank(b)) && p <= q < |t|
    ensures NotBelow(receiver, t[p].attrs, t[q].attrs)
    decreases q
  {
    if p < q {
      DescendsTo(b, receiver, t, p, q - 1);
      assert ClassesFirst(b, receiver, t[q - 1].attrs, t[q].attrs);
      assert Rank(b)(t[q], t[q - 1]) ==> Rank(b)(t[q - 1], t[q]);
    }
  }

  /** In an order without inversions there are no local twins. */
  lemma OrderedNoTwins(b: Behavior, receiver: string, t: seq<RibEntry>, i: nat, j: nat)
    requires LocalFirst(b, receiver) && NoOspf(t) && Sorting.NoInversion(t, Rank(b)) && i < j < |t|
    ensures !Twins(receiver, t[i], t[j])
  {
    Descends(b, receiver, t);
    assert NotBelow(receiver, t[i].attrs, t[j - 1].attrs) && NotBelow(receiver, t[j - 1].attrs, t[j].attrs);
    assert ClassesFirst(b, receiver, t[j - 1].attrs, t[j].attrs);
    assert !Rank(b)(t[j], t[j - 1]);
  }

  /**
   For the decision of any device and settled routes, so for any list of up to twelve: selecting
   a second time changes nothing exactly when no two neighbours of the result are local twins.
   */
  lemma StableWithoutTwinNeighbours(d: Device, receiver: string, routes: seq<RibEntry>)
    requires OneWay(d.ipLess) && DistinctRoutes(routes) && Sortable(BehaviorOf(d, receiver), routes)
    ensures
      var b := BehaviorOf(d, receiver);
      var r := SelectAt(b, routes);
      SelectAt(b, r) == r <==> forall i {:trigger r[i]} :: 0 < i < |r| ==> !Twins(receiver, r[i - 1], r[i])
  {
    var b := BehaviorOf(d, receiver);
    var r := SelectAt(b, routes);
    StableExactly(b, routes);
    hide SelectAt;
    forall i | 0 < i < |r|
      ensures (Rank(b)(r[i - 1], r[i]) && Rank(b)(r[i], r[i - 1])) <==> Twins(receiver, r[i - 1], r[i])
    {
      LessBothWays(d.options, d.ipLess, receiver, r[i - 1].attrs, r[i].attrs, d.reverse);
      hide Less;
    }
    hide Rank, Twins;
  }

  /** An OSPF route can stand between two local twins and keep them where they are. */
  lemma TwinsKeptApart(d: Device, receiver: string, x: RibEntry, z: RibEntry, y: RibEntry)
    requires !x.attrs.kind.Ospf? && z.attrs.kind.Ospf? && y.attrs.kind.Ospf?
    requires x.attrs.weight == z.attrs.weight == y.attrs.weight
    requires x.attrs.localPref == z.attrs.localPref == y.attrs.localPref
    requires x.attrs.originNode == receiver && y.attrs.originNode == receiver && z.attrs.originNode != receiver
    requires OspfLess(z.attrs, y.attrs, d.reverse) && !OspfLess(y.attrs, z.attrs, d.reverse)
    ensures
      var b := BehaviorOf(d, receiver);
      Twins(receiver, x, y) && SelectAt(b, SelectAt(b, [x, z, y])) == SelectAt(b, [x, z, y])
  {
    var b := BehaviorOf(d, receiver);
    var s := [x, z, y];
    assert !Rank(b)(z, x) && !Rank(b)(y, z);
    hide BehaviorOf;
    assert Sorting.NoInversion(s, Rank(b));
    Sorting.SortFixpoint(s, Rank(b));
    SelectNoInversion(b, s);
    Sorting.SortFixpoint(Select(b, s), Rank(b));
    SelectTwice(b, s);
    assert SelectAt(b, s) == Select(b, s);
  }

  /**
   At a prefix with settled routes and no OSPF, selecting a second time changes nothing exactly
   when no two of its routes are local twins.
   */
  lemma StableWithoutTwins(d: Device, receiver: string, routes: seq<RibEntry>)
    requires OneWay(d.ipLess) && DistinctRoutes(routes) && NoOspf(routes) && Sortable(BehaviorOf(d, receiver), routes)
    ensures
      var b := BehaviorOf(d, receiver);
      SelectAt(b, SelectAt(b, routes)) == SelectAt(b, routes) <==>
        forall i, j :: 0 <= i < j < |routes| ==> !Twins(receiver, routes[i], routes[j])
  {
    var b := BehaviorOf(d, receiver);
    RankableExactly(d, receiver, routes);
    BgpLocalFirst(d, receiver);
    hide BehaviorOf, LocalTwins, SelectAt, LocalFirst, Sortable, Arranged;
    if Sorting.AsymmetricOn(routes, Rank(b)) {
      SelectAgain(b, routes);
    } else if SelectAt(b, SelectAt(b, routes)) == SelectAt(b, routes) {
      StableOrdered(b, routes);
      var s := Arranged(b, routes);
      ArrangedPermutes(b, routes);
      assert NoOspf(s) by {
        assert forall i :: 0 <= i < |s| ==> s[i] in s && s[i] in routes;
      }
      forall i, j | 0 <= i < j < |s|
        ensures !LocalTwins(receiver, s[i].attrs, s[j].attrs)
      {
        OrderedNoTwins(b, receiver, s, i, j);
      }
      RankableExactly(d, receiver, s);
      Sorting.AsymmetricPermutes(s, routes, Rank(b));
    }
  }

  lemma StableOrdered(b: Behavior, routes: seq<RibEntry>)
    requires DistinctRoutes(routes) && Sortable(b, routes) && SelectAt(b, SelectAt(b, routes)) == SelectAt(b, routes)
    ensures Sorting.NoInversion(Arranged(b, routes), Rank(b))
  {
    var s, r := Arranged(b, routes), SelectAt(b, routes);
    SelectBares(b, routes);
    DistinctPermutes(routes, r);
    SelectKeepsSortable(b, routes);
    SelectFixpoint(b, r);
    SelectKeepsBares(b, s);
    hide Arranged, Sortable, Select;
    forall i | 0 < i < |s|
      ensures !Rank(b)(s[i], s[i - 1])
    {
      assert !Rank(b)(r[i], r[i - 1]) && Bare(r[i]) == Bare(s[i]) && Bare(r[i - 1]) == Bare(s[i - 1]);
    }
  }

  // ---------- what a second sort does ----------

  /** Pairs of local twins have changed places, all other pairs have not. */
  ghost predicate TwinsReversed(receiver: string, t: seq<RibEntry>, u: seq<RibEntry>) {
    forall i, j :: 0 <= i < j < |t| ==>
      if Twins(receiver, t[i], t[j]) then Precedes(u, t[j], t[i]) else Precedes(u, t[i], t[j])
  }

  ghost predicate LastStays(receiver: string, t: seq<RibEntry>, u: seq<RibEntry>) {
    |u| == |t| && (t != [] && t[|t| - 1].attrs.originNode != receiver ==> u[|t| - 1] == t[|t| - 1])
  }

  lemma {:induction false} SortReverses(b: Behavior, receiver: string, t: seq<RibEntry>)
    requires LocalFirst(b, receiver) && NoOspf(t) && Sorting.InversionsMutual(t, Rank(b))
    ensures
      var u := Sorting.Sort(t, Rank(b));
      TwinsReversed(receiver, t, u) && Descending(receiver, u) && LastStays(receiver, t, u)
  {
    if t != [] {
      var init, x := t[..|t| - 1], t[|t| - 1];
      var u := Sorting.Sort(init, Rank(b));
      assert t == init + [x];
      assert Sorting.InversionsMutual(init, Rank(b)) by {
        assert forall i :: 0 <= i < |init| ==> init[i] == t[i];
      }
      SortReverses(b, receiver, init);
      Sorting.SortMembers(init, Rank(b));
      Descends(b, receiver, t);
      var p := Sorting.InsertPlace(x, u, Rank(b));
      hide Sorting.Sort, Sorting.Insert, TwinsReversed;
      PassesTwins(b, receiver, t, u, p);
      EachNotBelow(receiver, t, u);
      InsertedOrder(receiver, t, u, p);
      InsertedDescends(receiver, x, u, p);
    }
  }

  /** The elements a new one is inserted before are its twins. */
  lemma PassesTwins(b: Behavior, receiver: string, t: seq<RibEntry>, u: seq<RibEntry>, p: nat)
    requires LocalFirst(b, receiver) && NoOspf(t) && Sorting.InversionsMutual(t, Rank(b)) && Descending(receiver, t)
    requires t != [] && (forall e :: e in u <==> e in t[..|t| - 1])
    requires Descending(receiver, u) && LastStays(receiver, t[..|t| - 1], u)
    requires p <= |u| && (forall q :: p <= q < |u| ==> Rank(b)(t[|t| - 1], u[q]))
    requires (p > 0 ==> !Rank(b)(t[|t| - 1], u[p - 1]))
    ensures forall q :: 0 <= q < |u| ==> (p <= q <==> Twins(receiver, u[q], t[|t| - 1]))
    ensures t[|t| - 1].attrs.originNode != receiver ==> p == |u|
  {
    var init, x := t[..|t| - 1], t[|t| - 1];
    forall q | 0 <= q < |u|
      ensures ClassesFirst(b, receiver, u[q].attrs, x.attrs) && ClassesFirst(b, receiver, x.attrs, u[q].attrs)
      ensures NotBelow(receiver, u[q].attrs, x.attrs)
    {
      assert u[q] in u && u[q] in init;
      var i :| 0 <= i < |init| && init[i] == u[q];
      assert t[i] == u[q];
    }
    if x.attrs.originNode != receiver && p < |u| {
      NewcomerStays(b, receiver, t, u);
      assert false;
    }
    forall q | 0 <= q < |u|
      ensures p <= q <==> Twins(receiver, u[q], x)
    {
      if q < p {
        assert NotBelow(receiver, u[q].attrs, u[p - 1].attrs) && !Rank(b)(x, u[p - 1]);
      } else {
        assert Rank(b)(x, u[q]);
      }
    }
  }

  /** A route that is not local stays behind everything before it. */
  lemma NewcomerStays(b: Behavior, receiver: string, t: seq<RibEntry>, u: seq<RibEntry>)
    requires LocalFirst(b, receiver) && NoOspf(t) && Sorting.InversionsMutual(t, Rank(b)) && Descending(receiver, t)
    requires |t| > 1 && (forall e :: e in u <==> e in t[..|t| - 1])
    requires Descending(receiver, u) && LastStays(receiver, t[..|t| - 1], u)
    requires t[|t| - 1].attrs.originNode != receiver
    ensures !Rank(b)(t[|t| - 1], u[|u| - 1])
  {
    var init, x, before, last := t[..|t| - 1], t[|t| - 1], t[|t| - 2], u[|u| - 1];
    assert init[|init| - 1] == before && before in init && last in u && before in u;
    if before.attrs.originNode == receiver {
      var q :| 0 <= q < |u| && u[q] == before;
      var i :| 0 <= i < |init| && init[i] == last;
      assert t[i] == last;
      hide NotBelow, ClassesFirst, Rank;
      SameClassStays(b, receiver, before.attrs, last.attrs, x.attrs);
    } else {
      assert last == before;
      OutOfOrderTwins(b, receiver, t, |t| - 1);
    }
    assert Rank(b)(x, last) == b.less(x.attrs, last.attrs);
  }

  lemma OutOfOrderTwins(b: Behavior, receiver: string, t: seq<RibEntry>, i: nat)
    requires LocalFirst(b, receiver) && NoOspf(t) && Sorting.InversionsMutual(t, Rank(b)) && 0 < i < |t|
    ensures b.less(t[i].attrs, t[i - 1].attrs) ==> Twins(receiver, t[i - 1], t[i])
  {
    assert ClassesFirst(b, receiver, t[i - 1].attrs, t[i].attrs);
    assert Rank(b)(t[i], t[i - 1]) ==> Rank(b)(t[i - 1], t[i]);
  }

  lemma SameClassStays(b: Behavior, receiver: string, before: Attrs, last: Attrs, x: Attrs)
    requires LocalFirst(b, receiver) && !last.kind.Ospf? && !x.kind.Ospf?
    requires before.originNode == receiver && x.originNode != receiver
    requires OneClass(receiver, before, last) && NotBelow(receiver, last, x)
    ensures !b.less(x, last)
  {
    assert ClassesFirst(b, receiver, last, x);
  }

  lemma EachNotBelow(receiver: string, t: seq<RibEntry>, u: seq<RibEntry>)
    requires t != [] && Descending(receiver, t) && forall e :: e in u ==> e in t[..|t| - 1]
    ensures forall q :: 0 <= q < |u| ==> NotBelow(receiver, u[q].attrs, t[|t| - 1].attrs)
  {
    forall q | 0 <= q < |u|
      ensures NotBelow(receiver, u[q].attrs, t[|t| - 1].attrs)
    {
      assert u[q] in u && u[q] in t[..|t| - 1];
      var i :| 0 <= i < |t| - 1 && t[i] == u[q];
    }
  }

  lemma InsertedPrecedes(u: seq<RibEntry>, x: RibEntry, p: nat)
    requires p <= |u|
    ensures
      var v := u[..p] + [x] + u[p..];
      && (forall y, z :: Precedes(u, y, z) ==> Precedes(v, y, z))
      && (forall q :: 0 <= q < p ==> Precedes(v, u[q], x))
      && (forall q :: p <= q < |u| ==> Precedes(v, x, u[q]))
  {
    var v := u[..p] + [x] + u[p..];
    assert v[p] == x;
    assert forall q :: 0 <= q < p ==> v[q] == u[q];
    assert forall q :: p <= q < |u| ==> v[q + 1] == u[q];
    forall y, z | Precedes(u, y, z)
      ensures Precedes(v, y, z)
    {
      var i, j :| 0 <= i < j < |u| && u[i] == y && u[j] == z;
      var k, l := if i < p then i else i + 1, if j < p then j else j + 1;
      assert v[k] == y && v[l] == z;
    }
  }

  lemma InsertedOrder(receiver: string, t: seq<RibEntry>, u: seq<RibEntry>, p: nat)
    requires t != [] && (forall e :: e in u <==> e in t[..|t| - 1]) && TwinsReversed(receiver, t[..|t| - 1], u)
    requires p <= |u| && forall q :: 0 <= q < |u| ==> (p <= q <==> Twins(receiver, u[q], t[|t| - 1]))
    ensures TwinsReversed(receiver, t, u[..p] + [t[|t| - 1]] + u[p..])
  {
    var init, x := t[..|t| - 1], t[|t| - 1];
    var v := u[..p] + [x] + u[p..];
    InsertedPrecedes(u, x, p);
    hide Precedes, Twins;
    forall i, j | 0 <= i < j < |t|
      ensures if Twins(receiver, t[i], t[j]) then Precedes(v, t[j], t[i]) else Precedes(v, t[i], t[j])
    {
      assert init[i] == t[i];
      if j == |t| - 1 {
        assert t[i] in u;
        var q :| 0 <= q < |u| && u[q] == t[i];
      } else {
        assert init[j] == t[j];
      }
    }
  }

  lemma InsertedDescends(receiver: string, x: RibEntry, u: seq<RibEntry>, p: nat)
    requires Descending(receiver, u) && p <= |u| && forall q :: 0 <= q < |u| ==> NotBelow(receiver, u[q].attrs, x.attrs)
    requires forall q :: p <= q < |u| ==> Twins(receiver, u[q], x)
    ensures Descending(receiver, u[..p] + [x] + u[p..])
  {
    var v := u[..p] + [x] + u[p..];
    forall k, l | 0 <= k <= l < |v|
      ensures NotBelow(receiver, v[k].attrs, v[l].attrs)
    {
      assert k != p ==> v[k] == u[if k < p then k else k - 1];
      assert l != p ==> v[l] == u[if l < p then l else l - 1];
    }
  }

  /** What a list selected once has: no neighbours out of order but mutual ones, and no route twice. */
  lemma SelectedOnce(b: Behavior, routes: seq<RibEntry>)
    requires DistinctRoutes(routes) && NoOspf(routes) && Sortable(b, routes)
    ensures
      var r := SelectAt(b, routes);
      && DistinctRoutes(r) && NoOspf(r) && Sorting.InversionsMutual(r, Rank(b))
      && Arranged(b, r) == Sorting.Sort(r, Rank(b)) && SelectAt(b, r) == Select(b, Sorting.Sort(r, Rank(b)))
  {
    var s, r := Arranged(b, routes), SelectAt(b, routes);
    ArrangedPermutes(b, routes);
    SelectBares(b, routes);
    DistinctPermutes(routes, r);
    SelectKeepsBares(b, s);
    SelectMutual(b, routes);
    SelectKeepsSortable(b, routes);
    ArrangedIsSort(b, r);
    hide Arranged, Sortable, Select, Sorting.InversionsMutual;
    forall i | 0 <= i < |r|
      ensures !r[i].attrs.kind.Ospf?
    {
      assert s[i] in s && s[i] in routes && Bare(r[i]) == Bare(s[i]);
    }
  }

  /**
   The routes at places i and j of r stand in s in the reverse order if they are local twins, else
   in the same order.
   */
  ghost predicate TradedExactlyTwins(receiver: string, r: seq<RibEntry>, s: seq<RibEntry>, i: nat, j: nat)
    requires i < |r| && j < |r|
  {
    exists k, l :: (
      && 0 <= k < |s| && 0 <= l < |s| && Bare(s[k]) == Bare(r[i]) && Bare(s[l]) == Bare(r[j])
      && if Twins(receiver, r[i], r[j]) then l < k else k < l)
  }

  /**
   At a prefix without OSPF routes, selecting a second time reverses every pair of local twins
   and keeps every other pair in order.
   */
  lemma TwinsTradePlaces(d: Device, receiver: string, routes: seq<RibEntry>)
    requires OneWay(d.ipLess) && DistinctRoutes(routes) && NoOspf(routes) && Sortable(BehaviorOf(d, receiver), routes)
    ensures
      var b := BehaviorOf(d, receiver);
      var r := SelectAt(b, routes);
      forall i, j :: 0 <= i < j < |r| ==> TradedExactlyTwins(receiver, r, SelectAt(b, r), i, j)
  {
    var b := BehaviorOf(d, receiver);
    BgpLocalFirst(d, receiver);
    hide BehaviorOf;
    SelectedOnce(b, routes);
    var r := SelectAt(b, routes);
    SortReverses(b, receiver, r);
    var u := Sorting.Sort(r, Rank(b));
    SelectKeepsBares(b, u);
    hide SelectAt, Select, Sorting.Sort, Twins;
    TradedAfter(receiver, r, u, Select(b, u));
  }

  lemma TradedAfter(receiver: string, r: seq<RibEntry>, u: seq<RibEntry>, v: seq<RibEntry>)
    requires TwinsReversed(receiver, r, u) && |v| == |u| && forall i :: 0 <= i < |u| ==> Bare(v[i]) == Bare(u[i])
    ensures forall i, j :: 0 <= i < j < |r| ==> TradedExactlyTwins(receiver, r, v, i, j)
  {
    hide Twins, Bare;
    forall i, j | 0 <= i < j < |r|
      ensures TradedExactlyTwins(receiver, r, v, i, j)
    {
      if Twins(receiver, r[i], r[j]) {
        var l, k :| 0 <= l < k < |u| && u[l] == r[j] && u[k] == r[i];
        assert Bare(v[k]) == Bare(r[i]) && Bare(v[l]) == Bare(r[j]);
      } else {
        var k, l :| 0 <= k < l < |u| && u[k] == r[i] && u[l] == r[j];
        assert Bare(v[k]) == Bare(r[i]) && Bare(v[l]) == Bare(r[j]);
      }
    }
  }

  // ---------- when the selection changes ----------

  /** Two live local twins that keep each other out, with nothing live in their family that outweighs them. */
  ghost predicate Contest(b: Behavior, receiver: string, s: seq<RibEntry>, ctx: Context) {
    exists x, y :: x in s && y in s && Meet(b, receiver, x, y, ctx) && !Outweighed(b, s, x, ctx)
  }

  predicate Meet(b: Behavior, receiver: string, x: RibEntry, y: RibEntry, ctx: Context) {
    && Bare(x) != Bare(y) && LocalTwins(receiver, x.attrs, y.attrs)
    && Rival(b, x, y) && b.valid(y.attrs) && Live(x, ctx) && Live(y, ctx)
  }

  ghost predicate Outweighed(b: Behavior, s: seq<RibEntry>, x: RibEntry, ctx: Context) {
    exists z :: z in s && b.valid(z.attrs) && FamilyOf(z.attrs) == FamilyOf(x.attrs) && Live(z, ctx)
      && Outweighs(z.attrs, x.attrs)
  }

  /** A valid live route of x's family that is x's twin, or x itself. */
  ghost predicate Contender(b: Behavior, receiver: string, x: RibEntry, e: RibEntry, ctx: Context) {
    b.valid(e.attrs) && FamilyOf(e.attrs) == FamilyOf(x.attrs) && Live(e, ctx) && Twins(receiver, e, x)
  }

  ghost predicate PickedAlike(b: Behavior, t: seq<RibEntry>, u: seq<RibEntry>, ctx: Context) {
    forall e :: e in t ==> (Picked(b, t, e, ctx) <==> Picked(b, u, e, ctx))
  }

  /** If no selection changed, all contenders are equivalent. */
  lemma {:induction false} ContendersEquivalent(b: Behavior, receiver: string, t: seq<RibEntry>, u: seq<RibEntry>,
                                                x: RibEntry,
                                                p: nat, q: nat, ctx: Context)
    requires LocalFirst(b, receiver) && NoOspf(t) && Sorting.NoDuplicates(t) && Descending(receiver, t)
    requires TwinsReversed(receiver, t, u) && PickedAlike(b, t, u, ctx)
    requires x.attrs.originNode == receiver && !Outweighed(b, t, x, ctx)
    requires p < q < |t| && Contender(b, receiver, x, t[p], ctx) && Contender(b, receiver, x, t[q], ctx)
    ensures b.equivalent(t[p].attrs, t[q].attrs)
    decreases p
  {
    if w :| Precedes(t, w, t[p]) && Rival(b, w, t[p]) && Live(w, ctx) {
      var k, l :| 0 <= k < l < |t| && t[k] == w && t[l] == t[p];
      assert l == p && NotBelow(receiver, t[k].attrs, t[p].attrs);
      if Contender(b, receiver, x, w, ctx) {
        ContendersEquivalent(b, receiver, t, u, x, k, p, ctx);
      }
      assert false;
    }
    assert Picked(b, t, t[p], ctx);
    assert t[p] in t && Picked(b, u, t[p], ctx);
    assert Twins(receiver, t[p], t[q]) && Precedes(u, t[q], t[p]);
    assert !Rival(b, t[q], t[p]);
  }

  lemma ContestChanges(b: Behavior, receiver: string, t: seq<RibEntry>, u: seq<RibEntry>, ctx: Context)
    requires LocalFirst(b, receiver) && NoOspf(t) && DistinctRoutes(t) && Descending(receiver, t)
    requires TwinsReversed(receiver, t, u) && Contest(b, receiver, t, ctx)
    ensures !PickedAlike(b, t, u, ctx)
  {
    DistinctBares(t);
    hide Sorting.NoDuplicates, TwinsReversed, Descending, DistinctRoutes, LocalFirst, Contest, PickedAlike;
    if PickedAlike(b, t, u, ctx) {
      var x, i, j := ContestPlaces(b, receiver, t, ctx);
      hide Contender, NoOspf, Outweighed;
      ContendersEquivalent(b, receiver, t, u, x, i, j, ctx);
      assert false;
    }
  }

  /** Where the two routes of a contest stand. */
  lemma ContestPlaces(b: Behavior, receiver: string, t: seq<RibEntry>, ctx: Context)
    returns (x: RibEntry, i: nat, j: nat)
    requires LocalFirst(b, receiver) && NoOspf(t) && Contest(b, receiver, t, ctx)
    ensures i < j < |t| && Contender(b, receiver, x, t[i], ctx) && Contender(b, receiver, x, t[j], ctx)
    ensures x.attrs.originNode == receiver && !Outweighed(b, t, x, ctx)
    ensures !b.equivalent(t[i].attrs, t[j].attrs)
  {
    hide LocalFirst, Outweighed;
    var y;
    x, y :| x in t && y in t && Meet(b, receiver, x, y, ctx) && !Outweighed(b, t, x, ctx);
    i :| 0 <= i < |t| && t[i] == x;
    j :| 0 <= j < |t| && t[j] == y;
    EquivalentAgrees(b, receiver, x, y);
    BothContend(b, receiver, x, y, ctx);
    hide Contender, NoOspf, Live, LocalTwins, FamilyOf, Bare;
    if j < i {
      i, j := j, i;
    }
  }

  lemma BothContend(b: Behavior, receiver: string, x: RibEntry, y: RibEntry, ctx: Context)
    requires Meet(b, receiver, x, y, ctx) && !x.attrs.kind.Ospf? && !y.attrs.kind.Ospf?
    ensures Contender(b, receiver, x, x, ctx) && Contender(b, receiver, x, y, ctx) && x.attrs.originNode == receiver
    ensures x != y
  {
  }

  lemma EquivalentAgrees(b: Behavior, receiver: string, x: RibEntry, y: RibEntry)
    requires LocalFirst(b, receiver)
    ensures b.equivalent(x.attrs, y.attrs) <==> b.equivalent(y.attrs, x.attrs)
  {
  }

  /**
   What beats a route after the second sort: what beat it before, but for its twins the later ones
   instead of the earlier.
   */
  lemma PrecedesAfter(receiver: string, t: seq<RibEntry>, u: seq<RibEntry>, x: RibEntry, e: RibEntry)
    requires TwinsReversed(receiver, t, u) && Sorting.NoDuplicates(t) && Sorting.NoDuplicates(u)
    requires (forall y :: y in t <==> y in u)
    requires x in t && e in t && x != e
    ensures Precedes(u, x, e) <==> (Precedes(t, x, e) != Twins(receiver, x, e))
  {
    var i :| 0 <= i < |t| && t[i] == x;
    var j :| 0 <= j < |t| && t[j] == e;
    if i < j {
      assert Precedes(t, x, e);
      if Twins(receiver, x, e) {
        OneOrOther(u, u, e, x);
      }
    } else {
      assert Precedes(t, e, x);
      OneOrOther(t, t, e, x);
      if !Twins(receiver, e, x) {
        OneOrOther(u, u, e, x);
      }
    }
  }

  lemma NoContestKeeps(b: Behavior, receiver: string, t: seq<RibEntry>, u: seq<RibEntry>, ctx: Context)
    requires LocalFirst(b, receiver) && NoOspf(t) && DistinctRoutes(t) && Descending(receiver, t)
    requires DistinctRoutes(u) && (forall y :: y in t <==> y in u)
    requires TwinsReversed(receiver, t, u) && !Contest(b, receiver, t, ctx)
    ensures PickedAlike(b, t, u, ctx)
  {
    DistinctBares(t);
    DistinctBares(u);
    forall e | e in t
      ensures Picked(b, t, e, ctx) <==> Picked(b, u, e, ctx)
    {
      if b.valid(e.attrs) && Live(e, ctx) {
        if Outweighed(b, t, e, ctx) {
          OutweighedBeaten(b, receiver, t, u, e, ctx);
        } else {
          BeatenAlike(b, receiver, t, u, e, ctx);
        }
      }
    }
  }

  lemma OutweighsEarlier(receiver: string, t: seq<RibEntry>, i: nat, j: nat)
    requires Descending(receiver, t) && i < |t| && j < |t| && Outweighs(t[i].attrs, t[j].attrs)
    ensures i < j
  {
  }

  lemma OutweighedBeaten(b: Behavior, receiver: string, t: seq<RibEntry>, u: seq<RibEntry>, e: RibEntry, ctx: Context)
    requires LocalFirst(b, receiver) && NoOspf(t) && Sorting.NoDuplicates(t) && Descending(receiver, t) && e in t
    requires Sorting.NoDuplicates(u) && (forall y :: y in t <==> y in u)
    requires TwinsReversed(receiver, t, u) && Outweighed(b, t, e, ctx)
    ensures Beaten(b, t, e, ctx) && Beaten(b, u, e, ctx)
  {
    var z :| z in t && b.valid(z.attrs) && FamilyOf(z.attrs) == FamilyOf(e.attrs) && Live(z, ctx)
      && Outweighs(z.attrs, e.attrs);
    var i :| 0 <= i < |t| && t[i] == z;
    var j :| 0 <= j < |t| && t[j] == e;
    assert ClassesFirst(b, receiver, z.attrs, e.attrs);
    OutweighsEarlier(receiver, t, i, j);
    assert Precedes(t, z, e) && Rival(b, z, e);
    PrecedesAfter(receiver, t, u, z, e);
  }

  lemma OutweighedAlike(b: Behavior, t: seq<RibEntry>, x: RibEntry, y: RibEntry, ctx: Context)
    requires FamilyOf(x.attrs) == FamilyOf(y.attrs) && x.attrs.weight == y.attrs.weight
    requires x.attrs.localPref == y.attrs.localPref
    ensures Outweighed(b, t, x, ctx) ==> Outweighed(b, t, y, ctx)
  {
  }

  lemma BeatenAlike(b: Behavior, receiver: string, t: seq<RibEntry>, u: seq<RibEntry>, e: RibEntry, ctx: Context)
    requires DistinctRoutes(t) && DistinctRoutes(u) && (forall y :: y in t <==> y in u)
    requires TwinsReversed(receiver, t, u) && !Contest(b, receiver, t, ctx)
    requires e in t && b.valid(e.attrs) && Live(e, ctx) && !Outweighed(b, t, e, ctx)
    ensures Beaten(b, t, e, ctx) <==> Beaten(b, u, e, ctx)
  {
    DistinctBares(t);
    DistinctBares(u);
    forall x | x in t && x != e && Rival(b, x, e) && Live(x, ctx)
      ensures Precedes(u, x, e) <==> Precedes(t, x, e)
    {
      PrecedesAfter(receiver, t, u, x, e);
      if Twins(receiver, x, e) {
        BareDiffers(t, x, e);
        OutweighedAlike(b, t, x, e, ctx);
        assert false;
      }
    }
    hide Rival, Live;
    forall x | Precedes(t, x, e) || Precedes(u, x, e)
      ensures x in t && x != e
    {
      assert Precedes(u, x, e) ==> x in u;
    }
  }

  lemma BareDiffers(t: seq<RibEntry>, x: RibEntry, y: RibEntry)
    requires DistinctRoutes(t) && x in t && y in t && x != y
    ensures Bare(x) != Bare(y)
  {
    var i :| 0 <= i < |t| && t[i] == x;
    var j :| 0 <= j < |t| && t[j] == y;
    hide Bare;
    assert if i < j then Bare(t[i]) != Bare(t[j]) else Bare(t[j]) != Bare(t[i]);
  }

  /**
   At a prefix without OSPF routes, selecting a second time selects other routes in a context
   exactly when two valid, live, inequivalent local twins of a family meet there with nothing
   live in the family that outweighs them. So twins of different families, and equivalent twins,
   change nothing.
   */
  lemma SelectionChangesExactlyAtContests(d: Device, receiver: string, routes: seq<RibEntry>, ctx: Context)
    requires OneWay(d.ipLess) && Sortable(BehaviorOf(d, receiver), routes)
    requires DistinctRoutes(routes) && NoOspf(routes) && CleanRoutes(routes)
    ensures
      var b := BehaviorOf(d, receiver);
      var r := SelectAt(b, routes);
      SameSelection(r, SelectAt(b, r), ctx) <==> !Contest(b, receiver, routes, ctx)
  {
    var b := BehaviorOf(d, receiver);
    BgpLocalFirst(d, receiver);
    hide BehaviorOf;
    SelectedOnce(b, routes);
    var r := SelectAt(b, routes);
    var u := Sorting.Sort(r, Rank(b));
    SortReverses(b, receiver, r);
    Descends(b, receiver, r);
    SelectionByOrder(b, routes, ctx);
    SameContest(b, receiver, routes, ctx);
    hide SelectAt, Arranged, Sorting.Sort, Contest, Descending, TwinsReversed, DistinctRoutes, NoOspf,
        SameSelection, Picked, LocalFirst;
    if Contest(b, receiver, r, ctx) {
      ContestChanges(b, receiver, r, u, ctx);
    } else {
      NoContestKeeps(b, receiver, r, u, ctx);
    }
  }

  /**
   Selection leaves attributes and conditions of the routes alone, so it does not decide whether
   there is a contest.
   */
  lemma SameContest(b: Behavior, receiver: string, routes: seq<RibEntry>, ctx: Context)
    ensures Contest(b, receiver, SelectAt(b, routes), ctx) <==> Contest(b, receiver, routes, ctx)
  {
    var s, r := Arranged(b, routes), SelectAt(b, routes);
    ArrangedPermutes(b, routes);
    assert |r| == |s| && forall i :: 0 <= i < |r| ==> Alike(r[i], s[i]);
    hide SelectAt, Arranged, Alike;
    AlikeByPlace(r, s);
    assert AllAlike(routes, r) by {
      forall e | e in routes
        ensures HasAlike(r, e)
      {
        assert e in s;
      }
    }
    assert AllAlike(r, routes) by {
      forall e | e in r
        ensures HasAlike(routes, e)
      {
        var i :| 0 <= i < |r| && r[i] == e;
        assert s[i] in s && s[i] in routes && Alike(r[i], s[i]);
        AlikeSymmetric(r[i], s[i]);
      }
    }
    hide HasAlike, AllAlike;
    ContestCarries(b, receiver, routes, r, ctx);
    ContestCarries(b, receiver, r, routes, ctx);
  }

  predicate Alike(e: RibEntry, f: RibEntry) {
    e.attrs == f.attrs && e.base == f.base && e.condition == f.condition
  }

  ghost predicate HasAlike(s: seq<RibEntry>, e: RibEntry) {
    exists f :: f in s && Alike(f, e)
  }

  ghost predicate AllAlike(s: seq<RibEntry>, t: seq<RibEntry>) {
    forall e :: e in s ==> HasAlike(t, e)
  }

  lemma AlikeSymmetric(e: RibEntry, f: RibEntry)
    ensures Alike(e, f) <==> Alike(f, e)
  {
  }

  lemma AlikeByPlace(r: seq<RibEntry>, s: seq<RibEntry>)
    requires |r| == |s| && forall i :: 0 <= i < |r| ==> Alike(r[i], s[i])
    ensures AllAlike(s, r)
  {
    hide Alike;
    forall e | e in s
      ensures HasAlike(r, e)
    {
      var i :| 0 <= i < |s| && s[i] == e;
      assert r[i] in r;
    }
  }

  lemma AlikeOf(t: seq<RibEntry>, e: RibEntry) returns (f: RibEntry)
    requires HasAlike(t, e)
    ensures f in t && Alike(f, e)
  {
    f :| f in t && Alike(f, e);
  }

  lemma ContestCarries(b: Behavior, receiver: string, s: seq<RibEntry>, t: seq<RibEntry>, ctx: Context)
    requires AllAlike(s, t) && AllAlike(t, s)
    ensures Contest(b, receiver, s, ctx) ==> Contest(b, receiver, t, ctx)
  {
    hide HasAlike, Outweighed;
    if Contest(b, receiver, s, ctx) {
      var x, y :| x in s && y in s && Meet(b, receiver, x, y, ctx) && !Outweighed(b, s, x, ctx);
      var x' := AlikeOf(t, x);
      var y' := AlikeOf(t, y);
      if Outweighed(b, t, x', ctx) {
        OutweighedCarries(b, t, s, x', x, ctx);
        assert false;
      }
      assert Meet(b, receiver, x', y', ctx);
    }
  }

  lemma OutweighedCarries(b: Behavior, s: seq<RibEntry>, t: seq<RibEntry>, x: RibEntry, x': RibEntry, ctx: Context)
    requires AllAlike(s, t) && Alike(x, x') && Outweighed(b, s, x, ctx)
    ensures Outweighed(b, t, x', ctx)
  {
    hide HasAlike;
    var z :| z in s && b.valid(z.attrs) && FamilyOf(z.attrs) == FamilyOf(x.attrs) && Live(z, ctx)
      && Outweighs(z.attrs, x.attrs);
    var z' := AlikeOf(t, z);
    assert Live(z', ctx);
  }

  // ---------- when not even a condition is written differently ----------

  /** No two local twins of a family, both valid, are inequivalent. */
  ghost predicate HarmlessTwins(b: Behavior, receiver: string, s: seq<RibEntry>) {
    forall x, y :: x in s && y in s && x != y && Twins(receiver, x, y) && b.valid(y.attrs) ==> !Rival(b, x, y)
  }

  lemma HigherByOrder(b: Behavior, s: seq<RibEntry>, i: nat)
    requires i < |s| && Sorting.NoDuplicates(s) && CleanRoutes(s)
    ensures CleanAll(HigherDistinct(b, s, i, i))
    ensures forall c :: c in HigherDistinct(b, s, i, i) <==>
        exists x :: Precedes(s, x, s[i]) && Rival(b, x, s[i]) && x.condition == c
  {
    HigherMeans(b, s, i, i, Context(FailureSet({}, {}), map[]));
    forall c | c in HigherDistinct(b, s, i, i)
      ensures exists x :: Precedes(s, x, s[i]) && Rival(b, x, s[i]) && x.condition == c
    {
      var j := HigherComes(b, s, i, i, c);
      assert Precedes(s, s[j], s[i]) && Rival(b, s[j], s[i]);
    }
    forall x | Precedes(s, x, s[i]) && Rival(b, x, s[i])
      ensures x.condition in HigherDistinct(b, s, i, i)
    {
      var j, k :| 0 <= j < k < |s| && s[j] == x && s[k] == s[i];
      assert k == i;
      HigherHas(b, s, i, i, j);
    }
  }

  /** The selected condition depends on which rivals come first, not on their order. */
  lemma SelectedByRivals(b: Behavior, s: seq<RibEntry>, i: nat, t: seq<RibEntry>, j: nat)
    requires i < |s| && j < |t| && s[i] == t[j] && CleanRoutes(s) && CleanRoutes(t)
    requires Sorting.NoDuplicates(s) && Sorting.NoDuplicates(t)
    requires b.valid(s[i].attrs) ==> forall x :: Rival(b, x, s[i]) ==> (Precedes(s, x, s[i]) <==> Precedes(t, x, s[i]))
    ensures SelectedCond(b, s, i) == SelectedCond(b, t, j)
  {
    if b.valid(s[i].attrs) {
      HigherByOrder(b, s, i);
      HigherByOrder(b, t, j);
      var h, g := HigherDistinct(b, s, i, i), HigherDistinct(b, t, j, j);
      hide Rival, Precedes, HigherDistinct;
      assert forall c :: c in h <==> c in g;
      assert h == [] <==> g == [] by {
        assert h != [] ==> h[0] in g;
        assert g != [] ==> g[0] in h;
      }
      FlattenCanonical(OrOp, h, g);
    }
  }

  /** With harmless twins a second selection moves routes about, but changes none of them. */
  lemma HarmlessTwinsKeep(d: Device, receiver: string, routes: seq<RibEntry>)
    requires OneWay(d.ipLess) && Sortable(BehaviorOf(d, receiver), routes)
    requires DistinctRoutes(routes) && NoOspf(routes) && CleanRoutes(routes)
    requires HarmlessTwins(BehaviorOf(d, receiver), receiver, routes)
    ensures
      var b := BehaviorOf(d, receiver);
      var r := SelectAt(b, routes);
      multiset(SelectAt(b, r)) == multiset(r)
  {
    var b := BehaviorOf(d, receiver);
    BgpLocalFirst(d, receiver);
    hide BehaviorOf;
    SelectedOnce(b, routes);
    var s, r := Arranged(b, routes), SelectAt(b, routes);
    var u := Sorting.Sort(r, Rank(b));
    SortReverses(b, receiver, r);
    SelectKeepsClean(b, routes);
    SelectTwice(b, s);
    assert Select(b, r) == r;
    HarmlessStill(b, receiver, routes);
    Sorting.SortMembers(r, Rank(b));
    Sorting.SortPermutes(r, Rank(b));
    BaresPermute(r, u);
    DistinctPermutes(r, u);
    assert CleanRoutes(u) by {
      assert forall i :: 0 <= i < |u| ==> u[i] in u && u[i] in r;
    }
    hide SelectAt, Arranged, Sorting.Sort, LocalFirst, NoOspf, HarmlessTwins, TwinsReversed, Descending;
    SelectsTheSame(b, receiver, r, u);
  }

  lemma SelectsTheSame(b: Behavior, receiver: string, r: seq<RibEntry>, u: seq<RibEntry>)
    requires DistinctRoutes(r) && DistinctRoutes(u) && CleanRoutes(r) && CleanRoutes(u)
    requires (forall e :: e in r <==> e in u)
    requires Select(b, r) == r && HarmlessTwins(b, receiver, r) && TwinsReversed(receiver, r, u)
    ensures Select(b, u) == u
  {
    DistinctBares(r);
    DistinctBares(u);
    forall j | 0 <= j < |u|
      ensures Select(b, u)[j] == u[j]
    {
      var e := u[j];
      assert e in u && e in r;
      var i :| 0 <= i < |r| && r[i] == e;
      assert Select(b, r)[i] == e;
      forall x | b.valid(e.attrs) && Rival(b, x, e)
        ensures Precedes(r, x, e) <==> Precedes(u, x, e)
      {
        if x in r && x != e {
          PrecedesAfter(receiver, r, u, x, e);
        }
      }
      SelectedByRivals(b, r, i, u, j);
    }
  }

  lemma HarmlessStill(b: Behavior, receiver: string, routes: seq<RibEntry>)
    requires DistinctRoutes(routes) && HarmlessTwins(b, receiver, routes)
    ensures HarmlessTwins(b, receiver, SelectAt(b, routes))
  {
    var s, r := Arranged(b, routes), SelectAt(b, routes);
    ArrangedPermutes(b, routes);
    DistinctBares(routes);
    Sorting.NoDuplicatesPermutes(routes, s);
    assert |r| == |s| && forall i :: 0 <= i < |r| ==> r[i].attrs == s[i].attrs;
    assert HarmlessTwins(b, receiver, s) by {
      assert forall x :: x in s ==> x in routes;
    }
    hide SelectAt, Arranged, HarmlessTwins, DistinctRoutes;
    HarmlessByPlace(b, receiver, s, r);
  }

  lemma HarmlessByPlace(b: Behavior, receiver: string, s: seq<RibEntry>, r: seq<RibEntry>)
    requires |r| == |s| && (forall i :: 0 <= i < |r| ==> r[i].attrs == s[i].attrs)
    requires Sorting.NoDuplicates(s) && HarmlessTwins(b, receiver, s)
    ensures HarmlessTwins(b, receiver, r)
  {
    forall x, y | x in r && y in r && x != y && Twins(receiver, x, y) && b.valid(y.attrs)
      ensures !Rival(b, x, y)
    {
      var i :| 0 <= i < |r| && r[i] == x;
      var j :| 0 <= j < |r| && r[j] == y;
      hide LocalTwins, FamilyOf;
      assert s[i] in s && s[j] in s && s[i] != s[j];
      assert Rival(b, x, y) == Rival(b, s[i], s[j]) && Twins(receiver, s[i], s[j]);
    }
  }

  // ---------- whole tables ----------

  /** The behaviour of every node, from its device. */
  function BehaviorsOf(devices: string -> Device): Behaviors {
    node => BehaviorOf(devices(node), node)
  }

  ghost predicate NoTwins(receiver: string, s: seq<RibEntry>) {
    forall i, j :: 0 <= i < j < |s| ==> !Twins(receiver, s[i], s[j])
  }

  /**
   For tables with settled routes and no OSPF: the table that successful convergence leaves is
   stable under selection exactly when the table it started from has no two local twins at a prefix.
   */
  lemma ConvergedStableExactly(devices: string -> Device, start: RibTable, end: RibTable)
    requires forall node :: OneWay(devices(node).ipLess)
    requires DistinctRib(start) && SortableRib(BehaviorsOf(devices), start)
    requires forall k :: k in start ==> NoOspf(start[k])
    requires SameRouteSets(start, end) && Chosen(BehaviorsOf(devices), end)
    requires RankableRib(BehaviorsOf(devices), start) ==> SelectAll(BehaviorsOf(devices), end) == end
    ensures SelectAll(BehaviorsOf(devices), end) == end <==> forall k :: k in start ==> NoTwins(k.node, start[k])
  {
    var behaviors := BehaviorsOf(devices);
    DistinctStays(start, end);
    SortableStays(behaviors, start, end);
    TableStableExactly(behaviors, end);
    hide SelectAll, Chosen, DistinctRoutes, NoOspf, NoTwins, Rankable, Sortable, BehaviorOf, Sorting.NoInversion;
    forall k | k in start
      ensures Rankable(behaviors(k.node), start[k]) <==> NoTwins(k.node, start[k])
      ensures Sorting.NoInversion(end[k], Rank(behaviors(k.node))) ==> NoTwins(k.node, start[k])
    {
      RankableWithoutTwins(devices(k.node), k.node, start[k]);
      if Sorting.NoInversion(end[k], Rank(behaviors(k.node))) {
        OrderedOrigin(devices(k.node), k.node, start[k], end[k]);
      }
    }
  }

  lemma RankableWithoutTwins(d: Device, node: string, s: seq<RibEntry>)
    requires OneWay(d.ipLess) && Sortable(BehaviorOf(d, node), s)
    ensures Rankable(BehaviorOf(d, node), s) <==> NoTwins(node, s)
  {
    RankableExactly(d, node, s);
    hide BehaviorOf, LocalTwins, Sortable;
  }

  /** If some order of the routes has no inversion, they hold no local twins. */
  lemma OrderedOrigin(d: Device, node: string, s: seq<RibEntry>, t: seq<RibEntry>)
    requires OneWay(d.ipLess)
    requires NoOspf(s) && DistinctRoutes(s) && multiset(Bares(s)) == multiset(Bares(t))
    requires Sorting.NoInversion(t, Rank(BehaviorOf(d, node)))
    ensures NoTwins(node, s)
  {
    BgpLocalFirst(d, node);
    forall i | 0 <= i < |t|
      ensures !t[i].attrs.kind.Ospf?
    {
      var k := BarePlace(t, s, i);
    }
    hide BehaviorOf, LocalTwins, LocalFirst, Sorting.NoInversion;
    forall i, j | 0 <= i < j < |s|
      ensures !Twins(node, s[i], s[j])
    {
      var k := BarePlace(s, t, i);
      var l := BarePlace(s, t, j);
      assert k != l;
      hide DistinctRoutes, NoOspf;
      OrderedNoTwins(BehaviorOf(d, node), node, t, if k < l then k else l, if k < l then l else k);
      TwinsEitherWay(node, t[k], t[l]);
      assert Twins(node, s[i], s[j]) == Twins(node, t[k], t[l]);
    }
  }

  lemma TwinsEitherWay(receiver: string, x: RibEntry, y: RibEntry)
    ensures Twins(receiver, x, y) <==> Twins(receiver, y, x)
  {
  }

  lemma BarePlace(s: seq<RibEntry>, t: seq<RibEntry>, i: nat) returns (k: nat)
    requires multiset(Bares(s)) == multiset(Bares(t)) && i < |s|
    ensures k < |t| && Bare(t[k]) == Bare(s[i])
  {
    assert Bares(s)[i] in multiset(Bares(s));
    assert Bares(s)[i] in Bares(t);
    k :| 0 <= k < |t| && Bares(t)[k] == Bares(s)[i];
  }
}
