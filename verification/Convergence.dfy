/** When convergence succeeds: a class of tables for which the bound on the number of rounds always suffices. */
module Convergence {
  import opened Conditions
  import opened ControlPlane
  import opened Rib
  import opened RouteSupport
  import opened Wrappers
  import Sorting

  function Depth(e: RibEntry): nat {
    |e.attrs.pathNodes|
  }

  /** What an origin hands on does not depend on selection. */
  predicate HandsOnSelected(p: RibEntry) {
    !(Depth(p) == 1 && (p.attrs.kind.Bgp? || p.attrs.kind.Aggregate?))
  }

  predicate ChildOf(e: RibEntry, k: RibKey, p: RibEntry) {
    !e.attrs.kind.Ospf? && Depth(e) >= 2 && ParentKey(e) == k && Advertises(e, p)
  }

  ghost predicate IsParent(rib: RibTable, k: RibKey, p: RibEntry) {
    exists q, m :: q in rib && 0 <= m < |rib[q]| && ChildOf(rib[q][m], k, p)
  }

  ghost predicate GivesWay(behaviors: Behaviors, rib: RibTable, k: RibKey, j: nat, i: nat)
    requires k in rib && j < |rib[k]| && i < |rib[k]|
  {
    HandsOnSelected(rib[k][i]) && IsParent(rib, k, rib[k][i]) && Beats(behaviors(k.node), rib[k], j, i)
  }

  /** No route that hands on its selected condition gives way to one with a longer path. */
  ghost predicate ShortRivals(behaviors: Behaviors, rib: RibTable) {
    forall k, i, j :: k in rib && 0 <= j < i < |rib[k]| && GivesWay(behaviors, rib, k, j, i) ==>
      Depth(rib[k][j]) <= Depth(rib[k][i])
  }

  /** Every route has the base condition it was installed with. */
  ghost predicate Based(rib: RibTable) {
    forall k, i :: k in rib && 0 <= i < |rib[k]| ==> rib[k][i].base.Some?
  }

  /** What does not change from round to round. */
  ghost predicate Frame(behaviors: Behaviors, rib: RibTable) {
    SortableRib(behaviors, rib) && Ordered(behaviors, rib) && Based(rib) && ReadablePaths(rib)
      && ShortRivals(behaviors, rib)
  }

  /** A table just selected on which convergence succeeds. */
  ghost predicate Settling(behaviors: Behaviors, rib: RibTable) {
    Frame(behaviors, rib) && Chosen(behaviors, rib) && OspfInSync(rib)
  }

  ghost predicate SameBares(t: RibTable, r: RibTable) {
    && t.Keys == r.Keys
    && forall k :: k in t ==> |t[k]| == |r[k]| && forall i :: 0 <= i < |t[k]| ==> Bare(t[k][i]) == Bare(r[k][i])
  }

  lemma FrameStays(behaviors: Behaviors, t: RibTable, r: RibTable)
    requires SameBares(t, r) && Frame(behaviors, t)
    ensures Frame(behaviors, r)
  {
    OrderedStays(behaviors, t, r);
    SortableSame(behaviors, t, r);
    forall k, i | k in r && 0 <= i < |r[k]|
      ensures r[k][i].base.Some? && ReadablePath(r[k][i].attrs.pathNodes)
    {
      assert Bare(t[k][i]) == Bare(r[k][i]);
    }
    ShortStays(behaviors, t, r);
  }

  lemma SortableSame(behaviors: Behaviors, t: RibTable, r: RibTable)
    requires SameBares(t, r) && SortableRib(behaviors, t)
    ensures SortableRib(behaviors, r)
  {
    hide Sortable;
    forall k | k in r
      ensures Sortable(behaviors(k.node), r[k])
    {
      assert forall i :: 0 <= i < |r[k]| ==> Bare(t[k][i]) == Bare(r[k][i]);
      SortableAlike(behaviors(k.node), t[k], r[k]);
    }
  }

  lemma OrderedStays(behaviors: Behaviors, t: RibTable, r: RibTable)
    requires SameBares(t, r) && Ordered(behaviors, t)
    ensures Ordered(behaviors, r)
  {
    forall k, i | k in r && 0 < i < |r[k]|
      ensures !Rank(behaviors(k.node))(r[k][i], r[k][i - 1])
    {
      assert Bare(t[k][i]) == Bare(r[k][i]) && Bare(t[k][i - 1]) == Bare(r[k][i - 1]);
      assert !Rank(behaviors(k.node))(t[k][i], t[k][i - 1]);
    }
  }

  lemma ShortStays(behaviors: Behaviors, t: RibTable, r: RibTable)
    requires SameBares(t, r) && ShortRivals(behaviors, t)
    ensures ShortRivals(behaviors, r)
  {
    forall k, i, j | k in r && 0 <= j < i < |r[k]| && GivesWay(behaviors, r, k, j, i)
      ensures Depth(r[k][j]) <= Depth(r[k][i])
    {
      assert Bare(t[k][i]) == Bare(r[k][i]) && Bare(t[k][j]) == Bare(r[k][j]);
      ParentStays(t, r, k, i);
      assert GivesWay(behaviors, t, k, j, i);
    }
  }

  lemma ParentStays(t: RibTable, r: RibTable, k: RibKey, i: nat)
    requires SameBares(t, r) && k in t && i < |t[k]| && IsParent(r, k, r[k][i])
    ensures IsParent(t, k, t[k][i])
  {
    var q, m :| q in r && 0 <= m < |r[q]| && ChildOf(r[q][m], k, r[k][i]);
    assert Bare(t[q][m]) == Bare(r[q][m]) && Bare(t[k][i]) == Bare(r[k][i]);
    assert ChildOf(t[q][m], k, t[k][i]);
  }

  // ---------- what a route's condition depends on ----------

  /** The parent is found at the same place in both tables. */
  lemma {:induction false} AdvertiserPlace(r: seq<RibEntry>, s: seq<RibEntry>, e: RibEntry, f: RibEntry)
    returns (m: nat)
    requires |r| == |s| && (forall i :: 0 <= i < |r| ==> Bare(r[i]) == Bare(s[i]))
    requires Bare(e) == Bare(f) && Depth(e) >= 2
    ensures FirstAdvertiser(r, e).Some? <==> FirstAdvertiser(s, f).Some?
    ensures FirstAdvertiser(r, e).Some? ==>
      m < |r| && FirstAdvertiser(r, e) == Some(r[m]) && FirstAdvertiser(s, f) == Some(s[m]) && Advertises(e, r[m])
  {
    m := 0;
    if r != [] {
      assert Bare(r[0]) == Bare(s[0]);
      if !Advertises(e, r[0]) {
        assert forall i :: 0 <= i < |r[1..]| ==> Bare(r[1..][i]) == Bare(s[1..][i]) by {
          assert forall i :: 0 <= i < |r[1..]| ==> r[1..][i] == r[i + 1] && s[1..][i] == s[i + 1];
        }
        m := AdvertiserPlace(r[1..], s[1..], e, f);
        m := m + 1;
      }
    }
  }

  /** Parents with paths up to n hand on the same in both tables. */
  ghost predicate SameHanded(t: RibTable, r: RibTable, n: nat) {
    forall k, i ::
      k in t && k in r && 0 <= i < |t[k]| && i < |r[k]| && Depth(t[k][i]) <= n && IsParent(t, k, t[k][i]) ==>
      HandedOn(t[k][i]) == HandedOn(r[k][i])
  }

  lemma NextCondAgrees(t: RibTable, r: RibTable, n: nat, q: RibKey, m: nat)
    requires SameBares(t, r) && Based(t) && ReadablePaths(t) && SameHanded(t, r, n)
    requires q in t && m < |t[q]| && Depth(t[q][m]) <= n + 1
    ensures NextCond(r, r[q][m]) == NextCond(t, t[q][m])
  {
    var e, f := t[q][m], r[q][m];
    assert Bare(e) == Bare(f);
    var k := ParentKey(e);
    if !e.attrs.kind.Ospf? && Depth(e) >= 2 && k in t {
      var i := AdvertiserPlace(t[k], r[k], e, f);
      if FirstAdvertiser(t[k], e).Some? {
        AdvertiserPath(e, t[k][i]);
        assert ChildOf(t[q][m], k, t[k][i]);
        hide HandedOn, Advertises;
      }
    }
  }

  // ---------- one pass ----------

  /** The routes with paths up to n already have the condition their parent gives them. */
  ghost predicate Settled(t: RibTable, n: nat) {
    forall k, i :: k in t && 0 <= i < |t[k]| && Depth(t[k][i]) <= n && !t[k][i].attrs.kind.Ospf? ==>
      Consistent(t, t[k][i])
  }

  predicate Done(done: set<RibKey>, cur: RibKey, i: nat, k: RibKey, j: int) {
    k in done || (k == cur && j < i)
  }

  /** Part way through a pass over t: routes up to n are untouched, visited ones up to n + 1 are settled. */
  ghost predicate Midway(t: RibTable, r: RibTable, n: nat, done: set<RibKey>, cur: RibKey, i: nat) {
    && SameShape(t, r)
    && (forall k, j :: k in t && 0 <= j < |t[k]| && Depth(t[k][j]) <= n ==> r[k][j] == t[k][j])
    && (forall k, j ::
          k in t && 0 <= j < |t[k]| && Done(done, cur, i, k, j) ==>
          Depth(t[k][j]) <= n + 1 && !t[k][j].attrs.kind.Ospf? ==>
          Key(r[k][j].condition) == Key(NextCond(t, t[k][j])))
  }

  lemma ShapeBares(t: RibTable, r: RibTable)
    requires SameShape(t, r)
    ensures SameBares(t, r)
  {
    forall k | k in t
      ensures |t[k]| == |r[k]| && forall i :: 0 <= i < |t[k]| ==> Bare(t[k][i]) == Bare(r[k][i])
    {
      assert forall i :: 0 <= i < |t[k]| ==> SameButCondition(t[k][i], r[k][i]);
    }
  }

  lemma MidwayHanded(t: RibTable, r: RibTable, n: nat, done: set<RibKey>, cur: RibKey, i: nat)
    requires Midway(t, r, n, done, cur, i)
    ensures SameHanded(t, r, n)
  {
    hide HandedOn, NextCond, Key, IsParent;
  }

  lemma ShapeAt(t: RibTable, r: RibTable, k: RibKey, i: nat)
    requires SameShape(t, r) && k in t && i < |t[k]|
    ensures k in r && |r[k]| == |t[k]| && SameButCondition(t[k][i], r[k][i])
  {
  }

  /** The route at (cur, i) is settled, or too deep to matter yet. */
  predicate Right(t: RibTable, cur: RibKey, i: nat, n: nat, c: Cond)
    requires cur in t && i < |t[cur]|
  {
    Depth(t[cur][i]) <= n + 1 && !t[cur][i].attrs.kind.Ospf? ==> Key(c) == Key(NextCond(t, t[cur][i]))
  }

  lemma MidwayStays(t: RibTable, r: RibTable, n: nat, done: set<RibKey>, cur: RibKey, i: nat)
    requires Midway(t, r, n, done, cur, i) && cur in t && cur in r && i < |t[cur]| && i < |r[cur]|
    requires Right(t, cur, i, n, r[cur][i].condition)
    ensures Midway(t, r, n, done, cur, i + 1)
  {
    hide SameShape, Key, NextCond;
  }

  lemma MidwayPlace(t: RibTable, r: RibTable, n: nat, done: set<RibKey>, cur: RibKey, i: nat, c: Cond)
    requires Midway(t, r, n, done, cur, i) && cur in t && cur in r && i < |t[cur]| && i < |r[cur]|
    requires Depth(t[cur][i]) > n && Right(t, cur, i, n, c)
    ensures Midway(t, Place(r, cur, i, r[cur][i].(condition := c)), n, done, cur, i + 1)
  {
    PlaceShape(t, r, cur, i, r[cur][i].(condition := c));
    hide SameShape, Key, NextCond;
  }

  lemma EntryMidway(t: RibTable, r: RibTable, n: nat, done: set<RibKey>, cur: RibKey, i: nat)
    requires Midway(t, r, n, done, cur, i) && Settled(t, n) && Based(t) && ReadablePaths(t) && OspfInSync(t)
    requires cur in t && i < |t[cur]|
    ensures Midway(t, ApplyEntry(r, cur, i).0, n, done, cur, i + 1)
  {
    ShapeBares(t, r);
    MidwayHanded(t, r, n, done, cur, i);
    hide SameShape, SameHanded, ReadablePaths, NextCond, Key, Base, Place;
    ShapeAt(t, r, cur, i);
    if Depth(t[cur][i]) <= n + 1 {
      NextCondAgrees(t, r, n, cur, i);
    }
    var e := r[cur][i];
    if e.attrs.kind.Ospf? {
      OspfBase(r, e);
    }
    if Depth(t[cur][i]) <= n {
      assert e == t[cur][i];
      if e.attrs.kind.Ospf? {
        PlaceNothing(r, cur, i);
      } else {
        assert Consistent(t, t[cur][i]);
      }
      MidwayStays(t, r, n, done, cur, i);
    } else if e.attrs.kind.Ospf? || Key(e.condition) != Key(NextCond(r, e)) {
      MidwayPlace(t, r, n, done, cur, i, NextCond(r, e));
    } else {
      MidwayStays(t, r, n, done, cur, i);
    }
  }

  lemma {:induction false} EntriesMidway(t: RibTable, r: RibTable, n: nat, done: set<RibKey>, cur: RibKey, i: nat)
    requires Midway(t, r, n, done, cur, 0) && Settled(t, n) && Based(t) && ReadablePaths(t) && OspfInSync(t)
    requires cur in t && cur in r && i <= |t[cur]| && |r[cur]| == |t[cur]|
    ensures Midway(t, ApplyEntries(r, cur, i).0, n, done, cur, i)
  {
    hide Midway, Settled, Based, ReadablePaths, OspfInSync, ApplyEntry;
    if i > 0 {
      EntriesMidway(t, r, n, done, cur, i - 1);
      EntryMidway(t, ApplyEntries(r, cur, i - 1).0, n, done, cur, i - 1);
    }
  }

  lemma KeyDone(t: RibTable, r: RibTable, n: nat, done: set<RibKey>, cur: RibKey, next: RibKey)
    requires cur in t && Midway(t, r, n, done, cur, |t[cur]|)
    ensures Midway(t, r, n, done + {cur}, next, 0)
  {
    hide NextCond, Key, SameShape;
  }

  lemma MidwayAnywhere(t: RibTable, r: RibTable, n: nat, done: set<RibKey>, cur: RibKey, next: RibKey)
    requires Midway(t, r, n, done, cur, 0)
    ensures Midway(t, r, n, done, next, 0) && SameShape(t, r)
  {
    hide NextCond, Key, SameShape;
  }

  lemma {:induction false} KeysMidway(t: RibTable, n: nat, order: seq<RibKey>, cur: RibKey)
    requires Settled(t, n) && Based(t) && ReadablePaths(t) && OspfInSync(t) && forall k :: k in order ==> k in t
    ensures Midway(t, ApplyKeys(t, order).0, n, Sorting.Members(order), cur, 0)
  {
    if order == [] {
      assert forall k: RibKey :: k !in Sorting.Members([]);
    } else {
      var init, k := order[..|order| - 1], order[|order| - 1];
      assert order == init + [k];
      KeysMidway(t, n, init, k);
      var r := ApplyKeys(t, init).0;
      MidwayAnywhere(t, r, n, Sorting.Members(init), k, k);
      hide Midway, Settled, Based, ReadablePaths, OspfInSync, ApplyEntries;
      EntriesMidway(t, r, n, Sorting.Members(init), k, |t[k]|);
      KeyDone(t, ApplyEntries(r, k, |t[k]|).0, n, Sorting.Members(init), k, cur);
      assert Sorting.Members(init) + {k} == Sorting.Members(order);
    }
  }

  /** Once every route is settled a pass changes nothing. */
  lemma {:induction false} QuietEntries(t: RibTable, n: nat, k: RibKey, i: nat)
    requires Settled(t, n) && OspfInSync(t) && (forall q, j :: q in t && 0 <= j < |t[q]| ==> Depth(t[q][j]) <= n)
    requires k in t && i <= |t[k]|
    ensures ApplyEntries(t, k, i) == (t, false)
  {
    if i > 0 {
      QuietEntries(t, n, k, i - 1);
      var e := t[k][i - 1];
      hide NextCond, Place, Key, Base;
      if e.attrs.kind.Ospf? {
        OspfBase(t, e);
        PlaceNothing(t, k, i - 1);
      } else {
        assert Consistent(t, t[k][i - 1]);
      }
    }
  }

  lemma {:induction false} QuietKeys(t: RibTable, n: nat, order: seq<RibKey>)
    requires Settled(t, n) && OspfInSync(t) && (forall q, j :: q in t && 0 <= j < |t[q]| ==> Depth(t[q][j]) <= n)
    requires forall k :: k in order ==> k in t
    ensures ApplyKeys(t, order) == (t, false)
  {
    if order != [] {
      var k := order[|order| - 1];
      QuietKeys(t, n, order[..|order| - 1]);
      QuietEntries(t, n, k, |t[k]|);
    }
  }

  // ---------- one round ----------

  lemma {:induction false} HigherAgrees(b: Behavior, s: seq<RibEntry>, t: seq<RibEntry>, i: nat, upTo: nat)
    requires |s| == |t| && i < |s| && upTo <= |s| && forall j :: 0 <= j < |s| ==> s[j].attrs == t[j].attrs
    requires forall j :: 0 <= j < upTo && Beats(b, s, j, i) ==> s[j].condition == t[j].condition
    ensures HigherDistinct(b, s, i, upTo) == HigherDistinct(b, t, i, upTo)
  {
    if upTo > 0 {
      HigherAgrees(b, s, t, i, upTo - 1);
      assert Beats(b, s, upTo - 1, i) == Beats(b, t, upTo - 1, i);
    }
  }

  /** Selection after a pass leaves what parents with paths up to n hand on. */
  lemma SelectionHands(behaviors: Behaviors, t: RibTable, p: RibTable, n: nat, k: RibKey, i: nat)
    requires Frame(behaviors, t) && Chosen(behaviors, t) && SameShape(t, p)
    requires forall q, j :: q in t && 0 <= j < |t[q]| && Depth(t[q][j]) <= n ==> p[q][j] == t[q][j]
    requires k in t && i < |t[k]| && Depth(t[k][i]) <= n && IsParent(t, k, t[k][i])
    ensures HandedOn(Select(behaviors(k.node), p[k])[i]) == HandedOn(t[k][i])
  {
    var b := behaviors(k.node);
    assert p[k][i] == t[k][i];
    if HandsOnSelected(t[k][i]) {
      forall j | 0 <= j < i && Beats(b, t[k], j, i)
        ensures t[k][j].condition == p[k][j].condition
      {
        assert GivesWay(behaviors, t, k, j, i);
      }
      assert forall j :: 0 <= j < |t[k]| ==> SameButCondition(t[k][j], p[k][j]);
      hide Beats, Frame, IsParent, SameShape;
      HigherAgrees(b, t[k], p[k], i, i);
      assert Select(b, t[k])[i] == t[k][i];
    }
  }

  lemma InPlace(behaviors: Behaviors, p: RibTable)
    requires SortableRib(behaviors, p) && Ordered(behaviors, p)
    ensures SameBares(p, SelectAll(behaviors, p))
    ensures forall k :: k in p ==> SelectAll(behaviors, p)[k] == Select(behaviors(k.node), p[k])
  {
    forall k | k in p
      ensures SelectAll(behaviors, p)[k] == Select(behaviors(k.node), p[k])
    {
      ArrangedIsSort(behaviors(k.node), p[k]);
      Sorting.SortFixpoint(p[k], Rank(behaviors(k.node)));
    }
  }

  /** A pass and a selection keep what the rounds rely on, and what settled parents hand on. */
  lemma RoundKeepsSettling(behaviors: Behaviors, t: RibTable, p: RibTable, n: nat)
    requires Settling(behaviors, t) && SameShape(t, p) && OspfInSync(p)
    requires forall q, j :: q in t && 0 <= j < |t[q]| && Depth(t[q][j]) <= n ==> p[q][j] == t[q][j]
    ensures
      var after := SelectAll(behaviors, p);
      && Settling(behaviors, after) && SameBares(t, after) && SameBares(p, after) && SameHanded(t, after, n)
      && forall k, i :: k in p && 0 <= i < |p[k]| ==> after[k][i].condition == p[k][i].condition
  {
    var after := SelectAll(behaviors, p);
    ShapeBares(t, p);
    FrameStays(behaviors, t, p);
    InPlace(behaviors, p);
    SelectAllChosen(behaviors, p);
    SelectAllInSync(behaviors, p);
    FrameStays(behaviors, p, after);
    BaresTransitive(t, p, after);
    forall k, i | k in t && 0 <= i < |t[k]| && Depth(t[k][i]) <= n && IsParent(t, k, t[k][i])
      ensures HandedOn(t[k][i]) == HandedOn(after[k][i])
    {
      SelectionHands(behaviors, t, p, n, k, i);
    }
    hide SelectAll, Frame, Chosen, OspfInSync, SameBares, SameShape, IsParent, HandedOn, SelectedCond;
  }

  /** Each round settles the routes whose paths are one longer. */
  lemma RoundSettles(behaviors: Behaviors, t: RibTable, order: seq<RibKey>, n: nat)
    requires Settling(behaviors, t) && Settled(t, n) && OrderOf(order, t)
    ensures
      var after := AfterRound(behaviors, t, order);
      Settling(behaviors, after) && Settled(after, n + 1) && SameBares(t, after)
  {
    var p, after := ApplyKeys(t, order).0, AfterRound(behaviors, t, order);
    if order == [] {
      assert t == map[] && p == map[] && after == map[];
    } else {
      KeysMidway(t, n, order, order[0]);
      PassDone(t, order);
      assert Sorting.Members(order) == t.Keys;
      hide OrderOf, ApplyKeys, SelectAll, Frame, Chosen, OspfInSync, SameBares, SameShape, SameHanded, Settled,
          SelfConsistent, CleanRib;
      RoundKeepsSettling(behaviors, t, p, n);
      FrameHas(behaviors, t);
      SettledAfter(t, p, after, n, order[0]);
    }
  }

  lemma FrameHas(behaviors: Behaviors, t: RibTable)
    requires Frame(behaviors, t)
    ensures Based(t) && ReadablePaths(t)
  {
  }

  lemma BaresTransitive(r: RibTable, s: RibTable, t: RibTable)
    requires SameBares(r, s) && SameBares(s, t)
    ensures SameBares(r, t)
  {
  }

  lemma SettledAfter(t: RibTable, p: RibTable, after: RibTable, n: nat, cur: RibKey)
    requires Midway(t, p, n, t.Keys, cur, 0) && Based(t) && ReadablePaths(t) && SameBares(t, after)
    requires SameHanded(t, after, n)
    requires SameBares(p, after) && forall k, i :: k in p && 0 <= i < |p[k]| ==>
        after[k][i].condition == p[k][i].condition
    ensures Settled(after, n + 1)
  {
    forall k, i | k in after && 0 <= i < |after[k]| && Depth(after[k][i]) <= n + 1 && !after[k][i].attrs.kind.Ospf?
      ensures Consistent(after, after[k][i])
    {
      assert Bare(t[k][i]) == Bare(after[k][i]);
      NextCondAgrees(t, after, n, k, i);
      assert Done(t.Keys, cur, 0, k, i);
    }
  }

  // ---------- the whole run ----------

  lemma {:induction false} RunSettles(behaviors: Behaviors, tables: seq<RibTable>, orders: seq<seq<RibKey>>, n: nat)
    requires Run(behaviors, tables, orders) && n <= |orders| && Settling(behaviors, tables[0])
    ensures Settling(behaviors, tables[n]) && Settled(tables[n], n) && SameBares(tables[0], tables[n])
  {
    if n == 0 {
      assert Settled(tables[0], 0) by {
        assert forall k, i :: k in tables[0] && 0 <= i < |tables[0][k]| ==>
          ReadablePath(tables[0][k][i].attrs.pathNodes);
      }
    } else {
      hide Settling, Settled;
      RunSettles(behaviors, tables, orders, n - 1);
      assert Round(behaviors, tables[n - 1], orders[n - 1], tables[n]);
      RoundSettles(behaviors, tables[n - 1], orders[n - 1], n - 1);
      BaresTransitive(tables[0], tables[n - 1], tables[n]);
    }
  }

  /**
   On such a table the number of rounds that change something never exceeds the length of the
   longest path, so convergence always succeeds, whatever the order of visits.
   */
  lemma SettlesInTime(behaviors: Behaviors, tables: seq<RibTable>, orders: seq<seq<RibKey>>, depth: nat)
    requires Run(behaviors, tables, orders) && Settling(behaviors, tables[0]) && DepthOf(tables[0], depth)
    ensures |orders| <= depth
  {
    if |orders| > depth {
      RunSettles(behaviors, tables, orders, depth);
      var t := tables[depth];
      assert Round(behaviors, t, orders[depth], tables[depth + 1]);
      forall q, j | q in t && 0 <= j < |t[q]|
        ensures Depth(t[q][j]) <= depth
      {
        assert Bare(tables[0][q][j]) == Bare(t[q][j]);
      }
      hide Settled, Run;
      QuietKeys(t, depth, orders[depth]);
      assert false;
    }
  }
}
