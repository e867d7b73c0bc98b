/** The control-plane engine: selection and the convergence of advertisement conditions. */
module ControlPlane {
  import opened Conditions
  import opened NormalForms
  import opened Prefixes
  import opened Rib
  import opened Wrappers
  import Sorting
  import Text

  datatype RibKey = RibKey(node: string, vrf: string, prefix: Prefix)

  type RibTable = map<RibKey, seq<RibEntry>>

  type Behaviors = string -> Behavior

  // ---------- one round, as functions of the table ----------

  function SelectAll(behaviors: Behaviors, rib: RibTable): RibTable {
    map k | k in rib :: SelectAt(behaviors(k.node), rib[k])
  }

  /** The candidate that advertised e: same source kind, and e's path without its last node. */
  predicate Advertises(e: RibEntry, candidate: RibEntry)
    requires |e.attrs.pathNodes| >= 2
  {
    && candidate.attrs.kind == e.attrs.kind
    && Text.Join(candidate.attrs.pathNodes, ">") == Text.Join(e.attrs.pathNodes[..|e.attrs.pathNodes| - 1], ">")
  }

  function FirstAdvertiser(routes: seq<RibEntry>, e: RibEntry): Option<RibEntry>
    requires |e.attrs.pathNodes| >= 2
  {
    if routes == [] then None
    else if Advertises(e, routes[0]) then Some(routes[0])
    else FirstAdvertiser(routes[1..], e)
  }

  function ParentKey(e: RibEntry): RibKey {
    RibKey(e.attrs.fromNode, e.attrs.vrf, e.attrs.prefix)
  }

  function ParentRoute(rib: RibTable, e: RibEntry): Option<RibEntry> {
    if e.attrs.fromNode == "" || |e.attrs.pathNodes| < 2 || ParentKey(e) !in rib then None
    else FirstAdvertiser(rib[ParentKey(e)], e)
  }

  function Base(e: RibEntry): Cond {
    if e.base.Some? then e.base.value else e.condition
  }

  /** What the parent hands on: its own condition at the origin, else its selected condition. */
  function HandedOn(p: RibEntry): Cond {
    if |p.attrs.pathNodes| == 1 && (p.attrs.kind.Bgp? || p.attrs.kind.Aggregate?) then p.condition
    else if p.selected.Some? then p.selected.value
    else p.condition
  }

  function NextCond(rib: RibTable, e: RibEntry): Cond {
    if e.attrs.kind.Ospf? || |e.attrs.pathNodes| <= 1 then Base(e)
    else
      match ParentRoute(rib, e)
      case None => False
      case Some(p) => And([Base(e), HandedOn(p)])
  }

  // ---------- tables that differ in conditions only ----------

  ghost predicate SameShape(r: RibTable, s: RibTable) {
    && r.Keys == s.Keys
    && forall k :: k in r ==> |r[k]| == |s[k]| && forall i :: 0 <= i < |r[k]| ==> SameButCondition(r[k][i], s[k][i])
  }

  predicate SameButCondition(e: RibEntry, f: RibEntry) {
    e.attrs == f.attrs && e.base == f.base && e.selected == f.selected
  }

  /** Only OSPF routes may have a different condition. */
  ghost predicate SameButOspf(r: RibTable, s: RibTable) {
    && SameShape(r, s)
    && forall k, i :: k in r && 0 <= i < |r[k]| && !r[k][i].attrs.kind.Ospf? ==> r[k][i] == s[k][i]
  }

  lemma {:induction false} FirstAdvertiserSame(r: seq<RibEntry>, s: seq<RibEntry>, e: RibEntry)
    requires |r| == |s| && |e.attrs.pathNodes| >= 2 && !e.attrs.kind.Ospf?
    requires forall i :: 0 <= i < |r| ==> SameButCondition(r[i], s[i]) && (!r[i].attrs.kind.Ospf? ==> r[i] == s[i])
    ensures FirstAdvertiser(r, e) == FirstAdvertiser(s, e)
  {
    if r != [] {
      FirstAdvertiserSame(r[1..], s[1..], e);
    }
  }

  lemma NextCondSame(r: RibTable, s: RibTable, e: RibEntry)
    requires SameButOspf(r, s) && !e.attrs.kind.Ospf?
    ensures NextCond(r, e) == NextCond(s, e)
  {
    if |e.attrs.pathNodes| >= 2 && ParentKey(e) in r {
      FirstAdvertiserSame(r[ParentKey(e)], s[ParentKey(e)], e);
    }
  }

  /** Every route that is not OSPF has the condition its parent gives it. */
  ghost predicate SelfConsistent(rib: RibTable) {
    forall k, i :: k in rib && 0 <= i < |rib[k]| && !rib[k][i].attrs.kind.Ospf? ==> Consistent(rib, rib[k][i])
  }

  predicate Consistent(rib: RibTable, e: RibEntry) {
    Key(e.condition) == Key(NextCond(rib, e))
  }

  /** OSPF routes carry their base condition. */
  ghost predicate OspfInSync(rib: RibTable) {
    forall k, i :: k in rib && 0 <= i < |rib[k]| && rib[k][i].attrs.kind.Ospf? ==>
      rib[k][i].condition == Base(rib[k][i])
  }

  ghost predicate CleanRib(rib: RibTable) {
    forall k :: k in rib ==> CleanRoutes(rib[k])
  }

  ghost predicate RankableRib(behaviors: Behaviors, rib: RibTable) {
    forall k :: k in rib ==> Rankable(behaviors(k.node), rib[k])
  }

  ghost predicate DistinctRib(rib: RibTable) {
    forall k :: k in rib ==> DistinctRoutes(rib[k])
  }

  /** Every selected condition is the one that selection gives its route where it stands. */
  ghost predicate Chosen(behaviors: Behaviors, rib: RibTable) {
    forall k :: k in rib ==> Select(behaviors(k.node), rib[k]) == rib[k]
  }

  /** At every prefix there are at most twelve routes, or the decision ranks them. */
  ghost predicate SortableRib(behaviors: Behaviors, rib: RibTable) {
    forall k :: k in rib ==> Sortable(behaviors(k.node), rib[k])
  }

  /** No route is preferred to the one just before it. */
  ghost predicate Ordered(behaviors: Behaviors, rib: RibTable) {
    forall k :: k in rib ==> Sorting.NoInversion(rib[k], Rank(behaviors(k.node)))
  }

  lemma SelectAllChosen(behaviors: Behaviors, rib: RibTable)
    ensures Chosen(behaviors, SelectAll(behaviors, rib))
  {
    hide Arranged, Select;
    forall k | k in rib
      ensures Select(behaviors(k.node), SelectAt(behaviors(k.node), rib[k])) == SelectAt(behaviors(k.node), rib[k])
    {
      SelectTwice(behaviors(k.node), Arranged(behaviors(k.node), rib[k]));
    }
  }

  /**
   Selecting again leaves a table alone exactly when it is as selection chose it and no route is
   preferred to the one before.
   */
  lemma TableStableExactly(behaviors: Behaviors, rib: RibTable)
    requires DistinctRib(rib) && SortableRib(behaviors, rib)
    ensures SelectAll(behaviors, rib) == rib <==> Chosen(behaviors, rib) && Ordered(behaviors, rib)
  {
    hide SelectAt, Select, Sorting.NoInversion, DistinctRoutes, Sortable;
    forall k | k in rib
      ensures SelectAt(behaviors(k.node), rib[k]) == rib[k] <==>
        Select(behaviors(k.node), rib[k]) == rib[k] && Sorting.NoInversion(rib[k], Rank(behaviors(k.node)))
    {
      SelectFixpoint(behaviors(k.node), rib[k]);
    }
    if Chosen(behaviors, rib) && Ordered(behaviors, rib) {
      assert forall k :: k in rib ==> SelectAll(behaviors, rib)[k] == rib[k];
    }
    if SelectAll(behaviors, rib) == rib {
      assert forall k :: k in rib ==> SelectAt(behaviors(k.node), rib[k]) == rib[k];
    }
  }

  lemma NextCondClean(rib: RibTable, e: RibEntry)
    requires CleanRib(rib) && CleanEntry(e)
    ensures Clean(NextCond(rib, e))
  {
    if |e.attrs.pathNodes| >= 2 && ParentRoute(rib, e).Some? {
      var p := ParentRoute(rib, e).value;
      FirstAdvertiserIn(rib[ParentKey(e)], e);
      assert CleanEntry(p);
      FlattenClean(AndOp, [Base(e), HandedOn(p)]);
    }
  }

  lemma {:induction false} FirstAdvertiserIn(routes: seq<RibEntry>, e: RibEntry)
    requires |e.attrs.pathNodes| >= 2
    ensures FirstAdvertiser(routes, e).Some? ==>
      FirstAdvertiser(routes, e).value in routes && Advertises(e, FirstAdvertiser(routes, e).value)
  {
    if routes != [] {
      FirstAdvertiserIn(routes[1..], e);
    }
  }

  // ---------- one update in place ----------

  /** The routes already visited: all at the keys done, the first i at the current key. */
  ghost predicate Visited(rib: RibTable, todo: set<RibKey>, cur: RibKey, i: int, k: RibKey, j: int) {
    k in rib && 0 <= j < |rib[k]| && (if k == cur then j < i else k !in todo)
  }

  /** What holds part way through ApplyAdvertisementConditions. */
  ghost predicate Partway(start: RibTable, rib: RibTable, todo: set<RibKey>, cur: RibKey, i: int, changed: bool) {
    && SameShape(start, rib)
    && (forall k, j :: Visited(rib, todo, cur, i, k, j) && rib[k][j].attrs.kind.Ospf? ==>
      rib[k][j].condition == Base(rib[k][j]))
    && (!changed ==> SameButOspf(start, rib))
    && (!changed ==> forall k, j :: Visited(rib, todo, cur, i, k, j) && !rib[k][j].attrs.kind.Ospf? ==>
      Consistent(start, rib[k][j]))
    && (!changed && OspfInSync(start) ==> rib == start)
  }

  function Place(rib: RibTable, k: RibKey, i: nat, e: RibEntry): RibTable
    requires k in rib && i < |rib[k]|
  {
    rib[k := rib[k][i := e]]
  }

  lemma PlaceShape(start: RibTable, rib: RibTable, k: RibKey, i: nat, e: RibEntry)
    requires SameShape(start, rib) && k in rib && i < |rib[k]| && SameButCondition(rib[k][i], e)
    ensures SameShape(start, Place(rib, k, i, e))
  {
  }

  lemma PlaceNothing(rib: RibTable, k: RibKey, i: nat)
    requires k in rib && i < |rib[k]|
    ensures Place(rib, k, i, rib[k][i]) == rib
  {
    assert rib[k][i := rib[k][i]] == rib[k];
  }

  lemma VisitedStep(rib: RibTable, todo: set<RibKey>, cur: RibKey, i: nat, e: RibEntry)
    requires cur in rib && i < |rib[cur]|
    ensures forall k, j :: Visited(Place(rib, cur, i, e), todo, cur, i + 1, k, j) <==>
      (k, j) == (cur, i) || Visited(rib, todo, cur, i, k, j)
  {
  }

  lemma OspfStep(start: RibTable, rib: RibTable, todo: set<RibKey>, cur: RibKey, i: nat, changed: bool)
    requires Partway(start, rib, todo, cur, i, changed) && cur in rib && i < |rib[cur]| && rib[cur][i].attrs.kind.Ospf?
    ensures Partway(start, Place(rib, cur, i, rib[cur][i].(condition := Base(rib[cur][i]))), todo, cur, i + 1, changed)
  {
    var e := rib[cur][i].(condition := Base(rib[cur][i]));
    PlaceShape(start, rib, cur, i, e);
    VisitedStep(rib, todo, cur, i, e);
    if !changed {
      PlaceSameButOspf(start, rib, cur, i, e);
      if OspfInSync(start) {
        PlaceNothing(rib, cur, i);
      }
    }
    hide Visited, SameShape, SameButOspf, Consistent, OspfInSync;
  }

  lemma PlaceSameButOspf(start: RibTable, rib: RibTable, k: RibKey, i: nat, e: RibEntry)
    requires SameButOspf(start, rib) && k in rib && i < |rib[k]| && rib[k][i].attrs.kind.Ospf?
    requires SameButCondition(rib[k][i], e)
    ensures SameButOspf(start, Place(rib, k, i, e))
  {
  }

  lemma KeepStep(start: RibTable, rib: RibTable, todo: set<RibKey>, cur: RibKey, i: nat, changed: bool)
    requires Partway(start, rib, todo, cur, i, changed) && cur in rib && i < |rib[cur]| && !rib[cur][i].attrs.kind.Ospf?
    requires Consistent(rib, rib[cur][i])
    ensures Partway(start, rib, todo, cur, i + 1, changed)
  {
    if !changed {
      NextCondSame(start, rib, rib[cur][i]);
    }
    forall k, j | Visited(rib, todo, cur, i + 1, k, j)
      ensures (k, j) == (cur, i) || Visited(rib, todo, cur, i, k, j)
    {
    }
  }

  lemma ChangeStep(start: RibTable, rib: RibTable, todo: set<RibKey>, cur: RibKey, i: nat, changed: bool, c: Cond)
    requires Partway(start, rib, todo, cur, i, changed) && cur in rib && i < |rib[cur]| && !rib[cur][i].attrs.kind.Ospf?
    ensures Partway(start, Place(rib, cur, i, rib[cur][i].(condition := c)), todo, cur, i + 1, true)
  {
    PlaceShape(start, rib, cur, i, rib[cur][i].(condition := c));
    VisitedStep(rib, todo, cur, i, rib[cur][i].(condition := c));
    hide Visited;
  }

  lemma NextKey(start: RibTable, rib: RibTable, todo: set<RibKey>, cur: RibKey, changed: bool, next: RibKey)
    requires cur in rib && cur in todo && next in todo - {cur}
    requires Partway(start, rib, todo, cur, |rib[cur]|, changed)
    ensures Partway(start, rib, todo - {cur}, next, 0, changed)
  {
    forall k, j | Visited(rib, todo - {cur}, next, 0, k, j)
      ensures Visited(rib, todo, cur, |rib[cur]|, k, j)
    {
    }
  }

  lemma AllVisited(start: RibTable, rib: RibTable, todo: set<RibKey>, cur: RibKey, changed: bool)
    requires cur in rib && todo == {cur} && Partway(start, rib, todo, cur, |rib[cur]|, changed)
    ensures SameShape(start, rib) && OspfInSync(rib)
    ensures !changed ==> SameButOspf(start, rib) && SelfConsistent(rib)
    ensures !changed && OspfInSync(start) ==> rib == start
  {
    forall k, i | k in rib && 0 <= i < |rib[k]|
      ensures Visited(rib, todo, cur, |rib[cur]|, k, i)
    {
    }
    if !changed {
      forall k, i | k in rib && 0 <= i < |rib[k]| && !rib[k][i].attrs.kind.Ospf?
        ensures Consistent(rib, rib[k][i])
      {
        assert Visited(rib, todo, cur, |rib[cur]|, k, i);
        NextCondSame(start, rib, rib[k][i]);
      }
    }
  }

  lemma PlaceClean(rib: RibTable, k: RibKey, i: nat)
    requires k in rib && i < |rib[k]|
    ensures CleanRib(rib) ==> CleanRib(Place(rib, k, i, rib[k][i].(condition := NextCond(rib, rib[k][i]))))
  {
    if CleanRib(rib) {
      NextCondClean(rib, rib[k][i]);
    }
  }

  lemma SameShapeRankable(behaviors: Behaviors, r: RibTable, s: RibTable)
    requires SameShape(r, s) && RankableRib(behaviors, r)
    ensures RankableRib(behaviors, s)
  {
    forall k | k in s
      ensures Rankable(behaviors(k.node), s[k])
    {
      var b := behaviors(k.node);
      assert Rankable(b, r[k]);
      assert forall i :: 0 <= i < |r[k]| ==> SameButCondition(r[k][i], s[k][i]);
      SortableAlike(b, r[k], s[k]);
      hide Sortable;
      forall i, j | 0 <= i < |s[k]| && 0 <= j < |s[k]| && i != j && Rank(b)(s[k][i], s[k][j])
        ensures !Rank(b)(s[k][j], s[k][i])
      {
        assert SameButCondition(r[k][i], s[k][i]) && SameButCondition(r[k][j], s[k][j]);
        assert Rank(b)(r[k][i], r[k][j]);
      }
    }
  }

  lemma SelectAllKeeps(behaviors: Behaviors, rib: RibTable)
    ensures CleanRib(rib) ==> CleanRib(SelectAll(behaviors, rib))
    ensures RankableRib(behaviors, rib) ==>
      RankableRib(behaviors, SelectAll(behaviors, rib))
        && SelectAll(behaviors, SelectAll(behaviors, rib)) == SelectAll(behaviors, rib)
    ensures OspfInSync(rib) ==> OspfInSync(SelectAll(behaviors, rib))
  {
    hide SelectAt, CleanRoutes, Rankable;
    forall k | k in rib
      ensures CleanRoutes(rib[k]) ==> CleanRoutes(SelectAt(behaviors(k.node), rib[k]))
      ensures Rankable(behaviors(k.node), rib[k]) ==>
        && Rankable(behaviors(k.node), SelectAt(behaviors(k.node), rib[k]))
        && SelectAt(behaviors(k.node), SelectAt(behaviors(k.node), rib[k])) == SelectAt(behaviors(k.node), rib[k])
    {
      if CleanRoutes(rib[k]) {
        SelectKeepsClean(behaviors(k.node), rib[k]);
      }
      if Rankable(behaviors(k.node), rib[k]) {
        SelectKeepsRankable(behaviors(k.node), rib[k]);
        SelectAgain(behaviors(k.node), rib[k]);
      }
    }
    SelectAllInSync(behaviors, rib);
  }

  lemma SelectAllInSync(behaviors: Behaviors, rib: RibTable)
    ensures OspfInSync(rib) ==> OspfInSync(SelectAll(behaviors, rib))
  {
    if OspfInSync(rib) {
      forall k, i | k in rib && 0 <= i < |rib[k]| && SelectAll(behaviors, rib)[k][i].attrs.kind.Ospf?
        ensures SelectAll(behaviors, rib)[k][i].condition == Base(SelectAll(behaviors, rib)[k][i])
      {
        var s := Arranged(behaviors(k.node), rib[k]);
        ArrangedPermutes(behaviors(k.node), rib[k]);
        assert s[i] in s && s[i] in rib[k];
        var j :| 0 <= j < |rib[k]| && rib[k][j] == s[i];
      }
    }
  }

  // ---------- one pass, for a given order of visits ----------

  /** One route recomputed in place, and whether it counts as changed. */
  function ApplyEntry(rib: RibTable, k: RibKey, i: nat): (r: (RibTable, bool))
    requires k in rib && i < |rib[k]|
    ensures r.0.Keys == rib.Keys && forall q :: q in rib ==> |r.0[q]| == |rib[q]|
  {
    var e := rib[k][i];
    var nextCond := NextCond(rib, e);
    if e.attrs.kind.Ospf? then (Place(rib, k, i, e.(condition := nextCond)), false)
    else if Key(e.condition) != Key(nextCond) then (Place(rib, k, i, e.(condition := nextCond)), true)
    else (rib, false)
  }

  /** The first i routes of one prefix, one after the other. */
  function ApplyEntries(rib: RibTable, k: RibKey, i: nat): (r: (RibTable, bool))
    requires k in rib && i <= |rib[k]|
    ensures r.0.Keys == rib.Keys && forall q :: q in rib ==> |r.0[q]| == |rib[q]|
  {
    if i == 0 then (rib, false)
    else
      var (before, changed) := ApplyEntries(rib, k, i - 1);
      var (after, more) := ApplyEntry(before, k, i - 1);
      (after, changed || more)
  }

  /** ApplyAdvertisementConditions when the prefixes are visited in the given order. */
  function ApplyKeys(rib: RibTable, order: seq<RibKey>): (r: (RibTable, bool))
    requires forall k :: k in order ==> k in rib
    ensures r.0.Keys == rib.Keys
  {
    if order == [] then (rib, false)
    else
      var (before, changed) := ApplyKeys(rib, order[..|order| - 1]);
      var k := order[|order| - 1];
      var (after, more) := ApplyEntries(before, k, |before[k]|);
      (after, changed || more)
  }

  /** Every key once. */
  ghost predicate OrderOf(order: seq<RibKey>, rib: RibTable) {
    Sorting.NoDuplicates(order) && forall k :: k in order <==> k in rib
  }

  lemma ApplyKeysStep(rib: RibTable, order: seq<RibKey>, k: RibKey)
    requires (forall q :: q in order ==> q in rib) && k in rib
    ensures
      var (before, changed) := ApplyKeys(rib, order);
      var (after, more) := ApplyEntries(before, k, |before[k]|);
      ApplyKeys(rib, order + [k]) == (after, changed || more)
  {
    assert (order + [k])[..|order|] == order;
  }

  lemma OrderGrows(order: seq<RibKey>, k: RibKey, all: set<RibKey>, todo: set<RibKey>)
    requires Sorting.NoDuplicates(order) && (forall q :: q in order <==> q in all - todo) && k in todo && todo <= all
    ensures Sorting.NoDuplicates(order + [k]) && forall q :: q in order + [k] <==> q in all - (todo - {k})
  {
    assert k !in order;
    forall i, j | 0 <= i < j < |order + [k]|
      ensures (order + [k])[i] != (order + [k])[j]
    {
      assert (order + [k])[i] in order;
    }
  }

  // ---------- what a pass establishes ----------

  lemma EntryPartway(start: RibTable, rib: RibTable, todo: set<RibKey>, k: RibKey, i: nat, changed: bool)
    requires k in rib && i < |rib[k]| && Partway(start, rib, todo, k, i, changed)
    ensures
      var (after, more) := ApplyEntry(rib, k, i);
      Partway(start, after, todo, k, i + 1, changed || more) && (CleanRib(rib) ==> CleanRib(after))
  {
    var e := rib[k][i];
    PlaceClean(rib, k, i);
    hide Partway, CleanRib, NextCond, Place;
    if e.attrs.kind.Ospf? {
      OspfBase(rib, e);
      OspfStep(start, rib, todo, k, i, changed);
    } else if Key(e.condition) != Key(NextCond(rib, e)) {
      ChangeStep(start, rib, todo, k, i, changed, NextCond(rib, e));
    } else {
      KeepStep(start, rib, todo, k, i, changed);
    }
  }

  lemma {:induction false} EntriesPartway(start: RibTable, rib: RibTable, todo: set<RibKey>, k: RibKey, i: nat,
                                          changed: bool)
    requires k in rib && i <= |rib[k]| && Partway(start, rib, todo, k, 0, changed)
    ensures
      var (after, more) := ApplyEntries(rib, k, i);
      Partway(start, after, todo, k, i, changed || more) && (CleanRib(rib) ==> CleanRib(after))
  {
    hide Partway, CleanRib, ApplyEntry;
    if i > 0 {
      EntriesPartway(start, rib, todo, k, i - 1, changed);
      var (before, more) := ApplyEntries(rib, k, i - 1);
      EntryPartway(start, before, todo, k, i - 1, changed || more);
    }
  }

  lemma OspfBase(rib: RibTable, e: RibEntry)
    requires e.attrs.kind.Ospf?
    ensures NextCond(rib, e) == Base(e)
  {
  }

  lemma {:induction false} KeysPartway(start: RibTable, order: seq<RibKey>, next: RibKey)
    requires Sorting.NoDuplicates(order) && (forall k :: k in order ==> k in start) && next in start && next !in order
    ensures
      var (after, changed) := ApplyKeys(start, order);
      Partway(start, after, start.Keys - Sorting.Members(order), next, 0, changed)
        && (CleanRib(start) ==> CleanRib(after))
  {
    if order == [] {
      NothingApplied(start, start.Keys, next);
      assert start.Keys - Sorting.Members([]) == start.Keys;
    } else {
      var init, k := order[..|order| - 1], order[|order| - 1];
      assert order == init + [k] && k !in init;
      KeysPartway(start, init, k);
      var (before, changed) := ApplyKeys(start, init);
      EntriesPartway(start, before, start.Keys - Sorting.Members(init), k, |before[k]|, changed);
      var (after, more) := ApplyEntries(before, k, |before[k]|);
      hide Partway, CleanRib, ApplyEntries;
      NextKey(start, after, start.Keys - Sorting.Members(init), k, changed || more, next);
      assert start.Keys - Sorting.Members(init) - {k} == start.Keys - Sorting.Members(order);
    }
  }

  /**
   A pass keeps the routes, brings every OSPF route back to its base condition, and when it
   reports no change every other route already had the condition its parent gives it.
   */
  lemma PassDone(start: RibTable, order: seq<RibKey>)
    requires OrderOf(order, start)
    ensures
      var (after, changed) := ApplyKeys(start, order);
      && SameShape(start, after) && OspfInSync(after)
      && (!changed ==> SameButOspf(start, after) && SelfConsistent(after))
      && (!changed && OspfInSync(start) ==> after == start)
      && (CleanRib(start) ==> CleanRib(after))
  {
    if order == [] {
      assert start.Keys == {};
    } else {
      var init, k := order[..|order| - 1], order[|order| - 1];
      assert order == init + [k] && k !in init;
      KeysPartway(start, init, k);
      var (before, changed) := ApplyKeys(start, init);
      assert start.Keys - Sorting.Members(init) == {k};
      EntriesPartway(start, before, {k}, k, |before[k]|, changed);
      var (after, more) := ApplyEntries(before, k, |before[k]|);
      hide Partway, CleanRib, ApplyEntries;
      AllVisited(start, after, {k}, k, changed || more);
    }
  }

  /** A round: a pass, then selection. */
  function AfterRound(behaviors: Behaviors, rib: RibTable, order: seq<RibKey>): RibTable
    requires forall k :: k in order ==> k in rib
  {
    SelectAll(behaviors, ApplyKeys(rib, order).0)
  }

  ghost predicate Round(behaviors: Behaviors, before: RibTable, order: seq<RibKey>, after: RibTable) {
    OrderOf(order, before) && ApplyKeys(before, order).1 && after == AfterRound(behaviors, before, order)
  }

  /** A run: each table comes from the one before by a round whose pass changed something. */
  ghost predicate Run(behaviors: Behaviors, tables: seq<RibTable>, orders: seq<seq<RibKey>>) {
    |tables| == |orders| + 1 && forall i :: 0 <= i < |orders| ==> Round(behaviors, tables[i], orders[i], tables[i + 1])
  }

  lemma RunStep(behaviors: Behaviors, tables: seq<RibTable>, orders: seq<seq<RibKey>>, order: seq<RibKey>)
    requires Run(behaviors, tables, orders)
    requires OrderOf(order, tables[|orders|]) && ApplyKeys(tables[|orders|], order).1
    ensures Run(behaviors, tables + [AfterRound(behaviors, tables[|orders|], order)], orders + [order])
  {
    assert Round(behaviors, tables[|orders|], order, AfterRound(behaviors, tables[|orders|], order));
    hide Round, OrderOf, ApplyKeys, AfterRound;
  }

  /** How convergence ends: with a pass that changes nothing, or after a last round that did change something. */
  ghost predicate Ended(behaviors: Behaviors, tables: seq<RibTable>, orders: seq<seq<RibKey>>, last: seq<RibKey>,
                        converged: bool, end: RibTable) {
    Run(behaviors, tables, orders) && if converged then Quiet(tables[|orders|], last, end) else end == tables[|orders|]
  }

  ghost predicate Quiet(before: RibTable, order: seq<RibKey>, after: RibTable) {
    OrderOf(order, before) && ApplyKeys(before, order) == (after, false)
  }

  // ---------- routes are neither lost nor made up ----------

  /** The same routes at every prefix, in whatever order and with whatever conditions. */
  ghost predicate SameRouteSets(r: RibTable, s: RibTable) {
    r.Keys == s.Keys && forall k :: k in r ==> multiset(Bares(r[k])) == multiset(Bares(s[k]))
  }

  lemma SelectAllSameRoutes(behaviors: Behaviors, rib: RibTable)
    ensures SameRouteSets(rib, SelectAll(behaviors, rib))
  {
    hide SelectAt;
    forall k | k in rib
      ensures multiset(Bares(rib[k])) == multiset(Bares(SelectAll(behaviors, rib)[k]))
    {
      SelectBares(behaviors(k.node), rib[k]);
    }
  }

  lemma SameShapeSameRoutes(r: RibTable, s: RibTable)
    requires SameShape(r, s)
    ensures SameRouteSets(r, s)
  {
    forall k | k in r
      ensures Bares(r[k]) == Bares(s[k])
    {
    }
  }

  lemma SameRoutesTransitive(r: RibTable, s: RibTable, t: RibTable)
    requires SameRouteSets(r, s) && SameRouteSets(s, t)
    ensures SameRouteSets(r, t)
  {
  }

  lemma DistinctStays(r: RibTable, s: RibTable)
    requires SameRouteSets(r, s) && DistinctRib(r)
    ensures DistinctRib(s)
  {
    hide DistinctRoutes;
    forall k | k in s
      ensures DistinctRoutes(s[k])
    {
      DistinctPermutes(r[k], s[k]);
    }
  }

  lemma SortableStays(behaviors: Behaviors, r: RibTable, s: RibTable)
    requires SameRouteSets(r, s) && SortableRib(behaviors, r)
    ensures SortableRib(behaviors, s)
  {
    hide Sortable;
    forall k | k in s
      ensures Sortable(behaviors(k.node), s[k])
    {
      SortableBares(behaviors(k.node), r[k], s[k]);
    }
  }

  /** The length of the longest path. */
  ghost predicate DepthOf(rib: RibTable, depth: nat) {
    && (forall k, i :: k in rib && 0 <= i < |rib[k]| ==> |rib[k][i].attrs.pathNodes| <= depth)
    && (depth == 0 || exists k, i :: k in rib && 0 <= i < |rib[k]| && |rib[k][i].attrs.pathNodes| == depth)
  }

  lemma DepthUnique(rib: RibTable, depth: nat)
    requires DepthOf(rib, depth)
    ensures forall d: nat :: DepthOf(rib, d) ==> d == depth
  {
  }

  lemma NothingApplied(start: RibTable, todo: set<RibKey>, k: RibKey)
    requires todo == start.Keys && k in todo
    ensures Partway(start, start, todo, k, 0, false) && ApplyKeys(start, []) == (start, false)
  {
  }

  // ---------- what convergence keeps and establishes ----------

  /** What each round keeps of the table it started from. */
  ghost predicate Kept(behaviors: Behaviors, rib: RibTable, end: RibTable) {
    && SameRouteSets(rib, end)
    && (RankableRib(behaviors, rib) ==> RankableRib(behaviors, end))
    && (RankableRib(behaviors, rib) && SelectAll(behaviors, rib) == rib ==> SelectAll(behaviors, end) == end)
    && (Chosen(behaviors, rib) ==> Chosen(behaviors, end))
    && (OspfInSync(rib) ==> OspfInSync(end))
    && (CleanRib(rib) ==> CleanRib(end))
  }

  lemma KeptTransitive(behaviors: Behaviors, a: RibTable, b: RibTable, c: RibTable)
    requires Kept(behaviors, a, b) && Kept(behaviors, b, c)
    ensures Kept(behaviors, a, c)
  {
    hide SameRouteSets, RankableRib, SelectAll, OspfInSync, CleanRib, Chosen;
    SameRoutesTransitive(a, b, c);
  }

  lemma RoundKeeps(behaviors: Behaviors, before: RibTable, order: seq<RibKey>, after: RibTable)
    requires Round(behaviors, before, order, after)
    ensures Kept(behaviors, before, after)
  {
    PassDone(before, order);
    var passed := ApplyKeys(before, order).0;
    hide SelectAll, OspfInSync, CleanRib, RankableRib, Chosen, SelfConsistent, SameButOspf, SameShape, SameRouteSets,
        ApplyKeys, OrderOf;
    SelectAllChosen(behaviors, passed);
    SameShapeSameRoutes(before, passed);
    SelectAllSameRoutes(behaviors, passed);
    SameRoutesTransitive(before, passed, after);
    if RankableRib(behaviors, before) {
      SameShapeRankable(behaviors, before, passed);
    }
    SelectAllKeeps(behaviors, passed);
  }

  lemma {:induction false} RunKeeps(behaviors: Behaviors, tables: seq<RibTable>, orders: seq<seq<RibKey>>, n: nat)
    requires Run(behaviors, tables, orders) && n <= |orders|
    ensures Kept(behaviors, tables[0], tables[n])
  {
    hide Kept, Round;
    if n == 0 {
      KeptItself(behaviors, tables[0]);
    } else {
      RunKeeps(behaviors, tables, orders, n - 1);
      RoundKeeps(behaviors, tables[n - 1], orders[n - 1], tables[n]);
      KeptTransitive(behaviors, tables[0], tables[n - 1], tables[n]);
    }
  }

  lemma KeptItself(behaviors: Behaviors, rib: RibTable)
    ensures Kept(behaviors, rib, rib)
  {
  }

  /**
   Successful convergence is self-consistent. If the OSPF routes started at their base, all
   selected conditions are those of the final table; and selecting again changes nothing, as
   long as the decision never prefers two routes to each other.
   */
  lemma EndedKeeps(behaviors: Behaviors, tables: seq<RibTable>, orders: seq<seq<RibKey>>, last: seq<RibKey>,
                   converged: bool, end: RibTable)
    requires Ended(behaviors, tables, orders, last, converged, end)
    ensures SameRouteSets(tables[0], end) && (CleanRib(tables[0]) ==> CleanRib(end))
    ensures converged ==> SelfConsistent(end) && OspfInSync(end)
    ensures converged && OspfInSync(tables[0]) && RankableRib(behaviors, tables[0]) ==>
      (SelectAll(behaviors, tables[0]) == tables[0] ==> SelectAll(behaviors, end) == end)
    ensures converged && Chosen(behaviors, tables[0]) && OspfInSync(tables[0]) ==> Chosen(behaviors, end)
  {
    hide SelectAll, OspfInSync, CleanRib, RankableRib, Chosen, SelfConsistent, SameButOspf, SameShape, SameRouteSets,
        ApplyKeys, OrderOf;
    RunKeeps(behaviors, tables, orders, |orders|);
    if converged {
      PassDone(tables[|orders|], last);
      SameShapeSameRoutes(tables[|orders|], end);
      SameRoutesTransitive(tables[0], tables[|orders|], end);
    }
  }
}
