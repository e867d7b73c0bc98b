/** What a converged table means: every live route is advertised, hop by hop, from a live origin. */
module RouteSupport {
  import opened Conditions
  import opened Conjunctions
  import opened ControlPlane
  import opened Failure
  import opened Rib
  import opened Wrappers
  import Sorting
  import Text

  /** A route is live exactly when its own base condition holds and so does what its parent hands on. */
  lemma LiveExactly(rib: RibTable, k: RibKey, i: nat, ctx: Context)
    requires SelfConsistent(rib) && CleanRib(rib) && k in rib && i < |rib[k]| && !rib[k][i].attrs.kind.Ospf?
    ensures
      var e := rib[k][i];
      Live(e, ctx) <==>
        if |e.attrs.pathNodes| <= 1 then Eval(Base(e), ctx)
        else ParentRoute(rib, e).Some? && Eval(Base(e), ctx) && Eval(HandedOn(ParentRoute(rib, e).value), ctx)
  {
    var e := rib[k][i];
    assert CleanRoutes(rib[k]) && CleanEntry(e);
    assert Consistent(rib, e);
    NextCondClean(rib, e);
    KeyInjective(e.condition, NextCond(rib, e));
    if |e.attrs.pathNodes| >= 2 && ParentRoute(rib, e).Some? {
      var p := ParentRoute(rib, e).value;
      FirstAdvertiserIn(rib[ParentKey(e)], e);
      assert CleanRoutes(rib[ParentKey(e)]) && CleanEntry(p);
      AndTwo(Base(e), HandedOn(p), ctx);
    }
  }

  /** Paths that can be read back from their joined text. */
  ghost predicate ReadablePaths(rib: RibTable) {
    forall k, i :: k in rib && 0 <= i < |rib[k]| ==> ReadablePath(rib[k][i].attrs.pathNodes)
  }

  predicate ReadablePath(nodes: seq<string>) {
    nodes != [] && forall i :: 0 <= i < |nodes| ==> '>' !in nodes[i]
  }

  /** The advertiser's path is the route's path without its last node. */
  lemma AdvertiserPath(e: RibEntry, p: RibEntry)
    requires |e.attrs.pathNodes| >= 2 && Advertises(e, p) && ReadablePath(e.attrs.pathNodes)
    requires ReadablePath(p.attrs.pathNodes)
    ensures p.attrs.kind == e.attrs.kind && p.attrs.pathNodes == e.attrs.pathNodes[..|e.attrs.pathNodes| - 1]
  {
    Text.JoinInjective('>', p.attrs.pathNodes, e.attrs.pathNodes[..|e.attrs.pathNodes| - 1]);
  }

  /** The parent passes the route on: it is selected, or is itself the origin of a BGP route. */
  predicate PassesOn(p: RibEntry, ctx: Context) {
    IsSelected(p, ctx) || (|p.attrs.pathNodes| == 1 && (p.attrs.kind.Bgp? || p.attrs.kind.Aggregate?))
  }

  /** The routes of the sender, in the route's own instance and prefix. */
  function SenderKey(e: RibEntry): RibKey {
    RibKey(e.attrs.fromNode, e.attrs.vrf, e.attrs.prefix)
  }

  /** A chain of live routes, each passed on by the one before, back to a route whose path is a single node. */
  ghost predicate Supported(rib: RibTable, e: RibEntry, ctx: Context)
    decreases |e.attrs.pathNodes|
  {
    && Live(e, ctx) && Eval(Base(e), ctx)
    && (|e.attrs.pathNodes| <= 1 ||
      exists p :: (
        && SenderKey(e) in rib && p in rib[SenderKey(e)]
        && p.attrs.kind == e.attrs.kind && p.attrs.pathNodes == e.attrs.pathNodes[..|e.attrs.pathNodes| - 1]
        && PassesOn(p, ctx) && Supported(rib, p, ctx)))
  }

  /** Where the selected conditions are those of the table, what is selected is live. */
  lemma SelectedIsLive(behaviors: Behaviors, rib: RibTable, k: RibKey, i: nat, ctx: Context)
    requires Chosen(behaviors, rib) && CleanRib(rib) && k in rib && i < |rib[k]| && IsSelected(rib[k][i], ctx)
    ensures Live(rib[k][i], ctx)
  {
    assert CleanRoutes(rib[k]);
    assert rib[k] == Select(behaviors(k.node), rib[k]);
    SelectedExactly(behaviors(k.node), rib[k], i, ctx);
  }

  lemma SelectedExists(behaviors: Behaviors, rib: RibTable, k: RibKey, i: nat)
    requires Chosen(behaviors, rib) && k in rib && i < |rib[k]|
    ensures rib[k][i].selected.Some?
  {
    assert rib[k] == Select(behaviors(k.node), rib[k]);
  }

  /**
   No phantom routes: in a table that is self-consistent and whose selected conditions are its
   own, a route that is live in a context is supported there by live routes all the way back.
   */
  lemma {:induction false} NoPhantomRoutes(behaviors: Behaviors, rib: RibTable, k: RibKey, i: nat, ctx: Context)
    requires SelfConsistent(rib) && Chosen(behaviors, rib) && CleanRib(rib) && ReadablePaths(rib)
    requires k in rib && i < |rib[k]| && !rib[k][i].attrs.kind.Ospf? && Live(rib[k][i], ctx)
    ensures Supported(rib, rib[k][i], ctx)
    decreases |rib[k][i].attrs.pathNodes|
  {
    hide SelfConsistent, CleanRib, Chosen, Live;
    var e := rib[k][i];
    LiveExactly(rib, k, i, ctx);
    if |e.attrs.pathNodes| > 1 {
      var q, p := ParentKey(e), ParentRoute(rib, e).value;
      FirstAdvertiserIn(rib[q], e);
      var j :| 0 <= j < |rib[q]| && rib[q][j] == p;
      AdvertiserPath(e, p);
      SelectedExists(behaviors, rib, q, j);
      ParentLive(behaviors, rib, q, j, ctx);
      NoPhantomRoutes(behaviors, rib, q, j, ctx);
    }
  }

  // ---------- routes that have a parent are alive through it ----------

  /** p is of the kind of e and its path is e's without the last node. */
  predicate ParentOf(e: RibEntry, p: RibEntry) {
    && |e.attrs.pathNodes| >= 2 && p.attrs.kind == e.attrs.kind
    && p.attrs.pathNodes == e.attrs.pathNodes[..|e.attrs.pathNodes| - 1]
  }

  /** The first parent of e among the routes of its sender, in e's own instance and prefix. */
  ghost predicate FirstParent(rib: RibTable, e: RibEntry, m: nat) {
    && e.attrs.fromNode != "" && SenderKey(e) in rib && m < |rib[SenderKey(e)]|
    && ParentOf(e, rib[SenderKey(e)][m])
    && forall j :: 0 <= j < m ==> !ParentOf(e, rib[SenderKey(e)][j])
  }

  /** What a parent passes on: a BGP origin its route, any other what selection leaves of it. */
  predicate PassedOn(p: RibEntry, ctx: Context) {
    if |p.attrs.pathNodes| == 1 && (p.attrs.kind == Bgp || p.attrs.kind == Aggregate) then Live(p, ctx)
    else if p.selected.Some? then Eval(p.selected.value, ctx)
    else Live(p, ctx)
  }

  lemma {:induction false} FirstAdvertiserAt(routes: seq<RibEntry>, e: RibEntry) returns (m: nat)
    requires |e.attrs.pathNodes| >= 2 && ReadablePath(e.attrs.pathNodes)
    requires forall i :: 0 <= i < |routes| ==> ReadablePath(routes[i].attrs.pathNodes)
    ensures m <= |routes| && forall j :: 0 <= j < m ==> !ParentOf(e, routes[j])
    ensures m < |routes| ==> ParentOf(e, routes[m]) && FirstAdvertiser(routes, e) == Some(routes[m])
    ensures m == |routes| ==> FirstAdvertiser(routes, e).None?
  {
    m := 0;
    if routes != [] {
      ParentExactly(e, routes[0]);
      if !Advertises(e, routes[0]) {
        assert forall i :: 0 <= i < |routes[1..]| ==> routes[1..][i] == routes[i + 1];
        m := FirstAdvertiserAt(routes[1..], e);
        m := m + 1;
        assert forall j :: 0 < j < m ==> routes[j] == routes[1..][j - 1];
      }
    }
  }

  /** Comparing joined texts finds the parents, and only them. */
  lemma ParentExactly(e: RibEntry, p: RibEntry)
    requires |e.attrs.pathNodes| >= 2 && ReadablePath(e.attrs.pathNodes) && ReadablePath(p.attrs.pathNodes)
    ensures Advertises(e, p) <==> ParentOf(e, p)
  {
    if Advertises(e, p) {
      AdvertiserPath(e, p);
    }
  }

  /** The parent found is the first one; none is found only if there is none. */
  lemma ParentFound(rib: RibTable, e: RibEntry)
    requires ReadablePaths(rib) && ReadablePath(e.attrs.pathNodes)
    ensures ParentRoute(rib, e).None? ==> forall m: nat :: !FirstParent(rib, e, m)
    ensures ParentRoute(rib, e).Some? ==>
      exists m: nat :: FirstParent(rib, e, m) && ParentRoute(rib, e) == Some(rib[SenderKey(e)][m])
    ensures forall m: nat :: FirstParent(rib, e, m) ==> ParentRoute(rib, e) == Some(rib[SenderKey(e)][m])
  {
    if e.attrs.fromNode != "" && |e.attrs.pathNodes| >= 2 && SenderKey(e) in rib {
      var m := FirstAdvertiserAt(rib[SenderKey(e)], e);
      hide ParentOf;
      if m < |rib[SenderKey(e)]| {
        assert FirstParent(rib, e, m);
      }
    }
  }

  /** Live exactly where its own base holds and, beyond the origin, its first parent passes it on. */
  ghost predicate LiveAsPassedOn(rib: RibTable, e: RibEntry, ctx: Context) {
    Live(e, ctx) <==>
      && (if e.base.Some? then Eval(e.base.value, ctx) else Eval(e.condition, ctx))
      && (|e.attrs.pathNodes| <= 1 || exists m: nat :: FirstParent(rib, e, m) && PassedOn(rib[SenderKey(e)][m], ctx))
  }

  /** In a converged table every route is live exactly as it is passed on. */
  lemma RouteLiveExactly(rib: RibTable, k: RibKey, i: nat, ctx: Context)
    requires SelfConsistent(rib) && CleanRib(rib) && ReadablePaths(rib)
    requires k in rib && i < |rib[k]| && !rib[k][i].attrs.kind.Ospf?
    ensures LiveAsPassedOn(rib, rib[k][i], ctx)
  {
    var e := rib[k][i];
    LiveExactly(rib, k, i, ctx);
    ParentFound(rib, e);
    hide SelfConsistent, CleanRib, ReadablePaths, Live, ParentRoute, FirstParent, Eval;
  }

  ghost predicate AllPassedOn(rib: RibTable) {
    forall k, i, ctx :: k in rib && 0 <= i < |rib[k]| && !rib[k][i].attrs.kind.Ospf? ==>
      LiveAsPassedOn(rib, rib[k][i], ctx)
  }

  lemma AllLiveExactly(rib: RibTable)
    requires SelfConsistent(rib) && CleanRib(rib) && ReadablePaths(rib)
    ensures AllPassedOn(rib)
  {
    hide SelfConsistent, CleanRib, ReadablePaths, LiveAsPassedOn;
    forall k, i, ctx | k in rib && 0 <= i < |rib[k]| && !rib[k][i].attrs.kind.Ospf?
      ensures LiveAsPassedOn(rib, rib[k][i], ctx)
    {
      RouteLiveExactly(rib, k, i, ctx);
    }
  }

  /** Every live route that is not OSPF is supported. */
  ghost predicate AllSupported(rib: RibTable) {
    forall k, i, ctx :: k in rib && 0 <= i < |rib[k]| && !rib[k][i].attrs.kind.Ospf? && Live(rib[k][i], ctx) ==>
      Supported(rib, rib[k][i], ctx)
  }

  lemma NoPhantoms(behaviors: Behaviors, rib: RibTable)
    requires SelfConsistent(rib) && Chosen(behaviors, rib) && CleanRib(rib) && ReadablePaths(rib)
    ensures AllSupported(rib)
  {
    forall k, i, ctx | k in rib && 0 <= i < |rib[k]| && !rib[k][i].attrs.kind.Ospf? && Live(rib[k][i], ctx)
      ensures Supported(rib, rib[k][i], ctx)
    {
      NoPhantomRoutes(behaviors, rib, k, i, ctx);
    }
  }

  lemma ReadableStays(r: RibTable, s: RibTable)
    requires SameRouteSets(r, s) && ReadablePaths(r)
    ensures ReadablePaths(s)
  {
    forall k, i | k in s && 0 <= i < |s[k]|
      ensures ReadablePath(s[k][i].attrs.pathNodes)
    {
      assert Bares(s[k])[i] in multiset(Bares(s[k]));
      assert Bare(s[k][i]) in Bares(r[k]);
      var j :| 0 <= j < |r[k]| && Bares(r[k])[j] == Bare(s[k][i]);
      assert r[k][j].attrs == s[k][i].attrs;
    }
  }

  lemma ParentLive(behaviors: Behaviors, rib: RibTable, q: RibKey, j: nat, ctx: Context)
    requires Chosen(behaviors, rib) && CleanRib(rib) && q in rib && j < |rib[q]|
    requires rib[q][j].selected.Some? && Eval(HandedOn(rib[q][j]), ctx)
    ensures Live(rib[q][j], ctx) && PassesOn(rib[q][j], ctx)
  {
    if IsSelected(rib[q][j], ctx) {
      SelectedIsLive(behaviors, rib, q, j, ctx);
    }
  }

  /**
   Why OSPF routes must start at their base condition: a pass resets them without reporting a
   change, so selecting and converging can succeed and leave a selection that is out of date.
   */
  lemma StaleOspfRoute(behaviors: Behaviors, k: RibKey, a: Attrs)
    requires a.kind.Ospf? && behaviors(k.node).valid(a)
    ensures
      var e := RibEntry(a, Some(True), False, None);
      var rib := map[k := [e]];
      var end := map[k := [e.(condition := True, selected := Some(False))]];
      && Ended(behaviors, [SelectAll(behaviors, rib)], [], [k], true, end)
      && !Chosen(behaviors, end)
      && SelectAll(behaviors, end) == map[k := [e.(condition := True, selected := Some(True))]]
  {
    var e := RibEntry(a, Some(True), False, None);
    var chosen, last := e.(selected := Some(False)), e.(condition := True, selected := Some(False));
    var rib, end := map[k := [chosen]], map[k := [last]];
    var b := behaviors(k.node);
    AloneSelected(b, e);
    AloneSelected(b, last);
    assert SelectAll(behaviors, map[k := [e]]) == rib;
    assert [k][..0] == [];
    assert ApplyEntries(rib, k, 0) == (rib, false);
    assert [chosen][0 := last] == [last];
    assert rib[k := [last]] == end;
    assert ApplyEntries(rib, k, 1) == ApplyEntry(rib, k, 0);
    assert ApplyKeys(rib, []) == (rib, false);
    assert Quiet(rib, [k], end);
    assert Run(behaviors, [rib], []);
    assert Select(b, end[k]) != end[k];
  }

  lemma AloneSelected(b: Behavior, e: RibEntry)
    requires b.valid(e.attrs)
    ensures SelectAt(b, [e]) == Select(b, [e]) == [e.(selected := Some(e.condition))]
  {
    assert [e][..0] == [];
    assert Arranged(b, [e]) == Sorting.Sort([e], Rank(b)) == [e];
  }
}
