/** The control-plane engine: the methods that rewrite its table, against the functions of ControlPlane. */
module ControlPlaneEngine {
  import opened Conditions
  import opened ControlPlane
  import opened Convergence
  import opened Rib
  import opened RouteSupport
  import Sorting

  class Engine {
    const behaviors: Behaviors
    var rib: RibTable

    constructor (behaviors: Behaviors, rib: RibTable)
      ensures this.behaviors == behaviors && this.rib == rib
    {
      this.behaviors, this.rib := behaviors, rib;
    }

    /** Orders and selects at every prefix, whatever the order in which they are visited. */
    method SelectRoutes()
      modifies this
      ensures rib == SelectAll(behaviors, old(rib))
    {
      ghost var start := rib;
      var todo := rib.Keys;
      while todo != {}
        invariant todo <= rib.Keys == start.Keys
        invariant forall k :: k in rib ==>
            rib[k] == if k in todo then start[k] else SelectAt(behaviors(k.node), start[k])
        decreases todo
      {
        var k :| k in todo;
        var routes := SelectAtLoop(behaviors(k.node), rib[k]);
        rib := rib[k := routes];
        todo := todo - {k};
      }
    }

    /** Recomputes every condition in place, prefix after prefix; false means that none changed. */
    method ApplyAdvertisementConditions() returns (changed: bool, ghost order: seq<RibKey>)
      modifies this
      ensures OrderOf(order, old(rib)) && (rib, changed) == ApplyKeys(old(rib), order)
    {
      changed, order := false, [];
      ghost var start := rib;
      var todo := rib.Keys;
      hide ApplyEntries;
      while todo != {}
        invariant todo <= rib.Keys == start.Keys
        invariant Sorting.NoDuplicates(order) && forall q :: q in order <==> q in start.Keys - todo
        invariant (rib, changed) == ApplyKeys(start, order)
        decreases todo
      {
        var k :| k in todo;
        OrderGrows(order, k, start.Keys, todo);
        ApplyKeysStep(start, order, k);
        hide ApplyKeys;
        var more := ApplyAt(k);
        changed := changed || more;
        order := order + [k];
        todo := todo - {k};
      }
    }

    /** The routes of one prefix, one after the other; later ones see the earlier updates. */
    method ApplyAt(k: RibKey) returns (changed: bool)
      requires k in rib
      modifies this
      ensures (rib, changed) == ApplyEntries(old(rib), k, |old(rib)[k]|)
    {
      changed := false;
      ghost var start := rib;
      for i := 0 to |rib[k]|
        invariant rib.Keys == start.Keys && |rib[k]| == |start[k]|
        invariant (rib, changed) == ApplyEntries(start, k, i)
      {
        hide NextCond, Place;
        var e := rib[k][i];
        var nextCond := NextCond(rib, e);
        if e.attrs.kind.Ospf? {
          rib := Place(rib, k, i, e.(condition := nextCond));
          continue;
        }
        if Key(e.condition) != Key(nextCond) {
          rib := Place(rib, k, i, e.(condition := nextCond));
          changed := true;
        }
      }
    }

    method MaxRouteDepth() returns (depth: nat)
      ensures DepthOf(rib, depth)
    {
      depth := 0;
      var todo := rib.Keys;
      while todo != {}
        invariant todo <= rib.Keys
        invariant forall k, i :: k in rib - todo && 0 <= i < |rib[k]| ==> |rib[k][i].attrs.pathNodes| <= depth
        invariant depth == 0 || exists k, i :: k in rib && 0 <= i < |rib[k]| && |rib[k][i].attrs.pathNodes| == depth
        decreases todo
      {
        var k :| k in todo;
        for i := 0 to |rib[k]|
          invariant forall k', i :: k' in rib - todo && 0 <= i < |rib[k']| ==> |rib[k'][i].attrs.pathNodes| <= depth
          invariant forall j :: 0 <= j < i ==> |rib[k][j].attrs.pathNodes| <= depth
          invariant depth == 0 || exists k', i ::
              k' in rib && 0 <= i < |rib[k']| && |rib[k'][i].attrs.pathNodes| == depth
        {
          if |rib[k][i].attrs.pathNodes| > depth {
            depth := |rib[k][i].attrs.pathNodes|;
          }
        }
        todo := todo - {k};
      }
    }

    /** Alternates the two until nothing changes; gives up after MaxRouteDepth() + 1 rounds. */
    method ConvergeAdvertisementConditions()
      returns (converged: bool, ghost tables: seq<RibTable>, ghost orders: seq<seq<RibKey>>, ghost last: seq<RibKey>)
      modifies this
      ensures Ended(behaviors, tables, orders, last, converged, rib) && tables[0] == old(rib)
      ensures forall depth: nat :: DepthOf(old(rib), depth) ==>
          if converged then |orders| <= depth else |orders| == depth + 1
      ensures Settling(behaviors, old(rib)) ==> converged
    {
      tables, orders, last := [rib], [], [];
      var depth := MaxRouteDepth();
      DepthUnique(rib, depth);
      hide ApplyKeys, OrderOf, SelectAll, DepthOf, Round;
      for i := 0 to depth + 1
        invariant |orders| == i && Run(behaviors, tables, orders) && tables[0] == old(rib) && tables[i] == rib
      {
        hide Run;
        var changed;
        changed, last := ApplyAdvertisementConditions();
        if !changed {
          return true, tables, orders, last;
        }
        RunStep(behaviors, tables, orders, last);
        SelectRoutes();
        tables, orders := tables + [rib], orders + [last];
      }
      if Settling(behaviors, old(rib)) {
        SettlesInTime(behaviors, tables, orders, depth);
      }
      return false, tables, orders, last;
    }

    /**
     selectAndConverge: on success the table explains itself, its selected conditions are its
     own, every live route is supported, and selecting again changes nothing exactly when no
     route is preferred to the one before it.
     */
    method SelectAndConverge() returns (converged: bool)
      modifies this
      ensures SameRouteSets(old(rib), rib)
      ensures CleanRib(old(rib)) ==> CleanRib(rib)
      ensures Settling(behaviors, SelectAll(behaviors, old(rib))) ==> converged
      ensures converged ==> SelfConsistent(rib) && OspfInSync(rib)
      ensures converged && CleanRib(old(rib)) && ReadablePaths(old(rib)) ==> AllPassedOn(rib)
      ensures converged && OspfInSync(old(rib)) ==> Chosen(behaviors, rib)
      ensures converged && OspfInSync(old(rib)) && CleanRib(old(rib)) && ReadablePaths(old(rib)) ==> AllSupported(rib)
      ensures converged && OspfInSync(old(rib)) && DistinctRib(old(rib)) && SortableRib(behaviors, old(rib)) ==>
        (SelectAll(behaviors, rib) == rib <==> Ordered(behaviors, rib))
      ensures converged && OspfInSync(old(rib)) && RankableRib(behaviors, old(rib)) ==> SelectAll(behaviors, rib) == rib
    {
      SelectAllKeeps(behaviors, rib);
      SelectAllSameRoutes(behaviors, rib);
      SelectAllChosen(behaviors, rib);
      hide *;
      SelectRoutes();
      ghost var selected := rib;
      ghost var tables, orders, last;
      converged, tables, orders, last := ConvergeAdvertisementConditions();
      EndedKeeps(behaviors, tables, orders, last, converged, rib);
      SameRoutesTransitive(old(rib), selected, rib);
      if converged && CleanRib(old(rib)) && ReadablePaths(old(rib)) {
        ReadableStays(old(rib), rib);
        AllLiveExactly(rib);
      }
      if converged && OspfInSync(old(rib)) {
        if DistinctRib(old(rib)) && SortableRib(behaviors, old(rib)) {
          DistinctStays(old(rib), rib);
          SortableStays(behaviors, old(rib), rib);
          TableStableExactly(behaviors, rib);
        }
        if CleanRib(old(rib)) && ReadablePaths(old(rib)) {
          ReadableStays(old(rib), rib);
          NoPhantoms(behaviors, rib);
        }
      }
    }
  }
}
