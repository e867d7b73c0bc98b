/**
 Why the bound on the rounds of convergence needs its premise: two nodes that each prefer the
 other's route to an origin over their own take turns in announcing it, for ever.
 */
module Oscillation {
  import opened Conditions
  import opened ControlPlane
  import opened Convergence
  import opened Decision
  import opened Failure
  import opened NormalForms
  import opened Prefixes
  import opened Rib
  import opened RouteSupport
  import opened Stability
  import opened Wrappers
  import Sorting
  import Text

  const DIRECT := 100
  const DETOUR := 200

  /** A BGP route originated at o, along the path, with a local preference. */
  function Via(p: Prefix, path: seq<string>, from: string, pref: int): Attrs {
    Attrs(Bgp, "default", p, "o", from, path, [], false, 0, pref, [], 0, 0, false, 0, 0, "", "", 0, 200, "", from, "")
  }

  function Entry(a: Attrs, condition: Cond, selected: Cond): RibEntry {
    RibEntry(a, Some(True), condition, Some(selected))
  }

  function KeyOf(p: Prefix, node: string): RibKey {
    RibKey(node, "default", p)
  }

  /** The routes at a node: the detour by the other node, which is preferred, and the direct one. */
  function RoutesAt(p: Prefix, node: string, other: string, x: bool, chosen: bool): seq<RibEntry> {
    [Entry(Via(p, ["o", other, node], other, DETOUR), Const(x), Const(chosen)),
     Entry(Via(p, ["o", node], "o", DIRECT), True, Const(!chosen))]
  }

  function Origin(p: Prefix): seq<RibEntry> {
    [Entry(Via(p, ["o"], "", DIRECT), True, True)]
  }

  function Three(p: Prefix, o: seq<RibEntry>, a: seq<RibEntry>, b: seq<RibEntry>): RibTable {
    map[KeyOf(p, "o") := o, KeyOf(p, "a") := a, KeyOf(p, "b") := b]
  }

  lemma ThreeIs(t: RibTable, p: Prefix, o: seq<RibEntry>, a: seq<RibEntry>, b: seq<RibEntry>)
    ensures Three(p, o, a, b).Keys == {KeyOf(p, "o"), KeyOf(p, "a"), KeyOf(p, "b")}
    ensures Three(p, o, a, b)[KeyOf(p, "o")] == o
    ensures Three(p, o, a, b)[KeyOf(p, "a")] == a
    ensures Three(p, o, a, b)[KeyOf(p, "b")] == b
    ensures t.Keys == {KeyOf(p, "o"), KeyOf(p, "a"), KeyOf(p, "b")} ==>
      (t[KeyOf(p, "o")] == o && t[KeyOf(p, "a")] == a && t[KeyOf(p, "b")] == b ==> t == Three(p, o, a, b))
  {
    assert KeyOf(p, "o").node[0] == 'o' && KeyOf(p, "a").node[0] == 'a' && KeyOf(p, "b").node[0] == 'b';
  }

  /** The table in which the detours are announced or not; `chosen` is what selection last saw of that. */
  function Table(p: Prefix, x: bool, chosen: bool): RibTable {
    Three(p, Origin(p), RoutesAt(p, "a", "b", x, chosen), RoutesAt(p, "b", "a", x, chosen))
  }

  /** Devices that accept every route. */
  ghost predicate Accepting(devices: string -> Device) {
    forall node, a :: devices(node).valid(a)
  }

  lemma NormalizeTwo(x: Cond, y: Cond)
    ensures NormalizeAll([x]) == [Normalize(x)] && NormalizeAll([x, y]) == [Normalize(x), Normalize(y)]
  {
    assert [x, y][1..] == [y] && [x][1..] == [] && [y][1..] == [];
  }

  lemma AndConst(x: bool, y: bool)
    ensures And([Const(x), Const(y)]) == Const(x && y)
  {
    NormalizeTwo(Const(x), Const(y));
    var ns := [Const(x), Const(y)];
    assert ns[1..] == [Const(y)] && [Const(y)][1..] == [];
    assert Gather(AndOp, [Const(y)], []) == if y then Operands([]) else Decided;
    assert Gather(AndOp, ns, []) == if x then Gather(AndOp, [Const(y)], []) else Decided;
  }

  lemma NotOrConst(x: bool)
    ensures Not(Or([Const(x)])) == Const(!x)
  {
    NormalizeTwo(Const(x), Const(x));
    assert [Const(x)][1..] == [];
    assert Gather(OrOp, [Const(x)], []) == if x then Decided else Operands([]);
    assert Or([Const(x)]) == Const(x);
  }

  // ---------- selection ----------

  lemma DetourFirst(devices: string -> Device, p: Prefix, node: string, other: string, x: bool, chosen: bool)
    requires Accepting(devices) && node != "o"
    ensures
      var b := BehaviorsOf(devices)(node);
      var s := RoutesAt(p, node, other, x, chosen);
      Beats(b, s, 0, 1) && Sorting.NoInversion(s, Rank(b)) && Select(b, s) == RoutesAt(p, node, other, x, x)
  {
    var b := BehaviorsOf(devices)(node);
    var s := RoutesAt(p, node, other, x, chosen);
    var d := devices(node);
    assert b == BehaviorOf(d, node);
    assert Less(d.options, d.ipLess, node, s[0].attrs, s[1].attrs, d.reverse);
    assert !Less(d.options, d.ipLess, node, s[1].attrs, s[0].attrs, d.reverse);
    hide Less;
    assert HigherDistinct(b, s, 0, 0) == [] && HigherDistinct(b, s, 1, 0) == [];
    assert HigherDistinct(b, s, 1, 1) == [] + [Const(x)] == [Const(x)];
    NotOrConst(x);
    AndConst(true, !x);
    hide And, Or, Not;
    assert SelectedCond(b, s, 0) == Const(x) && SelectedCond(b, s, 1) == Const(!x);
  }

  /** The origin's own route is alone and selected as it is. */
  lemma OriginAlone(devices: string -> Device, p: Prefix)
    requires Accepting(devices)
    ensures
      var b := BehaviorsOf(devices)("o");
      var s := Origin(p);
      Select(b, s) == s && Sorting.NoInversion(s, Rank(b))
  {
    var b := BehaviorsOf(devices)("o");
    var s := Origin(p);
    var d := devices("o");
    assert b == BehaviorOf(d, "o") && d.valid(s[0].attrs);
    assert HigherDistinct(b, s, 0, 0) == [];
  }

  lemma TableOrdered(devices: string -> Device, p: Prefix, x: bool, chosen: bool)
    requires Accepting(devices)
    ensures Ordered(BehaviorsOf(devices), Table(p, x, chosen)) && SortableRib(BehaviorsOf(devices), Table(p, x, chosen))
  {
    OriginAlone(devices, p);
    DetourFirst(devices, p, "a", "b", x, chosen);
    DetourFirst(devices, p, "b", "a", x, chosen);
    ThreeIs(Table(p, x, chosen), p, Origin(p), RoutesAt(p, "a", "b", x, chosen), RoutesAt(p, "b", "a", x, chosen));
    RoutesFew(p, x, chosen);
    hide Sorting.NoInversion, Select, BehaviorsOf, Three, RoutesAt, Origin;
  }

  lemma RoutesFew(p: Prefix, x: bool, chosen: bool)
    ensures |Origin(p)| == 1 && |RoutesAt(p, "a", "b", x, chosen)| == 2 == |RoutesAt(p, "b", "a", x, chosen)|
  {
  }

  /** Selection in a table adopts what its conditions say. */
  lemma SelectionAdopts(devices: string -> Device, p: Prefix, x: bool, chosen: bool)
    requires Accepting(devices)
    ensures SelectAll(BehaviorsOf(devices), Table(p, x, chosen)) == Table(p, x, x)
  {
    var behaviors, t := BehaviorsOf(devices), Table(p, x, chosen);
    OriginAlone(devices, p);
    DetourFirst(devices, p, "a", "b", x, chosen);
    DetourFirst(devices, p, "b", "a", x, chosen);
    TableOrdered(devices, p, x, chosen);
    InPlace(behaviors, t);
    hide Select, BehaviorsOf, RoutesAt, Entry, Sorting.NoInversion, Ordered, SortableRib, SameBares;
    SelectAllKeys(behaviors, t);
    hide SelectAll;
    ThreeIs(t, p, Origin(p), RoutesAt(p, "a", "b", x, chosen), RoutesAt(p, "b", "a", x, chosen));
    ThreeIs(SelectAll(behaviors, t), p, Origin(p), RoutesAt(p, "a", "b", x, x), RoutesAt(p, "b", "a", x, x));
    hide Three, Origin, KeyOf;
  }

  lemma SelectAllKeys(behaviors: Behaviors, t: RibTable)
    ensures SelectAll(behaviors, t).Keys == t.Keys
  {
  }

  // ---------- parents ----------

  predicate Pair(node: string, other: string) {
    (node == "a" && other == "b") || (node == "b" && other == "a")
  }

  lemma SamePath(x: seq<string>, y: seq<string>)
    requires x != [] && y != [] && (forall n :: n in x || n in y ==> '>' !in n)
    ensures Text.Join(x, ">") == Text.Join(y, ">") <==> x == y
  {
    if Text.Join(x, ">") == Text.Join(y, ">") {
      Text.JoinInjective('>', x, y);
    }
  }

  lemma DetourNext(p: Prefix, x: bool, chosen: bool, node: string, other: string)
    requires Pair(node, other)
    ensures NextCond(Table(p, x, chosen), RoutesAt(p, node, other, x, chosen)[0]) == Const(!chosen)
  {
    var t, e := Table(p, x, chosen), RoutesAt(p, node, other, x, chosen)[0];
    var there := RoutesAt(p, other, node, x, chosen);
    assert ParentKey(e) == KeyOf(p, other) && t[KeyOf(p, other)] == there;
    assert e.attrs.pathNodes[..2] == ["o", other];
    SamePath(there[0].attrs.pathNodes, ["o", other]);
    SamePath(there[1].attrs.pathNodes, ["o", other]);
    hide Text.Join;
    assert there[1..][0] == there[1];
    assert FirstAdvertiser(there[1..], e) == Some(there[1]);
    assert ParentRoute(t, e) == Some(there[1]);
    AndConst(true, !chosen);
    hide And;
  }

  lemma DirectNext(p: Prefix, x: bool, chosen: bool, node: string, other: string)
    requires Pair(node, other)
    ensures NextCond(Table(p, x, chosen), RoutesAt(p, node, other, x, chosen)[1]) == True
  {
    var t, e := Table(p, x, chosen), RoutesAt(p, node, other, x, chosen)[1];
    var there := t[KeyOf(p, "o")];
    assert e.attrs.pathNodes[..1] == ["o"];
    assert FirstAdvertiser(there, e) == Some(there[0]);
    AndConst(true, true);
    hide And;
  }

  // ---------- rounds ----------

  lemma EntryCases(p: Prefix, x: bool, chosen: bool, k: RibKey, i: int)
    requires k in Table(p, x, chosen) && 0 <= i < |Table(p, x, chosen)[k]|
    ensures
      var e := Table(p, x, chosen)[k][i];
      || (k == KeyOf(p, "o") && i == 0 && e == Entry(Via(p, ["o"], "", DIRECT), True, True))
      || exists node, other ::
        Pair(node, other) && k == KeyOf(p, node) && i < 2 && e == RoutesAt(p, node, other, x, chosen)[i]
  {
    if k != KeyOf(p, "o") {
      assert Pair("a", "b") && Pair("b", "a");
    }
  }

  /** All but the detours have the condition their parent gives them. */
  lemma TableFacts(p: Prefix, x: bool, chosen: bool)
    ensures
      var t := Table(p, x, chosen);
      Based(t) && ReadablePaths(t) && OspfInSync(t) && CleanRib(t) && Settled(t, 2)
  {
    var t: RibTable := Table(p, x, chosen);
    forall k: RibKey, i: int | k in t && 0 <= i < |t[k]|
      ensures t[k][i].base == Some(True) && !t[k][i].attrs.kind.Ospf? && ReadablePath(t[k][i].attrs.pathNodes)
      ensures CleanEntry(t[k][i]) && (Depth(t[k][i]) <= 2 ==> Consistent(t, t[k][i]))
    {
      EntryCases(p, x, chosen, k, i);
      if k != KeyOf(p, "o") {
        var node, other :| Pair(node, other) && k == KeyOf(p, node) && i < 2
          && t[k][i] == RoutesAt(p, node, other, x, chosen)[i];
        DirectNext(p, x, chosen, node, other);
      }
    }
  }

  /** A pass turns the detours' conditions round, whatever the order of visits, and reports a change. */
  lemma PassTurns(p: Prefix, x: bool, order: seq<RibKey>)
    requires OrderOf(order, Table(p, x, x))
    ensures ApplyKeys(Table(p, x, x), order) == (Table(p, !x, x), true)
  {
    var t := Table(p, x, x);
    var (after, changed) := ApplyKeys(t, order);
    TableFacts(p, x, x);
    KeysMidway(t, 2, order, KeyOf(p, "o"));
    PassDone(t, order);
    assert Sorting.Members(order) == t.Keys;
    hide OrderOf, ApplyKeys, Settled, Based, ReadablePaths, SelfConsistent, OspfInSync, Midway, SameButOspf,
        SameShape, CleanRib,
        Table, Sorting.Members;
    PassedTable(p, x, after);
    Differs(p, x);
  }

  lemma PassedTable(p: Prefix, x: bool, after: RibTable)
    requires Midway(Table(p, x, x), after, 2, Table(p, x, x).Keys, KeyOf(p, "o"), 0) && CleanRib(after)
    ensures after == Table(p, !x, x)
  {
    ThreeIs(Table(p, x, x), p, Origin(p), RoutesAt(p, "a", "b", x, x), RoutesAt(p, "b", "a", x, x));
    hide Midway, CleanRib, Three, RoutesAt, Origin, KeyOf;
    PassedOrigin(p, x, after);
    PassedPair(p, x, after, "a", "b");
    PassedPair(p, x, after, "b", "a");
    ThreeIs(after, p, Origin(p), RoutesAt(p, "a", "b", !x, x), RoutesAt(p, "b", "a", !x, x));
  }

  lemma Differs(p: Prefix, x: bool)
    ensures !SameButOspf(Table(p, x, x), Table(p, !x, x))
  {
    var t, u, k := Table(p, x, x), Table(p, !x, x), KeyOf(p, "a");
    ThreeIs(t, p, Origin(p), RoutesAt(p, "a", "b", x, x), RoutesAt(p, "b", "a", x, x));
    ThreeIs(u, p, Origin(p), RoutesAt(p, "a", "b", !x, x), RoutesAt(p, "b", "a", !x, x));
    hide Three;
    assert t[k][0] != u[k][0];
  }

  lemma PassedOrigin(p: Prefix, x: bool, after: RibTable)
    requires Midway(Table(p, x, x), after, 2, Table(p, x, x).Keys, KeyOf(p, "o"), 0)
    ensures after.Keys == Table(p, x, x).Keys && after[KeyOf(p, "o")] == Origin(p)
  {
    ThreeIs(Table(p, x, x), p, Origin(p), RoutesAt(p, "a", "b", x, x), RoutesAt(p, "b", "a", x, x));
    hide Three, RoutesAt, KeyOf;
    var k := KeyOf(p, "o");
    assert |after[k]| == 1 && after[k][0] == Table(p, x, x)[k][0];
  }

  lemma PassedPair(p: Prefix, x: bool, after: RibTable, node: string, other: string)
    requires Midway(Table(p, x, x), after, 2, Table(p, x, x).Keys, KeyOf(p, "o"), 0) && CleanRib(after)
    requires Pair(node, other)
    ensures after.Keys == Table(p, x, x).Keys && after[KeyOf(p, node)] == RoutesAt(p, node, other, !x, x)
  {
    var t, k := Table(p, x, x), KeyOf(p, node);
    ThreeIs(t, p, Origin(p), RoutesAt(p, "a", "b", x, x), RoutesAt(p, "b", "a", x, x));
    DetourNext(p, x, x, node, other);
    assert t[k] == RoutesAt(p, node, other, x, x);
    hide Three, NextCond, CleanRoutes;
    assert |after[k]| == 2 && after[k][1] == t[k][1] && SameButCondition(t[k][0], after[k][0]);
    assert Done(t.Keys, KeyOf(p, "o"), 0, k, 0);
    assert Key(after[k][0].condition) == Key(Const(!x));
    CleanFirst(after, k);
    KeyInjective(after[k][0].condition, Const(!x));
  }

  lemma CleanFirst(t: RibTable, k: RibKey)
    requires CleanRib(t) && k in t && |t[k]| > 0
    ensures Clean(t[k][0].condition)
  {
    assert CleanEntry(t[k][0]);
  }

  /** So a round turns the whole table round. */
  lemma RoundTurns(devices: string -> Device, p: Prefix, x: bool, order: seq<RibKey>)
    requires Accepting(devices) && OrderOf(order, Table(p, x, x))
    ensures ApplyKeys(Table(p, x, x), order).1
    ensures AfterRound(BehaviorsOf(devices), Table(p, x, x), order) == Table(p, !x, !x)
  {
    PassTurns(p, x, order);
    SelectionAdopts(devices, p, !x, x);
  }

  lemma {:induction false} RunTurns(devices: string -> Device, p: Prefix, x: bool, tables: seq<RibTable>,
                                    orders: seq<seq<RibKey>>, n: nat)
    returns (y: bool)
    requires Accepting(devices) && Run(BehaviorsOf(devices), tables, orders) && n <= |orders|
    requires tables[0] == Table(p, x, x)
    ensures tables[n] == Table(p, y, y)
  {
    y := x;
    if n > 0 {
      y := RunTurns(devices, p, x, tables, orders, n - 1);
      hide Table, BehaviorsOf, ApplyKeys, OrderOf, AfterRound;
      assert Round(BehaviorsOf(devices), tables[n - 1], orders[n - 1], tables[n]);
      RoundTurns(devices, p, y, orders[n - 1]);
      y := !y;
    }
  }

  /**
   From this table no run of rounds ever ends with a quiet pass, so convergence fails at whatever
   bound. It has everything that SettlesInTime asks for except that the direct routes, which
   the other node depends on, give way to detours with longer paths.
   */
  lemma NeverSettles(devices: string -> Device, p: Prefix, x: bool, tables: seq<RibTable>, orders: seq<seq<RibKey>>,
                     last: seq<RibKey>, converged: bool, end: RibTable)
    requires Accepting(devices) && tables != [] && tables[0] == Table(p, x, x)
    requires Ended(BehaviorsOf(devices), tables, orders, last, converged, end)
    ensures !converged
    ensures
      var behaviors, t := BehaviorsOf(devices), tables[0];
      && SortableRib(behaviors, t) && Ordered(behaviors, t) && Based(t) && ReadablePaths(t) && Chosen(behaviors, t)
        && OspfInSync(t)
      && !ShortRivals(behaviors, t)
  {
    TableOrdered(devices, p, x, x);
    TableFacts(p, x, x);
    SelectionAdopts(devices, p, x, x);
    SelectAllChosen(BehaviorsOf(devices), Table(p, x, x));
    var y := RunTurns(devices, p, x, tables, orders, |orders|);
    if converged {
      hide Table, ApplyKeys, OrderOf;
      RoundTurns(devices, p, y, last);
      assert false;
    }
    LongRival(devices, p, x);
  }

  lemma LongRival(devices: string -> Device, p: Prefix, x: bool)
    requires Accepting(devices)
    ensures !ShortRivals(BehaviorsOf(devices), Table(p, x, x))
  {
    var t, k, q := Table(p, x, x), KeyOf(p, "a"), KeyOf(p, "b");
    ThreeIs(t, p, Origin(p), RoutesAt(p, "a", "b", x, x), RoutesAt(p, "b", "a", x, x));
    DetourFirst(devices, p, "a", "b", x, x);
    assert t[q][0].attrs.pathNodes[..2] == ["o", "a"] == t[k][1].attrs.pathNodes;
    hide Three, Beats;
    assert ChildOf(t[q][0], k, t[k][1]);
    assert IsParent(t, k, t[k][1]);
    assert GivesWay(BehaviorsOf(devices), t, k, 0, 1);
    assert Depth(t[k][0]) == 3 && Depth(t[k][1]) == 2;
  }
}
