/** Routes, the decision a device takes between them, and route selection. */
module Rib {
  import opened Failure
  import opened Conditions
  import opened NormalForms
  import opened Prefixes
  import opened Wrappers
  import Sorting

  datatype SourceKind = Connected | Static | Blackhole | Bgp | Ospf | Aggregate | Unknown

  datatype Family = BgpFamily | OspfFamily | OtherFamily

  /** Everything about a route except its conditions. */
  datatype Attrs = Attrs(
    kind: SourceKind, vrf: string, prefix: Prefix, originNode: string, fromNode: string,
    pathNodes: seq<string>, pathLinks: seq<string>, invalid: bool,
    weight: int, localPref: int, asPath: seq<int>, originRank: int, med: int, learnedIbgp: bool, igpCost: int,
    clusterLength: nat, originatorId: string, ospfType: string, ospfMetric: int,
    adminDistance: int, iface: string, nextHopNode: string, nextHopAddr: string)

  datatype RibEntry = RibEntry(attrs: Attrs, base: Option<Cond>, condition: Cond, selected: Option<Cond>)

  /**
   What a device kind decides: the BGP order, equivalence and validity, by attributes alone. And
   what the library sort makes of a long list.
   */
  datatype Behavior = Behavior(
    less: (Attrs, Attrs) -> bool, equivalent: (Attrs, Attrs) -> bool, valid: Attrs -> bool,
    arrange: seq<RibEntry> -> seq<RibEntry>)

  /** routeSelectionFamily */
  function FamilyOf(a: Attrs): Family {
    if a.kind.Bgp? || a.kind.Aggregate? then BgpFamily
    else if a.kind.Ospf? then OspfFamily
    else OtherFamily
  }

  function Rank(b: Behavior): (RibEntry, RibEntry) -> bool {
    (x: RibEntry, y: RibEntry) => b.less(x.attrs, y.attrs)
  }

  // ---------- the order of the routes ----------

  /** Up to this length the library sorts by insertion. */
  const SHORT := 12

  /** What a sort may return: the same routes, in order if the decision orders them. */
  predicate Admissible(b: Behavior, s: seq<RibEntry>, t: seq<RibEntry>) {
    multiset(t) == multiset(s) && (Sorting.WeakOn(s, Rank(b)) ==> InOrder(b, t))
  }

  predicate InOrder(b: Behavior, t: seq<RibEntry>) {
    forall i, j :: 0 <= i < j < |t| ==> !Rank(b)(t[j], t[i])
  }

  /**
   The routes as the library sort leaves them: short lists by insertion, long ones in whatever
   admissible order the library picks.
   */
  function Arranged(b: Behavior, s: seq<RibEntry>): (r: seq<RibEntry>)
    ensures |r| == |s|
  {
    if |s| <= SHORT then Sorting.Sort(s, Rank(b))
    else if Admissible(b, s, b.arrange(s)) then SameLength(s, b.arrange(s)); b.arrange(s)
    else Sorting.Sort(s, Rank(b))
  }

  lemma SameLength(s: seq<RibEntry>, t: seq<RibEntry>)
    requires multiset(t) == multiset(s)
    ensures |t| == |s|
  {
    assert |multiset(t)| == |t| && |multiset(s)| == |s|;
  }

  lemma ArrangedPermutes(b: Behavior, s: seq<RibEntry>)
    ensures multiset(Arranged(b, s)) == multiset(s)
    ensures forall e :: e in Arranged(b, s) <==> e in s
  {
    Sorting.SortPermutes(s, Rank(b));
    forall e
      ensures e in Arranged(b, s) <==> e in s
    {
      assert e in multiset(s) <==> e in multiset(Arranged(b, s));
    }
  }

  /** The decision ranks the routes, so that every sort leaves them in the same order. */
  predicate Ranks(b: Behavior, s: seq<RibEntry>) {
    Sorting.RankingOn(s, Rank(b))
  }

  /** The order of the routes is settled: by insertion or by their ranking. */
  predicate Sortable(b: Behavior, s: seq<RibEntry>) {
    |s| <= 12 || Ranks(b, s)
  }

  /** Whatever the library picks, settled routes come out as insertion leaves them. */
  lemma ArrangedIsSort(b: Behavior, s: seq<RibEntry>)
    requires Sortable(b, s)
    ensures Arranged(b, s) == Sorting.Sort(s, Rank(b))
  {
    if |s| > SHORT {
      var r, t := Arranged(b, s), Sorting.Sort(s, Rank(b));
      ArrangedPermutes(b, s);
      Sorting.SortPermutes(s, Rank(b));
      Sorting.SortSortsOn(s, Rank(b));
      Sorting.RankingPermutes(s, r, Rank(b));
      Sorting.RankingPermutes(s, t, Rank(b));
      assert Sorting.Sorted(r, Rank(b));
      hide Sorting.WeakOn, Sorting.TotalOn, Sorting.Sorted, Arranged;
      Sorting.SortedUnique(r, t, Rank(b));
    }
  }

  // ---------- selection at one prefix ----------

  /** Wherever x is live, it keeps a later y of its family from being selected. */
  predicate Rival(b: Behavior, x: RibEntry, y: RibEntry) {
    && b.valid(x.attrs)
    && FamilyOf(x.attrs) == FamilyOf(y.attrs)
    && !b.equivalent(x.attrs, y.attrs)
  }

  /** The earlier route j keeps route i from being selected whenever it is live. */
  predicate Beats(b: Behavior, s: seq<RibEntry>, j: nat, i: nat)
    requires j < |s| && i < |s|
  {
    Rival(b, s[j], s[i])
  }

  /** The conditions of the routes among the first `upTo` that beat route i. */
  function HigherDistinct(b: Behavior, s: seq<RibEntry>, i: nat, upTo: nat): seq<Cond>
    requires i < |s| && upTo <= |s|
  {
    if upTo == 0 then []
    else HigherDistinct(b, s, i, upTo - 1) + if Beats(b, s, upTo - 1, i) then [s[upTo - 1].condition] else []
  }

  function SelectedCond(b: Behavior, s: seq<RibEntry>, i: nat): Cond
    requires i < |s|
  {
    if !b.valid(s[i].attrs) then False
    else
      var higher := HigherDistinct(b, s, i, i);
      if higher == [] then s[i].condition else And([s[i].condition, Not(Or(higher))])
  }

  function Select(b: Behavior, s: seq<RibEntry>): (r: seq<RibEntry>)
    ensures |r| == |s|
  {
    seq(|s|, i requires 0 <= i < |s| => s[i].(selected := Some(SelectedCond(b, s, i))))
  }

  /** The body of SelectRoutes for one prefix: order the routes, then select. */
  function SelectAt(b: Behavior, routes: seq<RibEntry>): (r: seq<RibEntry>)
    ensures |r| == |routes|
  {
    Select(b, Arranged(b, routes))
  }

  method SelectAtLoop(b: Behavior, routes: seq<RibEntry>) returns (r: seq<RibEntry>)
    ensures r == SelectAt(b, routes)
  {
    var s := Arranged(b, routes);
    r := s;
    for i := 0 to |s|
      invariant |r| == |s|
      invariant forall k :: 0 <= k < i ==> r[k] == s[k].(selected := Some(SelectedCond(b, s, k)))
      invariant forall k :: i <= k < |s| ==> r[k] == s[k]
    {
      if !b.valid(r[i].attrs) {
        r := r[i := r[i].(selected := Some(False))];
        continue;
      }
      var selected := r[i].condition;
      var higherDistinct := [];
      for j := 0 to i
        invariant higherDistinct == HigherDistinct(b, s, i, j)
      {
        assert r[j].attrs == s[j].attrs && r[j].condition == s[j].condition;
        if !b.valid(r[j].attrs) || FamilyOf(r[j].attrs) != FamilyOf(r[i].attrs)
          || b.equivalent(r[j].attrs, r[i].attrs) {
          continue;
        }
        higherDistinct := higherDistinct + [r[j].condition];
      }
      if |higherDistinct| > 0 {
        selected := And([selected, Not(Or(higherDistinct))]);
      }
      r := r[i := r[i].(selected := Some(selected))];
    }
  }

  predicate CleanEntry(e: RibEntry) {
    && Clean(e.condition)
    && (e.base.Some? ==> Clean(e.base.value))
    && (e.selected.Some? ==> Clean(e.selected.value))
  }

  predicate CleanRoutes(s: seq<RibEntry>) {
    forall i :: 0 <= i < |s| ==> CleanEntry(s[i])
  }

  predicate Live(e: RibEntry, ctx: Context) {
    Eval(e.condition, ctx)
  }

  predicate IsSelected(e: RibEntry, ctx: Context) {
    e.selected.Some? && Eval(e.selected.value, ctx)
  }

  lemma {:induction false} HigherMeans(b: Behavior, s: seq<RibEntry>, i: nat, upTo: nat, ctx: Context)
    requires i < |s| && upTo <= |s| && CleanRoutes(s)
    ensures CleanAll(HigherDistinct(b, s, i, upTo))
    ensures (exists c :: c in HigherDistinct(b, s, i, upTo) && Eval(c, ctx)) <==>
      exists j :: 0 <= j < upTo && Beats(b, s, j, i) && Live(s[j], ctx)
  {
    forall k | 0 <= k < |HigherDistinct(b, s, i, upTo)|
      ensures Clean(HigherDistinct(b, s, i, upTo)[k])
    {
      var j := HigherComes(b, s, i, upTo, HigherDistinct(b, s, i, upTo)[k]);
      assert CleanEntry(s[j]);
    }
    if c :| c in HigherDistinct(b, s, i, upTo) && Eval(c, ctx) {
      var j := HigherComes(b, s, i, upTo, c);
      assert Live(s[j], ctx);
    }
    if j :| 0 <= j < upTo && Beats(b, s, j, i) && Live(s[j], ctx) {
      HigherHas(b, s, i, upTo, j);
    }
  }

  lemma {:induction false} HigherComes(b: Behavior, s: seq<RibEntry>, i: nat, upTo: nat, c: Cond) returns (j: nat)
    requires i < |s| && upTo <= |s| && c in HigherDistinct(b, s, i, upTo)
    ensures j < upTo && Beats(b, s, j, i) && s[j].condition == c
  {
    if c in HigherDistinct(b, s, i, upTo - 1) {
      j := HigherComes(b, s, i, upTo - 1, c);
    } else {
      j := upTo - 1;
    }
  }

  lemma {:induction false} HigherHas(b: Behavior, s: seq<RibEntry>, i: nat, upTo: nat, j: nat)
    requires i < |s| && upTo <= |s| && j < upTo && Beats(b, s, j, i)
    ensures s[j].condition in HigherDistinct(b, s, i, upTo)
  {
    if j < upTo - 1 {
      HigherHas(b, s, i, upTo - 1, j);
    }
  }

  /** A route is selected exactly when it is valid and live and no live route beats it. */
  lemma SelectedExactly(b: Behavior, s: seq<RibEntry>, i: nat, ctx: Context)
    requires i < |s| && CleanRoutes(s)
    ensures Clean(SelectedCond(b, s, i))
    ensures Eval(SelectedCond(b, s, i), ctx) <==>
      && b.valid(s[i].attrs)
      && Live(s[i], ctx)
      && !exists j :: 0 <= j < i && Beats(b, s, j, i) && Live(s[j], ctx)
  {
    assert CleanEntry(s[i]);
    HigherMeans(b, s, i, i, ctx);
    var higher := HigherDistinct(b, s, i, i);
    FlattenClean(OrOp, higher);
    OrMeans(higher, ctx);
    NotClean(Or(higher));
    NotMeans(Or(higher), ctx);
    var x, y := s[i].condition, Not(Or(higher));
    FlattenClean(AndOp, [x, y]);
    AndMeans([x, y], ctx);
    assert x in [x, y] && y in [x, y];
    assert forall z :: z in [x, y] ==> z == x || z == y;
    assert higher == [] ==> !exists c :: c in higher && Eval(c, ctx);
  }

  lemma SelectKeepsClean(b: Behavior, routes: seq<RibEntry>)
    requires CleanRoutes(routes)
    ensures CleanRoutes(SelectAt(b, routes))
  {
    var s := Arranged(b, routes);
    ArrangedPermutes(b, routes);
    assert forall i :: 0 <= i < |s| ==> s[i] in routes;
    assert CleanRoutes(s);
    var ctx := Context(FailureSet({}, {}), map[]);
    forall i | 0 <= i < |s|
      ensures CleanEntry(SelectAt(b, routes)[i])
    {
      assert CleanEntry(s[i]);
      SelectedExactly(b, s, i, ctx);
    }
  }

  /** At most one choice: two routes of a family selected together are equivalent. */
  lemma SelectedTogetherEquivalent(b: Behavior, routes: seq<RibEntry>, j: nat, i: nat, ctx: Context)
    requires CleanRoutes(routes) && j < i < |routes|
    requires
      var r := SelectAt(b, routes);
      FamilyOf(r[j].attrs) == FamilyOf(r[i].attrs) && IsSelected(r[j], ctx) && IsSelected(r[i], ctx)
    ensures b.equivalent(SelectAt(b, routes)[j].attrs, SelectAt(b, routes)[i].attrs)
  {
    var s := Arranged(b, routes);
    ArrangedPermutes(b, routes);
    assert forall k :: 0 <= k < |s| ==> s[k] in routes;
    SelectedExactly(b, s, j, ctx);
    SelectedExactly(b, s, i, ctx);
    assert Live(s[j], ctx);
    assert !Beats(b, s, j, i);
  }

  /** At least one choice: a family with a valid live route has a selected one. */
  lemma SomeRouteSelected(b: Behavior, routes: seq<RibEntry>, k: nat, ctx: Context)
    requires CleanRoutes(routes) && k < |routes|
    requires b.valid(SelectAt(b, routes)[k].attrs) && Live(SelectAt(b, routes)[k], ctx)
    ensures exists i :: (
      && 0 <= i <= k
      && FamilyOf(SelectAt(b, routes)[i].attrs) == FamilyOf(SelectAt(b, routes)[k].attrs)
      && IsSelected(SelectAt(b, routes)[i], ctx))
  {
    var s := Arranged(b, routes);
    ArrangedPermutes(b, routes);
    assert forall i :: 0 <= i < |s| ==> s[i] in routes;
    var i := FirstLive(b, s, k, ctx);
    SelectedExactly(b, s, i, ctx);
    assert IsSelected(SelectAt(b, routes)[i], ctx);
  }

  lemma {:induction false} FirstLive(b: Behavior, s: seq<RibEntry>, k: nat, ctx: Context) returns (i: nat)
    requires k < |s| && b.valid(s[k].attrs) && Live(s[k], ctx)
    ensures i <= k && FamilyOf(s[i].attrs) == FamilyOf(s[k].attrs) && b.valid(s[i].attrs) && Live(s[i], ctx)
    ensures forall j :: 0 <= j < i ==> !(Beats(b, s, j, i) && Live(s[j], ctx))
    decreases k
  {
    if j :| 0 <= j < k && Beats(b, s, j, k) && Live(s[j], ctx) {
      i := FirstLive(b, s, j, ctx);
    } else {
      i := k;
    }
  }

  // ---------- selecting again ----------

  /** Nothing but the selected conditions changes. */
  predicate SameRoutes(s: seq<RibEntry>, t: seq<RibEntry>) {
    |s| == |t| && forall i :: 0 <= i < |s| ==>
      s[i].attrs == t[i].attrs && s[i].base == t[i].base && s[i].condition == t[i].condition
  }

  lemma {:induction false} HigherSame(b: Behavior, s: seq<RibEntry>, t: seq<RibEntry>, i: nat, upTo: nat)
    requires SameRoutes(s, t) && i < |s| && upTo <= |s|
    ensures HigherDistinct(b, s, i, upTo) == HigherDistinct(b, t, i, upTo)
  {
    if upTo > 0 {
      HigherSame(b, s, t, i, upTo - 1);
    }
  }

  /** Settled routes, no two of them each preferred to the other. */
  ghost predicate Rankable(b: Behavior, routes: seq<RibEntry>) {
    Sortable(b, routes) && Sorting.AsymmetricOn(routes, Rank(b))
  }

  /** Attributes alone decide whether routes are settled. */
  lemma SortableAlike(b: Behavior, s: seq<RibEntry>, t: seq<RibEntry>)
    requires |s| == |t| && forall i :: 0 <= i < |s| ==> s[i].attrs == t[i].attrs
    ensures Sortable(b, s) <==> Sortable(b, t)
    ensures Ranks(b, s) <==> Ranks(b, t)
    ensures Sorting.WeakOn(s, Rank(b)) <==> Sorting.WeakOn(t, Rank(b))
  {
    assert Sorting.ComparesAlike(s, Rank(b), t, Rank(b));
    Sorting.WeakAlike(s, Rank(b), t, Rank(b));
    hide Sorting.RankingOn, Sorting.WeakOn;
  }

  lemma SortablePermutes(b: Behavior, s: seq<RibEntry>, t: seq<RibEntry>)
    requires Sortable(b, s) && multiset(s) == multiset(t)
    ensures Sortable(b, t)
  {
    SameLength(s, t);
    if |s| > SHORT {
      Sorting.RankingPermutes(s, t, Rank(b));
    }
  }

  lemma SelectKeepsSortable(b: Behavior, routes: seq<RibEntry>)
    requires Sortable(b, routes)
    ensures Sortable(b, SelectAt(b, routes))
  {
    var s, r := Arranged(b, routes), SelectAt(b, routes);
    ArrangedPermutes(b, routes);
    SortablePermutes(b, routes, s);
    assert forall i :: 0 <= i < |s| ==> s[i].attrs == r[i].attrs;
    hide Sortable, SelectAt, Arranged;
    SortableAlike(b, s, r);
  }

  lemma SelectNoInversion(b: Behavior, s: seq<RibEntry>)
    requires Sorting.NoInversion(s, Rank(b))
    ensures Sorting.NoInversion(Select(b, s), Rank(b))
  {
    var r := Select(b, s);
    forall i | 0 < i < |r|
      ensures !Rank(b)(r[i], r[i - 1])
    {
      assert !Rank(b)(s[i], s[i - 1]);
    }
  }

  /** What is selected does not depend on what was selected before. */
  lemma SelectTwice(b: Behavior, s: seq<RibEntry>)
    ensures Select(b, Select(b, s)) == Select(b, s)
  {
    var r := Select(b, s);
    forall i | 0 <= i < |r|
      ensures SelectedCond(b, r, i) == SelectedCond(b, s, i)
    {
      HigherSame(b, r, s, i, i);
    }
  }

  /** Selecting a second time changes nothing, not even the order. */
  lemma SelectAgain(b: Behavior, routes: seq<RibEntry>)
    requires Rankable(b, routes)
    ensures SelectAt(b, SelectAt(b, routes)) == SelectAt(b, routes)
  {
    var s := Arranged(b, routes);
    ArrangedIsSort(b, routes);
    SelectKeepsSortable(b, routes);
    ArrangedIsSort(b, SelectAt(b, routes));
    hide Sorting.Sort, Sorting.NoInversion, Select, Arranged, Sortable;
    Sorting.SortNoInversion(routes, Rank(b));
    SelectNoInversion(b, s);
    Sorting.SortFixpoint(Select(b, s), Rank(b));
    SelectTwice(b, s);
  }

  lemma SelectKeepsRankable(b: Behavior, routes: seq<RibEntry>)
    requires Rankable(b, routes)
    ensures Rankable(b, SelectAt(b, routes))
  {
    var s, r := Arranged(b, routes), SelectAt(b, routes);
    ArrangedPermutes(b, routes);
    SelectKeepsSortable(b, routes);
    Sorting.AsymmetricPermutes(routes, s, Rank(b));
    assert forall i :: 0 <= i < |r| ==> r[i].attrs == s[i].attrs;
    hide Sortable, Arranged, SelectAt;
    forall i, j | 0 <= i < |r| && 0 <= j < |r| && i != j && Rank(b)(r[i], r[j])
      ensures !Rank(b)(r[j], r[i])
    {
      assert Rank(b)(s[i], s[j]);
    }
  }

  // ---------- routes without their conditions ----------

  /** What selection and convergence leave alone. */
  function Bare(e: RibEntry): (Attrs, Option<Cond>) {
    (e.attrs, e.base)
  }

  function Bares(s: seq<RibEntry>): (r: seq<(Attrs, Option<Cond>)>)
    ensures |r| == |s| && forall i :: 0 <= i < |s| ==> r[i] == Bare(s[i])
  {
    seq(|s|, i requires 0 <= i < |s| => Bare(s[i]))
  }

  function Without(s: seq<RibEntry>, j: nat): (r: seq<RibEntry>)
    requires j < |s|
    ensures |r| == |s| - 1
  {
    s[..j] + s[j + 1..]
  }

  lemma WithoutBares(s: seq<RibEntry>, j: nat)
    requires j < |s|
    ensures multiset(s) == multiset(Without(s, j)) + multiset{s[j]}
    ensures multiset(Bares(s)) == multiset(Bares(Without(s, j))) + multiset{Bare(s[j])}
  {
    var before, x, after := s[..j], [s[j]], s[j + 1..];
    assert s == before + (x + after);
    BaresConcat(before, x + after);
    BaresConcat(x, after);
    BaresConcat(before, after);
    assert Bares(x) == [Bare(s[j])];
  }

  lemma {:induction false} BaresPermute(s: seq<RibEntry>, t: seq<RibEntry>)
    requires multiset(s) == multiset(t)
    ensures multiset(Bares(s)) == multiset(Bares(t))
    decreases |s|
  {
    hide Bares, Without;
    if s == [] {
      assert |multiset(t)| == 0;
    } else {
      assert s[0] in multiset(t);
      var j :| 0 <= j < |t| && t[j] == s[0];
      WithoutBares(s, 0);
      WithoutBares(t, j);
      assert multiset(Without(s, 0)) == multiset(s) - multiset{s[0]} == multiset(Without(t, j));
      BaresPermute(Without(s, 0), Without(t, j));
    }
  }

  lemma BaresConcat(s: seq<RibEntry>, t: seq<RibEntry>)
    ensures Bares(s + t) == Bares(s) + Bares(t)
    ensures multiset(Bares(s + t)) == multiset(Bares(s)) + multiset(Bares(t))
  {
  }

  lemma SelectBares(b: Behavior, s: seq<RibEntry>)
    ensures multiset(Bares(SelectAt(b, s))) == multiset(Bares(s))
  {
    ArrangedPermutes(b, s);
    BaresPermute(Arranged(b, s), s);
    assert Bares(SelectAt(b, s)) == Bares(Arranged(b, s));
  }

  /** No route is there twice: what the table is kept free of. */
  ghost predicate DistinctRoutes(s: seq<RibEntry>) {
    forall i, j :: 0 <= i < j < |s| ==> Bare(s[i]) != Bare(s[j])
  }

  lemma DistinctBares(s: seq<RibEntry>)
    ensures DistinctRoutes(s) <==> Sorting.NoDuplicates(Bares(s))
    ensures DistinctRoutes(s) ==> Sorting.NoDuplicates(s)
  {
  }

  lemma DistinctPermutes(s: seq<RibEntry>, t: seq<RibEntry>)
    requires DistinctRoutes(s) && multiset(Bares(s)) == multiset(Bares(t))
    ensures DistinctRoutes(t)
  {
    DistinctBares(s);
    DistinctBares(t);
    Sorting.NoDuplicatesPermutes(Bares(s), Bares(t));
  }

  /** Whether routes are settled does not depend on their order or their conditions. */
  lemma SortableBares(b: Behavior, s: seq<RibEntry>, t: seq<RibEntry>)
    requires Sortable(b, s) && multiset(Bares(s)) == multiset(Bares(t))
    ensures Sortable(b, t)
  {
    var less := (x: (Attrs, Option<Cond>), y: (Attrs, Option<Cond>)) => b.less(x.0, y.0);
    assert |multiset(Bares(s))| == |s| && |multiset(Bares(t))| == |t|;
    assert Sorting.ComparesAlike(s, Rank(b), Bares(s), less);
    assert Sorting.ComparesAlike(t, Rank(b), Bares(t), less);
    Sorting.WeakAlike(s, Rank(b), Bares(s), less);
    Sorting.WeakAlike(t, Rank(b), Bares(t), less);
    hide Sorting.RankingOn, Sorting.WeakOn, Bares;
    if |s| > SHORT {
      Sorting.RankingPermutes(Bares(s), Bares(t), less);
    }
  }

  // ---------- when selection leaves a list alone ----------

  /** A list is left as it is exactly when its conditions are those selected and no neighbours are out of order. */
  lemma SelectFixpoint(b: Behavior, t: seq<RibEntry>)
    requires DistinctRoutes(t) && Sortable(b, t)
    ensures SelectAt(b, t) == t <==> Select(b, t) == t && Sorting.NoInversion(t, Rank(b))
  {
    ArrangedIsSort(b, t);
    hide Sorting.NoInversion, Sortable;
    if SelectAt(b, t) == t {
      ArrangedInPlace(b, t);
      DistinctBares(t);
      hide Arranged;
      Sorting.FixpointNoInversion(t, Rank(b));
    } else if Sorting.NoInversion(t, Rank(b)) {
      Sorting.SortFixpoint(t, Rank(b));
    }
  }

  lemma ArrangedInPlace(b: Behavior, t: seq<RibEntry>)
    requires DistinctRoutes(t) && SelectAt(b, t) == t
    ensures Arranged(b, t) == t
  {
    var u := Arranged(b, t);
    ArrangedPermutes(b, t);
    forall i | 0 <= i < |t|
      ensures u[i] == t[i]
    {
      assert Bare(u[i]) == Bare(Select(b, u)[i]) == Bare(t[i]);
      assert u[i] in u && u[i] in t;
      var j :| 0 <= j < |t| && t[j] == u[i];
    }
  }

  /** Settled routes, once selected, have no neighbours out of order but mutual ones. */
  lemma SelectMutual(b: Behavior, routes: seq<RibEntry>)
    requires Sortable(b, routes)
    ensures Sorting.InversionsMutual(SelectAt(b, routes), Rank(b))
  {
    var s, r := Arranged(b, routes), SelectAt(b, routes);
    ArrangedIsSort(b, routes);
    Sorting.SortMutual(routes, Rank(b));
    assert |r| == |s| && forall i :: 0 <= i < |r| ==> r[i].attrs == s[i].attrs;
    hide SelectAt, Arranged, Sorting.Sort;
    forall i, j | 0 <= i && i + 1 == j < |r| && Rank(b)(r[j], r[i])
      ensures Rank(b)(r[i], r[j])
    {
      assert Rank(b)(s[j], s[i]);
    }
  }

  /**
   Of settled routes: selecting a second time changes nothing exactly when no two neighbours of
   the result are each preferred to the other. That covers every list of up to twelve.
   */
  lemma StableExactly(b: Behavior, routes: seq<RibEntry>)
    requires DistinctRoutes(routes) && Sortable(b, routes)
    ensures
      var r := SelectAt(b, routes);
      SelectAt(b, r) == r <==> forall i {:trigger r[i]} :: 0 < i < |r| ==>
        !(Rank(b)(r[i - 1], r[i]) && Rank(b)(r[i], r[i - 1]))
  {
    var s, r := Arranged(b, routes), SelectAt(b, routes);
    SelectBares(b, routes);
    DistinctPermutes(routes, r);
    SelectTwice(b, s);
    SelectKeepsSortable(b, routes);
    SelectFixpoint(b, r);
    SelectMutual(b, routes);
    hide SelectAt, Arranged, Select, DistinctRoutes, Bares, Sortable;
    forall i | 0 < i < |r|
      ensures Rank(b)(r[i], r[i - 1]) ==> Rank(b)(r[i - 1], r[i])
    {
      assert Rank(b)(r[i], r[i - 1]) ==> Rank(b)(r[i - 1], r[i]);
    }
  }
}
