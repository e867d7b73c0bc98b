/** DeriveFIB: from the selected routes of one network instance to its forwarding table. */
module FibDerivation {
  import opened Conditions
  import opened Fib
  import opened FibLookup
  import opened Prefixes
  import opened PrefixText
  import opened Rib
  import opened Wrappers
  import Sorting
  import Text

  const ADMIN_DISTANCE_CONNECTED := 0
  const ADMIN_DISTANCE_STATIC := 1
  const ADMIN_DISTANCE_OSPF := 110
  const ADMIN_DISTANCE_BGP := 200

  function FibAdminDistance(a: Attrs): int {
    if a.adminDistance != ADMIN_DISTANCE_CONNECTED || a.kind.Connected? then a.adminDistance
    else
      match a.kind
      case Static => ADMIN_DISTANCE_STATIC
      case Blackhole => ADMIN_DISTANCE_STATIC
      case Ospf => ADMIN_DISTANCE_OSPF
      case _ => ADMIN_DISTANCE_BGP
  }

  function KindWord(k: SourceKind): string {
    match k
    case Connected => "connected"
    case Static => "static"
    case Blackhole => "blackhole"
    case Bgp => "bgp"
    case Ospf => "ospf"
    case Aggregate => "aggregate"
    case Unknown => "unknown"
  }

  predicate ByDistance(x: RibEntry, y: RibEntry) {
    var dx, dy := FibAdminDistance(x.attrs), FibAdminDistance(y.attrs);
    if dx == dy then Text.Less(KindWord(x.attrs.kind), KindWord(y.attrs.kind)) else dx < dy
  }

  /** The distance of a route: the one configured for it, else the usual one of its kind. */
  predicate HasDistance(a: Attrs, d: int) {
    if a.adminDistance != 0 then d == a.adminDistance
    else
      && (a.kind == Connected ==> d == 0)
      && (a.kind == Static || a.kind == Blackhole ==> d == 1)
      && (a.kind == Ospf ==> d == 110)
      && (a.kind == Bgp || a.kind == Aggregate || a.kind == Unknown ==> d == 200)
  }

  /** The kinds by name. */
  const KINDS := [Aggregate, Bgp, Blackhole, Connected, SourceKind.Ospf, Static, Unknown]

  /** Less distant, or as distant and of a kind with a lower name. */
  ghost predicate Nearer(a: Attrs, b: Attrs) {
    exists d, e :: HasDistance(a, d) && HasDistance(b, e) && (
        || d < e
        || (d == e && exists i, j :: 0 <= i < j < |KINDS| && KINDS[i] == a.kind && KINDS[j] == b.kind))
  }

  lemma LessByHead(s: string, t: string)
    requires s != "" && t != "" && s[0] != t[0]
    ensures Text.Less(s, t) <==> s[0] < t[0]
  {
  }

  lemma KindsByName(i: nat, j: nat)
    requires i < |KINDS| && j < |KINDS|
    ensures Text.Less(KindWord(KINDS[i]), KindWord(KINDS[j])) <==> i < j
  {
    var s, t := KindWord(KINDS[i]), KindWord(KINDS[j]);
    Text.LessIrreflexive(s);
    assert Text.Less("bgp", "blackhole") && !Text.Less("blackhole", "bgp") by {
      assert "bgp"[1..] == "gp" && "blackhole"[1..] == "lackhole";
    }
    hide Text.Less;
    if s[0] != t[0] {
      LessByHead(s, t);
    }
  }

  lemma KindAt(k: SourceKind) returns (i: nat)
    ensures i < |KINDS| && KINDS[i] == k && forall j :: 0 <= j < |KINDS| && KINDS[j] == k ==> j == i
  {
    i := match k
      case Aggregate => 0
      case Bgp => 1
      case Blackhole => 2
      case Connected => 3
      case Ospf => 4
      case Static => 5
      case Unknown => 6;
  }

  /** The order in which the routes of a prefix are taken. */
  lemma ByDistanceExactly(x: RibEntry, y: RibEntry)
    ensures ByDistance(x, y) <==> Nearer(x.attrs, y.attrs)
  {
    var d, e := FibAdminDistance(x.attrs), FibAdminDistance(y.attrs);
    assert HasDistance(x.attrs, d) && HasDistance(y.attrs, e);
    assert forall c :: HasDistance(x.attrs, c) ==> c == d;
    assert forall c :: HasDistance(y.attrs, c) ==> c == e;
    var i := KindAt(x.attrs.kind);
    var j := KindAt(y.attrs.kind);
    KindsByName(i, j);
    hide HasDistance, FibAdminDistance, KindWord, Text.Less;
  }

  /** The order of the finished table. */
  predicate FibLess(x: FibEntry, y: FibEntry) {
    if BitsOf(x.prefix) == BitsOf(y.prefix) then
      if x.rank == y.rank then Text.Less(PrefixString(x.prefix), PrefixString(y.prefix)) else x.rank < y.rank
    else BitsOf(x.prefix) > BitsOf(y.prefix)
  }

  function SelectedKey(c: Option<Cond>): string {
    if c.Some? then Key(c.value) else ""
  }

  /** The key tells selected conditions apart, and a missing one from all of them. */
  lemma SelectedKeyExactly(c: Option<Cond>, d: Option<Cond>)
    requires (c.Some? ==> Clean(c.value)) && (d.Some? ==> Clean(d.value))
    ensures SelectedKey(c) == SelectedKey(d) <==> c == d
  {
    if c.Some? && d.Some? {
      KeyInjective(c.value, d.value);
    } else if c.Some? {
      KeyStartsWithLetter(c.value);
    } else if d.Some? {
      KeyStartsWithLetter(d.value);
    }
  }

  function NextHopResolution(node: string, addr: string): Status {
    if node != "" then ResolvedAdjacent else if addr != "" then UnresolvedRecursive else Unset
  }

  function EntryFor(r: RibEntry, rank: nat, id: string, equivalent: bool): FibEntry {
    FibEntry(r.attrs.prefix, r.attrs.nextHopNode, if r.attrs.nextHopNode == "" then r.attrs.nextHopAddr
      else r.attrs.nextHopNode,
             r.attrs.nextHopAddr, r.attrs.iface, NextHopResolution(r.attrs.nextHopNode, r.attrs.nextHopAddr),
             r.attrs.kind.Blackhole?, r.selected, rank, id, equivalent)
  }

  type Equivalence = (Attrs, Attrs) -> bool

  type Installable = (seq<RibEntry>, RibEntry) -> bool

  datatype RouteGroup = RouteGroup(route: RibEntry, rank: nat, id: string, equivalent: bool)

  /** The first group whose route is equivalent, from the k-th on; else a new one. */
  function RouteGroupFor(equivalent: Equivalence, groups: seq<RouteGroup>, r: RibEntry, k: nat): (RouteGroup, bool)
    requires k <= |groups|
    decreases |groups| - k
  {
    if k == |groups| then (RouteGroup(r, |groups|, GroupName(r.attrs.prefix, |groups|), false), true)
    else if equivalent(groups[k].route.attrs, r.attrs) then (RouteGroup(r, groups[k].rank, groups[k].id, true), false)
    else RouteGroupFor(equivalent, groups, r, k + 1)
  }

  // ---------- what the table records ----------

  /** The entry says what the route says, and names its group. */
  predicate Installs(e: FibEntry, r: RibEntry) {
    && e.prefix == r.attrs.prefix && e.condition == r.selected && e.iface == r.attrs.iface
    && e.nextHop == r.attrs.nextHopNode && e.nextHopAddress == r.attrs.nextHopAddr
    && (e.rawNextHop == if r.attrs.nextHopNode != "" then r.attrs.nextHopNode else r.attrs.nextHopAddr)
    && (e.discard <==> r.attrs.kind == Blackhole)
    && (r.attrs.nextHopNode != "" ==> e.status == ResolvedAdjacent)
    && (r.attrs.nextHopNode == "" && r.attrs.nextHopAddr != "" ==> e.status == UnresolvedRecursive)
    && (r.attrs.nextHopNode == "" && r.attrs.nextHopAddr == "" ==> e.status == Unset)
    && e.groupId == GroupName(r.attrs.prefix, e.rank)
  }

  /** The route belongs to the group of the given rank: its founder, or the first founder equivalent to it. */
  ghost predicate InGroup(equivalent: Equivalence, founders: seq<RibEntry>, rank: nat, r: RibEntry) {
    && rank < |founders|
    && (if r in founders then founders[rank] == r else equivalent(founders[rank].attrs, r.attrs))
    && forall k :: 0 <= k < rank ==> !equivalent(founders[k].attrs, r.attrs)
  }

  predicate SameGroup(e: FibEntry, f: FibEntry) {
    e.prefix == f.prefix && e.rank == f.rank
  }

  function FoundersOf(founders: map<Prefix, seq<RibEntry>>, p: Prefix): seq<RibEntry> {
    if p in founders then founders[p] else []
  }

  ghost predicate Placed(equivalent: Equivalence, entries: seq<FibEntry>, from: seq<RibEntry>,
                         founders: map<Prefix, seq<RibEntry>>) {
    && |from| == |entries|
    && forall i :: 0 <= i < |entries| ==>
      Installs(entries[i], from[i])
        && InGroup(equivalent, FoundersOf(founders, entries[i].prefix), entries[i].rank, from[i])
  }

  ghost predicate Distinct(entries: seq<FibEntry>) {
    forall i, j :: 0 <= i < j < |entries| && entries[i].prefix == entries[j].prefix ==>
      SelectedKey(entries[i].condition) != SelectedKey(entries[j].condition)
  }

  ghost predicate HasPeer(entries: seq<FibEntry>, i: nat)
    requires i < |entries|
  {
    exists j :: 0 <= j < |entries| && j != i && SameGroup(entries[j], entries[i])
  }

  ghost predicate Flagged(entries: seq<FibEntry>) {
    forall i :: 0 <= i < |entries| ==> (entries[i].equivalent <==> HasPeer(entries, i))
  }

  ghost predicate HasRank(entries: seq<FibEntry>, p: Prefix, k: nat) {
    exists i :: 0 <= i < |entries| && entries[i].prefix == p && entries[i].rank == k
  }

  ghost predicate Founded(entries: seq<FibEntry>, founders: map<Prefix, seq<RibEntry>>) {
    forall p :: p in founders ==> forall k :: 0 <= k < |founders[p]| ==> HasRank(entries, p, k)
  }

  /** What holds of the entries while they are being collected; from[i] is the route of entries[i]. */
  ghost predicate Collected(equivalent: Equivalence, entries: seq<FibEntry>, from: seq<RibEntry>,
                            founders: map<Prefix, seq<RibEntry>>) {
    Placed(equivalent, entries, from, founders) && Distinct(entries) && Flagged(entries) && Founded(entries, founders)
  }

  lemma GroupNameInjective(p: Prefix, q: Prefix, k: nat, l: nat)
    requires GroupName(p, k) == GroupName(q, l)
    ensures p == q && k == l
  {
    var s, t := "#rank-" + Text.Decimal(k), "#rank-" + Text.Decimal(l);
    PrefixStringChars(p, '#');
    PrefixStringChars(q, '#');
    Text.SplitAtSeparator('#', PrefixString(p), PrefixString(q), s, t);
    PrefixStringInjective(p, q);
    Text.DropHead("#rank-", Text.Decimal(k), Text.Decimal(l));
    Text.DecimalInjective(k, l);
  }

  function Marked(entries: seq<FibEntry>, id: string): (r: seq<FibEntry>)
    ensures |r| == |entries|
    ensures forall i :: 0 <= i < |entries| ==>
        r[i] == if entries[i].groupId == id then entries[i].(equivalent := true) else entries[i]
  {
    seq(|entries|, i requires 0 <= i < |entries| => if entries[i].groupId == id then entries[i].(equivalent := true)
      else entries[i])
  }

  method MarkGroup(entries0: seq<FibEntry>, id: string) returns (entries: seq<FibEntry>)
    ensures entries == Marked(entries0, id)
  {
    entries := entries0;
    for i := 0 to |entries|
      invariant |entries| == |entries0|
      invariant forall k :: 0 <= k < |entries0| ==> entries[k] == if k < i then Marked(entries0, id)[k] else entries0[k]
    {
      if entries[i].groupId == id {
        entries := entries[i := entries[i].(equivalent := true)];
      }
    }
  }

  predicate NewKey(entries: seq<FibEntry>, r: RibEntry) {
    forall i :: 0 <= i < |entries| && entries[i].prefix == r.attrs.prefix ==>
      SelectedKey(entries[i].condition) != SelectedKey(r.selected)
  }

  lemma MarkedSame(equivalent: Equivalence, entries: seq<FibEntry>, from: seq<RibEntry>,
                   founders: map<Prefix, seq<RibEntry>>, id: string)
    requires Placed(equivalent, entries, from, founders)
    ensures Placed(equivalent, Marked(entries, id), from, founders)
    ensures Distinct(entries) ==> Distinct(Marked(entries, id))
    ensures Founded(entries, founders) ==> Founded(Marked(entries, id), founders)
  {
    hide GroupName, InGroup, SelectedKey;
    var marked := Marked(entries, id);
    if Founded(entries, founders) {
      forall p, k | p in founders && 0 <= k < |founders[p]| && HasRank(entries, p, k)
        ensures HasRank(marked, p, k)
      {
        var i :| 0 <= i < |entries| && entries[i].prefix == p && entries[i].rank == k;
        assert marked[i].prefix == p && marked[i].rank == k;
      }
    }
  }

  lemma GroupIdExactly(e: FibEntry, r: RibEntry, p: Prefix, rank: nat)
    requires Installs(e, r)
    ensures e.groupId == GroupName(p, rank) <==> e.prefix == p && e.rank == rank
  {
    if e.groupId == GroupName(p, rank) {
      GroupNameInjective(e.prefix, p, e.rank, rank);
    }
  }

  lemma AppendPlaced(equivalent: Equivalence, entries: seq<FibEntry>, from: seq<RibEntry>,
                     founders: map<Prefix, seq<RibEntry>>,
                     e: FibEntry, r: RibEntry)
    requires Placed(equivalent, entries, from, founders) && Installs(e, r)
    requires InGroup(equivalent, FoundersOf(founders, e.prefix), e.rank, r)
    ensures Placed(equivalent, entries + [e], from + [r], founders)
  {
    hide Installs, InGroup;
  }

  lemma AppendDistinct(entries: seq<FibEntry>, e: FibEntry, r: RibEntry)
    requires Distinct(entries) && NewKey(entries, r) && Installs(e, r)
    ensures Distinct(entries + [e])
  {
    hide SelectedKey;
  }

  lemma AppendRanks(entries: seq<FibEntry>, founders: map<Prefix, seq<RibEntry>>, e: FibEntry)
    requires Founded(entries, founders)
    ensures Founded(entries + [e], founders)
  {
    forall p, k | p in founders && 0 <= k < |founders[p]| && HasRank(entries, p, k)
      ensures HasRank(entries + [e], p, k)
    {
      var i :| 0 <= i < |entries| && entries[i].prefix == p && entries[i].rank == k;
      assert (entries + [e])[i] == entries[i];
    }
  }

  /** Marking the group and adding a marked member keeps the flags right. */
  lemma JoinFlagged(entries: seq<FibEntry>, marked: seq<FibEntry>, e: FibEntry)
    requires |marked| == |entries| && Flagged(entries) && HasRank(entries, e.prefix, e.rank) && e.equivalent
    requires forall i :: 0 <= i < |entries| ==>
      marked[i] == if SameGroup(entries[i], e) then entries[i].(equivalent := true) else entries[i]
    ensures Flagged(marked + [e])
  {
    var all := marked + [e];
    forall i | 0 <= i < |all|
      ensures all[i].equivalent <==> HasPeer(all, i)
    {
      if i == |entries| {
        var m :| 0 <= m < |entries| && entries[m].prefix == e.prefix && entries[m].rank == e.rank;
        assert SameGroup(all[m], all[i]);
      } else if SameGroup(entries[i], e) {
        assert SameGroup(all[|entries|], all[i]);
      } else {
        if HasPeer(entries, i) {
          var j :| 0 <= j < |entries| && j != i && SameGroup(entries[j], entries[i]);
          assert SameGroup(all[j], all[i]);
        }
        if HasPeer(all, i) {
          var j :| 0 <= j < |all| && j != i && SameGroup(all[j], all[i]);
          assert SameGroup(entries[j], entries[i]);
        }
      }
    }
  }

  lemma FoundFlagged(entries: seq<FibEntry>, e: FibEntry)
    requires Flagged(entries) && !e.equivalent && !HasRank(entries, e.prefix, e.rank)
    ensures Flagged(entries + [e])
  {
    var all := entries + [e];
    forall i | 0 <= i < |all|
      ensures all[i].equivalent <==> HasPeer(all, i)
    {
      if i < |entries| {
        assert !SameGroup(entries[i], e);
        if HasPeer(entries, i) {
          var j :| 0 <= j < |entries| && j != i && SameGroup(entries[j], entries[i]);
          assert SameGroup(all[j], all[i]);
        }
        if HasPeer(all, i) {
          var j :| 0 <= j < |all| && j != i && SameGroup(all[j], all[i]);
          assert SameGroup(entries[j], entries[i]);
        }
      }
    }
  }

  /** A route that joins a group makes all its members equivalent. */
  lemma JoinCollected(equivalent: Equivalence, entries: seq<FibEntry>, from: seq<RibEntry>,
                      founders: map<Prefix, seq<RibEntry>>,
                      r: RibEntry, rank: nat)
    requires Collected(equivalent, entries, from, founders) && NewKey(entries, r)
    requires r.attrs.prefix in founders && InGroup(equivalent, founders[r.attrs.prefix], rank, r)
    ensures
      var id := GroupName(r.attrs.prefix, rank);
      Collected(equivalent, Marked(entries, id) + [EntryFor(r, rank, id, true)], from + [r], founders)
  {
    var p, id := r.attrs.prefix, GroupName(r.attrs.prefix, rank);
    var e := EntryFor(r, rank, id, true);
    var marked := Marked(entries, id);
    MarkedSame(equivalent, entries, from, founders, id);
    forall i | 0 <= i < |entries|
      ensures marked[i] == if SameGroup(entries[i], e) then entries[i].(equivalent := true) else entries[i]
    {
      GroupIdExactly(entries[i], from[i], p, rank);
    }
    assert HasRank(entries, p, rank);
    assert NewKey(marked, r);
    hide GroupName, InGroup, SelectedKey, Flagged, Distinct, Founded, Placed, HasRank, NewKey, Marked;
    JoinFlagged(entries, marked, e);
    AppendPlaced(equivalent, marked, from, founders, e, r);
    AppendDistinct(marked, e, r);
    AppendRanks(marked, founders, e);
  }

  lemma NewRank(equivalent: Equivalence, entries: seq<FibEntry>, from: seq<RibEntry>,
                founders: map<Prefix, seq<RibEntry>>, p: Prefix)
    requires Placed(equivalent, entries, from, founders)
    ensures !HasRank(entries, p, |FoundersOf(founders, p)|)
  {
  }

  lemma MorePlaced(equivalent: Equivalence, entries: seq<FibEntry>, from: seq<RibEntry>,
                   founders: map<Prefix, seq<RibEntry>>, r: RibEntry)
    requires Placed(equivalent, entries, from, founders) && NewKey(entries, r)
    ensures Placed(equivalent, entries, from, founders[r.attrs.prefix := FoundersOf(founders, r.attrs.prefix) + [r]])
  {
    var more := founders[r.attrs.prefix := FoundersOf(founders, r.attrs.prefix) + [r]];
    hide SelectedKey, GroupName;
    forall i | 0 <= i < |entries|
      ensures InGroup(equivalent, FoundersOf(more, entries[i].prefix), entries[i].rank, from[i])
    {
      assert Installs(entries[i], from[i]);
      assert entries[i].prefix == r.attrs.prefix ==> from[i] != r;
    }
  }

  lemma FoundRanks(entries: seq<FibEntry>, founders: map<Prefix, seq<RibEntry>>, e: FibEntry, r: RibEntry)
    requires Founded(entries, founders) && e.prefix == r.attrs.prefix && e.rank == |FoundersOf(founders, e.prefix)|
    ensures Founded(entries + [e], founders[e.prefix := FoundersOf(founders, e.prefix) + [r]])
  {
    AppendRanks(entries, founders, e);
    assert (entries + [e])[|entries|] == e;
  }

  /** A route that founds a group is alone in it. */
  lemma FoundCollected(equivalent: Equivalence, entries: seq<FibEntry>, from: seq<RibEntry>,
                       founders: map<Prefix, seq<RibEntry>>, r: RibEntry)
    requires Collected(equivalent, entries, from, founders) && NewKey(entries, r)
    requires r !in FoundersOf(founders, r.attrs.prefix)
    requires forall k :: 0 <= k < |FoundersOf(founders, r.attrs.prefix)| ==>
        !equivalent(FoundersOf(founders, r.attrs.prefix)[k].attrs, r.attrs)
    ensures
      var before := FoundersOf(founders, r.attrs.prefix);
      Collected(equivalent, entries + [EntryFor(r, |before|, GroupName(r.attrs.prefix, |before|), false)], from + [r],
                founders[r.attrs.prefix := before + [r]])
  {
    var p := r.attrs.prefix;
    var before := FoundersOf(founders, p);
    var e := EntryFor(r, |before|, GroupName(p, |before|), false);
    NewRank(equivalent, entries, from, founders, p);
    MorePlaced(equivalent, entries, from, founders, r);
    assert InGroup(equivalent, FoundersOf(founders[p := before + [r]], p), |before|, r);
    hide GroupName, InGroup, SelectedKey, Flagged, Distinct, Founded, Placed, HasRank, NewKey;
    AppendPlaced(equivalent, entries, from, founders[p := before + [r]], e, r);
    AppendDistinct(entries, e, r);
    FoundFlagged(entries, e);
    FoundRanks(entries, founders, e, r);
  }

  // ---------- which routes of a prefix are installed ----------

  /** The conditions taken so far, as keys. */
  function Taken(installed: seq<RibEntry>): set<string> {
    set r | r in installed :: SelectedKey(r.selected)
  }

  /** Of the routes in order: each whose condition is not taken yet and that may be installed beside those before it. */
  function Installed(installable: Installable, routes: seq<RibEntry>): seq<RibEntry> {
    if routes == [] then []
    else
      var before, r := Installed(installable, routes[..|routes| - 1]), routes[|routes| - 1];
      if SelectedKey(r.selected) in Taken(before) || !installable(before, r) then before else before + [r]
  }

  predicate HasFounder(equivalent: Equivalence, founders: seq<RibEntry>, r: RibEntry) {
    exists k :: 0 <= k < |founders| && equivalent(founders[k].attrs, r.attrs)
  }

  /** Of the installed routes in order: each that is equivalent to no founder before it. */
  function FoundersIn(equivalent: Equivalence, installed: seq<RibEntry>): seq<RibEntry> {
    if installed == [] then []
    else
      var before, r := FoundersIn(equivalent, installed[..|installed| - 1]), installed[|installed| - 1];
      if HasFounder(equivalent, before, r) then before else before + [r]
  }

  lemma InstalledStep(installable: Installable, routes: seq<RibEntry>, n: nat)
    requires n < |routes|
    ensures
      var before, r := Installed(installable, routes[..n]), routes[n];
      Installed(installable, routes[..n + 1]) ==
        if SelectedKey(r.selected) in Taken(before) || !installable(before, r) then before else before + [r]
  {
    assert routes[..n + 1][..n] == routes[..n];
  }

  lemma FoundersStep(equivalent: Equivalence, installed: seq<RibEntry>, r: RibEntry)
    ensures FoundersIn(equivalent, installed + [r]) ==
      var before := FoundersIn(equivalent, installed);
      if HasFounder(equivalent, before, r) then before else before + [r]
  {
    assert (installed + [r])[..|installed|] == installed;
  }

  lemma {:induction false} InstalledAmong(installable: Installable, routes: seq<RibEntry>)
    ensures forall r :: r in Installed(installable, routes) ==> r in routes
  {
    if routes != [] {
      InstalledAmong(installable, routes[..|routes| - 1]);
    }
  }

  lemma {:induction false} FoundersAmong(equivalent: Equivalence, installed: seq<RibEntry>)
    ensures forall r :: r in FoundersIn(equivalent, installed) ==> r in installed
  {
    if installed != [] {
      FoundersAmong(equivalent, installed[..|installed| - 1]);
    }
  }

  /** What is installed later comes after what is installed earlier, and from the later routes. */
  lemma {:induction false} InstalledGrows(installable: Installable, routes: seq<RibEntry>, n: nat)
    requires n <= |routes|
    ensures Installed(installable, routes[..n]) <= Installed(installable, routes)
    ensures forall r :: r in Installed(installable, routes) ==>
        r in Installed(installable, routes[..n]) || r in routes[n..]
    decreases |routes| - n
  {
    if n == |routes| {
      assert routes[..n] == routes;
    } else {
      InstalledStep(installable, routes, n);
      InstalledGrows(installable, routes, n + 1);
      assert routes[n..] == [routes[n]] + routes[n + 1..];
    }
  }

  /**
   Among routes without duplicates, one is installed exactly when none of those installed before
   it has its condition and they admit it.
   */
  lemma InstalledExactly(installable: Installable, routes: seq<RibEntry>, n: nat)
    requires n < |routes| && Sorting.NoDuplicates(routes)
    ensures
      var before, r := Installed(installable, routes[..n]), routes[n];
      r in Installed(installable, routes) <==> SelectedKey(r.selected) !in Taken(before) && installable(before, r)
  {
    var before, r := Installed(installable, routes[..n]), routes[n];
    InstalledStep(installable, routes, n);
    InstalledGrows(installable, routes, n + 1);
    InstalledAmong(installable, routes[..n]);
    assert r !in routes[..n] && r !in routes[n + 1..];
    hide SelectedKey, Taken, Installed;
    if SelectedKey(r.selected) !in Taken(before) && installable(before, r) {
      assert (before + [r])[|before|] == r;
    }
  }

  ghost predicate KeysDiffer(s: seq<RibEntry>) {
    forall i, j :: 0 <= i < j < |s| ==> SelectedKey(s[i].selected) != SelectedKey(s[j].selected)
  }

  lemma AppendKey(s: seq<RibEntry>, r: RibEntry)
    requires KeysDiffer(s) && SelectedKey(r.selected) !in Taken(s)
    ensures KeysDiffer(s + [r])
  {
    hide SelectedKey;
    assert forall i :: 0 <= i < |s| ==> s[i] in s;
    assert forall i :: 0 <= i < |s| ==> SelectedKey(s[i].selected) in Taken(s);
  }

  lemma {:induction false} InstalledDistinct(installable: Installable, routes: seq<RibEntry>)
    ensures KeysDiffer(Installed(installable, routes)) && Sorting.NoDuplicates(Installed(installable, routes))
  {
    hide SelectedKey;
    if routes != [] {
      var before, r := Installed(installable, routes[..|routes| - 1]), routes[|routes| - 1];
      InstalledDistinct(installable, routes[..|routes| - 1]);
      if SelectedKey(r.selected) !in Taken(before) {
        AppendKey(before, r);
      }
    }
  }

  lemma {:induction false} InstalledSorted(installable: Installable, routes: seq<RibEntry>)
    requires Sorting.Sorted(routes, ByDistance)
    ensures Sorting.Sorted(Installed(installable, routes), ByDistance)
  {
    hide ByDistance, SelectedKey;
    if routes != [] {
      var init := routes[..|routes| - 1];
      InstalledSorted(installable, init);
      InstalledAmong(installable, init);
      LastIsLast(routes, Installed(installable, init));
    }
  }

  lemma {:induction false} FoundersSorted(equivalent: Equivalence, installed: seq<RibEntry>)
    requires Sorting.Sorted(installed, ByDistance)
    ensures Sorting.Sorted(FoundersIn(equivalent, installed), ByDistance)
  {
    hide ByDistance, HasFounder;
    if installed != [] {
      var init := installed[..|installed| - 1];
      FoundersSorted(equivalent, init);
      FoundersAmong(equivalent, init);
      LastIsLast(installed, FoundersIn(equivalent, init));
    }
  }

  lemma LastIsLast(routes: seq<RibEntry>, some: seq<RibEntry>)
    requires routes != [] && Sorting.Sorted(routes, ByDistance) && Sorting.Sorted(some, ByDistance)
    requires forall r :: r in some ==> r in routes[..|routes| - 1]
    ensures Sorting.Sorted(some + [routes[|routes| - 1]], ByDistance)
  {
    hide ByDistance;
    forall i | 0 <= i < |some|
      ensures !ByDistance(routes[|routes| - 1], some[i])
    {
      assert some[i] in some && some[i] in routes[..|routes| - 1];
      var j :| 0 <= j < |routes| - 1 && routes[j] == some[i];
    }
  }

  ghost predicate Inequivalent(equivalent: Equivalence, founders: seq<RibEntry>) {
    forall k, l :: 0 <= k < l < |founders| ==> !equivalent(founders[k].attrs, founders[l].attrs)
  }

  lemma AppendFounder(equivalent: Equivalence, founders: seq<RibEntry>, r: RibEntry)
    requires Inequivalent(equivalent, founders) && !HasFounder(equivalent, founders, r)
    ensures Inequivalent(equivalent, founders + [r])
  {
    NoFounder(equivalent, founders, r);
  }

  lemma {:induction false} FoundersInequivalent(equivalent: Equivalence, installed: seq<RibEntry>)
    ensures Inequivalent(equivalent, FoundersIn(equivalent, installed))
  {
    if installed != [] {
      var before, r := FoundersIn(equivalent, installed[..|installed| - 1]), installed[|installed| - 1];
      FoundersInequivalent(equivalent, installed[..|installed| - 1]);
      if !HasFounder(equivalent, before, r) {
        AppendFounder(equivalent, before, r);
      }
    }
  }

  lemma {:induction false} FoundersDistinct(equivalent: Equivalence, installed: seq<RibEntry>)
    requires Sorting.NoDuplicates(installed)
    ensures Sorting.NoDuplicates(FoundersIn(equivalent, installed))
  {
    hide HasFounder;
    if installed != [] {
      var before := FoundersIn(equivalent, installed[..|installed| - 1]);
      FoundersDistinct(equivalent, installed[..|installed| - 1]);
      FoundersAmong(equivalent, installed[..|installed| - 1]);
      assert forall i :: 0 <= i < |before| ==> before[i] in before;
      assert installed[|installed| - 1] !in installed[..|installed| - 1];
    }
  }

  /**
   A device that refuses routes equivalent to an installed one makes every installed route the
   founder of its own group.
   */
  lemma {:induction false} AllFound(equivalent: Equivalence, installable: Installable, routes: seq<RibEntry>)
    requires forall installed, r :: installable(installed, r) ==> !HasFounder(equivalent, installed, r)
    ensures FoundersIn(equivalent, Installed(installable, routes)) == Installed(installable, routes)
  {
    if routes != [] {
      AllFound(equivalent, installable, routes[..|routes| - 1]);
      FoundersStep(equivalent, Installed(installable, routes[..|routes| - 1]), routes[|routes| - 1]);
      hide HasFounder, SelectedKey;
    }
  }

  // ---------- one prefix ----------

  ghost predicate GroupsAre(groups: seq<RouteGroup>, founders: seq<RibEntry>, p: Prefix) {
    |groups| == |founders| && forall k :: 0 <= k < |groups| ==>
      groups[k].route == founders[k] && groups[k].rank == k && groups[k].id == GroupName(p, k)
  }

  lemma {:induction false} RouteGroupForMeans(equivalent: Equivalence, groups: seq<RouteGroup>,
                                              founders: seq<RibEntry>, r: RibEntry, k: nat)
    requires GroupsAre(groups, founders, r.attrs.prefix) && k <= |groups| && r !in founders
    requires forall l :: 0 <= l < k ==> !equivalent(founders[l].attrs, r.attrs)
    ensures
      var (group, isNew) := RouteGroupFor(equivalent, groups, r, k);
      && group.route == r && group.id == GroupName(r.attrs.prefix, group.rank)
        && group.equivalent == !isNew == HasFounder(equivalent, founders, r)
      && (if isNew then group.rank == |groups| else InGroup(equivalent, founders, group.rank, r))
    decreases |groups| - k
  {
    hide GroupName;
    if k < |groups| && !equivalent(groups[k].route.attrs, r.attrs) {
      RouteGroupForMeans(equivalent, groups, founders, r, k + 1);
    }
  }

  /** Only the founders at p change: they gain the route if it has no founder there. */
  ghost predicate FoundersNext(equivalent: Equivalence, founders: map<Prefix, seq<RibEntry>>,
                               founders0: map<Prefix, seq<RibEntry>>, p: Prefix, r: RibEntry) {
    && founders.Keys <= founders0.Keys + {p}
    && (forall q :: q != p ==> FoundersOf(founders, q) == FoundersOf(founders0, q))
    && FoundersOf(founders, p) == FoundersOf(founders0, p) + if HasFounder(equivalent, FoundersOf(founders0, p), r)
      then [] else [r]
  }

  lemma FoundersStay(equivalent: Equivalence, founders: map<Prefix, seq<RibEntry>>, p: Prefix, r: RibEntry)
    requires HasFounder(equivalent, FoundersOf(founders, p), r)
    ensures FoundersNext(equivalent, founders, founders, p, r)
  {
  }

  lemma FoundersPlus(equivalent: Equivalence, founders: map<Prefix, seq<RibEntry>>, p: Prefix, r: RibEntry)
    requires !HasFounder(equivalent, FoundersOf(founders, p), r)
    ensures FoundersNext(equivalent, founders[p := FoundersOf(founders, p) + [r]], founders, p, r)
  {
  }

  lemma NoFounder(equivalent: Equivalence, founders: seq<RibEntry>, r: RibEntry)
    requires !HasFounder(equivalent, founders, r)
    ensures forall k :: 0 <= k < |founders| ==> !equivalent(founders[k].attrs, r.attrs)
  {
  }

  /** Adds one route's entry to its group, or founds one. */
  method InstallRoute(equivalent: Equivalence, p: Prefix, route: RibEntry, entries0: seq<FibEntry>,
                      groups0: seq<RouteGroup>,
                      ghost from0: seq<RibEntry>, ghost founders0: map<Prefix, seq<RibEntry>>)
    returns (entries: seq<FibEntry>, groups: seq<RouteGroup>, ghost founders: map<Prefix, seq<RibEntry>>)
    requires Collected(equivalent, entries0, from0, founders0) && GroupsAre(groups0, FoundersOf(founders0, p), p)
    requires route.attrs.prefix == p && NewKey(entries0, route) && route !in FoundersOf(founders0, p)
    ensures Collected(equivalent, entries, from0 + [route], founders) && GroupsAre(groups, FoundersOf(founders, p), p)
    ensures FoundersNext(equivalent, founders, founders0, p, route)
  {
    hide Collected, GroupsAre, NewKey, EntryFor, SelectedKey, GroupName, FoundersOf, Marked, HasFounder;
    entries, groups, founders := entries0, groups0, founders0;
    var (group, isNew) := RouteGroupFor(equivalent, groups, route, 0);
    RouteGroupForMeans(equivalent, groups, FoundersOf(founders, p), route, 0);
    GroupsLength(groups, FoundersOf(founders, p), p);
    if isNew {
      NewGroup(groups, FoundersOf(founders, p), p, group, route);
      groups := groups + [group];
      NoFounder(equivalent, FoundersOf(founders, p), route);
      FoundCollected(equivalent, entries, from0, founders, route);
      founders := founders[p := FoundersOf(founders, p) + [route]];
      FoundersNow(founders0, p, FoundersOf(founders0, p) + [route]);
      FoundersPlus(equivalent, founders0, p, route);
    } else {
      FoundersStay(equivalent, founders0, p, route);
      KnownPrefix(equivalent, founders, p, group.rank, route);
      JoinCollected(equivalent, entries, from0, founders, route, group.rank);
      entries := MarkGroup(entries, group.id);
    }
    entries := entries + [EntryFor(route, group.rank, group.id, group.equivalent)];
  }

  lemma GroupsLength(groups: seq<RouteGroup>, founders: seq<RibEntry>, p: Prefix)
    requires GroupsAre(groups, founders, p)
    ensures |groups| == |founders|
  {
  }

  lemma FoundersNow(founders: map<Prefix, seq<RibEntry>>, p: Prefix, rs: seq<RibEntry>)
    ensures FoundersOf(founders[p := rs], p) == rs
  {
  }

  lemma NewGroup(groups: seq<RouteGroup>, founders: seq<RibEntry>, p: Prefix, group: RouteGroup, r: RibEntry)
    requires GroupsAre(groups, founders, p) && group.route == r && group.rank == |groups|
    requires group.id == GroupName(p, |groups|)
    ensures |groups| == |founders| && GroupsAre(groups + [group], founders + [r], p)
  {
  }

  lemma KnownPrefix(equivalent: Equivalence, founders: map<Prefix, seq<RibEntry>>, p: Prefix, rank: nat, r: RibEntry)
    requires InGroup(equivalent, FoundersOf(founders, p), rank, r)
    ensures p in founders && FoundersOf(founders, p) == founders[p]
  {
  }

  /** The entries at p are those of the routes installed at p. */
  ghost predicate AtPrefix(from: seq<RibEntry>, from0: seq<RibEntry>, installed: seq<RibEntry>, p: Prefix) {
    from == from0 + installed && (forall r :: r in from0 ==> r.attrs.prefix != p) && forall r :: r in installed ==>
      r.attrs.prefix == p
  }

  /** The routes of one prefix, in order of distance. */
  method InstallPrefix(equivalent: Equivalence, installable: Installable, p: Prefix, routes0: seq<RibEntry>,
                       entries0: seq<FibEntry>, ghost from0: seq<RibEntry>, ghost founders0: map<Prefix, seq<RibEntry>>)
    returns (entries: seq<FibEntry>, ghost founders: map<Prefix, seq<RibEntry>>)
    requires Collected(equivalent, entries0, from0, founders0) && p !in founders0
    requires (forall r :: r in routes0 ==> r.attrs.prefix == p) && (forall r :: r in from0 ==> r.attrs.prefix != p)
    ensures
      var installed := Installed(installable, Sorting.Sort(routes0, ByDistance));
      && Collected(equivalent, entries, from0 + installed, founders)
      && founders.Keys <= founders0.Keys + {p}
      && (forall q :: q != p ==> FoundersOf(founders, q) == FoundersOf(founders0, q))
      && FoundersOf(founders, p) == FoundersIn(equivalent, installed)
  {
    var routes := Sorting.Sort(routes0, ByDistance);
    Sorting.SortMembers(routes0, ByDistance);
    entries, founders := entries0, founders0;
    var seenSelected: set<string> := {};
    var installed: seq<RibEntry> := [];
    var groups: seq<RouteGroup> := [];
    NothingSoFar(equivalent, installable, p, routes, from0, founders0);
    assert from0 + [] == from0;
    hide *;
    for n := 0 to |routes|
      invariant Collected(equivalent, entries, from0 + installed, founders)
      invariant GroupsAre(groups, FoundersOf(founders, p), p)
      invariant seenSelected == Taken(installed)
      invariant SoFar(equivalent, installable, p, routes, n, from0, founders0, installed, founders)
    {
      var route := routes[n];
      assert route in routes && route in routes0;
      var selectedKey := SelectedKey(route.selected);
      if selectedKey in seenSelected {
        SkipStep(equivalent, installable, p, routes, n, from0, founders0, installed, founders);
        continue;
      }
      if !installable(installed, route) {
        SkipStep(equivalent, installable, p, routes, n, from0, founders0, installed, founders);
        continue;
      }
      UntakenIsNew(equivalent, installable, p, routes, n, entries, from0, founders0, installed, founders);
      TakenStep(installed, route);
      AppendAssociates(from0, installed, route);
      seenSelected := seenSelected + {selectedKey};
      ghost var before := founders;
      entries, groups, founders := InstallRoute(equivalent, p, route, entries, groups, from0 + installed, founders);
      TakeStep(equivalent, installable, p, routes, n, from0, founders0, installed, before, founders);
      installed := installed + [route];
    }
    AllSoFar(equivalent, installable, p, routes, from0, founders0, installed, founders);
  }

  /** What the first n routes of the prefix have come to. */
  ghost predicate SoFar(equivalent: Equivalence, installable: Installable, p: Prefix, routes: seq<RibEntry>, n: nat,
                        from0: seq<RibEntry>, founders0: map<Prefix, seq<RibEntry>>,
                        installed: seq<RibEntry>, founders: map<Prefix, seq<RibEntry>>) {
    && n <= |routes| && installed == Installed(installable, routes[..n])
    && AtPrefix(from0 + installed, from0, installed, p)
    && founders.Keys <= founders0.Keys + {p}
    && (forall q :: q != p ==> FoundersOf(founders, q) == FoundersOf(founders0, q))
    && FoundersOf(founders, p) == FoundersIn(equivalent, installed)
  }

  lemma NothingSoFar(equivalent: Equivalence, installable: Installable, p: Prefix, routes: seq<RibEntry>,
                     from0: seq<RibEntry>, founders0: map<Prefix, seq<RibEntry>>)
    requires p !in founders0 && forall r :: r in from0 ==> r.attrs.prefix != p
    ensures SoFar(equivalent, installable, p, routes, 0, from0, founders0, [], founders0)
    ensures GroupsAre([], FoundersOf(founders0, p), p) && Taken([]) == {}
  {
    assert routes[..0] == [];
  }

  lemma SkipStep(equivalent: Equivalence, installable: Installable, p: Prefix, routes: seq<RibEntry>, n: nat,
                 from0: seq<RibEntry>, founders0: map<Prefix, seq<RibEntry>>,
                 installed: seq<RibEntry>, founders: map<Prefix, seq<RibEntry>>)
    requires n < |routes| && SoFar(equivalent, installable, p, routes, n, from0, founders0, installed, founders)
    requires SelectedKey(routes[n].selected) in Taken(installed) || !installable(installed, routes[n])
    ensures SoFar(equivalent, installable, p, routes, n + 1, from0, founders0, installed, founders)
  {
    InstalledStep(installable, routes, n);
    hide Installed, FoundersIn, FoundersOf, AtPrefix, SelectedKey;
  }

  lemma TakeStep(equivalent: Equivalence, installable: Installable, p: Prefix, routes: seq<RibEntry>, n: nat,
                 from0: seq<RibEntry>, founders0: map<Prefix, seq<RibEntry>>, installed: seq<RibEntry>,
                 before: map<Prefix, seq<RibEntry>>, founders: map<Prefix, seq<RibEntry>>)
    requires n < |routes| && SoFar(equivalent, installable, p, routes, n, from0, founders0, installed, before)
    requires SelectedKey(routes[n].selected) !in Taken(installed) && installable(installed, routes[n])
    requires routes[n].attrs.prefix == p && FoundersNext(equivalent, founders, before, p, routes[n])
    ensures SoFar(equivalent, installable, p, routes, n + 1, from0, founders0, installed + [routes[n]], founders)
  {
    InstalledStep(installable, routes, n);
    FoundersStep(equivalent, installed, routes[n]);
    AtPrefixStep(from0, installed, p, routes[n]);
    hide Installed, FoundersIn, FoundersOf, HasFounder, SelectedKey, AtPrefix, Taken;
    assert FoundersOf(before, p) + [] == FoundersOf(before, p);
  }

  lemma AtPrefixStep(from0: seq<RibEntry>, installed: seq<RibEntry>, p: Prefix, r: RibEntry)
    requires AtPrefix(from0 + installed, from0, installed, p) && r.attrs.prefix == p
    ensures AtPrefix(from0 + (installed + [r]), from0, installed + [r], p)
  {
  }

  lemma AllSoFar(equivalent: Equivalence, installable: Installable, p: Prefix, routes: seq<RibEntry>,
                 from0: seq<RibEntry>, founders0: map<Prefix, seq<RibEntry>>,
                 installed: seq<RibEntry>, founders: map<Prefix, seq<RibEntry>>)
    requires SoFar(equivalent, installable, p, routes, |routes|, from0, founders0, installed, founders)
    ensures installed == Installed(installable, routes) && founders.Keys <= founders0.Keys + {p}
    ensures forall q :: q != p ==> FoundersOf(founders, q) == FoundersOf(founders0, q)
    ensures FoundersOf(founders, p) == FoundersIn(equivalent, installed)
  {
    assert routes[..|routes|] == routes;
  }

  lemma AppendAssociates(a: seq<RibEntry>, b: seq<RibEntry>, r: RibEntry)
    ensures a + b + [r] == a + (b + [r])
  {
  }

  lemma TakenStep(installed: seq<RibEntry>, r: RibEntry)
    ensures Taken(installed + [r]) == Taken(installed) + {SelectedKey(r.selected)}
  {
    hide SelectedKey;
    assert forall x :: x in installed + [r] <==> x in installed || x == r;
  }

  lemma UntakenIsNew(equivalent: Equivalence, installable: Installable, p: Prefix, routes: seq<RibEntry>, n: nat,
                     entries: seq<FibEntry>,
                     from0: seq<RibEntry>, founders0: map<Prefix, seq<RibEntry>>,
                     installed: seq<RibEntry>, founders: map<Prefix, seq<RibEntry>>)
    requires n < |routes| && SoFar(equivalent, installable, p, routes, n, from0, founders0, installed, founders)
    requires Collected(equivalent, entries, from0 + installed, founders)
    requires routes[n].attrs.prefix == p && SelectedKey(routes[n].selected) !in Taken(installed)
    ensures NewKey(entries, routes[n]) && routes[n] !in FoundersOf(founders, p)
  {
    var r := routes[n];
    FoundersAmong(equivalent, installed);
    hide SelectedKey, GroupName, InGroup, Flagged, Distinct, Founded, FoundersOf, FoundersIn;
    var from := from0 + installed;
    assert forall i :: 0 <= i < |from0| ==> from[i] == from0[i] && from0[i] in from0;
    assert forall i :: |from0| <= i < |from| ==> from[i] == installed[i - |from0|];
    forall i | 0 <= i < |entries| && entries[i].prefix == p
      ensures SelectedKey(entries[i].condition) != SelectedKey(r.selected)
    {
      assert Installs(entries[i], from[i]);
      assert from[i] in installed;
    }
  }

  // ---------- the whole table ----------

  type Routes = map<Prefix, seq<RibEntry>>

  /** The routes that are installed at a prefix, nearest first. */
  function InstalledAt(installable: Installable, byPrefix: Routes, p: Prefix): seq<RibEntry> {
    if p in byPrefix then Installed(installable, Sorting.Sort(byPrefix[p], ByDistance)) else []
  }

  function FoundersAt(equivalent: Equivalence, installable: Installable, byPrefix: Routes, p: Prefix): seq<RibEntry> {
    FoundersIn(equivalent, InstalledAt(installable, byPrefix, p))
  }

  /** The entry was made from a route installed at its prefix, and is ranked with the founder of that route's group. */
  ghost predicate FromRoute(equivalent: Equivalence, installable: Installable, byPrefix: Routes, e: FibEntry,
                            r: RibEntry) {
    && r in InstalledAt(installable, byPrefix, e.prefix)
    && Installs(e, r) && InGroup(equivalent, FoundersAt(equivalent, installable, byPrefix, e.prefix), e.rank, r)
  }

  ghost predicate HasEntry(equivalent: Equivalence, installable: Installable, byPrefix: Routes, fib: seq<FibEntry>,
                           r: RibEntry) {
    exists e :: e in fib && FromRoute(equivalent, installable, byPrefix, e, r)
  }

  /** The table has an entry for every installed route, and no other. */
  ghost predicate EntriesExactly(equivalent: Equivalence, installable: Installable, byPrefix: Routes,
                                 fib: seq<FibEntry>) {
    && (forall e :: e in fib ==> exists r :: FromRoute(equivalent, installable, byPrefix, e, r))
    && (forall p, r :: p in byPrefix && r in InstalledAt(installable, byPrefix, p) ==>
      HasEntry(equivalent, installable, byPrefix, fib, r))
  }

  /** No two entries of a prefix have the same condition. */
  ghost predicate DistinctConditions(fib: seq<FibEntry>) {
    && Sorting.NoDuplicates(fib)
    && forall e, f ::
      e in fib && f in fib && e.prefix == f.prefix && SelectedKey(e.condition) == SelectedKey(f.condition) ==> e == f
  }

  /** An entry is marked equivalent exactly when its group has another member. */
  ghost predicate EquivalentExactly(fib: seq<FibEntry>) {
    forall e :: e in fib ==> (e.equivalent <==> exists f :: f in fib && f != e && SameGroup(f, e))
  }

  ghost predicate KeyedByPrefix(byPrefix: Routes) {
    forall p :: p in byPrefix ==> forall r :: r in byPrefix[p] ==> r.attrs.prefix == p
  }

  /** The routes behind the entries of the prefixes done so far, and the founders of their groups. */
  ghost predicate Sources(equivalent: Equivalence, installable: Installable, byPrefix: Routes, done: set<Prefix>,
                          from: seq<RibEntry>, founders: map<Prefix, seq<RibEntry>>) {
    && (forall r :: r in from <==> r.attrs.prefix in done && r in InstalledAt(installable, byPrefix, r.attrs.prefix))
    && founders.Keys <= done
    && forall p :: p in done ==> FoundersOf(founders, p) == FoundersAt(equivalent, installable, byPrefix, p)
  }

  /** One network instance of DeriveFIB, whatever the order in which its prefixes are visited. */
  method DeriveFIB(equivalent: Equivalence, installable: Installable, byPrefix: Routes) returns (fib: seq<FibEntry>)
    requires KeyedByPrefix(byPrefix)
    ensures Ranked(fib) && InTableOrder(fib) && Named(fib)
    ensures EntriesExactly(equivalent, installable, byPrefix, fib)
    ensures DistinctConditions(fib) && EquivalentExactly(fib)
    ensures RanksByDistance(equivalent, installable, byPrefix, fib)
    ensures NothingLost(equivalent, installable, byPrefix, fib)
  {
    var entries: seq<FibEntry> := [];
    ghost var from: seq<RibEntry> := [];
    ghost var founders := map[];
    var todo := byPrefix.Keys;
    hide Collected, Sources, InstalledAt;
    NothingCollected(equivalent, installable, byPrefix);
    while todo != {}
      invariant todo <= byPrefix.Keys
      invariant Collected(equivalent, entries, from, founders)
      invariant Sources(equivalent, installable, byPrefix, byPrefix.Keys - todo, from, founders)
      decreases todo
    {
      var p :| p in todo;
      ghost var from0, founders0 := from, founders;
      NotYet(equivalent, installable, byPrefix, byPrefix.Keys - todo, from, founders, p);
      entries, founders := InstallPrefix(equivalent, installable, p, byPrefix[p], entries, from, founders);
      InstalledHere(installable, byPrefix, p);
      from := from + InstalledAt(installable, byPrefix, p);
      SourcesGrow(equivalent, installable, byPrefix, byPrefix.Keys - todo, from0, from, founders0, founders, p);
      assert byPrefix.Keys - (todo - {p}) == byPrefix.Keys - todo + {p};
      todo := todo - {p};
    }
    assert byPrefix.Keys - todo == byPrefix.Keys;
    fib := Sorting.Sort(entries, FibLess);
    SortedTable(equivalent, installable, byPrefix, entries, from, founders);
    RanksFollowDistance(equivalent, installable, byPrefix, fib);
    NoneLost(equivalent, installable, byPrefix, fib);
  }

  lemma NothingCollected(equivalent: Equivalence, installable: Installable, byPrefix: Routes)
    ensures Collected(equivalent, [], [], map[]) && Sources(equivalent, installable, byPrefix, {}, [], map[])
    ensures byPrefix.Keys - byPrefix.Keys == {}
  {
  }

  lemma NotYet(equivalent: Equivalence, installable: Installable, byPrefix: Routes, done: set<Prefix>,
               from: seq<RibEntry>, founders: map<Prefix, seq<RibEntry>>, p: Prefix)
    requires Sources(equivalent, installable, byPrefix, done, from, founders) && p !in done
    ensures p !in founders && forall r :: r in from ==> r.attrs.prefix != p
  {
  }

  lemma InstalledHere(installable: Installable, byPrefix: Routes, p: Prefix)
    requires p in byPrefix
    ensures InstalledAt(installable, byPrefix, p) == Installed(installable, Sorting.Sort(byPrefix[p], ByDistance))
  {
  }

  lemma InstalledKeyed(installable: Installable, byPrefix: Routes, p: Prefix)
    requires KeyedByPrefix(byPrefix)
    ensures forall r :: r in InstalledAt(installable, byPrefix, p) ==>
        p in byPrefix && r in byPrefix[p] && r.attrs.prefix == p
  {
    if p in byPrefix {
      InstalledAmong(installable, Sorting.Sort(byPrefix[p], ByDistance));
      Sorting.SortMembers(byPrefix[p], ByDistance);
    }
  }

  lemma SourcesGrow(equivalent: Equivalence, installable: Installable, byPrefix: Routes, done: set<Prefix>,
                    from0: seq<RibEntry>, from: seq<RibEntry>,
                    founders0: map<Prefix, seq<RibEntry>>, founders: map<Prefix, seq<RibEntry>>, p: Prefix)
    requires KeyedByPrefix(byPrefix) && p !in done && Sources(equivalent, installable, byPrefix, done, from0, founders0)
    requires from == from0 + InstalledAt(installable, byPrefix, p)
    requires founders.Keys <= founders0.Keys + {p} && forall q :: q != p ==>
        FoundersOf(founders, q) == FoundersOf(founders0, q)
    requires FoundersOf(founders, p) == FoundersAt(equivalent, installable, byPrefix, p)
    ensures Sources(equivalent, installable, byPrefix, done + {p}, from, founders)
  {
    InstalledKeyed(installable, byPrefix, p);
    hide InstalledAt, FoundersAt, FoundersOf;
  }

  // ---------- what the table means ----------

  /** A lower rank never has a more distant founder. */
  ghost predicate RanksByDistance(equivalent: Equivalence, installable: Installable, byPrefix: Routes,
                                  fib: seq<FibEntry>) {
    forall e, f :: e in fib && f in fib && e.prefix == f.prefix && e.rank < f.rank ==>
      var founders := FoundersAt(equivalent, installable, byPrefix, e.prefix);
      && f.rank < |founders| && !ByDistance(founders[f.rank], founders[e.rank])
      && FibAdminDistance(founders[e.rank].attrs) <= FibAdminDistance(founders[f.rank].attrs)
  }

  lemma ByDistanceOrder()
    ensures Sorting.WeakOrder(ByDistance)
  {
    forall x, y | ByDistance(x, y)
      ensures !ByDistance(y, x)
    {
      hide KindWord, FibAdminDistance, Text.Less;
      if Text.Less(KindWord(x.attrs.kind), KindWord(y.attrs.kind)) {
        Text.LessAsymmetric(KindWord(x.attrs.kind), KindWord(y.attrs.kind));
      }
    }
    forall x, y, z | !ByDistance(y, x) && !ByDistance(z, y)
      ensures !ByDistance(z, x)
    {
      hide KindWord, FibAdminDistance, Text.Less;
      if FibAdminDistance(x.attrs) == FibAdminDistance(y.attrs) == FibAdminDistance(z.attrs) {
        TextNotLess(KindWord(x.attrs.kind), KindWord(y.attrs.kind), KindWord(z.attrs.kind));
      }
    }
  }

  lemma InstalledInOrder(equivalent: Equivalence, installable: Installable, byPrefix: Routes, p: Prefix)
    ensures Sorting.Sorted(InstalledAt(installable, byPrefix, p), ByDistance)
    ensures Sorting.Sorted(FoundersAt(equivalent, installable, byPrefix, p), ByDistance)
    ensures NearestFirst(InstalledAt(installable, byPrefix, p))
    ensures NearestFirst(FoundersAt(equivalent, installable, byPrefix, p))
  {
    if p in byPrefix {
      ByDistanceOrder();
      Sorting.SortSorts(byPrefix[p], ByDistance);
      InstalledSorted(installable, Sorting.Sort(byPrefix[p], ByDistance));
    }
    FoundersSorted(equivalent, InstalledAt(installable, byPrefix, p));
    SortedNearestFirst(InstalledAt(installable, byPrefix, p));
    SortedNearestFirst(FoundersAt(equivalent, installable, byPrefix, p));
  }

  ghost predicate NearestFirst(routes: seq<RibEntry>) {
    forall i, j :: 0 <= i < j < |routes| ==> !Nearer(routes[j].attrs, routes[i].attrs)
  }

  lemma SortedNearestFirst(routes: seq<RibEntry>)
    requires Sorting.Sorted(routes, ByDistance)
    ensures NearestFirst(routes)
  {
    hide ByDistance, Nearer;
    forall i, j | 0 <= i < j < |routes|
      ensures !Nearer(routes[j].attrs, routes[i].attrs)
    {
      ByDistanceExactly(routes[j], routes[i]);
    }
  }

  lemma RanksFollowDistance(equivalent: Equivalence, installable: Installable, byPrefix: Routes, fib: seq<FibEntry>)
    requires EntriesExactly(equivalent, installable, byPrefix, fib)
    ensures RanksByDistance(equivalent, installable, byPrefix, fib)
  {
    forall e, f | e in fib && f in fib && e.prefix == f.prefix && e.rank < f.rank
      ensures
        var founders := FoundersAt(equivalent, installable, byPrefix, e.prefix);
        && f.rank < |founders| && !ByDistance(founders[f.rank], founders[e.rank])
        && FibAdminDistance(founders[e.rank].attrs) <= FibAdminDistance(founders[f.rank].attrs)
    {
      InstalledInOrder(equivalent, installable, byPrefix, e.prefix);
      var r :| FromRoute(equivalent, installable, byPrefix, f, r);
    }
  }

  /** The route is refused beside routes of its prefix, none farther than itself, that all have entries. */
  ghost predicate Refused(equivalent: Equivalence, installable: Installable, byPrefix: Routes, fib: seq<FibEntry>,
                          r: RibEntry) {
    exists installed :: !installable(installed, r) && Before(equivalent, installable, byPrefix, fib, installed, r)
  }

  ghost predicate Before(equivalent: Equivalence, installable: Installable, byPrefix: Routes, fib: seq<FibEntry>,
                         installed: seq<RibEntry>, r: RibEntry) {
    forall x :: x in installed ==>
      x in InstalledAt(installable, byPrefix, r.attrs.prefix) && !ByDistance(r, x)
        && HasEntry(equivalent, installable, byPrefix, fib, x)
  }

  /** A route of its prefix with the same condition, not farther than r, has an entry. */
  ghost predicate Covered(equivalent: Equivalence, installable: Installable, byPrefix: Routes, fib: seq<FibEntry>,
                          r: RibEntry) {
    exists x :: x in InstalledAt(installable, byPrefix, r.attrs.prefix)
      && SelectedKey(x.selected) == SelectedKey(r.selected)
      && !ByDistance(r, x) && HasEntry(equivalent, installable, byPrefix, fib, x)
  }

  /**
   Every route's condition has an entry, from it or a nearer route, unless nearer routes that have
   entries refuse it.
   */
  ghost predicate NothingLost(equivalent: Equivalence, installable: Installable, byPrefix: Routes, fib: seq<FibEntry>) {
    forall p, r :: p in byPrefix && r in byPrefix[p] ==>
      Covered(equivalent, installable, byPrefix, fib, r) || Refused(equivalent, installable, byPrefix, fib, r)
  }

  lemma NoneLost(equivalent: Equivalence, installable: Installable, byPrefix: Routes, fib: seq<FibEntry>)
    requires KeyedByPrefix(byPrefix) && EntriesExactly(equivalent, installable, byPrefix, fib)
    ensures NothingLost(equivalent, installable, byPrefix, fib)
  {
    hide EntriesExactly;
    forall p, r | p in byPrefix && r in byPrefix[p]
      ensures Covered(equivalent, installable, byPrefix, fib, r) || Refused(equivalent, installable, byPrefix, fib, r)
    {
      assert r.attrs.prefix == p;
      NotLost(equivalent, installable, byPrefix, fib, r);
    }
  }

  lemma NotLost(equivalent: Equivalence, installable: Installable, byPrefix: Routes, fib: seq<FibEntry>, r: RibEntry)
    requires r.attrs.prefix in byPrefix && r in byPrefix[r.attrs.prefix]
    requires EntriesExactly(equivalent, installable, byPrefix, fib)
    ensures Covered(equivalent, installable, byPrefix, fib, r) || Refused(equivalent, installable, byPrefix, fib, r)
  {
    hide SelectedKey, ByDistance, HasEntry, EntriesExactly, InstalledAt;
    var before := TurnComes(installable, byPrefix, r);
    forall x | x in InstalledAt(installable, byPrefix, r.attrs.prefix)
      ensures HasEntry(equivalent, installable, byPrefix, fib, x)
    {
      EntryOf(equivalent, installable, byPrefix, fib, r.attrs.prefix, x);
    }
    if SelectedKey(r.selected) in Taken(before) {
      var x :| x in before && SelectedKey(x.selected) == SelectedKey(r.selected);
    } else if !installable(before, r) {
      assert Before(equivalent, installable, byPrefix, fib, before, r);
    }
  }

  /** When its turn comes, a route meets the installed ones that are not farther. */
  lemma TurnComes(installable: Installable, byPrefix: Routes, r: RibEntry) returns (before: seq<RibEntry>)
    requires r.attrs.prefix in byPrefix && r in byPrefix[r.attrs.prefix]
    ensures !ByDistance(r, r) && forall x :: x in before ==>
        x in InstalledAt(installable, byPrefix, r.attrs.prefix) && !ByDistance(r, x)
    ensures SelectedKey(r.selected) in Taken(before) || !installable(before, r)
        || r in InstalledAt(installable, byPrefix, r.attrs.prefix)
  {
    var p := r.attrs.prefix;
    var routes := Sorting.Sort(byPrefix[p], ByDistance);
    Sorting.SortMembers(byPrefix[p], ByDistance);
    ByDistanceOrder();
    Sorting.SortSorts(byPrefix[p], ByDistance);
    assert InstalledAt(installable, byPrefix, p) == Installed(installable, routes);
    hide SelectedKey, ByDistance, Sorting.Sort, Sorting.WeakOrder, InstalledAt, Sorting.Sorted, Installed, Taken;
    var n :| 0 <= n < |routes| && routes[n] == r;
    before := Installed(installable, routes[..n]);
    NoneFarther(installable, routes, n);
    TurnOf(installable, routes, n);
  }

  lemma TurnOf(installable: Installable, routes: seq<RibEntry>, n: nat)
    requires n < |routes|
    ensures
      var before, r := Installed(installable, routes[..n]), routes[n];
      && (forall x :: x in before ==> x in Installed(installable, routes))
      && (SelectedKey(r.selected) in Taken(before) || !installable(before, r) || r in Installed(installable, routes))
  {
    var before, r := Installed(installable, routes[..n]), routes[n];
    InstalledStep(installable, routes, n);
    InstalledGrows(installable, routes, n);
    InstalledGrows(installable, routes, n + 1);
    hide SelectedKey, Installed, Taken;
    if SelectedKey(r.selected) !in Taken(before) && installable(before, r) {
      assert (before + [r])[|before|] == r;
    }
  }

  lemma NoneFarther(installable: Installable, routes: seq<RibEntry>, n: nat)
    requires n < |routes| && Sorting.Sorted(routes, ByDistance)
    ensures !ByDistance(routes[n], routes[n])
    ensures forall x :: x in Installed(installable, routes[..n]) ==> !ByDistance(routes[n], x)
  {
    ByDistanceOrder();
    InstalledAmong(installable, routes[..n]);
    hide ByDistance, Installed;
    forall x | x in Installed(installable, routes[..n])
      ensures !ByDistance(routes[n], x)
    {
      var i :| 0 <= i < n && routes[..n][i] == x;
    }
  }

  lemma EntryOf(equivalent: Equivalence, installable: Installable, byPrefix: Routes, fib: seq<FibEntry>, p: Prefix,
                r: RibEntry)
    requires EntriesExactly(equivalent, installable, byPrefix, fib) && p in byPrefix
    requires r in InstalledAt(installable, byPrefix, p)
    ensures HasEntry(equivalent, installable, byPrefix, fib, r)
  {
  }

  /** The founder of each group has its entry, at the group's rank, and no founder is equivalent to an earlier one. */
  lemma FoundersFound(equivalent: Equivalence, installable: Installable, byPrefix: Routes, fib: seq<FibEntry>,
                      p: Prefix, k: nat)
    requires EntriesExactly(equivalent, installable, byPrefix, fib) && p in byPrefix && KeyedByPrefix(byPrefix)
    requires k < |FoundersAt(equivalent, installable, byPrefix, p)|
    ensures
      var founders := FoundersAt(equivalent, installable, byPrefix, p);
      && (exists e :: e in fib && e.prefix == p && e.rank == k && Installs(e, founders[k]))
      && forall l :: 0 <= l < k ==> !equivalent(founders[l].attrs, founders[k].attrs)
  {
    var founders := FoundersAt(equivalent, installable, byPrefix, p);
    FoundersGenuine(equivalent, installable, byPrefix, p);
    hide FoundersAt, InstalledAt, EntriesExactly, Installs, Sorting.NoDuplicates;
    assert founders[k] in founders;
    EntryOf(equivalent, installable, byPrefix, fib, p, founders[k]);
    var e :| e in fib && FromRoute(equivalent, installable, byPrefix, e, founders[k]);
    InstalledFrom(e, founders[k]);
    SamePlace(founders, e.rank, k);
  }

  lemma InstalledFrom(e: FibEntry, r: RibEntry)
    requires Installs(e, r)
    ensures e.prefix == r.attrs.prefix
  {
  }

  lemma SamePlace(s: seq<RibEntry>, i: nat, j: nat)
    requires Sorting.NoDuplicates(s) && i < |s| && j < |s| && s[i] == s[j]
    ensures i == j
  {
  }

  lemma FoundersGenuine(equivalent: Equivalence, installable: Installable, byPrefix: Routes, p: Prefix)
    requires KeyedByPrefix(byPrefix) && p in byPrefix
    ensures
      var founders := FoundersAt(equivalent, installable, byPrefix, p);
      && Sorting.NoDuplicates(founders)
      && (forall f :: f in founders ==> f.attrs.prefix == p && f in InstalledAt(installable, byPrefix, p))
      && Inequivalent(equivalent, founders)
  {
    var installed := InstalledAt(installable, byPrefix, p);
    InstalledDistinct(installable, Sorting.Sort(byPrefix[p], ByDistance));
    FoundersDistinct(equivalent, installed);
    FoundersAmong(equivalent, installed);
    FoundersInequivalent(equivalent, installed);
    InstalledKeyed(installable, byPrefix, p);
    hide Sorting.NoDuplicates, FoundersIn, InstalledAt, Inequivalent;
  }

  // ---------- sorting the table ----------

  lemma FibLessAsymmetric(x: FibEntry, y: FibEntry)
    requires FibLess(x, y)
    ensures !FibLess(y, x)
  {
    hide PrefixString, Text.Less;
    if Text.Less(PrefixString(x.prefix), PrefixString(y.prefix)) {
      Text.LessAsymmetric(PrefixString(x.prefix), PrefixString(y.prefix));
    }
  }

  lemma FibLessNegTransitive(x: FibEntry, y: FibEntry, z: FibEntry)
    requires !FibLess(y, x) && !FibLess(z, y)
    ensures !FibLess(z, x)
  {
    hide PrefixString, Text.Less;
    if BitsOf(x.prefix) == BitsOf(y.prefix) == BitsOf(z.prefix) && x.rank == y.rank == z.rank {
      TextNotLess(PrefixString(x.prefix), PrefixString(y.prefix), PrefixString(z.prefix));
    }
  }

  lemma FibLessOrder()
    ensures Sorting.WeakOrder(FibLess)
  {
    hide FibLess;
    forall x, y | FibLess(x, y)
      ensures !FibLess(y, x)
    {
      FibLessAsymmetric(x, y);
    }
    forall x, y, z | !FibLess(y, x) && !FibLess(z, y)
      ensures !FibLess(z, x)
    {
      FibLessNegTransitive(x, y, z);
    }
  }

  lemma TextNotLess(a: string, b: string, c: string)
    requires !Text.Less(b, a) && !Text.Less(c, b)
    ensures !Text.Less(c, a)
  {
    Text.LessTotal(a, b);
    Text.LessTotal(b, c);
    if a != b && b != c {
      Text.LessTransitive(a, b, c);
      Text.LessAsymmetric(a, c);
    }
  }

  lemma TableMembers(equivalent: Equivalence, entries: seq<FibEntry>, from: seq<RibEntry>,
                     founders: map<Prefix, seq<RibEntry>>)
    requires Collected(equivalent, entries, from, founders)
    ensures DistinctConditions(entries) && EquivalentExactly(entries)
  {
    hide Placed, Founded, SelectedKey;
    forall e, f | e in entries && f in entries && e.prefix == f.prefix
      && SelectedKey(e.condition) == SelectedKey(f.condition)
      ensures e == f
    {
      var i :| 0 <= i < |entries| && entries[i] == e;
      var j :| 0 <= j < |entries| && entries[j] == f;
      assert i == j;
    }
    forall e | e in entries
      ensures e.equivalent <==> exists f :: f in entries && f != e && SameGroup(f, e)
    {
      var i :| 0 <= i < |entries| && entries[i] == e;
      assert e.equivalent <==> HasPeer(entries, i);
      if HasPeer(entries, i) {
        var j :| 0 <= j < |entries| && j != i && SameGroup(entries[j], entries[i]);
        assert entries[j] in entries && entries[j] != e;
      }
      if f :| f in entries && f != e && SameGroup(f, e) {
        var j :| 0 <= j < |entries| && entries[j] == f;
        assert SameGroup(entries[j], entries[i]);
      }
    }
  }

  lemma TableSources(equivalent: Equivalence, installable: Installable, byPrefix: Routes, entries: seq<FibEntry>,
                     from: seq<RibEntry>,
                     founders: map<Prefix, seq<RibEntry>>)
    requires KeyedByPrefix(byPrefix)
    requires Collected(equivalent, entries, from, founders)
    requires Sources(equivalent, installable, byPrefix, byPrefix.Keys, from, founders)
    ensures EntriesExactly(equivalent, installable, byPrefix, entries)
    ensures forall e :: e in entries ==> e.groupId == GroupName(e.prefix, e.rank)
  {
    hide InGroup, GroupName, Flagged, Founded, Distinct, FoundersOf, InstalledAt, FoundersAt;
    forall e | e in entries
      ensures (exists r :: FromRoute(equivalent, installable, byPrefix, e, r))
      ensures e.groupId == GroupName(e.prefix, e.rank)
    {
      var i :| 0 <= i < |entries| && entries[i] == e;
      assert from[i] in from;
      assert FromRoute(equivalent, installable, byPrefix, e, from[i]);
    }
    forall p, r | p in byPrefix && r in InstalledAt(installable, byPrefix, p)
      ensures HasEntry(equivalent, installable, byPrefix, entries, r)
    {
      InstalledKeyed(installable, byPrefix, p);
      assert r in from;
      var i :| 0 <= i < |from| && from[i] == r;
      assert entries[i] in entries && FromRoute(equivalent, installable, byPrefix, entries[i], r);
    }
  }

  lemma SameMembers(fib: seq<FibEntry>, entries: seq<FibEntry>)
    requires forall e :: e in fib <==> e in entries
    requires Sorting.NoDuplicates(fib)
    ensures DistinctConditions(entries) ==> DistinctConditions(fib)
    ensures EquivalentExactly(entries) ==> EquivalentExactly(fib)
  {
    hide SelectedKey;
    if EquivalentExactly(entries) {
      forall e | e in fib
        ensures e.equivalent <==> exists f :: f in fib && f != e && SameGroup(f, e)
      {
        assert e in entries;
      }
    }
  }

  lemma EntriesSame(equivalent: Equivalence, installable: Installable, byPrefix: Routes, fib: seq<FibEntry>,
                    entries: seq<FibEntry>)
    requires (forall e :: e in fib <==> e in entries) && EntriesExactly(equivalent, installable, byPrefix, entries)
    ensures EntriesExactly(equivalent, installable, byPrefix, fib)
  {
    hide FromRoute, InstalledAt;
    forall p, r | p in byPrefix && r in InstalledAt(installable, byPrefix, p)
      ensures HasEntry(equivalent, installable, byPrefix, fib, r)
    {
      assert HasEntry(equivalent, installable, byPrefix, entries, r);
      var e :| e in entries && FromRoute(equivalent, installable, byPrefix, e, r);
      assert e in fib;
    }
  }

  lemma SortedTable(equivalent: Equivalence, installable: Installable, byPrefix: Routes, entries: seq<FibEntry>,
                    from: seq<RibEntry>, founders: map<Prefix, seq<RibEntry>>)
    requires KeyedByPrefix(byPrefix)
    requires Collected(equivalent, entries, from, founders)
    requires Sources(equivalent, installable, byPrefix, byPrefix.Keys, from, founders)
    ensures
      var fib := Sorting.Sort(entries, FibLess);
      && Ranked(fib) && InTableOrder(fib) && Named(fib)
      && EntriesExactly(equivalent, installable, byPrefix, fib)
      && DistinctConditions(fib) && EquivalentExactly(fib)
  {
    var fib := Sorting.Sort(entries, FibLess);
    Sorting.SortMembers(entries, FibLess);
    TableMembers(equivalent, entries, from, founders);
    TableSources(equivalent, installable, byPrefix, entries, from, founders);
    Sorting.SortNoDuplicates(entries, FibLess);
    SortRanked(entries);
    hide InGroup, GroupName, FromRoute, Collected, Sources, Ranked, InTableOrder, FibLess, EquivalentExactly,
        EntriesExactly,
        Sorting.NoDuplicates;
    SameMembers(fib, entries);
    EntriesSame(equivalent, installable, byPrefix, fib, entries);
    NamedMembers(fib, entries);
  }

  lemma NamedMembers(fib: seq<FibEntry>, entries: seq<FibEntry>)
    requires forall e :: e in fib ==> e in entries
    requires forall e :: e in entries ==> e.groupId == GroupName(e.prefix, e.rank)
    ensures Named(fib)
  {
    forall i | 0 <= i < |fib|
      ensures fib[i].groupId == GroupName(fib[i].prefix, fib[i].rank)
    {
      assert fib[i] in entries;
    }
  }

  /** Longer prefixes first, then by rank, then by the text of the prefix. */
  ghost predicate InTableOrder(fib: seq<FibEntry>) {
    forall i, j :: 0 <= i < j < |fib| ==>
      || BitsOf(fib[i].prefix) > BitsOf(fib[j].prefix)
      || (BitsOf(fib[i].prefix) == BitsOf(fib[j].prefix) && fib[i].rank < fib[j].rank)
      || (BitsOf(fib[i].prefix) == BitsOf(fib[j].prefix) && fib[i].rank == fib[j].rank
        && !Text.Less(PrefixString(fib[j].prefix), PrefixString(fib[i].prefix)))
  }

  lemma SortRanked(entries: seq<FibEntry>)
    ensures Ranked(Sorting.Sort(entries, FibLess)) && InTableOrder(Sorting.Sort(entries, FibLess))
  {
    FibLessOrder();
    Sorting.SortSorts(entries, FibLess);
    var fib := Sorting.Sort(entries, FibLess);
    forall i, j | 0 <= i < j < |fib|
      ensures !ByPrefixAndRank(fib[j], fib[i])
    {
      assert !FibLess(fib[j], fib[i]);
    }
  }
}
