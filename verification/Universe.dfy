/** The prefix universe: IPv4 space cut into the classes that the predicates can tell apart. */
module Universe {
  import opened Blocks
  import opened Prefixes
  import opened SetKeys
  import opened Wrappers
  import Sorting

  datatype RawPredicate = RawPredicate(source: string, space: Option<PrefixSet>, kind: string)

  datatype Predicate = Predicate(id: nat, source: string, space: PrefixSet, kind: Kind)

  datatype Class = Class(id: nat, space: PrefixSet, matching: seq<nat>)

  datatype PrefixUniverse = PrefixUniverse(classes: seq<Class>, predicates: seq<Predicate>, uniqueCount: nat)

  function NormalizedKind(kind: string): Kind {
    if kind == "nlri" then Nlri else AddressSpace
  }

  // ---------- which predicates match a block ----------

  /** prefixMatchesNLRIPredicateSpace */
  predicate PrefixMatches(space: Prefix, s: PrefixSet) {
    space.Net? &&
    match s
    case AnySet => true
    case ExactSet(p) => Overlaps(p, space)
    case RangeSet(base, minLen, maxLen) =>
      base.Net? && base.family == space.family && Overlaps(base, space)
        && Max(minLen, Max(base.bits, space.bits)) <= maxLen
    case UnionSet(sets) => exists i :: 0 <= i < |sets| && PrefixMatches(space, sets[i])
  }

  /** prefixSpaceMatchesNLRIPredicate */
  predicate SpaceMatches(space: PrefixSet, s: PrefixSet) {
    match space
    case AnySet => NLRIPredicateOverlaps(AnySet, s)
    case ExactSet(p) => PrefixMatches(p, s)
    case RangeSet(base, _, _) => PrefixMatches(base, s)
    case UnionSet(sets) => exists i :: 0 <= i < |sets| && SpaceMatches(sets[i], s)
  }

  predicate ClassMatches(space: PrefixSet, p: Predicate) {
    if p.kind.Nlri? then SpaceMatches(space, p.space) else AddressSpaceOverlaps(space, p.space)
  }

  function Exacts(ps: seq<Prefix>): (r: seq<PrefixSet>)
    ensures |r| == |ps| && forall i :: 0 <= i < |ps| ==> r[i] == ExactSet(ps[i])
  {
    seq(|ps|, i requires 0 <= i < |ps| => ExactSet(ps[i]))
  }

  /** prefixSetForInterval */
  function SpaceFor(lo: nat, end: nat): PrefixSet
    requires end <= LIMIT
  {
    var sets := Exacts(Tiling(lo, end));
    if |sets| == 1 then sets[0] else UnionSet(sets)
  }

  function MatchingIds(space: PrefixSet, ps: seq<Predicate>): seq<nat> {
    if ps == [] then []
    else MatchingIds(space, ps[..|ps| - 1]) + if ClassMatches(space, ps[|ps| - 1]) then [ps[|ps| - 1].id] else []
  }

  // ---------- building ----------

  /** Whether x is where some interval of the set starts, or just after where one ends. */
  predicate Cuts(s: PrefixSet, x: nat) {
    Intervals(s).Ok? && exists i :: i in Intervals(s).value && (x == i.lo || x == i.hi + 1)
  }

  predicate CutByAny(ps: seq<Predicate>, x: nat) {
    exists p :: p in ps && Cuts(p.space, x)
  }

  ghost predicate Ascending(s: seq<nat>) {
    forall i, j :: 0 <= i < j < |s| ==> s[i] < s[j]
  }

  /** The classes of the first n gaps between boundaries: those that some predicate matches. */
  function ClassesFrom(ps: seq<Predicate>, s: seq<nat>, n: nat): seq<Class>
    requires n < |s| && forall i :: 0 <= i < |s| ==> s[i] <= LIMIT
  {
    if n == 0 then []
    else
      var before := ClassesFrom(ps, s, n - 1);
      var space := SpaceFor(s[n - 1], s[n]);
      var matches := MatchingIds(space, ps);
      if matches == [] then before else before + [Class(|before|, space, matches)]
  }

  /** The predicates that have a set, numbered in order. */
  function Numbered(raw: seq<RawPredicate>): (ps: seq<Predicate>)
    ensures forall i :: 0 <= i < |ps| ==> ps[i].id == i
  {
    if raw == [] then []
    else
      var before, r := Numbered(raw[..|raw| - 1]), raw[|raw| - 1];
      if r.space.None? then before else before + [Predicate(|before|, r.source, r.space.value, NormalizedKind(r.kind))]
  }

  ghost predicate AllCut(ps: seq<Predicate>, s: seq<nat>) {
    && (forall p :: p in ps ==> Intervals(p.space).Ok?)
    && (forall x :: x in s <==> CutByAny(ps, x))
  }

  /** What a successful build returns, for its boundaries s. */
  ghost predicate Built(u: PrefixUniverse, s: seq<nat>) {
    && (forall i :: 0 <= i < |u.predicates| ==> u.predicates[i].id == i)
    && Ascending(s) && (forall i :: 0 <= i < |s| ==> s[i] <= LIMIT) && AllCut(u.predicates, s)
    && u.classes == if s == [] then [] else ClassesFrom(u.predicates, s, |s| - 1)
  }

  /** compactUint64s on an already sorted list. */
  function Compacted(s: seq<nat>): seq<nat> {
    if s == [] then []
    else Compacted(s[..|s| - 1]) + if |s| == 1 || s[|s| - 1] != s[|s| - 2] then [s[|s| - 1]] else []
  }

  /** Overwrites the front of the array with the distinct values and returns how many there are. */
  method CompactInPlace(a: array<nat>) returns (n: nat)
    modifies a
    ensures n <= a.Length && a[..n] == Compacted(old(a[..]))
  {
    n := 0;
    ghost var was := a[..];
    var prev: nat := 0;
    for i := 0 to a.Length
      invariant n <= i && a[..n] == Compacted(was[..i])
      invariant forall k :: i <= k < a.Length ==> a[k] == was[k]
      invariant i > 0 ==> prev == was[i - 1]
    {
      assert was[..i + 1][..i] == was[..i];
      var value := a[i];
      if i == 0 || value != prev {
        a[n] := value;
        n := n + 1;
        prev := value;
        assert a[..n] == a[..n - 1] + [value];
      }
    }
    assert was[..a.Length] == was;
  }

  predicate LessNat(x: nat, y: nat) {
    x < y
  }

  lemma {:induction false} CompactedMembers(s: seq<nat>)
    ensures forall x :: x in Compacted(s) <==> x in s
  {
    if s != [] {
      var init, last := s[..|s| - 1], s[|s| - 1];
      CompactedMembers(init);
      assert s == init + [last];
      assert init != [] ==> init[|init| - 1] == s[|s| - 2];
    }
  }

  lemma {:induction false} CompactedAscends(s: seq<nat>)
    requires Sorting.Sorted(s, LessNat)
    ensures Ascending(Compacted(s))
    ensures s != [] ==> Compacted(s) != [] && Compacted(s)[|Compacted(s)| - 1] == s[|s| - 1]
  {
    if s != [] {
      var init, last := s[..|s| - 1], s[|s| - 1];
      CompactedAscends(init);
      if init != [] {
        assert !LessNat(last, init[|init| - 1]);
      }
      AscendingAppend(Compacted(init), last);
    }
  }

  lemma AscendingAppend(s: seq<nat>, x: nat)
    requires Ascending(s)
    ensures (s != [] ==> s[|s| - 1] < x) ==> Ascending(s + [x])
  {
  }

  method SortBoundaries(boundaries: seq<nat>) returns (s: seq<nat>)
    ensures Ascending(s) && forall x :: x in s <==> x in boundaries
  {
    var sorted := Sorting.Sort(boundaries, LessNat);
    assert Sorting.WeakOrder(LessNat);
    Sorting.SortSorts(boundaries, LessNat);
    Sorting.SortMembers(boundaries, LessNat);
    CompactedAscends(sorted);
    CompactedMembers(sorted);
    var a := new nat[|sorted|](i requires 0 <= i < |sorted| => sorted[i]);
    assert a[..] == sorted;
    var n := CompactInPlace(a);
    s := a[..n];
  }

  // ---------- the boundaries of a set ----------

  lemma {:induction false} UnionIntervalsFrom(sets: seq<PrefixSet>, i: Interval)
    requires UnionIntervals(sets).Ok?
    ensures forall k :: 0 <= k < |sets| ==> Intervals(sets[k]).Ok?
    ensures i in UnionIntervals(sets).value <==>
        exists k :: 0 <= k < |sets| && Intervals(sets[k]).Ok? && i in Intervals(sets[k]).value
  {
    hide Intervals;
    if sets != [] {
      UnionIntervalsFrom(sets[1..], i);
      forall k | 0 <= k < |sets|
        ensures Intervals(sets[k]).Ok?
      {
        assert k > 0 ==> sets[k] == sets[1..][k - 1];
      }
      if k :| 0 <= k < |sets| && Intervals(sets[k]).Ok? && i in Intervals(sets[k]).value {
        assert k > 0 ==> sets[k] == sets[1..][k - 1];
      }
      if i in UnionIntervals(sets[1..]).value {
        var k :| 0 <= k < |sets[1..]| && Intervals(sets[1..][k]).Ok? && i in Intervals(sets[1..][k]).value;
        assert sets[k + 1] == sets[1..][k];
      }
    }
  }

  predicate Within(i: Interval, a: nat) {
    i.lo <= a <= i.hi
  }

  /** An address is in a set's space exactly when one of the set's intervals contains it. */
  lemma {:induction false} IntervalsMean(s: PrefixSet, a: nat)
    requires Intervals(s).Ok? && a < LIMIT
    ensures ContainsAddr(s, Addr(V4, a)) <==> exists i :: i in Intervals(s).value && Within(i, a)
  {
    match s
    case UnionSet(sets) =>
      forall i
        ensures i in Intervals(s).value <==>
            exists k :: 0 <= k < |sets| && Intervals(sets[k]).Ok? && i in Intervals(sets[k]).value
      {
        UnionIntervalsFrom(sets, i);
      }
      AllIntervalsOk(sets);
      forall k | 0 <= k < |sets|
        ensures ContainsAddr(sets[k], Addr(V4, a)) <==> exists i :: i in Intervals(sets[k]).value && Within(i, a)
      {
        IntervalsMean(sets[k], a);
      }
      UnionMeans(s, a);
    case _ => LeafMeans(s, a);
  }

  lemma AllIntervalsOk(sets: seq<PrefixSet>)
    requires UnionIntervals(sets).Ok?
    ensures forall k :: 0 <= k < |sets| ==> Intervals(sets[k]).Ok?
  {
    UnionIntervalsFrom(sets, Interval(0, 0));
  }

  lemma UnionMeans(s: PrefixSet, a: nat)
    requires s.UnionSet? && Intervals(s).Ok? && forall k :: 0 <= k < |s.sets| ==> Intervals(s.sets[k]).Ok?
    requires forall i :: i in Intervals(s).value <==> exists k :: 0 <= k < |s.sets| && i in Intervals(s.sets[k]).value
    requires forall k :: 0 <= k < |s.sets| ==>
      (ContainsAddr(s.sets[k], Addr(V4, a)) <==> exists i :: i in Intervals(s.sets[k]).value && Within(i, a))
    ensures ContainsAddr(s, Addr(V4, a)) <==> exists i :: i in Intervals(s).value && Within(i, a)
  {
    hide Intervals, Within;
    if ContainsAddr(s, Addr(V4, a)) {
      var k :| 0 <= k < |s.sets| && ContainsAddr(s.sets[k], Addr(V4, a));
      var i :| i in Intervals(s.sets[k]).value && Within(i, a);
      assert i in Intervals(s).value;
    }
    if i :| i in Intervals(s).value && Within(i, a) {
      var k :| 0 <= k < |s.sets| && i in Intervals(s.sets[k]).value;
      assert ContainsAddr(s.sets[k], Addr(V4, a));
    }
  }

  lemma LeafMeans(s: PrefixSet, a: nat)
    requires !s.UnionSet? && Intervals(s).Ok? && a < LIMIT
    ensures ContainsAddr(s, Addr(V4, a)) <==> exists i :: i in Intervals(s).value && Within(i, a)
  {
    var span := LeafSpan(s);
    if span.Covered? {
      assert Intervals(s).value == [span.interval];
      assert span.interval in [span.interval];
      hide Masked;
    }
  }

  /** Intervals of a set end below 2^32. */
  lemma {:induction false} IntervalsBounded(s: PrefixSet, i: Interval)
    requires Intervals(s).Ok? && i in Intervals(s).value
    ensures i.lo <= i.hi < LIMIT
  {
    match s
    case UnionSet(sets) =>
      UnionIntervalsFrom(sets, i);
      var k :| 0 <= k < |sets| && Intervals(sets[k]).Ok? && i in Intervals(sets[k]).value;
      IntervalsBounded(sets[k], i);
    case _ =>
      LimitIsPow2();
  }

  // ---------- the build ----------

  lemma SameKeySameCuts(p: Predicate, q: Predicate)
    requires SetKey(p.kind, p.space) == SetKey(q.kind, q.space)
    ensures Intervals(p.space) == Intervals(q.space)
  {
    KeyDeterminesIntervals(p.kind, p.space, q.kind, q.space);
  }

  function Ends(intervals: seq<Interval>): seq<nat> {
    if intervals == [] then []
    else Ends(intervals[..|intervals| - 1]) + [intervals[|intervals| - 1].lo, intervals[|intervals| - 1].hi + 1]
  }

  lemma {:induction false} EndsExactly(intervals: seq<Interval>, x: nat)
    ensures x in Ends(intervals) <==> exists i :: i in intervals && (x == i.lo || x == i.hi + 1)
  {
    if intervals != [] {
      var init, last := intervals[..|intervals| - 1], intervals[|intervals| - 1];
      EndsExactly(init, x);
      assert intervals == init + [last];
      if x in Ends(init) {
        var i :| i in init && (x == i.lo || x == i.hi + 1);
        assert i in intervals;
      }
      if i :| i in intervals && (x == i.lo || x == i.hi + 1) {
        assert i in init || i == last;
      }
    }
  }

  ghost predicate KeysAre(ps: seq<Predicate>, seen: set<string>) {
    forall key :: key in seen <==> exists p :: p in ps && SetKey(p.kind, p.space) == key
  }

  /** Everything the loop over the predicates has established. */
  ghost predicate Scanned(raw: seq<RawPredicate>, ps: seq<Predicate>, seen: set<string>, boundaries: seq<nat>) {
    ps == Numbered(raw) && AllCut(ps, boundaries) && KeysAre(ps, seen)
  }

  lemma NumberedStep(raw: seq<RawPredicate>, r: RawPredicate)
    ensures Numbered(raw + [r]) ==
      if r.space.None? then Numbered(raw)
      else Numbered(raw) + [Predicate(|Numbered(raw)|, r.source, r.space.value, NormalizedKind(r.kind))]
  {
    assert (raw + [r])[..|raw|] == raw;
  }

  /** The predicates are those given with a set, in their order; only the word "nlri" makes one about routes. */
  ghost predicate KeptInOrder(raw: seq<RawPredicate>, ps: seq<Predicate>, idx: seq<nat>) {
    && |idx| == |ps| && (forall i, j :: 0 <= i < j < |idx| ==> idx[i] < idx[j])
    && (forall i :: 0 <= i < |idx| ==>
        && idx[i] < |raw| && raw[idx[i]].space == Some(ps[i].space)
        && ps[i].id == i && ps[i].source == raw[idx[i]].source && (ps[i].kind == Nlri <==> raw[idx[i]].kind == "nlri"))
    && forall k :: 0 <= k < |raw| && raw[k].space.Some? ==> k in idx
  }

  lemma {:induction false} NumberedExactly(raw: seq<RawPredicate>) returns (idx: seq<nat>)
    ensures KeptInOrder(raw, Numbered(raw), idx)
  {
    idx := [];
    if raw != [] {
      hide KeptInOrder, NormalizedKind, Numbered;
      var init, last := raw[..|raw| - 1], raw[|raw| - 1];
      idx := NumberedExactly(init);
      NumberedStep(init, last);
      if last.space.None? {
        PassedOver(init, Numbered(init), idx, last);
      } else {
        TakenUp(init, Numbered(init), idx, last);
        idx := idx + [|init|];
      }
      assert raw == init + [last];
    }
  }

  lemma PassedOver(raw: seq<RawPredicate>, ps: seq<Predicate>, idx: seq<nat>, r: RawPredicate)
    requires KeptInOrder(raw, ps, idx) && r.space.None?
    ensures KeptInOrder(raw + [r], ps, idx)
  {
    assert forall k :: 0 <= k < |raw| ==> (raw + [r])[k] == raw[k];
  }

  lemma TakenUp(raw: seq<RawPredicate>, ps: seq<Predicate>, idx: seq<nat>, r: RawPredicate)
    requires KeptInOrder(raw, ps, idx) && r.space.Some?
    ensures KeptInOrder(raw + [r], ps + [Predicate(|ps|, r.source, r.space.value, NormalizedKind(r.kind))],
        idx + [|raw|])
  {
    var all, idx' := raw + [r], idx + [|raw|];
    assert forall k :: 0 <= k < |raw| ==> all[k] == raw[k];
    forall k | 0 <= k < |all| && all[k].space.Some?
      ensures k in idx'
    {
      assert k < |raw| ==> k in idx;
      assert idx'[|idx|] == |raw|;
    }
  }

  /** The number of different keys. */
  ghost predicate CountsKeys(u: PrefixUniverse) {
    u.uniqueCount == |set p | p in u.predicates :: SetKey(p.kind, p.space)|
  }

  lemma {:induction false} NumberedHas(raw: seq<RawPredicate>, r: RawPredicate)
    requires r in raw && r.space.Some?
    ensures exists p :: p in Numbered(raw) && p.space == r.space.value && p.kind == NormalizedKind(r.kind)
  {
    var init, last := raw[..|raw| - 1], raw[|raw| - 1];
    NumberedStep(init, last);
    assert raw == init + [last];
    if r in init {
      NumberedHas(init, r);
      var p :| p in Numbered(init) && p.space == r.space.value && p.kind == NormalizedKind(r.kind);
      assert p in Numbered(raw);
    } else {
      var p := Numbered(raw)[|Numbered(raw)| - 1];
      assert p in Numbered(raw);
    }
  }

  /** A predicate whose key was seen adds no boundary. */
  lemma AddSeen(ps: seq<Predicate>, p: Predicate, boundaries: seq<nat>, q: Predicate)
    requires AllCut(ps, boundaries) && q in ps && SetKey(q.kind, q.space) == SetKey(p.kind, p.space)
    ensures AllCut(ps + [p], boundaries)
  {
    SameKeySameCuts(q, p);
    hide Intervals, SetKey;
    forall x
      ensures CutByAny(ps + [p], x) <==> CutByAny(ps, x)
    {
      if CutByAny(ps, x) {
        var r :| r in ps && Cuts(r.space, x);
        assert r in ps + [p];
      }
      if CutByAny(ps + [p], x) {
        var r :| r in ps + [p] && Cuts(r.space, x);
        assert r == p ==> Cuts(q.space, x);
      }
    }
  }

  lemma AddCuts(ps: seq<Predicate>, p: Predicate, boundaries: seq<nat>)
    requires AllCut(ps, boundaries) && Intervals(p.space).Ok?
    ensures AllCut(ps + [p], boundaries + Ends(Intervals(p.space).value))
  {
    var ends := Ends(Intervals(p.space).value);
    hide Intervals;
    forall x
      ensures x in boundaries + ends <==> CutByAny(ps + [p], x)
    {
      EndsExactly(Intervals(p.space).value, x);
      if CutByAny(ps, x) {
        var r :| r in ps && Cuts(r.space, x);
        assert r in ps + [p];
      }
      if CutByAny(ps + [p], x) {
        var r :| r in ps + [p] && Cuts(r.space, x);
        assert r == p || r in ps;
      }
      if x in ends {
        assert p in ps + [p] && Cuts(p.space, x);
      }
    }
  }

  lemma KeysWith(ps: seq<Predicate>, p: Predicate, seen: set<string>)
    requires KeysAre(ps, seen)
    ensures KeysAre(ps + [p], seen + {SetKey(p.kind, p.space)})
  {
    hide SetKey;
    forall key
      ensures key in seen + {SetKey(p.kind, p.space)} <==> exists q :: q in ps + [p] && SetKey(q.kind, q.space) == key
    {
      if key in seen {
        var q :| q in ps && SetKey(q.kind, q.space) == key;
        assert q in ps + [p];
      }
      assert p in ps + [p];
      if q :| q in ps + [p] && SetKey(q.kind, q.space) == key {
        assert q == p || q in ps;
      }
    }
  }

  lemma SeenBefore(ps: seq<Predicate>, p: Predicate, seen: set<string>, boundaries: seq<nat>)
    requires KeysAre(ps, seen) && AllCut(ps, boundaries) && SetKey(p.kind, p.space) in seen
    ensures AllCut(ps + [p], boundaries)
  {
    hide SetKey, AllCut;
    var q :| q in ps && SetKey(q.kind, q.space) == SetKey(p.kind, p.space);
    AddSeen(ps, p, boundaries, q);
  }

  /** Adding a predicate, seen before or not, keeps the boundaries those of all predicates. */
  lemma AddScanned(raw: seq<RawPredicate>, ps: seq<Predicate>, seen: set<string>, boundaries: seq<nat>, r: RawPredicate)
    requires Scanned(raw, ps, seen, boundaries) && r.space.Some?
    ensures
      var p := Predicate(|ps|, r.source, r.space.value, NormalizedKind(r.kind));
      var key := SetKey(p.kind, p.space);
      if key in seen then Scanned(raw + [r], ps + [p], seen, boundaries)
      else Intervals(p.space).Ok? ==>
        Scanned(raw + [r], ps + [p], seen + {key}, boundaries + Ends(Intervals(p.space).value))
  {
    var p := Predicate(|ps|, r.source, r.space.value, NormalizedKind(r.kind));
    var key := SetKey(p.kind, p.space);
    NumberedStep(raw, r);
    hide AllCut, Numbered, Intervals, SetKey, Ends, KeysAre, NormalizedKind;
    KeysWith(ps, p, seen);
    if key in seen {
      assert seen + {key} == seen;
      SeenBefore(ps, p, seen, boundaries);
    } else if Intervals(p.space).Ok? {
      AddCuts(ps, p, boundaries);
    }
  }

  lemma BoundariesBounded(ps: seq<Predicate>, s: seq<nat>)
    requires AllCut(ps, s)
    ensures forall i :: 0 <= i < |s| ==> s[i] <= LIMIT
  {
    forall i | 0 <= i < |s|
      ensures s[i] <= LIMIT
    {
      assert s[i] in s;
      var p :| p in ps && Cuts(p.space, s[i]);
      var iv :| iv in Intervals(p.space).value && (s[i] == iv.lo || s[i] == iv.hi + 1);
      IntervalsBounded(p.space, iv);
    }
  }

  /** The loop over the given predicates. */
  method Scan(raw: seq<RawPredicate>) returns (r: Result<(seq<Predicate>, set<string>, seq<nat>), Prefix>)
    ensures r.Ok? ==> Scanned(raw, r.value.0, r.value.1, r.value.2)
    ensures r.Err? <==> exists p :: p in raw && p.space.Some? && Intervals(p.space.value).Err?
  {
    var ps: seq<Predicate> := [];
    var seen: set<string> := {};
    var boundaries: seq<nat> := [];
    hide Scanned, Intervals, SetKey, NormalizedKind;
    NothingScanned();
    for i := 0 to |raw|
      invariant Scanned(raw[..i], ps, seen, boundaries)
    {
      assert raw[..i + 1] == raw[..i] + [raw[i]];
      if raw[i].space.None? {
        SkipScanned(raw[..i], raw[i], ps, seen, boundaries);
        continue;
      }
      var p := Predicate(|ps|, raw[i].source, raw[i].space.value, NormalizedKind(raw[i].kind));
      AddScanned(raw[..i], ps, seen, boundaries, raw[i]);
      ps := ps + [p];
      var key := SetKey(p.kind, p.space);
      if key in seen {
        continue;
      }
      seen := seen + {key};
      var intervals := Intervals(p.space);
      if intervals.Err? {
        assert raw[i] in raw;
        return Err(intervals.error);
      }
      boundaries := boundaries + Ends(intervals.value);
    }
    assert raw[..|raw|] == raw;
    ScannedOk(raw, ps, seen, boundaries);
    return Ok((ps, seen, boundaries));
  }

  lemma NothingScanned()
    ensures Scanned([], [], {}, [])
  {
  }

  lemma SkipScanned(raw: seq<RawPredicate>, r: RawPredicate, ps: seq<Predicate>, seen: set<string>,
                    boundaries: seq<nat>)
    requires Scanned(raw, ps, seen, boundaries) && r.space.None?
    ensures Scanned(raw + [r], ps, seen, boundaries)
  {
    NumberedStep(raw, r);
  }

  lemma ScannedOk(raw: seq<RawPredicate>, ps: seq<Predicate>, seen: set<string>, boundaries: seq<nat>)
    requires Scanned(raw, ps, seen, boundaries)
    ensures forall r :: r in raw && r.space.Some? ==> Intervals(r.space.value).Ok?
  {
    hide Intervals, SetKey;
    forall r | r in raw && r.space.Some?
      ensures Intervals(r.space.value).Ok?
    {
      NumberedHas(raw, r);
    }
  }

  lemma FailsBeyondIPv4(raw: seq<RawPredicate>)
    ensures (exists p :: p in raw && p.space.Some? && Intervals(p.space.value).Err?) <==>
      exists p :: p in raw && p.space.Some? && BeyondIPv4(p.space.value)
  {
    forall p | p in raw && p.space.Some?
      ensures Intervals(p.space.value).Err? <==> BeyondIPv4(p.space.value)
    {
      IntervalsFailExactly(p.space.value);
    }
  }

  /** BuildPrefixUniverseFromPredicates fails exactly when some predicate needs more than IPv4. */
  method BuildPrefixUniverse(raw: seq<RawPredicate>) returns (r: Result<PrefixUniverse, Prefix>, ghost s: seq<nat>)
    ensures r.Ok? ==> Built(r.value, s) && r.value.predicates == Numbered(raw)
    ensures r.Ok? ==> CountsKeys(r.value)
    ensures r.Err? <==> exists p :: p in raw && p.space.Some? && BeyondIPv4(p.space.value)
  {
    s := [];
    hide *;
    var scanned := Scan(raw);
    FailsBeyondIPv4(raw);
    if scanned.Err? {
      return Err(scanned.error), s;
    }
    var (ps, seen, cuts) := scanned.value;
    ScannedParts(raw, ps, seen, cuts);
    if |cuts| == 0 {
      NothingBuilt(ps, |seen|, cuts);
      return Ok(PrefixUniverse([], ps, |seen|)), cuts;
    }
    var boundaries := SortBoundaries(cuts);
    s := boundaries;
    SameCuts(ps, cuts, boundaries);
    assert cuts[0] in boundaries;
    var classes := CutClasses(ps, boundaries);
    r := Ok(PrefixUniverse(classes, ps, |seen|));
    AllBuilt(r.value, s);
  }

  /** The loop over the gaps between boundaries. */
  method CutClasses(ps: seq<Predicate>, boundaries: seq<nat>) returns (classes: seq<Class>)
    requires boundaries != [] && Ascending(boundaries) && forall i :: 0 <= i < |boundaries| ==> boundaries[i] <= LIMIT
    ensures classes == ClassesFrom(ps, boundaries, |boundaries| - 1)
  {
    classes := [];
    hide MatchingIds, SpaceFor;
    for i := 0 to |boundaries| - 1
      invariant classes == ClassesFrom(ps, boundaries, i)
    {
      var lo, hi := boundaries[i], boundaries[i + 1] - 1;
      if lo > hi || hi > LIMIT - 1 {
        continue;
      }
      var space := SpaceForInterval(lo, hi);
      var matches := MatchingPredicateIds(space, ps);
      if |matches| == 0 {
        continue;
      }
      classes := classes + [Class(|classes|, space, matches)];
    }
  }

  lemma ScannedParts(raw: seq<RawPredicate>, ps: seq<Predicate>, seen: set<string>, boundaries: seq<nat>)
    requires Scanned(raw, ps, seen, boundaries)
    ensures ps == Numbered(raw) && AllCut(ps, boundaries)
    ensures forall classes :: CountsKeys(PrefixUniverse(classes, ps, |seen|))
  {
    assert seen == set p | p in ps :: SetKey(p.kind, p.space);
  }

  lemma NothingBuilt(ps: seq<Predicate>, n: nat, s: seq<nat>)
    requires s == [] && AllCut(ps, s) && forall i :: 0 <= i < |ps| ==> ps[i].id == i
    ensures Built(PrefixUniverse([], ps, n), s)
  {
  }

  lemma AllBuilt(u: PrefixUniverse, s: seq<nat>)
    requires s != [] && AllCut(u.predicates, s) && Ascending(s) && forall i :: 0 <= i < |u.predicates| ==>
        u.predicates[i].id == i
    requires forall i :: 0 <= i < |s| ==> s[i] <= LIMIT
    requires u.classes == ClassesFrom(u.predicates, s, |s| - 1)
    ensures Built(u, s)
  {
  }

  lemma SameCuts(ps: seq<Predicate>, s: seq<nat>, t: seq<nat>)
    requires AllCut(ps, s) && forall x :: x in t <==> x in s
    ensures AllCut(ps, t) && forall i :: 0 <= i < |t| ==> t[i] <= LIMIT
  {
    BoundariesBounded(ps, t);
    hide Intervals;
  }

  method SpaceForInterval(lo: nat, hi: nat) returns (space: PrefixSet)
    requires hi < LIMIT
    ensures space == SpaceFor(lo, hi + 1)
  {
    var prefixes := PrefixesForIPv4Range(lo, hi);
    var sets := Exacts(prefixes);
    if |sets| == 1 {
      return sets[0];
    }
    return UnionSet(sets);
  }

  method MatchingPredicateIds(space: PrefixSet, ps: seq<Predicate>) returns (out: seq<nat>)
    ensures out == MatchingIds(space, ps)
  {
    out := [];
    for i := 0 to |ps|
      invariant out == MatchingIds(space, ps[..i])
    {
      assert ps[..i + 1][..i] == ps[..i];
      if ClassMatches(space, ps[i]) {
        out := out + [ps[i].id];
      }
    }
    assert ps[..|ps|] == ps;
  }
}
