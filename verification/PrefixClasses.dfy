/** The classes of a prefix universe are the atoms of its predicates. */
module PrefixClasses {
  import opened Blocks
  import opened Prefixes
  import opened SetKeys
  import opened Universe
  import opened Wrappers

  // ---------- the space of one class ----------

  lemma SpaceIs(lo: nat, end: nat)
    requires lo < end <= LIMIT
    ensures
      var blocks, space := Tiling(lo, end), SpaceFor(lo, end);
      |blocks| > 0 && ((space == ExactSet(blocks[0]) && |blocks| == 1) || space == UnionSet(Exacts(blocks)))
  {
    TilingStep(lo, end);
  }

  /** A class has exactly the addresses of its gap. */
  lemma SpaceAddresses(lo: nat, end: nat, a: Addr)
    requires lo < end <= LIMIT
    ensures ContainsAddr(SpaceFor(lo, end), a) <==> a.family.V4? && lo <= a.value < end
    ensures !HasAny(SpaceFor(lo, end))
  {
    var blocks, space := Tiling(lo, end), SpaceFor(lo, end);
    SpaceIs(lo, end);
    TilingPartitions(lo, end, a);
    hide Tiling, SpaceFor, Contains;
    if space.UnionSet? {
      forall i | 0 <= i < |blocks|
        ensures ContainsAddr(space.sets[i], a) <==> Contains(blocks[i], a)
      {
      }
      forall i | 0 <= i < |blocks| && Contains(blocks[i], a)
        ensures ContainsAddr(space, a)
      {
        assert ContainsAddr(space.sets[i], a);
      }
    }
  }

  /** A class covers exactly the prefixes whose whole block lies in its gap. */
  lemma SpaceCovers(lo: nat, end: nat, p: Prefix)
    requires lo < end <= LIMIT
    ensures CoversPrefix(SpaceFor(lo, end), p) <==> p.Net? && p.family.V4? && lo <= p.addr && p.addr + Size(p) <= end
  {
    var blocks, space := Tiling(lo, end), SpaceFor(lo, end);
    SpaceIs(lo, end);
    if p.Net? {
      forall i | 0 <= i < |blocks|
        ensures blocks[i].Net? && blocks[i].family.V4? && lo <= blocks[i].addr
        ensures blocks[i].addr + Size(blocks[i]) <= end
        ensures CoversPrefix(ExactSet(blocks[i]), p) <==> Covers(blocks[i], p)
      {
        TilingInside(lo, end, i);
        ExactCovers(blocks[i], p);
      }
      if p.family.V4? && lo <= p.addr && p.addr + Size(p) <= end {
        var i := TilingMaximal(lo, end, p);
        hide Tiling, SpaceFor, Size, Masked;
        assert CoversPrefix(ExactSet(blocks[i]), p);
        if space.UnionSet? {
          assert CoversPrefix(space.sets[i], p);
        }
      } else {
        hide Tiling, SpaceFor, Size, Masked;
        NoneCovers(blocks, lo, end, p);
      }
    }
  }

  lemma ExactCovers(q: Prefix, p: Prefix)
    requires p.Net? && q.Net?
    ensures CoversPrefix(ExactSet(q), p) <==> Covers(q, p)
  {
    if q.family == p.family {
      if q.bits <= p.bits {
        NestOrApart(q, p);
      } else {
        Shorter(q, p);
      }
    }
  }

  lemma NoneCovers(blocks: seq<Prefix>, lo: nat, end: nat, p: Prefix)
    requires p.Net? && !(p.family.V4? && lo <= p.addr && p.addr + Size(p) <= end)
    requires forall i :: 0 <= i < |blocks| ==>
      && blocks[i].Net? && blocks[i].family.V4? && lo <= blocks[i].addr && blocks[i].addr + Size(blocks[i]) <= end
      && (CoversPrefix(ExactSet(blocks[i]), p) <==> Covers(blocks[i], p))
    ensures forall i :: 0 <= i < |blocks| ==> !CoversPrefix(ExactSet(blocks[i]), p)
  {
    hide Size, Masked;
  }

  // ---------- the gap of each class ----------

  lemma {:induction false} ClassGap(ps: seq<Predicate>, s: seq<nat>, n: nat, k: nat) returns (g: nat)
    requires n < |s| && (forall i :: 0 <= i < |s| ==> s[i] <= LIMIT) && k < |ClassesFrom(ps, s, n)|
    ensures g < n
    ensures
      var space := SpaceFor(s[g], s[g + 1]);
      ClassesFrom(ps, s, n)[k] == Class(k, space, MatchingIds(space, ps)) && MatchingIds(space, ps) != []
    ensures k == |ClassesFrom(ps, s, g)|
  {
    hide SpaceFor, MatchingIds;
    if k < |ClassesFrom(ps, s, n - 1)| {
      g := ClassGap(ps, s, n - 1, k);
    } else {
      g := n - 1;
    }
  }

  lemma {:induction false} FewerClasses(ps: seq<Predicate>, s: seq<nat>, m: nat, n: nat)
    requires m <= n < |s| && (forall i :: 0 <= i < |s| ==> s[i] <= LIMIT)
    ensures |ClassesFrom(ps, s, m)| <= |ClassesFrom(ps, s, n)|
    ensures forall k :: 0 <= k < |ClassesFrom(ps, s, m)| ==> ClassesFrom(ps, s, n)[k] == ClassesFrom(ps, s, m)[k]
    decreases n
  {
    hide SpaceFor, MatchingIds;
    if m < n {
      FewerClasses(ps, s, m, n - 1);
    }
  }

  /** A gap that some predicate matches has a class. */
  lemma GapClass(ps: seq<Predicate>, s: seq<nat>, n: nat, g: nat) returns (k: nat)
    requires g < n < |s| && (forall i :: 0 <= i < |s| ==> s[i] <= LIMIT)
    requires MatchingIds(SpaceFor(s[g], s[g + 1]), ps) != []
    ensures k < |ClassesFrom(ps, s, n)| && ClassesFrom(ps, s, n)[k].space == SpaceFor(s[g], s[g + 1])
  {
    hide SpaceFor, MatchingIds;
    k := |ClassesFrom(ps, s, g)|;
    FewerClasses(ps, s, g + 1, n);
  }

  lemma {:induction false} MatchingIdsExactly(space: PrefixSet, ps: seq<Predicate>, i: nat)
    requires i < |ps| && forall j :: 0 <= j < |ps| ==> ps[j].id == j
    ensures i in MatchingIds(space, ps) <==> ClassMatches(space, ps[i])
  {
    hide ClassMatches;
    MatchingIdsBelow(space, ps[..|ps| - 1]);
    if i < |ps| - 1 {
      MatchingIdsExactly(space, ps[..|ps| - 1], i);
    }
  }

  lemma {:induction false} MatchingIdsBelow(space: PrefixSet, ps: seq<Predicate>)
    requires forall j :: 0 <= j < |ps| ==> ps[j].id == j
    ensures forall i :: i in MatchingIds(space, ps) ==> i < |ps|
  {
    hide ClassMatches;
    if ps != [] {
      MatchingIdsBelow(space, ps[..|ps| - 1]);
    }
  }

  // ---------- atoms ----------

  predicate InClass(c: Class, a: nat) {
    ContainsAddr(c.space, Addr(V4, a))
  }

  predicate InPredicate(p: Predicate, a: nat) {
    ContainsAddr(p.space, Addr(V4, a))
  }

  lemma BuiltClasses(u: PrefixUniverse, s: seq<nat>)
    requires Built(u, s) && s != []
    ensures forall i :: 0 <= i < |s| ==> s[i] <= LIMIT
    ensures u.classes == ClassesFrom(u.predicates, s, |s| - 1)
  {
  }

  lemma NoBoundariesNoClasses(u: PrefixUniverse, s: seq<nat>)
    requires Built(u, s) && s == []
    ensures u.classes == []
  {
  }

  lemma BuiltAscends(u: PrefixUniverse, s: seq<nat>)
    requires Built(u, s)
    ensures Ascending(s)
  {
  }

  lemma BuiltIds(u: PrefixUniverse, s: seq<nat>)
    requires Built(u, s)
    ensures forall i :: 0 <= i < |u.predicates| ==> u.predicates[i].id == i
  {
  }

  /** The ends of a predicate's intervals are boundaries. */
  lemma IntervalEnds(u: PrefixUniverse, s: seq<nat>, p: Predicate)
    requires Built(u, s) && p in u.predicates
    ensures Intervals(p.space).Ok? && forall i :: i in Intervals(p.space).value ==> i.lo in s && i.hi + 1 in s
  {
    assert Intervals(p.space).Ok?;
    hide Intervals, ClassesFrom;
    forall i | i in Intervals(p.space).value
      ensures i.lo in s && i.hi + 1 in s
    {
      assert Cuts(p.space, i.lo) && Cuts(p.space, i.hi + 1);
      assert CutByAny(u.predicates, i.lo) && CutByAny(u.predicates, i.hi + 1);
    }
  }

  lemma Neighbours(s: seq<nat>, g: nat)
    requires Ascending(s) && g + 1 < |s| && forall i :: 0 <= i < |s| ==> s[i] <= LIMIT
    ensures s[g] < s[g + 1] <= LIMIT
  {
  }

  lemma BuiltClassGap(u: PrefixUniverse, s: seq<nat>, k: nat) returns (g: nat)
    requires Built(u, s) && k < |u.classes|
    ensures g + 1 < |s| && s[g] < s[g + 1] <= LIMIT
    ensures u.classes[k].id == k && u.classes[k].space == SpaceFor(s[g], s[g + 1])
    ensures u.classes[k].matching == MatchingIds(u.classes[k].space, u.predicates) && u.classes[k].matching != []
    ensures k == |ClassesFrom(u.predicates, s, g)|
  {
    hide ClassesFrom, SpaceFor, MatchingIds;
    if s == [] {
      NoBoundariesNoClasses(u, s);
    }
    BuiltClasses(u, s);
    BuiltAscends(u, s);
    hide *;
    g := ClassGap(u.predicates, s, |s| - 1, k);
    Neighbours(s, g);
  }

  lemma SpaceHoldsExactly(c: Class, lo: nat, end: nat, a: nat)
    requires lo < end <= LIMIT && c.space == SpaceFor(lo, end)
    ensures InClass(c, a) <==> lo <= a < end
  {
    SpaceAddresses(lo, end, Addr(V4, a));
  }

  /** The k-th class and its gap between boundaries. */
  lemma ClassOf(u: PrefixUniverse, s: seq<nat>, k: nat) returns (g: nat)
    requires Built(u, s) && k < |u.classes|
    ensures g + 1 < |s| && s[g] < s[g + 1] <= LIMIT
    ensures u.classes[k].id == k && u.classes[k].space == SpaceFor(s[g], s[g + 1])
    ensures u.classes[k].matching == MatchingIds(u.classes[k].space, u.predicates) && u.classes[k].matching != []
    ensures k == |ClassesFrom(u.predicates, s, g)|
    ensures forall a :: InClass(u.classes[k], a) <==> s[g] <= a < s[g + 1]
  {
    g := BuiltClassGap(u, s, k);
    hide *;
    forall a
      ensures InClass(u.classes[k], a) <==> s[g] <= a < s[g + 1]
    {
      SpaceHoldsExactly(u.classes[k], s[g], s[g + 1], a);
    }
  }

  /** Classes share no address. */
  lemma ClassesDisjoint(u: PrefixUniverse, s: seq<nat>, k: nat, l: nat, a: nat)
    requires Built(u, s) && k < l < |u.classes|
    ensures !(InClass(u.classes[k], a) && InClass(u.classes[l], a))
  {
    BuiltClasses(u, s);
    BuiltAscends(u, s);
    hide Built, InClass, ClassesFrom, SpaceFor, Ascending;
    var g := ClassOf(u, s, k);
    var h := ClassOf(u, s, l);
    if h <= g {
      FewerClasses(u.predicates, s, h, g);
    } else {
      Later(s, g, h);
    }
  }

  lemma Later(s: seq<nat>, g: nat, h: nat)
    requires Ascending(s) && g < h < |s|
    ensures s[g + 1] <= s[h]
  {
  }

  /** No boundary lies strictly between neighbours. */
  lemma NoBoundaryBetween(s: seq<nat>, g: nat, x: nat)
    requires Ascending(s) && g + 1 < |s| && x in s
    ensures x <= s[g] || s[g + 1] <= x
  {
    var i :| 0 <= i < |s| && s[i] == x;
    if i <= g {
      assert i < g ==> s[i] < s[g];
    } else {
      Later(s, g, i);
    }
  }

  /** Addresses of one gap are in the same predicates. */
  lemma GapUniform(u: PrefixUniverse, s: seq<nat>, g: nat, p: Predicate, a: nat, b: nat)
    requires Built(u, s) && g + 1 < |s| && s[g] <= a < s[g + 1] && s[g] <= b < s[g + 1] && p in u.predicates
    ensures InPredicate(p, a) <==> InPredicate(p, b)
  {
    BuiltClasses(u, s);
    BuiltAscends(u, s);
    IntervalEnds(u, s, p);
    Neighbours(s, g);
    hide Built, Ascending, Intervals;
    IntervalsMean(p.space, a);
    IntervalsMean(p.space, b);
    forall i | i in Intervals(p.space).value
      ensures Within(i, a) <==> Within(i, b)
    {
      NoBoundaryBetween(s, g, i.lo);
      NoBoundaryBetween(s, g, i.hi + 1);
    }
    hide ContainsAddr, Within;
  }

  /** Two addresses of one class are in exactly the same predicates. */
  lemma ClassUniform(u: PrefixUniverse, s: seq<nat>, k: nat, p: Predicate, a: nat, b: nat)
    requires Built(u, s) && k < |u.classes| && p in u.predicates && InClass(u.classes[k], a) && InClass(u.classes[k], b)
    ensures InPredicate(p, a) <==> InPredicate(p, b)
  {
    var g := ClassOf(u, s, k);
    GapUniform(u, s, g, p, a, b);
  }

  lemma {:induction false} GapAround(s: seq<nat>, x: nat, y: nat, a: nat) returns (g: nat)
    requires Ascending(s) && x in s && y in s && x <= a < y
    ensures g + 1 < |s| && s[g] <= a < s[g + 1]
    decreases |s|
  {
    var last := |s| - 1;
    var j :| 0 <= j < |s| && s[j] == y;
    var i :| 0 <= i < |s| && s[i] == x;
    assert i < j;
    if s[last - 1] <= a {
      g := last - 1;
      assert j == last;
    } else {
      assert i < last;
      assert s[..last][i] == x && s[..last][last - 1] == s[last - 1];
      g := GapAround(s[..last], x, s[last - 1], a);
    }
  }

  /** In a gap, a predicate's space overlaps the class exactly when it holds all of it. */
  lemma AddressMatch(u: PrefixUniverse, s: seq<nat>, g: nat, p: Predicate, a: nat)
    requires Built(u, s) && g + 1 < |s| && s[g] <= a < s[g + 1] && p in u.predicates
    ensures AddressSpaceOverlaps(SpaceFor(s[g], s[g + 1]), p.space) <==> InPredicate(p, a)
  {
    var space := SpaceFor(s[g], s[g + 1]);
    BuiltClasses(u, s);
    BuiltAscends(u, s);
    Neighbours(s, g);
    hide Built, SpaceFor, Ascending;
    OverlapsExactly(space, p.space);
    SpaceAddresses(s[g], s[g + 1], Addr(V4, a));
    if InPredicate(p, a) {
      assert ContainsAddr(space, Addr(V4, a)) && ContainsAddr(p.space, Addr(V4, a));
    }
    if b :| ContainsAddr(space, b) && ContainsAddr(p.space, b) {
      SpaceAddresses(s[g], s[g + 1], b);
      GapUniform(u, s, g, p, a, b.value);
      assert b == Addr(V4, b.value);
    }
  }

  /** An address-space predicate is listed with a class exactly when it contains the class's addresses. */
  lemma AddressPredicateListed(u: PrefixUniverse, s: seq<nat>, k: nat, i: nat, a: nat)
    requires Built(u, s) && k < |u.classes| && i < |u.predicates| && u.predicates[i].kind.AddressSpace?
    requires InClass(u.classes[k], a)
    ensures i in u.classes[k].matching <==> InPredicate(u.predicates[i], a)
  {
    var g := ClassOf(u, s, k);
    MatchingIdsExactly(u.classes[k].space, u.predicates, i);
    AddressMatch(u, s, g, u.predicates[i], a);
  }

  /** An address of a predicate lies in some gap. */
  lemma GapOfAddress(u: PrefixUniverse, s: seq<nat>, p: Predicate, a: nat) returns (g: nat)
    requires Built(u, s) && p in u.predicates && a < LIMIT && InPredicate(p, a)
    ensures g + 1 < |s| && s[g] <= a < s[g + 1] <= LIMIT
  {
    BuiltAscends(u, s);
    IntervalEnds(u, s, p);
    hide Ascending, Intervals, ClassesFrom;
    IntervalsMean(p.space, a);
    var iv :| iv in Intervals(p.space).value && Within(iv, a);
    BuiltClasses(u, s);
    hide Built;
    g := GapAround(s, iv.lo, iv.hi + 1, a);
  }

  lemma OnlyClass(u: PrefixUniverse, s: seq<nat>, k: nat, a: nat)
    requires Built(u, s) && k < |u.classes| && InClass(u.classes[k], a)
    ensures forall l :: 0 <= l < |u.classes| && InClass(u.classes[l], a) ==> l == k
  {
    hide Built, InClass;
    forall l | 0 <= l < |u.classes| && InClass(u.classes[l], a)
      ensures l == k
    {
      if l < k {
        ClassesDisjoint(u, s, l, k, a);
      } else if k < l {
        ClassesDisjoint(u, s, k, l, a);
      }
    }
  }

  /** Every address of an address-space predicate is in a class, and so in exactly one. */
  lemma AddressesCovered(u: PrefixUniverse, s: seq<nat>, i: nat, a: nat) returns (k: nat)
    requires Built(u, s) && i < |u.predicates| && u.predicates[i].kind.AddressSpace? && a < LIMIT
    requires InPredicate(u.predicates[i], a)
    ensures k < |u.classes| && InClass(u.classes[k], a)
    ensures forall l :: 0 <= l < |u.classes| && InClass(u.classes[l], a) ==> l == k
  {
    var g := GapOfAddress(u, s, u.predicates[i], a);
    k := MatchedGap(u, s, i, g, a);
    OnlyClass(u, s, k, a);
  }

  lemma SomeMatch(u: PrefixUniverse, s: seq<nat>, i: nat, g: nat, a: nat)
    requires Built(u, s) && i < |u.predicates| && u.predicates[i].kind.AddressSpace? && InPredicate(u.predicates[i], a)
    requires g + 1 < |s| && s[g] <= a < s[g + 1] <= LIMIT
    ensures MatchingIds(SpaceFor(s[g], s[g + 1]), u.predicates) != []
  {
    AddressMatch(u, s, g, u.predicates[i], a);
    BuiltIds(u, s);
    hide Built, SpaceFor, InPredicate, ClassesFrom, Ascending, AddressSpaceOverlaps, MatchingIds;
    MatchingIdsExactly(SpaceFor(s[g], s[g + 1]), u.predicates, i);
  }

  lemma BuiltGapClass(u: PrefixUniverse, s: seq<nat>, g: nat) returns (k: nat)
    requires Built(u, s) && g + 1 < |s| && s[g] < s[g + 1] <= LIMIT
    requires MatchingIds(SpaceFor(s[g], s[g + 1]), u.predicates) != []
    ensures k < |u.classes| && u.classes[k].space == SpaceFor(s[g], s[g + 1])
  {
    hide ClassesFrom, SpaceFor, MatchingIds;
    BuiltClasses(u, s);
    hide *;
    k := GapClass(u.predicates, s, |s| - 1, g);
  }

  lemma MatchedGap(u: PrefixUniverse, s: seq<nat>, i: nat, g: nat, a: nat) returns (k: nat)
    requires Built(u, s) && i < |u.predicates| && u.predicates[i].kind.AddressSpace? && InPredicate(u.predicates[i], a)
    requires g + 1 < |s| && s[g] <= a < s[g + 1] <= LIMIT
    ensures k < |u.classes| && InClass(u.classes[k], a)
  {
    SomeMatch(u, s, i, g, a);
    k := BuiltGapClass(u, s, g);
    hide *;
    SpaceHoldsExactly(u.classes[k], s[g], s[g + 1], a);
  }

  // ---------- looking up a prefix ----------

  function ClassForPrefix(classes: seq<Class>, p: Prefix): Option<nat> {
    if classes == [] then None
    else if CoversPrefix(classes[0].space, p) then Some(classes[0].id)
    else ClassForPrefix(classes[1..], p)
  }

  method ClassForPrefixLoop(u: PrefixUniverse, p: Prefix) returns (id: Option<nat>)
    ensures id == ClassForPrefix(u.classes, p)
  {
    for i := 0 to |u.classes|
      invariant ClassForPrefix(u.classes, p) == ClassForPrefix(u.classes[i..], p)
    {
      if CoversPrefix(u.classes[i].space, p) {
        return Some(u.classes[i].id);
      }
    }
    return None;
  }

  lemma {:induction false} FirstCovering(classes: seq<Class>, p: Prefix)
    ensures ClassForPrefix(classes, p).None? ==> forall k :: 0 <= k < |classes| ==> !CoversPrefix(classes[k].space, p)
    ensures ClassForPrefix(classes, p).Some? ==>
      exists k :: 0 <= k < |classes| && CoversPrefix(classes[k].space, p)
        && ClassForPrefix(classes, p).value == classes[k].id
  {
    if classes != [] && !CoversPrefix(classes[0].space, p) {
      FirstCovering(classes[1..], p);
    }
  }

  /** The prefix's whole block lies inside the class. */
  ghost predicate Inside(p: Prefix, c: Class) {
    p.Net? && p.family.V4? && forall a :: p.addr <= a < p.addr + Size(p) ==> InClass(c, a)
  }

  /**
   A class is found for a prefix exactly when the prefix's whole block lies inside one class, and it
   is that class.
   */
  lemma ClassForPrefixExactly(u: PrefixUniverse, s: seq<nat>, p: Prefix, k: nat)
    requires Built(u, s) && k < |u.classes|
    ensures ClassForPrefix(u.classes, p) == Some(k) <==> Inside(p, u.classes[k])
  {
    FirstCovering(u.classes, p);
    forall l | 0 <= l < |u.classes|
      ensures u.classes[l].id == l
      ensures CoversPrefix(u.classes[l].space, p) <==> Inside(p, u.classes[l])
    {
      ClassCovers(u, s, l, p);
    }
    hide Built, CoversPrefix, Inside, ClassForPrefix;
    if Inside(p, u.classes[k]) {
      InsideHasFirst(p, u.classes[k]);
      OnlyClass(u, s, k, p.addr);
      var l := ClassForPrefix(u.classes, p).value;
      assert Inside(p, u.classes[l]);
      InsideHasFirst(p, u.classes[l]);
    }
  }

  lemma InsideHasFirst(p: Prefix, c: Class)
    requires Inside(p, c)
    ensures p.Net? && InClass(c, p.addr)
  {
    SizePositive(p);
  }

  lemma ClassCovers(u: PrefixUniverse, s: seq<nat>, k: nat, p: Prefix)
    requires Built(u, s) && k < |u.classes|
    ensures u.classes[k].id == k
    ensures CoversPrefix(u.classes[k].space, p) <==> Inside(p, u.classes[k])
  {
    var g := ClassOf(u, s, k);
    SpaceCovers(s[g], s[g + 1], p);
    if p.Net? {
      SizePositive(p);
      var last := p.addr + Size(p) - 1;
      hide InClass, SpaceFor, Built, CoversPrefix, Size, Masked;
      if forall a :: p.addr <= a < p.addr + Size(p) ==> InClass(u.classes[k], a) {
        assert InClass(u.classes[k], p.addr) && InClass(u.classes[k], last);
      }
    }
  }

  // ---------- route predicates ----------

  /** A ge/le range matches a block exactly when some prefix it admits lies inside the block. */
  lemma RangeMatchesBlock(block: Prefix, r: PrefixSet)
    requires block.Net? && r.RangeSet? && RuleSet(r)
    ensures PrefixMatches(block, r) <==> exists p: Prefix :: ContainsPrefix(r, p) && Covers(block, p)
  {
    if PrefixMatches(block, r) {
      var n := Max(r.minLen, Max(r.base.bits, block.bits));
      if block.bits <= r.base.bits {
        NestOrApart(block, r.base);
        var p := Narrower(r.base, n);
        assert ContainsPrefix(r, p) && Covers(block, p);
      } else {
        NestOrApart(r.base, block);
        var p := Narrower(block, n);
        assert ContainsPrefix(r, p) && Covers(block, p);
      }
    }
    if p: Prefix :| ContainsPrefix(r, p) && Covers(block, p) {
      if p.bits < block.bits {
        Shorter(block, p);
      }
      SizePositive(p);
      OverlapsShares(r.base, block);
      assert Contains(r.base, First(p)) && Contains(block, First(p));
    }
  }

  /** What a class's space matches, one of its blocks matches. */
  lemma SpaceMatchesBlock(lo: nat, end: nat, r: PrefixSet)
    requires lo < end <= LIMIT
    ensures SpaceMatches(SpaceFor(lo, end), r) <==>
        exists i :: 0 <= i < |Tiling(lo, end)| && PrefixMatches(Tiling(lo, end)[i], r)
  {
    var blocks, space := Tiling(lo, end), SpaceFor(lo, end);
    SpaceIs(lo, end);
    hide Tiling, SpaceFor, PrefixMatches, Masked;
    if space.UnionSet? {
      forall i | 0 <= i < |blocks|
        ensures SpaceMatches(space.sets[i], r) <==> PrefixMatches(blocks[i], r)
      {
      }
      forall i | 0 <= i < |blocks| && PrefixMatches(blocks[i], r)
        ensures SpaceMatches(space, r)
      {
        assert SpaceMatches(space.sets[i], r);
      }
    }
  }

  /** A range of routes is listed with a class exactly when some prefix it admits lies inside the class. */
  lemma RangePredicateListed(u: PrefixUniverse, s: seq<nat>, k: nat, i: nat)
    requires Built(u, s) && k < |u.classes| && i < |u.predicates| && u.predicates[i].kind.Nlri?
    requires u.predicates[i].space.RangeSet? && RuleSet(u.predicates[i].space)
    ensures i in u.classes[k].matching <==>
      exists p: Prefix :: ContainsPrefix(u.predicates[i].space, p) && Inside(p, u.classes[k])
  {
    var r := u.predicates[i].space;
    var g := ClassOf(u, s, k);
    BuiltIds(u, s);
    MatchingIdsExactly(u.classes[k].space, u.predicates, i);
    SpaceMatchesBlock(s[g], s[g + 1], r);
    forall p: Prefix
      ensures CoversPrefix(u.classes[k].space, p) <==> Inside(p, u.classes[k])
    {
      ClassCovers(u, s, k, p);
    }
    hide Built, SpaceFor, MatchingIds, ContainsPrefix, CoversPrefix, Inside, InClass, ClassesFrom, SpaceMatches,
        RuleSet;
    RangeInGap(s[g], s[g + 1], r);
  }

  lemma RangeInGap(lo: nat, end: nat, r: PrefixSet)
    requires lo < end <= LIMIT && r.RangeSet? && RuleSet(r)
    ensures (exists i :: 0 <= i < |Tiling(lo, end)| && PrefixMatches(Tiling(lo, end)[i], r)) <==>
      exists p: Prefix :: ContainsPrefix(r, p) && CoversPrefix(SpaceFor(lo, end), p)
  {
    var blocks := Tiling(lo, end);
    hide Tiling, SpaceFor, ContainsPrefix, CoversPrefix, PrefixMatches, Masked, Size, RuleSet;
    if i :| 0 <= i < |blocks| && PrefixMatches(blocks[i], r) {
      TilingInside(lo, end, i);
      RangeMatchesBlock(blocks[i], r);
      var p: Prefix :| ContainsPrefix(r, p) && Covers(blocks[i], p);
      SpaceCovers(lo, end, p);
    }
    if p: Prefix :| ContainsPrefix(r, p) && CoversPrefix(SpaceFor(lo, end), p) {
      SpaceCovers(lo, end, p);
      var i := TilingMaximal(lo, end, p);
      TilingInside(lo, end, i);
      RangeMatchesBlock(blocks[i], r);
    }
  }

  /** A single route prefix is listed with a class exactly when its block contains the class's addresses. */
  lemma ExactPredicateListed(u: PrefixUniverse, s: seq<nat>, k: nat, i: nat, a: nat)
    requires Built(u, s) && k < |u.classes| && i < |u.predicates| && u.predicates[i].kind.Nlri?
    requires u.predicates[i].space.ExactSet?
    requires InClass(u.classes[k], a)
    ensures i in u.classes[k].matching <==> InPredicate(u.predicates[i], a)
  {
    var p := u.predicates[i];
    var g := ClassOf(u, s, k);
    BuiltIds(u, s);
    MatchingIdsExactly(u.classes[k].space, u.predicates, i);
    SpaceMatchesBlock(s[g], s[g + 1], p.space);
    AddressMatch(u, s, g, p, a);
    hide Built, SpaceFor, MatchingIds, ClassesFrom, SpaceMatches, InClass;
    ExactInGap(s[g], s[g + 1], p.space);
  }

  lemma ExactInGap(lo: nat, end: nat, e: PrefixSet)
    requires lo < end <= LIMIT && e.ExactSet?
    ensures (exists i :: 0 <= i < |Tiling(lo, end)| && PrefixMatches(Tiling(lo, end)[i], e)) <==>
      AddressSpaceOverlaps(SpaceFor(lo, end), e)
  {
    var blocks, space := Tiling(lo, end), SpaceFor(lo, end);
    SpaceIs(lo, end);
    forall i | 0 <= i < |blocks|
      ensures AddressSpaceOverlaps(ExactSet(blocks[i]), e) <==> PrefixMatches(blocks[i], e)
    {
      TilingInside(lo, end, i);
    }
    hide Tiling, SpaceFor, PrefixMatches, Masked, SpaceMeets;
    if space.UnionSet? {
      forall i | 0 <= i < |blocks| && PrefixMatches(blocks[i], e)
        ensures AddressSpaceOverlaps(space, e)
      {
        assert AddressSpaceOverlaps(space.sets[i], e);
      }
    }
  }
}
