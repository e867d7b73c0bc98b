/** The symbolic lookup against the concrete one, on tables as DeriveFIB leaves them. */
module FibLookup {
  import opened Conditions
  import opened Failure
  import opened Fib
  import opened Prefixes
  import opened PrefixText
  import opened SolverGoal
  import opened Wrappers
  import Sorting
  import Text

  /** LookupFIBVRF: the first entry that contains the address and is live. */
  function LookupFIB(fib: seq<FibEntry>, a: Addr, ctx: Context): Option<FibEntry> {
    if fib == [] then None
    else if Contains(fib[0].prefix, a) && Live(fib[0], ctx) then Some(fib[0])
    else LookupFIB(fib[1..], a, ctx)
  }

  /** The concrete lookup reads the condition of every matching entry, so it must have one. */
  method LookupFIBVRF(fib: seq<FibEntry>, a: Addr, ctx: Context) returns (found: Option<FibEntry>)
    requires forall e :: e in fib && Contains(e.prefix, a) ==> e.condition.Some?
    ensures found == LookupFIB(fib, a, ctx)
  {
    for i := 0 to |fib|
      invariant LookupFIB(fib, a, ctx) == LookupFIB(fib[i..], a, ctx)
    {
      var rule := fib[i];
      if Contains(rule.prefix, a) && Eval(rule.condition.value, ctx) {
        return Some(rule);
      }
    }
    return None;
  }

  function FirstLive(entries: seq<FibEntry>, ctx: Context): Option<FibEntry> {
    if entries == [] then None
    else if Live(entries[0], ctx) then Some(entries[0])
    else FirstLive(entries[1..], ctx)
  }

  function FirstActive(candidates: seq<Candidate>, ctx: Context): Option<FibEntry> {
    if candidates == [] then None
    else if Eval(candidates[0].cond, ctx) then Some(candidates[0].entry)
    else FirstActive(candidates[1..], ctx)
  }

  ghost predicate Ranked(fib: seq<FibEntry>) {
    Sorting.Sorted(fib, ByPrefixAndRank)
  }

  lemma {:induction false} KeptMembers(s: seq<FibEntry>, keep: FibEntry -> bool)
    ensures forall e :: e in Kept(s, keep) <==> e in s && keep(e)
  {
    if s != [] {
      var init, last := s[..|s| - 1], s[|s| - 1];
      KeptMembers(init, keep);
      assert s == init + [last];
    }
  }

  lemma {:induction false} KeptRanked(s: seq<FibEntry>, keep: FibEntry -> bool)
    requires Ranked(s)
    ensures Ranked(Kept(s, keep))
  {
    if s != [] {
      var init, last := s[..|s| - 1], s[|s| - 1];
      KeptRanked(init, keep);
      KeptMembers(init, keep);
      var kept := Kept(init, keep);
      forall i | 0 <= i < |kept|
        ensures !ByPrefixAndRank(last, kept[i])
      {
        assert kept[i] in init;
        var j :| 0 <= j < |init| && init[j] == kept[i];
        assert s[j] == init[j];
      }
      hide ByPrefixAndRank;
    }
  }

  /** A ranked table is only filtered: sorting the matches again changes nothing. */
  lemma MatchingIsKept(fib: seq<FibEntry>, keep: FibEntry -> bool)
    requires Ranked(fib)
    ensures Matching(fib, keep) == Kept(fib, keep) && Ranked(Matching(fib, keep))
  {
    KeptRanked(fib, keep);
    assert Sorting.NoInversion(Kept(fib, keep), ByPrefixAndRank);
    Sorting.SortFixpoint(Kept(fib, keep), ByPrefixAndRank);
  }

  lemma {:induction false} FirstLiveLast(s: seq<FibEntry>, e: FibEntry, ctx: Context)
    ensures FirstLive(s + [e], ctx) == if FirstLive(s, ctx).Some? then FirstLive(s, ctx)
        else if Live(e, ctx) then Some(e) else None
  {
    hide Live;
    if s != [] {
      assert (s + [e])[1..] == s[1..] + [e];
      FirstLiveLast(s[1..], e, ctx);
    } else {
      assert s + [e] == [e];
      assert [e][1..] == [];
    }
  }

  lemma {:induction false} LookupLast(s: seq<FibEntry>, e: FibEntry, a: Addr, ctx: Context)
    ensures LookupFIB(s + [e], a, ctx) ==
      if LookupFIB(s, a, ctx).Some? then LookupFIB(s, a, ctx)
        else if Contains(e.prefix, a) && Live(e, ctx) then Some(e) else None
  {
    hide Live, Contains;
    if s != [] {
      assert (s + [e])[1..] == s[1..] + [e];
      LookupLast(s[1..], e, a, ctx);
    } else {
      assert s + [e] == [e];
      assert [e][1..] == [];
    }
  }

  lemma {:induction false} LookupIsFirstLive(fib: seq<FibEntry>, a: Addr, ctx: Context)
    ensures LookupFIB(fib, a, ctx) == FirstLive(Kept(fib, HasAddr(a)), ctx)
  {
    hide Live, Contains;
    if fib != [] {
      var init, last := fib[..|fib| - 1], fib[|fib| - 1];
      LookupIsFirstLive(init, a, ctx);
      assert fib == init + [last];
      LookupLast(init, last, a, ctx);
      FirstLiveLast(Kept(init, HasAddr(a)), last, ctx);
      assert Kept(init, HasAddr(a)) + [] == Kept(init, HasAddr(a));
    }
  }

  lemma {:induction false} FirstActiveFrom(entries: seq<FibEntry>, i: nat, ctx: Context)
    requires i <= |entries| && CleanEntries(entries) && CleanLinks(ctx.linksByName)
    requires forall j :: 0 <= j < i ==> !Live(entries[j], ctx)
    ensures FirstActive(Candidates(ctx.linksByName, entries)[i..], ctx) == FirstLive(entries[i..], ctx)
    decreases |entries| - i
  {
    hide Live, CandidateCond, KeyAt;
    if i < |entries| {
      CandidateMeans(entries, i, ctx);
      var cs := Candidates(ctx.linksByName, entries);
      assert cs[i..][1..] == cs[i + 1..] && entries[i..][1..] == entries[i + 1..];
      if !Live(entries[i], ctx) {
        FirstActiveFrom(entries, i + 1, ctx);
      }
    }
  }

  /** In every context the first active candidate is the entry the concrete lookup returns; none iff none. */
  lemma LookupRefines(fib: seq<FibEntry>, a: Addr, ctx: Context)
    requires Ranked(fib) && CleanEntries(fib) && CleanLinks(ctx.linksByName)
    ensures FirstActive(Candidates(ctx.linksByName, Matching(fib, HasAddr(a))), ctx) == LookupFIB(fib, a, ctx)
  {
    var m := Matching(fib, HasAddr(a));
    MatchingIsKept(fib, HasAddr(a));
    KeptClean(fib, HasAddr(a));
    FirstActiveFrom(m, 0, ctx);
    LookupIsFirstLive(fib, a, ctx);
    var cs := Candidates(ctx.linksByName, m);
    assert cs[0..] == cs && m[0..] == m;
  }

  lemma KeptClean(fib: seq<FibEntry>, keep: FibEntry -> bool)
    requires CleanEntries(fib)
    ensures CleanEntries(Kept(fib, keep))
  {
    KeptMembers(fib, keep);
    var kept := Kept(fib, keep);
    forall i | 0 <= i < |kept|
      ensures Clean(CondOrTrue(kept[i].condition))
    {
      assert kept[i] in fib;
      var j :| 0 <= j < |fib| && fib[j] == kept[i];
    }
  }

  // ---------- which candidates are active ----------

  /** The name DeriveFIB gives the group of the given rank. */
  function GroupName(p: Prefix, rank: nat): string {
    PrefixString(p) + ("#rank-" + Text.Decimal(rank))
  }

  ghost predicate Named(fib: seq<FibEntry>) {
    forall i :: 0 <= i < |fib| ==> fib[i].groupId == GroupName(fib[i].prefix, fib[i].rank)
  }

  /** Two named entries share a group key exactly when they share prefix and rank. */
  lemma GroupKeyExactly(x: FibEntry, y: FibEntry, i: nat, j: nat)
    requires x.groupId == GroupName(x.prefix, x.rank) && y.groupId == GroupName(y.prefix, y.rank)
    ensures GroupKey(x, i) == GroupKey(y, j) <==> x.prefix == y.prefix && x.rank == y.rank
  {
    assert x.groupId != "" && y.groupId != "";
    if GroupKey(x, i) == GroupKey(y, j) {
      var s, t := "#" + (Text.Decimal(x.rank) + ("#" + x.groupId)), "#" + (Text.Decimal(y.rank) + ("#" + y.groupId));
      PrefixStringChars(x.prefix, '#');
      PrefixStringChars(y.prefix, '#');
      Text.SplitAtSeparator('#', PrefixString(x.prefix), PrefixString(y.prefix), s, t);
      PrefixStringInjective(x.prefix, y.prefix);
      Text.DropHead("#", Text.Decimal(x.rank) + ("#" + x.groupId), Text.Decimal(y.rank) + ("#" + y.groupId));
      DecimalChars(x.rank, '#');
      DecimalChars(y.rank, '#');
      Text.SplitAtSeparator('#', Text.Decimal(x.rank), Text.Decimal(y.rank), "#" + x.groupId, "#" + y.groupId);
      Text.DecimalInjective(x.rank, y.rank);
    }
  }

  /** Among entries that contain one address, an earlier entry is of another group exactly when it outranks. */
  lemma EarlierOutranks(m: seq<FibEntry>, a: Addr, j: nat, i: nat)
    requires j < i < |m| && Ranked(m) && Named(m) && Contains(m[j].prefix, a) && Contains(m[i].prefix, a)
    ensures KeyAt(m, j) != KeyAt(m, i) <==> ByPrefixAndRank(m[j], m[i])
  {
    assert !ByPrefixAndRank(m[i], m[j]);
    GroupKeyExactly(m[j], m[i], j, i);
    if BitsOf(m[j].prefix) == BitsOf(m[i].prefix) {
      LengthDetermines(m[j].prefix, m[i].prefix, a);
    }
    hide GroupKey, GroupName, Contains;
  }

  /** A candidate is active exactly when its entry is live and its group is the highest-ranked live one. */
  lemma ActiveExactly(fib: seq<FibEntry>, a: Addr, i: nat, ctx: Context)
    requires Ranked(fib) && Named(fib) && CleanEntries(fib) && CleanLinks(ctx.linksByName)
    requires i < |Matching(fib, HasAddr(a))|
    ensures
      var m := Matching(fib, HasAddr(a));
      Eval(Candidates(ctx.linksByName, m)[i].cond, ctx) <==>
        Live(m[i], ctx) && forall e :: e in fib && Contains(e.prefix, a) && Live(e, ctx) ==> !ByPrefixAndRank(e, m[i])
  {
    var m := Matching(fib, HasAddr(a));
    MatchingIsKept(fib, HasAddr(a));
    KeptClean(fib, HasAddr(a));
    KeptMembers(fib, HasAddr(a));
    CandidateMeans(m, i, ctx);
    forall k | 0 <= k < |m|
      ensures m[k] in fib && Contains(m[k].prefix, a) && m[k].groupId == GroupName(m[k].prefix, m[k].rank)
    {
      assert m[k] in m;
    }
    hide Live, GroupName, Contains, CandidateCond, Kept, Matching, Eval, ByPrefixAndRank, KeyAt;
    HigherIsEarlier(m, a, i, ctx);
    assert forall e :: e in m <==> e in fib && Contains(e.prefix, a);
  }

  lemma HigherIsEarlier(m: seq<FibEntry>, a: Addr, i: nat, ctx: Context)
    requires i < |m| && Ranked(m) && Named(m) && forall k :: 0 <= k < |m| ==> Contains(m[k].prefix, a)
    ensures (forall j :: 0 <= j < i && KeyAt(m, j) != KeyAt(m, i) ==> !Live(m[j], ctx)) <==>
      forall e :: e in m && Live(e, ctx) ==> !ByPrefixAndRank(e, m[i])
  {
    OutranksEarlier(m, i);
    forall j | 0 <= j < i
      ensures KeyAt(m, j) != KeyAt(m, i) <==> ByPrefixAndRank(m[j], m[i])
    {
      EarlierOutranks(m, a, j, i);
    }
    hide Live, GroupName, Contains, ByPrefixAndRank, KeyAt;
  }

  lemma OutranksEarlier(m: seq<FibEntry>, i: nat)
    requires i < |m| && Ranked(m)
    ensures forall k :: 0 <= k < |m| && ByPrefixAndRank(m[k], m[i]) ==> k < i
  {
  }

  // ---------- lookups for a set ----------

  /** With a narrower filter: the first live entry of the wider one, if it passes, and none if there is none. */
  lemma {:induction false} FirstLiveNarrower(s: seq<FibEntry>, wide: FibEntry -> bool, narrow: FibEntry -> bool,
                                             ctx: Context)
    requires forall e :: e in s && narrow(e) ==> wide(e)
    ensures
      var w, n := FirstLive(Kept(s, wide), ctx), FirstLive(Kept(s, narrow), ctx);
      && (w.None? ==> n.None?)
      && (w.Some? && narrow(w.value) ==> n == w)
      && (n.Some? ==> narrow(n.value))
  {
    hide Live;
    if s != [] {
      var init, last := s[..|s| - 1], s[|s| - 1];
      assert s == init + [last];
      FirstLiveNarrower(init, wide, narrow, ctx);
      FirstLiveLast(Kept(init, wide), last, ctx);
      FirstLiveLast(Kept(init, narrow), last, ctx);
      assert Kept(init, wide) + [] == Kept(init, wide) && Kept(init, narrow) + [] == Kept(init, narrow);
    }
  }

  /** The first live entry of the table that meets the set. */
  function FirstMeeting(fib: seq<FibEntry>, dst: PrefixSet, ctx: Context): Option<FibEntry> {
    FirstLive(Kept(fib, MeetsSet(dst)), ctx)
  }

  lemma AddressMeets(e: FibEntry, dst: PrefixSet, a: Addr)
    requires ContainsAddr(dst, a) && Contains(e.prefix, a)
    ensures MeetsSet(dst)(e)
  {
    OverlapsExactly(ExactSet(e.prefix), dst);
    assert ContainsAddr(ExactSet(e.prefix), a);
  }

  /**
   For an address of the set, the symbolic lookup for the whole set starts with the entry that the
   concrete lookup returns for the address exactly when the first live entry meeting the set
   contains the address, or there is none.
   */
  lemma SetLookupExactly(fib: seq<FibEntry>, dst: PrefixSet, a: Addr, ctx: Context)
    requires Ranked(fib) && CleanEntries(fib) && CleanLinks(ctx.linksByName) && ContainsAddr(dst, a)
    ensures FirstActive(Candidates(ctx.linksByName, Matching(fib, MeetsSet(dst))), ctx) == FirstMeeting(fib, dst, ctx)
    ensures FirstActive(Candidates(ctx.linksByName, Matching(fib, MeetsSet(dst))), ctx) == LookupFIB(fib, a, ctx) <==>
      FirstMeeting(fib, dst, ctx).None? || Contains(FirstMeeting(fib, dst, ctx).value.prefix, a)
  {
    var m := Matching(fib, MeetsSet(dst));
    MatchingIsKept(fib, MeetsSet(dst));
    KeptClean(fib, MeetsSet(dst));
    FirstActiveFrom(m, 0, ctx);
    LookupIsFirstLive(fib, a, ctx);
    forall e | e in fib && HasAddr(a)(e)
      ensures MeetsSet(dst)(e)
    {
      AddressMeets(e, dst, a);
    }
    FirstLiveNarrower(fib, MeetsSet(dst), HasAddr(a), ctx);
    var cs := Candidates(ctx.linksByName, m);
    assert cs[0..] == cs && m[0..] == m;
    hide Live, Kept, Matching, MeetsSet, Contains, Candidates, FirstLive, FirstActive, LookupFIB;
  }

  /** So the two lookups agree in every context if every entry that meets the set contains the address. */
  lemma SetLookupAgrees(fib: seq<FibEntry>, dst: PrefixSet, a: Addr, ctx: Context)
    requires Ranked(fib) && CleanEntries(fib) && CleanLinks(ctx.linksByName) && ContainsAddr(dst, a)
    requires forall e :: e in fib && MeetsSet(dst)(e) ==> Contains(e.prefix, a)
    ensures FirstActive(Candidates(ctx.linksByName, Matching(fib, MeetsSet(dst))), ctx) == LookupFIB(fib, a, ctx)
  {
    SetLookupExactly(fib, dst, a, ctx);
    KeptMembers(fib, MeetsSet(dst));
    FirstLiveIn(Kept(fib, MeetsSet(dst)), ctx);
    hide Live, Kept, Matching, Contains, Candidates, FirstLive, FirstActive, LookupFIB;
  }

  lemma {:induction false} FirstLiveIn(s: seq<FibEntry>, ctx: Context)
    ensures FirstLive(s, ctx).Some? ==> FirstLive(s, ctx).value in s && Live(FirstLive(s, ctx).value, ctx)
  {
    hide Live;
    if s != [] {
      FirstLiveIn(s[1..], ctx);
    }
  }

  /**
   Why a lookup for a set of addresses is not a lookup for one of them: two live entries that meet
   the set but share no address compete, and the symbolic lookup drops the later one, which
   the concrete lookup returns for its own addresses.
   */
  lemma SetLookupSuppresses(x: FibEntry, y: FibEntry, dst: PrefixSet, a: Addr, ctx: Context)
    requires Ranked([x, y]) && Named([x, y]) && CleanEntries([x, y]) && CleanLinks(ctx.linksByName) && Live(x, ctx)
    requires Live(y, ctx)
    requires MeetsSet(dst)(x) && MeetsSet(dst)(y) && x.prefix != y.prefix
    requires Contains(y.prefix, a) && !Contains(x.prefix, a)
    ensures LookupFIB([x, y], a, ctx) == Some(y)
    ensures FirstActive(Candidates(ctx.linksByName, Matching([x, y], MeetsSet(dst))), ctx) == Some(x)
    ensures !Eval(Candidates(ctx.linksByName, [x, y])[1].cond, ctx)
    ensures Matching([x, y], MeetsSet(dst)) == [x, y]
  {
    var m := [x, y];
    assert m[1..] == [y] && m[..1] == [x];
    MatchingIsKept(m, MeetsSet(dst));
    KeptBoth(m, MeetsSet(dst));
    assert [x, y][0] == x && [x, y][1] == y;
    GroupKeyExactly(x, y, 0, 1);
    CandidateMeans(m, 1, ctx);
    FirstActiveFrom(m, 0, ctx);
    hide Live, Contains, GroupKey, GroupName, CandidateCond, Kept, Matching, MeetsSet;
    var cs := Candidates(ctx.linksByName, m);
    assert cs[0..] == cs && m[0..] == m;
    assert KeyAt(m, 0) != KeyAt(m, 1);
  }

  lemma KeptBoth(m: seq<FibEntry>, keep: FibEntry -> bool)
    requires |m| == 2 && keep(m[0]) && keep(m[1])
    ensures Kept(m, keep) == m
  {
    assert m[..1][..0] == [];
    assert Kept(m[..1], keep) == Kept([], keep) + [m[0]];
    assert m == [m[0]] + [m[1]];
  }
}
