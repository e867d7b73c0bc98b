/** Forwarding tables: the symbolic and the concrete lookup. */
module Fib {
  import opened Conditions
  import opened Conjunctions
  import opened Failure
  import opened NormalForms
  import opened Prefixes
  import opened PrefixText
  import opened SolverGoal
  import opened Wrappers
  import Sorting
  import Text

  datatype Status = Unset | ResolvedAdjacent | UnresolvedRecursive | ManagementFallback

  datatype FibEntry = FibEntry(
    prefix: Prefix, nextHop: string, rawNextHop: string, nextHopAddress: string, iface: string, status: Status,
    discard: bool, condition: Option<Cond>, rank: nat, groupId: string, equivalent: bool)

  datatype Candidate = Candidate(entry: FibEntry, cond: Cond)

  /** Longer prefixes first, then lower ranks. */
  predicate ByPrefixAndRank(x: FibEntry, y: FibEntry) {
    if BitsOf(x.prefix) == BitsOf(y.prefix) then x.rank < y.rank else BitsOf(x.prefix) > BitsOf(y.prefix)
  }

  function Kept(entries: seq<FibEntry>, keep: FibEntry -> bool): seq<FibEntry> {
    if entries == [] then []
    else Kept(entries[..|entries| - 1], keep) + if keep(entries[|entries| - 1]) then [entries[|entries| - 1]] else []
  }

  function Matching(entries: seq<FibEntry>, keep: FibEntry -> bool): seq<FibEntry> {
    Sorting.Sort(Kept(entries, keep), ByPrefixAndRank)
  }

  function HasAddr(a: Addr): FibEntry -> bool {
    (e: FibEntry) => Contains(e.prefix, a)
  }

  function MeetsSet(dst: PrefixSet): FibEntry -> bool {
    (e: FibEntry) => AddressSpaceOverlaps(ExactSet(e.prefix), dst)
  }

  /** matchingFIBEntries with HasAddr, matchingFIBEntriesForPrefixSet with MeetsSet. */
  method MatchingLoop(entries: seq<FibEntry>, keep: FibEntry -> bool) returns (out: seq<FibEntry>)
    ensures out == Matching(entries, keep)
  {
    out := [];
    for i := 0 to |entries|
      invariant out == Kept(entries[..i], keep)
    {
      assert entries[..i + 1][..i] == entries[..i];
      if keep(entries[i]) {
        out := out + [entries[i]];
      }
    }
    assert entries[..|entries|] == entries;
    out := Sorting.Sort(out, ByPrefixAndRank);
  }

  // ---------- the symbolic lookup ----------

  function CondOrTrue(c: Option<Cond>): Cond {
    if c.Some? then c.value else True
  }

  function EntryCond(links: map<string, Link>, e: FibEntry): Cond {
    ExpandLinkVars(CondOrTrue(e.condition), links)
  }

  /** An entry without a group is a group of its own. */
  function GroupKey(e: FibEntry, ordinal: nat): string {
    if e.groupId == "" then "entry#" + Text.Decimal(ordinal)
    else PrefixString(e.prefix) + ("#" + (Text.Decimal(e.rank) + ("#" + e.groupId)))
  }

  function KeyAt(entries: seq<FibEntry>, i: nat): string
    requires i < |entries|
  {
    GroupKey(entries[i], i)
  }

  datatype Group = Group(key: string, cond: Cond)

  function IndexOf(groups: seq<Group>, key: string): (i: nat)
    ensures i <= |groups|
    ensures i < |groups| ==> groups[i].key == key
    ensures i == |groups| ==> forall j :: 0 <= j < |groups| ==> groups[j].key != key
  {
    if groups == [] then 0 else if groups[0].key == key then 0 else 1 + IndexOf(groups[1..], key)
  }

  function Join(groups: seq<Group>, key: string, cond: Cond): seq<Group> {
    var i := IndexOf(groups, key);
    if i < |groups| then groups[i := Group(key, Or([groups[i].cond, cond]))] else groups + [Group(key, cond)]
  }

  /** The groups among the first n entries, each with the disjunction of its members' conditions. */
  function Groups(links: map<string, Link>, entries: seq<FibEntry>, n: nat): seq<Group>
    requires n <= |entries|
  {
    if n == 0 then [] else Join(Groups(links, entries, n - 1), KeyAt(entries, n - 1), EntryCond(links, entries[n - 1]))
  }

  function Conds(groups: seq<Group>): (cs: seq<Cond>)
    ensures |cs| == |groups| && forall i :: 0 <= i < |groups| ==> cs[i] == groups[i].cond
  {
    seq(|groups|, i requires 0 <= i < |groups| => groups[i].cond)
  }

  /** The conditions of all groups but the one with the key. */
  function Others(groups: seq<Group>, key: string): seq<Cond> {
    var i := IndexOf(groups, key);
    if i < |groups| then Conds(groups)[..i] + Conds(groups)[i + 1..] else Conds(groups)
  }

  function Guarded(cond: Cond, higher: seq<Cond>): Cond {
    if higher == [] then cond else And([cond, Not(Or(higher))])
  }

  function CandidateCond(links: map<string, Link>, entries: seq<FibEntry>, i: nat): Cond
    requires i < |entries|
  {
    Guarded(EntryCond(links, entries[i]), Others(Groups(links, entries, i), KeyAt(entries, i)))
  }

  function Candidates(links: map<string, Link>, entries: seq<FibEntry>): (r: seq<Candidate>)
    ensures |r| == |entries|
  {
    seq(|entries|, i requires 0 <= i < |entries| => Candidate(entries[i], CandidateCond(links, entries, i)))
  }

  /** The two maps and the list of the loop describe the groups found so far. */
  ghost predicate Recorded(groups: seq<Group>, higher: seq<Cond>, groupConds: map<string, Cond>,
                           groupIndexes: map<string, nat>) {
    && higher == Conds(groups)
    && groupConds.Keys == groupIndexes.Keys
    && (forall key :: key in groupIndexes <==> IndexOf(groups, key) < |groups|)
    && (forall key :: key in groupIndexes ==>
      groupIndexes[key] == IndexOf(groups, key) && groupConds[key] == groups[groupIndexes[key]].cond)
  }

  lemma {:induction false} IndexAfterUpdate(groups: seq<Group>, i: nat, cond: Cond, k: string)
    requires i < |groups|
    ensures IndexOf(groups[i := Group(groups[i].key, cond)], k) == IndexOf(groups, k)
  {
    var updated := groups[i := Group(groups[i].key, cond)];
    if i == 0 {
      assert updated[1..] == groups[1..];
    } else {
      assert updated[1..] == groups[1..][i - 1 := Group(groups[1..][i - 1].key, cond)];
      IndexAfterUpdate(groups[1..], i - 1, cond, k);
    }
  }

  lemma {:induction false} IndexAfterAppend(groups: seq<Group>, key: string, cond: Cond, k: string)
    ensures IndexOf(groups + [Group(key, cond)], k) ==
      if IndexOf(groups, k) < |groups| then IndexOf(groups, k) else if k == key then |groups| else |groups| + 1
  {
    if groups != [] {
      assert (groups + [Group(key, cond)])[1..] == groups[1..] + [Group(key, cond)];
      IndexAfterAppend(groups[1..], key, cond, k);
    }
  }

  /** A further entry of a known group. */
  lemma JoinKnown(groups: seq<Group>, higher: seq<Cond>, groupConds: map<string, Cond>, groupIndexes: map<string, nat>,
                  key: string, cond: Cond)
    requires Recorded(groups, higher, groupConds, groupIndexes) && key in groupConds
    ensures groupIndexes[key] < |higher|
    ensures var merged := Or([groupConds[key], cond]);
      Recorded(Join(groups, key, cond), higher[groupIndexes[key] := merged], groupConds[key := merged], groupIndexes)
  {
    hide Or;
    var i, joined := IndexOf(groups, key), Join(groups, key, cond);
    var merged := Or([groups[i].cond, cond]);
    IndicesAfterUpdate(groups, i, merged);
    assert joined == groups[i := Group(groups[i].key, merged)];
    hide IndexOf, Join;
    assert Conds(joined) == Conds(groups)[i := merged];
  }

  lemma IndicesAfterUpdate(groups: seq<Group>, i: nat, cond: Cond)
    requires i < |groups|
    ensures forall k :: IndexOf(groups[i := Group(groups[i].key, cond)], k) == IndexOf(groups, k)
  {
    forall k
      ensures IndexOf(groups[i := Group(groups[i].key, cond)], k) == IndexOf(groups, k)
    {
      IndexAfterUpdate(groups, i, cond, k);
    }
  }

  /** The first entry of a group. */
  lemma JoinNew(groups: seq<Group>, higher: seq<Cond>, groupConds: map<string, Cond>, groupIndexes: map<string, nat>,
                key: string, cond: Cond)
    requires Recorded(groups, higher, groupConds, groupIndexes) && key !in groupConds
    ensures Recorded(Join(groups, key, cond), higher + [cond], groupConds[key := cond], groupIndexes[key := |higher|])
  {
    var joined := Join(groups, key, cond);
    forall k
      ensures IndexOf(joined, k) == if IndexOf(groups, k) < |groups| then IndexOf(groups, k)
          else if k == key then |groups| else |joined|
    {
      IndexAfterAppend(groups, key, cond, k);
    }
    assert joined == groups + [Group(key, cond)];
    hide IndexOf;
    assert Conds(joined) == Conds(groups) + [cond];
  }

  lemma NothingRecorded()
    ensures Recorded([], [], map[], map[])
  {
  }

  lemma OthersRecorded(groups: seq<Group>, higher: seq<Cond>, groupConds: map<string, Cond>,
                       groupIndexes: map<string, nat>, key: string)
    requires Recorded(groups, higher, groupConds, groupIndexes)
    ensures key in groupIndexes <==> key in groupConds
    ensures if key in groupIndexes
      then groupIndexes[key] < |higher|
        && Others(groups, key) == higher[..groupIndexes[key]] + higher[groupIndexes[key] + 1..]
      else Others(groups, key) == higher
  {
  }

  method SymbolicLookupFIBEntries(links: map<string, Link>, entries: seq<FibEntry>) returns (out: seq<Candidate>)
    ensures out == Candidates(links, entries)
  {
    out := [];
    var higher: seq<Cond> := [];
    var groupConds: map<string, Cond> := map[];
    var groupIndexes: map<string, nat> := map[];
    NothingRecorded();
    hide Recorded, EntryCond, GroupKey, Others, Join, Or, And, Not, IndexOf, Conds;
    for i := 0 to |entries|
      invariant |out| == i && forall j :: 0 <= j < i ==>
          out[j] == Candidate(entries[j], CandidateCond(links, entries, j))
      invariant Recorded(Groups(links, entries, i), higher, groupConds, groupIndexes)
    {
      var entry := entries[i];
      var entryCond := EntryCond(links, entry);
      var groupKey := GroupKey(entry, |out|);
      ghost var groups := Groups(links, entries, i);
      OthersRecorded(groups, higher, groupConds, groupIndexes, groupKey);
      var cond := entryCond;
      var higherForEntry := higher;
      if groupKey in groupIndexes {
        var ownIndex := groupIndexes[groupKey];
        higherForEntry := higher[..ownIndex] + higher[ownIndex + 1..];
      }
      if |higherForEntry| > 0 {
        cond := And([cond, Not(Or(higherForEntry))]);
      }
      out := out + [Candidate(entry, cond)];
      if groupKey in groupConds {
        JoinKnown(groups, higher, groupConds, groupIndexes, groupKey, entryCond);
        var merged := Or([groupConds[groupKey], entryCond]);
        groupConds := groupConds[groupKey := merged];
        higher := higher[groupIndexes[groupKey] := merged];
        continue;
      }
      JoinNew(groups, higher, groupConds, groupIndexes, groupKey, entryCond);
      groupConds := groupConds[groupKey := entryCond];
      groupIndexes := groupIndexes[groupKey := |higher|];
      higher := higher + [entryCond];
    }
  }

  // ---------- what a candidate's condition says ----------

  predicate CleanEntries(entries: seq<FibEntry>) {
    forall i :: 0 <= i < |entries| ==> Clean(CondOrTrue(entries[i].condition))
  }

  predicate Live(e: FibEntry, ctx: Context) {
    Eval(CondOrTrue(e.condition), ctx)
  }

  lemma EntryCondMeans(e: FibEntry, ctx: Context)
    requires Clean(CondOrTrue(e.condition)) && CleanLinks(ctx.linksByName)
    ensures Clean(EntryCond(ctx.linksByName, e)) && (Eval(EntryCond(ctx.linksByName, e), ctx) <==> Live(e, ctx))
  {
    ExpandEval(CondOrTrue(e.condition), ctx);
  }

  /** Some entry among the first n, in the group with the key, is live. */
  ghost predicate GroupLive(entries: seq<FibEntry>, n: nat, key: string, ctx: Context)
    requires n <= |entries|
  {
    exists j :: 0 <= j < n && KeyAt(entries, j) == key && Live(entries[j], ctx)
  }

  lemma GroupLiveStep(entries: seq<FibEntry>, n: nat, key: string, ctx: Context)
    requires n < |entries|
    ensures GroupLive(entries, n + 1, key, ctx) <==>
      GroupLive(entries, n, key, ctx) || (KeyAt(entries, n) == key && Live(entries[n], ctx))
  {
    hide Live, KeyAt;
    if GroupLive(entries, n, key, ctx) {
      var j :| 0 <= j < n && KeyAt(entries, j) == key && Live(entries[j], ctx);
      assert 0 <= j < n + 1;
    }
    if GroupLive(entries, n + 1, key, ctx) {
      var j :| 0 <= j < n + 1 && KeyAt(entries, j) == key && Live(entries[j], ctx);
      assert j < n || j == n;
    }
  }

  /** Each group's condition says that one of its entries is live, and no group is missing. */
  ghost predicate GroupsFor(entries: seq<FibEntry>, n: nat, groups: seq<Group>, ctx: Context)
    requires n <= |entries|
  {
    && (forall k :: 0 <= k < |groups| ==>
      Clean(groups[k].cond) && (Eval(groups[k].cond, ctx) <==> GroupLive(entries, n, groups[k].key, ctx)))
    && (forall j :: 0 <= j < n ==> IndexOf(groups, KeyAt(entries, j)) < |groups|)
    && (forall i, k :: 0 <= i < k < |groups| ==> groups[i].key != groups[k].key)
  }

  lemma OrTwo(x: Cond, y: Cond, ctx: Context)
    requires Clean(x) && Clean(y)
    ensures Clean(Or([x, y])) && (Eval(Or([x, y]), ctx) <==> Eval(x, ctx) || Eval(y, ctx))
  {
    var cs := [x, y];
    FlattenClean(OrOp, cs);
    OrMeans(cs, ctx);
    assert cs[0] in cs && cs[1] in cs;
    hide Or;
  }

  lemma {:induction false} GroupsMean(entries: seq<FibEntry>, n: nat, ctx: Context)
    requires n <= |entries| && CleanEntries(entries) && CleanLinks(ctx.linksByName)
    ensures GroupsFor(entries, n, Groups(ctx.linksByName, entries, n), ctx)
  {
    if n > 0 {
      GroupsMean(entries, n - 1, ctx);
      EntryCondMeans(entries[n - 1], ctx);
      JoinMeans(entries, n - 1, Groups(ctx.linksByName, entries, n - 1), EntryCond(ctx.linksByName, entries[n - 1]),
        ctx);
    }
  }

  lemma JoinMeans(entries: seq<FibEntry>, n: nat, groups: seq<Group>, cond: Cond, ctx: Context)
    requires n < |entries| && GroupsFor(entries, n, groups, ctx)
    requires Clean(cond) && (Eval(cond, ctx) <==> Live(entries[n], ctx))
    ensures GroupsFor(entries, n + 1, Join(groups, KeyAt(entries, n), cond), ctx)
  {
    JoinedConds(entries, n, groups, cond, ctx);
    JoinedKeys(entries, n, groups, cond, ctx);
    hide GroupLive, Live, KeyAt, Or, Eval, Clean, IndexOf;
  }

  lemma JoinedKeys(entries: seq<FibEntry>, n: nat, groups: seq<Group>, cond: Cond, ctx: Context)
    requires n < |entries| && GroupsFor(entries, n, groups, ctx)
    ensures
      var joined := Join(groups, KeyAt(entries, n), cond);
      forall j :: 0 <= j < n + 1 ==> IndexOf(joined, KeyAt(entries, j)) < |joined|
  {
    var key := KeyAt(entries, n);
    var i, joined := IndexOf(groups, key), Join(groups, key, cond);
    hide GroupLive, Live, KeyAt, Or, Eval, Clean;
    forall j | 0 <= j < n + 1
      ensures IndexOf(joined, KeyAt(entries, j)) < |joined|
    {
      if i < |groups| {
        IndexAfterUpdate(groups, i, Or([groups[i].cond, cond]), KeyAt(entries, j));
      } else {
        IndexAfterAppend(groups, key, cond, KeyAt(entries, j));
      }
    }
  }

  lemma JoinedConds(entries: seq<FibEntry>, n: nat, groups: seq<Group>, cond: Cond, ctx: Context)
    requires n < |entries| && GroupsFor(entries, n, groups, ctx)
    requires Clean(cond) && (Eval(cond, ctx) <==> Live(entries[n], ctx))
    ensures
      var joined := Join(groups, KeyAt(entries, n), cond);
      forall k :: 0 <= k < |joined| ==>
        Clean(joined[k].cond) && (Eval(joined[k].cond, ctx) <==> GroupLive(entries, n + 1, joined[k].key, ctx))
  {
    hide GroupLive, Live, KeyAt, Or, Eval, Clean;
    var key := KeyAt(entries, n);
    var i, joined := IndexOf(groups, key), Join(groups, key, cond);
    if i < |groups| {
      OrTwo(groups[i].cond, cond, ctx);
    } else {
      NoMemberYet(entries, n, groups, key, ctx);
    }
    forall k | 0 <= k < |joined|
      ensures Clean(joined[k].cond) && (Eval(joined[k].cond, ctx) <==> GroupLive(entries, n + 1, joined[k].key, ctx))
    {
      GroupLiveStep(entries, n, joined[k].key, ctx);
    }
  }

  lemma NoMemberYet(entries: seq<FibEntry>, n: nat, groups: seq<Group>, key: string, ctx: Context)
    requires n < |entries| && GroupsFor(entries, n, groups, ctx) && IndexOf(groups, key) == |groups|
    ensures !GroupLive(entries, n, key, ctx)
  {
  }

  /** A candidate is active when its entry is live and no earlier entry of another group is. */
  lemma CandidateMeans(entries: seq<FibEntry>, i: nat, ctx: Context)
    requires i < |entries| && CleanEntries(entries) && CleanLinks(ctx.linksByName)
    ensures Clean(CandidateCond(ctx.linksByName, entries, i))
    ensures Eval(CandidateCond(ctx.linksByName, entries, i), ctx) <==>
      && Live(entries[i], ctx)
      && forall j :: 0 <= j < i && KeyAt(entries, j) != KeyAt(entries, i) ==> !Live(entries[j], ctx)
  {
    var key := KeyAt(entries, i);
    var groups := Groups(ctx.linksByName, entries, i);
    var others := Others(groups, key);
    GroupsMean(entries, i, ctx);
    EntryCondMeans(entries[i], ctx);
    OthersMean(entries, i, groups, key, ctx);
    GuardedMeans(EntryCond(ctx.linksByName, entries[i]), others, ctx);
    hide EntryCond, GroupKey, GroupsFor, Others, Guarded, Groups, Live, Eval, Clean;
  }

  lemma GuardedMeans(cond: Cond, higher: seq<Cond>, ctx: Context)
    requires Clean(cond) && CleanAll(higher)
    ensures Clean(Guarded(cond, higher))
    ensures Eval(Guarded(cond, higher), ctx) <==> Eval(cond, ctx) && !exists c :: c in higher && Eval(c, ctx)
  {
    NoneOf(higher, ctx);
    AndTwo(cond, Not(Or(higher)), ctx);
    hide And, Not, Or;
  }

  lemma OtherComes(groups: seq<Group>, key: string, c: Cond) returns (k: nat)
    requires c in Others(groups, key)
    requires forall i, k :: 0 <= i < k < |groups| ==> groups[i].key != groups[k].key
    ensures k < |groups| && groups[k].key != key && groups[k].cond == c
  {
    var i, others := IndexOf(groups, key), Others(groups, key);
    var m :| 0 <= m < |others| && others[m] == c;
    if i == |groups| {
      k := m;
    } else if m < i {
      k := m;
    } else {
      k := m + 1;
    }
    hide IndexOf;
    assert c == Conds(groups)[k];
    assert i < |groups| ==> groups[k].key != groups[i].key;
  }

  lemma OtherHas(groups: seq<Group>, key: string, k: nat)
    requires k < |groups| && groups[k].key != key
    ensures groups[k].cond in Others(groups, key)
  {
    var i, others := IndexOf(groups, key), Others(groups, key);
    assert groups[k].cond == others[if k < i then k else k - 1];
  }

  lemma OthersMean(entries: seq<FibEntry>, n: nat, groups: seq<Group>, key: string, ctx: Context)
    requires n <= |entries| && GroupsFor(entries, n, groups, ctx)
    ensures CleanAll(Others(groups, key))
    ensures (exists c :: c in Others(groups, key) && Eval(c, ctx)) <==>
      exists j :: 0 <= j < n && KeyAt(entries, j) != key && Live(entries[j], ctx)
  {
    hide Live, KeyAt, Eval, Clean, Others, IndexOf;
    var others := Others(groups, key);
    forall m | 0 <= m < |others|
      ensures Clean(others[m])
    {
      var k := OtherComes(groups, key, others[m]);
    }
    if c :| c in others && Eval(c, ctx) {
      var k := OtherComes(groups, key, c);
      assert GroupLive(entries, n, groups[k].key, ctx);
    }
    if j :| 0 <= j < n && KeyAt(entries, j) != key && Live(entries[j], ctx) {
      var k := IndexOf(groups, KeyAt(entries, j));
      assert GroupLive(entries, n, groups[k].key, ctx);
      OtherHas(groups, key, k);
    }
  }
}
