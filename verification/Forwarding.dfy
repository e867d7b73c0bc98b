/** Forwarding over derived tables: which entry takes a packet, and where the route behind it sends the packet. */
module Forwarding {
  import opened Conditions
  import opened Dataplane
  import opened Delivery
  import opened Diagnosis
  import opened Failure
  import opened Fib
  import opened FibDerivation
  import opened FibLookup
  import opened Prefixes
  import opened Reachability
  import opened Rib
  import opened SolverGoal

  // ---------- the entry that takes a packet ----------

  /** The entry's prefix contains the address and its condition holds. */
  ghost predicate Applicable(fib: seq<FibEntry>, a: Addr, ctx: Context, e: FibEntry) {
    e in fib && Contains(e.prefix, a) && (e.condition.Some? ==> Eval(e.condition.value, ctx))
  }

  predicate Surpasses(f: FibEntry, e: FibEntry) {
    f.prefix.Net? && e.prefix.Net?
      && (f.prefix.bits > e.prefix.bits || (f.prefix.bits == e.prefix.bits && f.rank < e.rank))
  }

  lemma LiveMeans(e: FibEntry, ctx: Context)
    ensures Fib.Live(e, ctx) <==> (e.condition.Some? ==> Eval(e.condition.value, ctx))
  {
  }

  /** Nothing applicable has a longer prefix, or one as long and a lower rank. */
  ghost predicate Unsurpassed(fib: seq<FibEntry>, a: Addr, ctx: Context, e: FibEntry) {
    forall f :: Applicable(fib, a, ctx, f) ==> !Surpasses(f, e)
  }

  /** Longest prefix first, then lowest rank: what the concrete lookup finds, and none if nothing applies. */
  lemma {:induction false} LookupFindsBest(fib: seq<FibEntry>, a: Addr, ctx: Context)
    requires Ranked(fib)
    ensures LookupFIB(fib, a, ctx).None? ==> forall e :: !Applicable(fib, a, ctx, e)
    ensures LookupFIB(fib, a, ctx).Some? ==>
      Applicable(fib, a, ctx, LookupFIB(fib, a, ctx).value) && Unsurpassed(fib, a, ctx, LookupFIB(fib, a, ctx).value)
  {
    hide Eval;
    if fib != [] {
      var e := fib[0];
      LiveMeans(e, ctx);
      if Contains(e.prefix, a) && Fib.Live(e, ctx) {
        forall f | Applicable(fib, a, ctx, f)
          ensures !Surpasses(f, e)
        {
          var i :| 0 <= i < |fib| && fib[i] == f;
          assert i > 0 ==> !ByPrefixAndRank(fib[i], fib[0]);
        }
      } else {
        RankedRest(fib);
        LookupFindsBest(fib[1..], a, ctx);
        forall f
          ensures Applicable(fib, a, ctx, f) <==> Applicable(fib[1..], a, ctx, f)
        {
          assert fib == [e] + fib[1..];
        }
      }
    }
  }

  lemma RankedRest(fib: seq<FibEntry>)
    requires fib != [] && Ranked(fib)
    ensures Ranked(fib[1..])
  {
    assert forall i :: 0 <= i < |fib[1..]| ==> fib[1..][i] == fib[i + 1];
  }

  /**
   On a derived table: an entry is active for an address exactly when it applies and nothing
   applicable surpasses it.
   */
  lemma ActiveMeans(net: Network, packet: Packet, ctx: Context, node: string, e: FibEntry)
    requires Ranked(net.FibOf(node)) && Named(net.FibOf(node)) && CleanEntries(net.FibOf(node))
    requires ctx.linksByName == net.index.linksByName && CleanLinks(ctx.linksByName)
    ensures Active(net, ToAddress(packet), ctx, node, e) <==>
      Applicable(net.FibOf(node), packet.to, ctx, e) && Unsurpassed(net.FibOf(node), packet.to, ctx, e)
  {
    var fib, a := net.FibOf(node), packet.to;
    var m := Matching(fib, HasAddr(a));
    var cs := Candidates(ctx.linksByName, m);
    assert CandidatesFor(net, ToAddress(packet), node) == cs;
    MatchesActive(net, packet, ctx, node);
    MatchingIsKept(fib, HasAddr(a));
    KeptMembers(fib, HasAddr(a));
    hide Eval, Matching, Kept, Unsurpassed, Applicable, Candidates, Ranked, Named, CleanEntries, CleanLinks, Contains,
        CandidatesFor;
    if Applicable(fib, a, ctx, e) && Unsurpassed(fib, a, ctx, e) {
      ApplicableMatches(fib, a, ctx, e);
      assert e in m;
      var i :| 0 <= i < |m| && m[i] == e;
    }
  }

  lemma MatchesActive(net: Network, packet: Packet, ctx: Context, node: string)
    requires Ranked(net.FibOf(node)) && Named(net.FibOf(node)) && CleanEntries(net.FibOf(node))
    requires CleanLinks(ctx.linksByName)
    ensures
      var fib, a := net.FibOf(node), packet.to;
      var m := Matching(fib, HasAddr(a));
      var cs := Candidates(ctx.linksByName, m);
      |cs| == |m| && forall i :: 0 <= i < |m| ==>
        && cs[i].entry == m[i]
        && (Eval(cs[i].cond, ctx) <==> Applicable(fib, a, ctx, m[i]) && Unsurpassed(fib, a, ctx, m[i]))
  {
    var fib, a := net.FibOf(node), packet.to;
    var m := Matching(fib, HasAddr(a));
    var cs := Candidates(ctx.linksByName, m);
    MatchingIsKept(fib, HasAddr(a));
    KeptMembers(fib, HasAddr(a));
    hide Eval, Matching, Kept, CandidateCond, Unsurpassed, Applicable;
    forall i | 0 <= i < |m|
      ensures cs[i].entry == m[i]
      ensures Eval(cs[i].cond, ctx) <==> Applicable(fib, a, ctx, m[i]) && Unsurpassed(fib, a, ctx, m[i])
    {
      assert m[i] in m;
      MatchActive(fib, a, i, ctx);
    }
  }

  lemma ApplicableMatches(fib: seq<FibEntry>, a: Addr, ctx: Context, e: FibEntry)
    requires Applicable(fib, a, ctx, e)
    ensures e in fib && HasAddr(a)(e)
  {
  }

  lemma MatchActive(fib: seq<FibEntry>, a: Addr, i: nat, ctx: Context)
    requires Ranked(fib) && Named(fib) && CleanEntries(fib) && CleanLinks(ctx.linksByName)
    requires i < |Matching(fib, HasAddr(a))| && Matching(fib, HasAddr(a))[i] in fib
    requires Contains(Matching(fib, HasAddr(a))[i].prefix, a)
    ensures
      var m := Matching(fib, HasAddr(a));
      Eval(Candidates(ctx.linksByName, m)[i].cond, ctx) <==>
        Applicable(fib, a, ctx, m[i]) && Unsurpassed(fib, a, ctx, m[i])
  {
    ActiveExactly(fib, a, i, ctx);
    var e := Matching(fib, HasAddr(a))[i];
    hide Eval, Matching, Candidates, Contains, Ranked, Named, CleanEntries;
    LiveMeans(e, ctx);
    forall f | f in fib && Contains(f.prefix, a)
      ensures Fib.Live(f, ctx) <==> Applicable(fib, a, ctx, f)
      ensures ByPrefixAndRank(f, e) <==> Surpasses(f, e)
    {
      LiveMeans(f, ctx);
      ContainsNet(f, a);
      ContainsNet(e, a);
    }
  }

  lemma ContainsNet(e: FibEntry, a: Addr)
    requires Contains(e.prefix, a)
    ensures e.prefix.Net?
  {
  }

  // ---------- what the route behind an entry says ----------

  /** An entry sends to the next hop exactly when its route is no blackhole and names that node as next hop. */
  lemma RouteSends(net: Network, e: FibEntry, r: RibEntry, next: string)
    requires Installs(e, r)
    ensures Sends(net, e, next) <==> r.attrs.kind != Blackhole && r.attrs.nextHopNode == next && next != ""
  {
    hide GroupName;
  }

  /** A blackhole discards, a next hop known by address only stays unresolved, and with neither there is no next hop. */
  lemma RouteStuck(net: Network, ctx: Context, node: string, way: seq<string>, e: FibEntry, r: RibEntry)
    requires Installs(e, r)
    ensures EntryTrouble(net, ctx, node, way, e, Trouble(DiscardRoute, node, "", "", way)) <==>
        r.attrs.kind == Blackhole
    ensures r.attrs.kind != Blackhole && r.attrs.nextHopNode == "" && r.attrs.nextHopAddr != "" ==>
      EntryTrouble(net, ctx, node, way, e, Trouble(RecursiveNextHopUnresolved, node, "", "", way))
    ensures r.attrs.kind != Blackhole && r.attrs.nextHopNode == "" && r.attrs.nextHopAddr == "" && !net.isAddr("") ==>
      EntryTrouble(net, ctx, node, way, e, Trouble(NoNextHop, node, "", "", way))
  {
    hide GroupName;
  }

  /** The entry of an installed route of the derived table, and that route. */
  ghost predicate Derived(equivalent: Equivalence, installable: Installable, byPrefix: Routes, fib: seq<FibEntry>,
                          e: FibEntry,
                          r: RibEntry) {
    e in fib && FromRoute(equivalent, installable, byPrefix, e, r)
  }

  /**
   A hop over a derived table, in terms of routes: the link joins the two nodes, all of it is up and
   the sender's end lets the packet out; and an installed route that is no blackhole names the
   next node, its entry applies, and nothing applicable has a longer prefix or lower rank.
   */
  lemma DerivedHopExactly(net: Network, packet: Packet, ctx: Context, node: string, next: string, link: Link,
                          equivalent: Equivalence, installable: Installable, byPrefix: Routes)
    requires
      var fib := net.FibOf(node);
      Ranked(fib) && Named(fib) && CleanEntries(fib) && EntriesExactly(equivalent, installable, byPrefix, fib)
    requires ctx.linksByName == net.index.linksByName && CleanLinks(ctx.linksByName)
    ensures
      var fib := net.FibOf(node);
      Hop(net, ToAddress(packet), ctx, node, next, link) <==>
        && Crosses(net, ctx, node, next, link)
        && exists e, r :: Derived(equivalent, installable, byPrefix, fib, e, r)
             && Applicable(fib, packet.to, ctx, e) && Unsurpassed(fib, packet.to, ctx, e)
             && r.attrs.kind != Blackhole && r.attrs.nextHopNode == next && next != ""
  {
    var fib := net.FibOf(node);
    hide Crosses, Unsurpassed, Installs, Sends;
    forall e, r | Derived(equivalent, installable, byPrefix, fib, e, r)
      ensures Sends(net, e, next) <==> r.attrs.kind != Blackhole && r.attrs.nextHopNode == next && next != ""
    {
      RouteSends(net, e, r, next);
    }
    forall e
      ensures Active(net, ToAddress(packet), ctx, node, e) <==>
          Applicable(fib, packet.to, ctx, e) && Unsurpassed(fib, packet.to, ctx, e)
    {
      ActiveMeans(net, packet, ctx, node, e);
    }
    hide Active, FromRoute;
    if e :| Active(net, ToAddress(packet), ctx, node, e) && Sends(net, e, next) {
      var r :| FromRoute(equivalent, installable, byPrefix, e, r);
      assert Derived(equivalent, installable, byPrefix, fib, e, r);
    }
  }

  /** The entry of an installed route applies exactly where the route is selected. */
  lemma AppliesWhereSelected(fib: seq<FibEntry>, a: Addr, ctx: Context, e: FibEntry, r: RibEntry)
    requires e in fib && Installs(e, r) && r.selected.Some?
    ensures Applicable(fib, a, ctx, e) <==> Contains(r.attrs.prefix, a) && IsSelected(r, ctx)
  {
    hide GroupName, Eval;
  }

  // ---------- the entries that take packets to a set ----------

  /** The entry's prefix shares an address with the set, and its condition holds. */
  ghost predicate TakesPart(dst: PrefixSet, ctx: Context, e: FibEntry) {
    && (exists a :: Contains(e.prefix, a) && ContainsAddr(dst, a))
    && (e.condition.Some? ==> Eval(e.condition.value, ctx))
  }

  /** The entry passes, and before it in the list only entries of its own prefix and rank do. */
  ghost predicate Leads(s: seq<FibEntry>, passes: FibEntry -> bool, e: FibEntry) {
    exists m :: 0 <= m < |s| && s[m] == e && passes(e) && OnlyGroupBefore(s, passes, e, m)
  }

  ghost predicate OnlyGroupBefore(s: seq<FibEntry>, passes: FibEntry -> bool, e: FibEntry, m: nat)
    requires m <= |s|
  {
    forall j :: 0 <= j < m && passes(s[j]) ==> s[j].prefix == e.prefix && s[j].rank == e.rank
  }

  lemma LeadsLast(s: seq<FibEntry>, x: FibEntry, passes: FibEntry -> bool, e: FibEntry)
    ensures Leads(s + [x], passes, e) <==>
      || Leads(s, passes, e)
      || (x == e && passes(e) && forall y :: y in s && passes(y) ==> y.prefix == e.prefix && y.rank == e.rank)
  {
    var all := s + [x];
    forall m: nat | m <= |s|
      ensures OnlyGroupBefore(all, passes, e, m) <==> OnlyGroupBefore(s, passes, e, m)
    {
      assert forall j :: 0 <= j < m ==> all[j] == s[j];
    }
    if Leads(s, passes, e) {
      var m :| 0 <= m < |s| && s[m] == e && passes(e) && OnlyGroupBefore(s, passes, e, m);
      assert all[m] == e;
    }
    if x == e && passes(e) && forall y :: y in s && passes(y) ==> y.prefix == e.prefix && y.rank == e.rank {
      assert all[|s|] == e && OnlyGroupBefore(all, passes, e, |s|);
    }
  }

  /** Filtering first changes nothing. */
  lemma {:induction false} LeadsKept(s: seq<FibEntry>, keep: FibEntry -> bool, live: FibEntry -> bool,
                                     passes: FibEntry -> bool, e: FibEntry)
    requires forall x :: passes(x) <==> keep(x) && live(x)
    ensures Leads(Kept(s, keep), live, e) <==> Leads(s, passes, e)
  {
    if s != [] {
      var init, last := s[..|s| - 1], s[|s| - 1];
      LeadsKept(init, keep, live, passes, e);
      assert s == init + [last];
      KeptMembers(init, keep);
      LeadsLast(init, last, passes, e);
      LeadsLast(Kept(init, keep), last, live, e);
      assert Kept(init, keep) + [] == Kept(init, keep);
      hide Leads;
    }
  }

  lemma MeetsTakesPart(dst: PrefixSet, ctx: Context, e: FibEntry)
    ensures MeetsSet(dst)(e) && Fib.Live(e, ctx) <==> TakesPart(dst, ctx, e)
  {
    LiveMeans(e, ctx);
    SpaceMeetsShares(dst, e.prefix);
  }

  /** On a derived table: the entries active for a set are the first group of those that take part. */
  lemma SetActiveMeans(net: Network, dst: PrefixSet, ctx: Context, node: string, e: FibEntry)
    requires Ranked(net.FibOf(node)) && Named(net.FibOf(node)) && CleanEntries(net.FibOf(node))
    requires ctx.linksByName == net.index.linksByName && CleanLinks(ctx.linksByName)
    ensures Active(net, ToSet(dst), ctx, node, e) <==> Leads(net.FibOf(node), x => TakesPart(dst, ctx, x), e)
  {
    var fib, keep := net.FibOf(node), MeetsSet(dst);
    MatchingIsKept(fib, keep);
    KeptClean(fib, keep);
    KeptNamed(fib, keep);
    assert CandidatesFor(net, ToSet(dst), node) == Candidates(ctx.linksByName, Kept(fib, keep));
    CandidatesLead(ctx, Kept(fib, keep), e);
    forall x
      ensures TakesPart(dst, ctx, x) <==> keep(x) && Fib.Live(x, ctx)
    {
      MeetsTakesPart(dst, ctx, x);
    }
    LeadsKept(fib, keep, x => Fib.Live(x, ctx), x => TakesPart(dst, ctx, x), e);
    hide Leads, Candidates, CandidatesFor, Kept, Fib.Live, TakesPart;
  }

  lemma KeptNamed(fib: seq<FibEntry>, keep: FibEntry -> bool)
    requires Named(fib)
    ensures Named(Kept(fib, keep))
  {
    KeptMembers(fib, keep);
    forall i | 0 <= i < |Kept(fib, keep)|
      ensures Kept(fib, keep)[i].groupId == GroupName(Kept(fib, keep)[i].prefix, Kept(fib, keep)[i].rank)
    {
      assert Kept(fib, keep)[i] in fib;
    }
    hide GroupName, Kept;
  }

  lemma CandidatesLead(ctx: Context, m: seq<FibEntry>, e: FibEntry)
    requires Named(m) && CleanEntries(m) && CleanLinks(ctx.linksByName)
    ensures
      var cs := Candidates(ctx.linksByName, m);
      (exists i :: 0 <= i < |cs| && cs[i].entry == e && Eval(cs[i].cond, ctx)) <==>
        Leads(m, x => Fib.Live(x, ctx), e)
  {
    var cs := Candidates(ctx.linksByName, m);
    forall i | 0 <= i < |m| && m[i] == e
      ensures Eval(cs[i].cond, ctx) <==> Fib.Live(e, ctx) && OnlyGroupBefore(m, x => Fib.Live(x, ctx), e, i)
    {
      CandidateMeans(m, i, ctx);
      KeysBefore(m, i);
    }
    hide CandidateCond, OnlyGroupBefore, Fib.Live, Eval, Named, CleanEntries, CleanLinks;
  }

  lemma KeysBefore(m: seq<FibEntry>, i: nat)
    requires Named(m) && i < |m|
    ensures forall j :: 0 <= j < i ==>
        (KeyAt(m, j) == KeyAt(m, i) <==> m[j].prefix == m[i].prefix && m[j].rank == m[i].rank)
  {
    forall j | 0 <= j < i
      ensures KeyAt(m, j) == KeyAt(m, i) <==> m[j].prefix == m[i].prefix && m[j].rank == m[i].rank
    {
      GroupKeyExactly(m[j], m[i], j, i);
    }
  }
}
