/** k-failure tolerance: the least number of failures that overloads a link. */
module KFail {
  import opened Failure
  import opened Combinations
  import opened Wrappers
  import Sorting
  import Text

  datatype FailureElement = LinkElement(name: string) | NodeElement(name: string)

  function SetFromElements(elements: seq<FailureElement>): FailureSet {
    FailureSet(set e | e in elements && e.LinkElement? :: e.name, set e | e in elements && e.NodeElement? :: e.name)
  }

  /**
   In the context made from some elements, a node is down exactly when a node element names it, and a
   link exactly when a link element names it or a node element names one of its ends.
   */
  lemma ElementsFail(elements: seq<FailureElement>, linksByName: map<string, Link>, name: string)
    ensures
      var ctx := Context(SetFromElements(elements), linksByName);
      && (ctx.NodeFailed(name) <==> NodeElement(name) in elements)
      && (ctx.LinkFailed(name) <==>
        || LinkElement(name) in elements
        || (name in linksByName &&
            exists end :: end in [linksByName[name].a, linksByName[name].b] && NodeElement(end) in elements))
  {
    var failures := SetFromElements(elements);
    assert forall n :: n in failures.nodes <==> NodeElement(n) in elements;
    assert forall n :: n in failures.links <==> LinkElement(n) in elements;
    if name in linksByName {
      var l := linksByName[name];
      assert l.a in [l.a, l.b] && l.b in [l.a, l.b];
    }
  }

  /** The links at or above the threshold under a failure set; none when there is no result. */
  type Simulator = FailureSet -> Option<set<string>>

  datatype Finding = Finding(link: string, k: int, failures: seq<FailureElement>)

  function Overloaded(simulate: Simulator, combo: seq<FailureElement>): set<string> {
    match simulate(SetFromElements(combo))
    case None => {}
    case Some(links) => links
  }

  /** The simulator has a result for the failures, and the link is overloaded in it. */
  predicate Overloads(simulate: Simulator, combo: seq<FailureElement>, link: string) {
    && simulate(SetFromElements(combo)).Some?
    && link in simulate(SetFromElements(combo)).value
  }

  predicate FindingLess(a: Finding, b: Finding) {
    if a.k != b.k then a.k < b.k else Text.Less(a.link, b.link)
  }

  /**
   The findings summarise the combinations examined so far, except for the links of
   `combo` still to be looked at.
   */
  ghost predicate Partial(simulate: Simulator, examined: set<seq<FailureElement>>, findings: seq<Finding>,
                          combo: seq<FailureElement>, todo: set<string>)
  {
    && (forall i, j :: 0 <= i < j < |findings| ==> findings[i].link != findings[j].link)
    && (forall f :: f in findings ==> Minimal(simulate, examined, f))
    && (forall c, link :: c in examined && Overloads(simulate, c, link) ==>
          Reported(findings, link) || (c == combo && link in todo))
  }

  /** A finding names a combination examined and overloading, and no smaller one does. */
  ghost predicate Minimal(simulate: Simulator, examined: set<seq<FailureElement>>, f: Finding) {
    && f.failures in examined
    && f.k == |f.failures|
    && Overloads(simulate, f.failures, f.link)
    && forall c :: c in examined && Overloads(simulate, c, f.link) ==> f.k <= |c|
  }

  /** One minimal finding for every overloaded link, and no other. */
  ghost predicate Summary(simulate: Simulator, examined: set<seq<FailureElement>>, findings: seq<Finding>) {
    Partial(simulate, examined, findings, [], {})
  }

  lemma StartCombo(simulate: Simulator, examined: set<seq<FailureElement>>, findings: seq<Finding>,
                   combo: seq<FailureElement>)
    requires Summary(simulate, examined, findings)
    requires forall c :: c in examined ==> |c| <= |combo|
    ensures Partial(simulate, examined + {combo}, findings, combo, Overloaded(simulate, combo))
  {
  }

  lemma SkipLink(simulate: Simulator, examined: set<seq<FailureElement>>, findings: seq<Finding>,
                 combo: seq<FailureElement>, todo: set<string>, link: string)
    requires Partial(simulate, examined, findings, combo, todo) && Reported(findings, link)
    ensures Partial(simulate, examined, findings, combo, todo - {link})
  {
  }

  lemma AddLink(simulate: Simulator, examined: set<seq<FailureElement>>, findings: seq<Finding>,
                combo: seq<FailureElement>, todo: set<string>, link: string)
    requires Partial(simulate, examined, findings, combo, todo) && !Reported(findings, link)
    requires combo in examined && link in Overloaded(simulate, combo)
    ensures Partial(simulate, examined, findings + [Finding(link, |combo|, combo)], combo, todo - {link})
  {
    var f := Finding(link, |combo|, combo);
    forall c | c in examined && link in Overloaded(simulate, c)
      ensures c == combo
    {
    }
    assert forall g :: g in findings + [f] <==> g in findings || g == f;
    assert forall l :: Reported(findings + [f], l) <==> Reported(findings, l) || l == link;
  }

  ghost predicate Reported(findings: seq<Finding>, link: string) {
    exists f :: f in findings && f.link == link
  }

  /** The variables the callback shares with Analyze. */
  class Search {
    const simulate: Simulator
    var findings: seq<Finding>
    ghost var examined: set<seq<FailureElement>>

    constructor (simulate: Simulator)
      ensures this.simulate == simulate && findings == [] && examined == {}
    {
      this.simulate := simulate;
      findings, examined := [], {};
    }

    ghost predicate Valid()
      reads this
    {
      Summary(simulate, examined, findings)
    }

    /** The callback: records each overloaded link that has no finding yet. */
    method Inspect(combo: seq<FailureElement>)
      requires Valid()
      requires forall c :: c in examined ==> |c| <= |combo|
      modifies this
      ensures Valid() && examined == old(examined) + {combo}
    {
      StartCombo(simulate, examined, findings, combo);
      examined := examined + {combo};
      var todo := Overloaded(simulate, combo);
      while todo != {}
        invariant todo <= Overloaded(simulate, combo)
        invariant examined == old(examined) + {combo}
        invariant Partial(simulate, examined, findings, combo, todo)
        decreases todo
      {
        var link :| link in todo;
        var alreadyFound := false;
        var i := 0;
        while i < |findings| && !alreadyFound
          invariant 0 <= i <= |findings|
          invariant alreadyFound ==> Reported(findings, link)
          invariant !alreadyFound ==> forall j :: 0 <= j < i ==> findings[j].link != link
        {
          if findings[i].link == link {
            alreadyFound := true;
            assert findings[i] in findings;
          }
          i := i + 1;
        }
        if !alreadyFound {
          AddLink(simulate, examined, findings, combo, todo, link);
          findings := findings + [Finding(link, |combo|, combo)];
        } else {
          SkipLink(simulate, examined, findings, combo, todo, link);
        }
        todo := todo - {link};
      }
      assert Summary(simulate, examined, findings);
    }

    /** FindElementCombo with this callback, which never stops the search. */
    method Examine(elements: seq<FailureElement>, want: int, start: nat, cur: seq<FailureElement>)
      requires Valid() && start <= |elements|
      requires forall c :: c in examined ==> |c| <= want
      modifies this
      ensures Valid()
      ensures examined == old(examined) + Sorting.Members(Combos(elements, want, start, cur))
      decreases |elements| - start
    {
      hide Summary, Overloads, Combos, Sorting.Members;
      if |cur| == want {
        ComboComplete(elements, start, cur);
        Inspect(cur);
        return;
      }
      CombosAtEnd(elements, want, cur);
      var cur' := cur;
      var i := start;
      while i < |elements|
        invariant start <= i <= |elements| && cur' == cur && Valid()
        invariant forall c :: c in examined ==> |c| <= want
        invariant examined + Sorting.Members(Combos(elements, want, i, cur)) ==
          old(examined) + Sorting.Members(Combos(elements, want, start, cur))
      {
        cur' := cur' + [elements[i]];
        ComboSetSizes(elements, want, i + 1, cur');
        Examine(elements, want, i + 1, cur');
        CombosSplit(elements, want, i, cur);
        cur' := cur'[..|cur'| - 1];
        i := i + 1;
      }
    }

    method ExamineSize(elements: seq<FailureElement>, k: nat)
      requires Valid() && k > 0 && examined == CombosUpTo(elements, k - 1)
      modifies this
      ensures Valid() && examined == CombosUpTo(elements, k)
    {
      CombosUpToSizes(elements, k - 1);
      Examine(elements, k, 0, []);
    }

    /** No failure first, then one size after the other. */
    method ExamineSizes(elements: seq<FailureElement>, maxK: int)
      requires Valid() && examined == {}
      modifies this
      ensures Valid() && examined == CombosUpTo(elements, maxK)
    {
      Inspect([]);
      assert examined == CombosUpTo(elements, 0);
      if maxK <= 0 || |elements| == 0 {
        OnlyEmpty(elements, maxK);
        return;
      }
      var k := 1;
      while k <= maxK && k <= |elements|
        invariant 1 <= k <= |elements| + 1 && k <= maxK + 1
        invariant Valid() && examined == CombosUpTo(elements, k - 1)
      {
        ExamineSize(elements, k);
        k := k + 1;
      }
      if k <= maxK {
        TooManyElements(elements, maxK);
      }
    }
  }

  lemma CombosSplit(elements: seq<FailureElement>, want: int, i: nat, cur: seq<FailureElement>)
    requires i < |elements| && |cur| != want
    ensures Sorting.Members(Combos(elements, want, i, cur)) ==
      Sorting.Members(Combos(elements, want, i + 1, cur + [elements[i]])) +
      Sorting.Members(Combos(elements, want, i + 1, cur))
  {
    assert Combos(elements, want, i, cur) ==
      Combos(elements, want, i + 1, cur + [elements[i]]) + Combos(elements, want, i + 1, cur);
  }

  lemma ComboComplete(elements: seq<FailureElement>, start: nat, cur: seq<FailureElement>)
    ensures Sorting.Members(Combos(elements, |cur|, start, cur)) == {cur}
  {
  }

  lemma CombosAtEnd(elements: seq<FailureElement>, want: int, cur: seq<FailureElement>)
    requires |cur| != want
    ensures Sorting.Members(Combos(elements, want, |elements|, cur)) == {}
  {
  }

  lemma ComboSetSizes(elements: seq<FailureElement>, want: int, start: nat, cur: seq<FailureElement>)
    ensures forall c :: c in Sorting.Members(Combos(elements, want, start, cur)) ==> |c| == want
  {
    ComboSizes(elements, want, start, cur);
  }

  lemma OnlyEmpty(elements: seq<FailureElement>, maxK: int)
    requires maxK <= 0 || |elements| == 0
    ensures CombosUpTo(elements, maxK) == {[]}
  {
    if maxK > 0 {
      TooManyElements(elements, maxK);
    }
  }

  /** All combinations of at most `limit` elements, the empty one included. */
  ghost function CombosUpTo(elements: seq<FailureElement>, limit: int): set<seq<FailureElement>>
    decreases limit
  {
    if limit <= 0 then {[]}
    else CombosUpTo(elements, limit - 1) + Sorting.Members(Combos(elements, limit, 0, []))
  }

  lemma {:induction false} CombosUpToSizes(elements: seq<FailureElement>, limit: int)
    ensures forall c :: c in CombosUpTo(elements, limit) ==> |c| == 0 || |c| <= limit
    ensures [] in CombosUpTo(elements, limit)
    decreases limit
  {
    if limit > 0 {
      CombosUpToSizes(elements, limit - 1);
      ComboSizes(elements, limit, 0, []);
    }
  }

  /** A selection of at most `limit` positions. */
  ghost predicate Selects(elements: seq<FailureElement>, limit: nat, idx: seq<nat>, c: seq<FailureElement>) {
    |idx| <= limit && Increasing(idx) && InRange(|elements|, idx) && c == Pick(elements, idx)
  }

  lemma ComboSelected(elements: seq<FailureElement>, limit: nat, c: seq<FailureElement>)
    ensures c in Combos(elements, limit, 0, []) <==>
        exists idx: seq<nat> :: |idx| == limit && Selects(elements, limit, idx, c)
  {
    var none: seq<nat> := [];
    CombosPick(elements, limit, 0, none);
    assert Pick(elements, none) == [];
    hide Combos;
    var cs, ps := Combos(elements, limit, 0, []), Combos(Positions(|elements|), limit, 0, none);
    if c in cs {
      var i :| 0 <= i < |cs| && cs[i] == c;
      EachComboOnce(|elements|, limit, ps[i]);
      assert ps[i] in multiset(ps);
      assert Selects(elements, limit, ps[i], c);
    }
    if idx: seq<nat> :| |idx| == limit && Selects(elements, limit, idx, c) {
      EachComboOnce(|elements|, limit, idx);
      assert idx in multiset(ps);
      var i :| 0 <= i < |ps| && ps[i] == idx;
      assert cs[i] == c;
    }
  }

  /** The search space is exactly the selections of at most `limit` positions. */
  lemma {:induction false} CombosUpToExact(elements: seq<FailureElement>, limit: nat, c: seq<FailureElement>)
    ensures c in CombosUpTo(elements, limit) <==> exists idx: seq<nat> :: Selects(elements, limit, idx, c)
  {
    if limit == 0 {
      var none: seq<nat> := [];
      assert Pick(elements, none) == [];
      assert Selects(elements, 0, none, []);
      assert forall idx: seq<nat> :: Selects(elements, 0, idx, c) ==> idx == none;
    } else {
      CombosUpToExact(elements, limit - 1, c);
      ComboSelected(elements, limit, c);
      assert forall idx: seq<nat> :: Selects(elements, limit, idx, c) <==>
        Selects(elements, limit - 1, idx, c) || (|idx| == limit && Selects(elements, limit, idx, c));
    }
  }

  lemma TooManyElements(elements: seq<FailureElement>, limit: nat)
    requires limit >= |elements|
    ensures CombosUpTo(elements, limit) == CombosUpTo(elements, |elements|)
    decreases limit
  {
    if limit > |elements| {
      TooManyElements(elements, limit - 1);
      NoLongCombo(elements, limit, 0, []);
    }
  }

  lemma {:induction false} NoLongCombo(elements: seq<FailureElement>, want: int, start: nat, cur: seq<FailureElement>)
    requires start <= |elements| && |cur| + |elements| - start < want
    ensures Combos(elements, want, start, cur) == []
    decreases |elements| - start
  {
    if start < |elements| {
      NoLongCombo(elements, want, start + 1, cur + [elements[start]]);
      NoLongCombo(elements, want, start + 1, cur);
    }
  }

  /** The fewest failures first, and by name among as many. */
  ghost predicate BySizeThenLink(findings: seq<Finding>) {
    forall i, j :: 0 <= i < j < |findings| ==>
      findings[i].k < findings[j].k
        || (findings[i].k == findings[j].k && !Text.Less(findings[j].link, findings[i].link))
  }

  lemma SortedBySize(findings: seq<Finding>)
    requires Sorting.Sorted(findings, FindingLess)
    ensures BySizeThenLink(findings)
  {
  }

  lemma FindingOrder()
    ensures Sorting.WeakOrder(FindingLess)
  {
    forall a, b | FindingLess(a, b)
      ensures !FindingLess(b, a)
    {
      if a.k == b.k {
        Text.LessAsymmetric(a.link, b.link);
      }
    }
    forall a, b, c | !FindingLess(b, a) && !FindingLess(c, b)
      ensures !FindingLess(c, a)
    {
      if FindingLess(c, a) && a.k == b.k == c.k {
        Text.LessTotal(a.link, b.link);
        Text.LessTotal(b.link, c.link);
        if a.link != b.link {
          Text.LessTransitive(c.link, a.link, b.link);
        }
      }
    }
  }

  lemma SortKeepsSummary(simulate: Simulator, examined: set<seq<FailureElement>>, findings: seq<Finding>)
    requires Summary(simulate, examined, findings)
    ensures Summary(simulate, examined, Sorting.Sort(findings, FindingLess))
  {
    var s := Sorting.Sort(findings, FindingLess);
    Sorting.SortMembers(findings, FindingLess);
    assert Sorting.NoDuplicates(findings);
    Sorting.SortNoDuplicates(findings, FindingLess);
    forall i, j | 0 <= i < j < |s|
      ensures s[i].link != s[j].link
    {
      assert s[i] in findings && s[j] in findings && s[i] != s[j];
    }
    forall link | Reported(findings, link)
      ensures Reported(s, link)
    {
      var f :| f in findings && f.link == link;
      assert f in s;
    }
  }

  /**
   Analyze: every link that some combination of at most maxK elements overloads has
   exactly one finding, with the least such size and a combination of that size.
   */
  method Analyze(rootNode: string, elements: seq<FailureElement>, maxK: int, simulate: Simulator)
    returns (findings: seq<Finding>)
    ensures rootNode == "" || simulate(SetFromElements([])).None? ==> findings == []
    ensures rootNode != "" && simulate(SetFromElements([])).Some? ==>
      Summary(simulate, CombosUpTo(elements, maxK), findings)
    ensures BySizeThenLink(findings)
  {
    if rootNode == "" || simulate(SetFromElements([])).None? {
      return [];
    }
    var search := new Search(simulate);
    search.ExamineSizes(elements, maxK);
    FindingOrder();
    SortKeepsSummary(simulate, search.examined, search.findings);
    Sorting.SortSorts(search.findings, FindingLess);
    findings := Sorting.Sort(search.findings, FindingLess);
    SortedBySize(findings);
  }
}
