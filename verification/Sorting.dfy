/**
 The library sorts, modelled as one insertion sort over the caller's `less`. That is what
 `sort.Slice` does with at most twelve elements. Where `less` leaves no two elements tied it
 makes no difference which sort it is: the result is unique (SortedUnique). And a stable sort
 is this one up to elements that come out in the order they came in (SortKeepsOrder).
 Facts about neighbours (SortNoInversion, SortMutual, SortFixpoint) are facts about insertion.
 */
module Sorting {

  function Insert<T>(x: T, s: seq<T>, less: (T, T) -> bool): (r: seq<T>)
    ensures |r| == |s| + 1
  {
    if s == [] then [x]
    else if less(x, s[|s| - 1]) then Insert(x, s[..|s| - 1], less) + [s[|s| - 1]]
    else s + [x]
  }

  function Sort<T>(s: seq<T>, less: (T, T) -> bool): (r: seq<T>)
    ensures |r| == |s|
  {
    if s == [] then [] else Insert(s[|s| - 1], Sort(s[..|s| - 1], less), less)
  }

  /** No two neighbours are out of order. */
  ghost predicate NoInversion<T(!new)>(s: seq<T>, less: (T, T) -> bool) {
    forall i {:trigger s[i]} :: 0 < i < |s| ==> !less(s[i], s[i - 1])
  }

  /** No two elements are out of order. */
  ghost predicate Sorted<T(!new)>(s: seq<T>, less: (T, T) -> bool) {
    forall i, j :: 0 <= i < j < |s| ==> !less(s[j], s[i])
  }

  ghost predicate Asymmetric<T(!new)>(less: (T, T) -> bool) {
    forall a, b :: less(a, b) ==> !less(b, a)
  }

  /** A strict weak order: what the sort library asks of `less`. */
  ghost predicate WeakOrder<T(!new)>(less: (T, T) -> bool) {
    && Asymmetric(less)
    && forall a, b, c :: !less(b, a) && !less(c, b) ==> !less(c, a)
  }

  lemma {:induction false} InsertPermutes<T(!new)>(x: T, s: seq<T>, less: (T, T) -> bool)
    ensures multiset(Insert(x, s, less)) == multiset(s) + multiset{x}
  {
    if s != [] && less(x, s[|s| - 1]) {
      InsertPermutes(x, s[..|s| - 1], less);
      assert s == s[..|s| - 1] + [s[|s| - 1]];
    }
  }

  lemma {:induction false} SortPermutes<T(!new)>(s: seq<T>, less: (T, T) -> bool)
    ensures multiset(Sort(s, less)) == multiset(s)
  {
    if s != [] {
      SortPermutes(s[..|s| - 1], less);
      InsertPermutes(s[|s| - 1], Sort(s[..|s| - 1], less), less);
      assert s == s[..|s| - 1] + [s[|s| - 1]];
    }
  }

  /** Sorting neither drops nor invents an element. */
  lemma SortMembers<T(!new)>(s: seq<T>, less: (T, T) -> bool)
    ensures forall x :: x in Sort(s, less) <==> x in s
  {
    SortPermutes(s, less);
    forall x
      ensures x in Sort(s, less) <==> x in s
    {
      assert x in multiset(s) <==> x in multiset(Sort(s, less));
    }
  }

  /** No two of the elements, at different positions, each precede the other. */
  ghost predicate AsymmetricOn<T(!new)>(s: seq<T>, less: (T, T) -> bool) {
    forall i, j :: 0 <= i < |s| && 0 <= j < |s| && i != j && less(s[i], s[j]) ==> !less(s[j], s[i])
  }

  lemma {:induction false} TwoPositions<T(!new)>(s: seq<T>, x: T) returns (i: nat, j: nat)
    requires multiset(s)[x] >= 2
    ensures i < j < |s| && s[i] == x && s[j] == x
  {
    var init, last := s[..|s| - 1], s[|s| - 1];
    assert s == init + [last];
    if last == x {
      assert x in multiset(init);
      i :| 0 <= i < |init| && init[i] == x;
      j := |init|;
    } else {
      i, j := TwoPositions(init, x);
    }
  }

  lemma CountedTwice<T(!new)>(s: seq<T>, i: nat, j: nat)
    requires i < j < |s| && s[i] == s[j]
    ensures multiset(s)[s[i]] >= 2
  {
    assert s == s[..j] + s[j..];
    assert s[..j][i] == s[i] && s[j..][0] == s[i];
    assert s[i] in multiset(s[..j]) && s[i] in multiset(s[j..]);
  }

  /** f gives each place of t a place of its own in s, with the same element. */
  ghost predicate Matches<T(!new)>(s: seq<T>, t: seq<T>, f: seq<nat>) {
    |f| == |t| && NoDuplicates(f) && forall i :: 0 <= i < |t| ==> f[i] < |s| && s[f[i]] == t[i]
  }

  function Skip(g: seq<nat>, j: nat): (f: seq<nat>)
    ensures |f| == |g| && forall i :: 0 <= i < |g| ==> f[i] == if g[i] < j then g[i] else g[i] + 1
  {
    seq(|g|, i requires 0 <= i < |g| => if g[i] < j then g[i] else g[i] + 1)
  }

  lemma MatchOneMore<T(!new)>(s: seq<T>, t: seq<T>, j: nat, g: seq<nat>)
    requires j < |s| && Matches(s[..j] + s[j + 1..], t, g)
    ensures Matches(s, t + [s[j]], Skip(g, j) + [j])
  {
    var rest, f := s[..j] + s[j + 1..], Skip(g, j) + [j];
    forall i | 0 <= i < |t|
      ensures f[i] < |s| && s[f[i]] == t[i]
    {
      assert rest[g[i]] == if g[i] < j then s[g[i]] else s[g[i] + 1];
    }
  }

  lemma TakeOut<T(!new)>(s: seq<T>, j: nat)
    requires j < |s|
    ensures multiset(s[..j] + s[j + 1..]) == multiset(s) - multiset{s[j]}
  {
    assert s == s[..j] + [s[j]] + s[j + 1..];
  }

  /** Each place of a permutation stands for a place of the original of its own. */
  lemma {:induction false} Places<T(!new)>(s: seq<T>, t: seq<T>) returns (f: seq<nat>)
    requires multiset(s) == multiset(t)
    ensures Matches(s, t, f)
    decreases |t|
  {
    f := [];
    if t != [] {
      var n := |t| - 1;
      assert t[n] in multiset(t);
      assert t[n] in s;
      var j :| 0 <= j < |s| && s[j] == t[n];
      TakeOut(s, j);
      TakeOut(t, n);
      assert t[..n] + t[n + 1..] == t[..n] && t == t[..n] + [t[n]];
      var g := Places(s[..j] + s[j + 1..], t[..n]);
      hide Matches, Skip;
      MatchOneMore(s, t[..n], j, g);
      f := Skip(g, j) + [j];
    }
  }

  lemma AsymmetricPermutes<T(!new)>(s: seq<T>, t: seq<T>, less: (T, T) -> bool)
    requires AsymmetricOn(s, less) && multiset(s) == multiset(t)
    ensures AsymmetricOn(t, less)
  {
    var f := Places(s, t);
    forall i, j | 0 <= i < |t| && 0 <= j < |t| && i != j && less(t[i], t[j])
      ensures !less(t[j], t[i])
    {
      assert s[f[i]] == t[i] && s[f[j]] == t[j];
    }
  }

  lemma AppendNoInversion<T(!new)>(s: seq<T>, x: T, less: (T, T) -> bool)
    requires NoInversion(s, less) && (s != [] ==> !less(x, s[|s| - 1]))
    ensures NoInversion(s + [x], less)
  {
  }

  lemma AsymmetricInit<T(!new)>(s: seq<T>, x: T, less: (T, T) -> bool)
    requires s != [] && AsymmetricOn(s + [x], less)
    ensures AsymmetricOn(s[..|s| - 1] + [x], less)
  {
    var t := s[..|s| - 1] + [x];
    forall i, j | 0 <= i < |t| && 0 <= j < |t| && i != j && less(t[i], t[j])
      ensures !less(t[j], t[i])
    {
      var k, l := if i < |t| - 1 then i else |s|, if j < |t| - 1 then j else |s|;
      assert (s + [x])[k] == t[i] && (s + [x])[l] == t[j];
    }
  }

  lemma {:induction false} InsertNoInversion<T(!new)>(x: T, s: seq<T>, less: (T, T) -> bool)
    requires AsymmetricOn(s + [x], less) && NoInversion(s, less)
    ensures NoInversion(Insert(x, s, less), less)
    ensures s != [] ==> Insert(x, s, less)[|s|] == if less(x, s[|s| - 1]) then s[|s| - 1] else x
  {
    if s == [] || !less(x, s[|s| - 1]) {
      AppendNoInversion(s, x, less);
    } else {
      var init, last := s[..|s| - 1], s[|s| - 1];
      assert (s + [x])[|init|] == last && (s + [x])[|s|] == x;
      AsymmetricInit(s, x, less);
      assert !less(last, x) && (init != [] ==> !less(last, init[|init| - 1]));
      hide AsymmetricOn;
      InsertNoInversion(x, init, less);
      hide NoInversion;
      AppendNoInversion(Insert(x, init, less), last, less);
    }
  }

  /** Neighbours end up in order even when `less` is not transitive. */
  lemma {:induction false} SortNoInversion<T(!new)>(s: seq<T>, less: (T, T) -> bool)
    requires AsymmetricOn(s, less)
    ensures NoInversion(Sort(s, less), less)
  {
    if s != [] {
      var init, last := s[..|s| - 1], s[|s| - 1];
      assert s == init + [last];
      SortPermutes(init, less);
      AsymmetricPermutes(s, Sort(init, less) + [last], less);
      assert AsymmetricOn(init, less) by {
        assert forall i :: 0 <= i < |init| ==> init[i] == s[i];
      }
      SortNoInversion(init, less);
      InsertNoInversion(last, Sort(init, less), less);
    }
  }

  /** A list without inversions is left exactly as it is. */
  lemma {:induction false} SortFixpoint<T(!new)>(s: seq<T>, less: (T, T) -> bool)
    requires NoInversion(s, less)
    ensures Sort(s, less) == s
  {
    if s != [] {
      SortFixpoint(s[..|s| - 1], less);
      assert s == s[..|s| - 1] + [s[|s| - 1]];
    }
  }

  lemma {:induction false} InsertKeepsLast<T(!new)>(x: T, s: seq<T>, less: (T, T) -> bool)
    requires s != []
    ensures Insert(x, s, less)[|s|] == if less(x, s[|s| - 1]) then s[|s| - 1] else x
  {
  }

  /** Without duplicates, only a list without inversions is left as it is. */
  lemma {:induction false} FixpointNoInversion<T(!new)>(s: seq<T>, less: (T, T) -> bool)
    requires Sort(s, less) == s && NoDuplicates(s)
    ensures NoInversion(s, less)
  {
    if |s| > 1 {
      var init, last := s[..|s| - 1], s[|s| - 1];
      var sorted := Sort(init, less);
      SortMembers(init, less);
      InsertKeepsLast(last, sorted, less);
      assert sorted[|sorted| - 1] in init;
      assert sorted + [last] == s;
      assert sorted == init;
      FixpointNoInversion(init, less);
      assert s == init + [last];
    }
  }

  /** Two neighbours are out of order only if each precedes the other. */
  ghost predicate InversionsMutual<T(!new)>(s: seq<T>, less: (T, T) -> bool) {
    forall i, j :: 0 <= i && i + 1 == j < |s| && less(s[j], s[i]) ==> less(s[i], s[j])
  }

  lemma {:induction false} InsertMutual<T(!new)>(x: T, s: seq<T>, less: (T, T) -> bool)
    requires InversionsMutual(s, less)
    ensures InversionsMutual(Insert(x, s, less), less)
  {
    if s != [] && less(x, s[|s| - 1]) {
      var init, last := s[..|s| - 1], s[|s| - 1];
      InsertMutual(x, init, less);
      var r := Insert(x, init, less);
      if init != [] {
        InsertKeepsLast(x, init, less);
      }
      assert r[|r| - 1] == x || (init != [] && r[|r| - 1] == s[|s| - 2]);
      assert Insert(x, s, less) == r + [last];
    }
  }

  /** Whatever `less` is, sorting leaves no other inversions between neighbours than mutual ones. */
  lemma {:induction false} SortMutual<T(!new)>(s: seq<T>, less: (T, T) -> bool)
    ensures InversionsMutual(Sort(s, less), less)
  {
    if s != [] {
      SortMutual(s[..|s| - 1], less);
      InsertMutual(s[|s| - 1], Sort(s[..|s| - 1], less), less);
    }
  }

  /** The place an element is inserted at. */
  lemma {:induction false} InsertPlace<T(!new)>(x: T, s: seq<T>, less: (T, T) -> bool) returns (p: nat)
    ensures p <= |s| && Insert(x, s, less) == s[..p] + [x] + s[p..]
    ensures forall q :: p <= q < |s| ==> less(x, s[q])
    ensures p > 0 ==> !less(x, s[p - 1])
  {
    if s != [] && less(x, s[|s| - 1]) {
      var init, last := s[..|s| - 1], s[|s| - 1];
      p := InsertPlace(x, init, less);
      assert s[..p] == init[..p] && s[p..] == init[p..] + [last];
      assert init[..p] + [x] + init[p..] + [last] == s[..p] + [x] + s[p..];
      assert forall q :: p <= q < |init| ==> s[q] == init[q];
    } else {
      p := |s|;
      assert s[..p] + [x] + s[p..] == s + [x];
    }
  }

  lemma {:induction false} NoInversionSorted<T(!new)>(s: seq<T>, less: (T, T) -> bool)
    requires WeakOrder(less) && NoInversion(s, less)
    ensures Sorted(s, less)
  {
    forall i, j | 0 <= i < j < |s|
      ensures !less(s[j], s[i])
    {
      NoInversionPair(s, less, i, j);
    }
  }

  lemma {:induction false} NoInversionPair<T(!new)>(s: seq<T>, less: (T, T) -> bool, i: nat, j: nat)
    requires WeakOrder(less) && NoInversion(s, less) && i < j < |s|
    ensures !less(s[j], s[i])
    decreases j
  {
    if i < j - 1 {
      NoInversionPair(s, less, i, j - 1);
    }
  }

  lemma SortSorts<T(!new)>(s: seq<T>, less: (T, T) -> bool)
    requires WeakOrder(less)
    ensures Sorted(Sort(s, less), less)
  {
    SortNoInversion(s, less);
    NoInversionSorted(Sort(s, less), less);
  }

  // ---------- orders on the elements of one list ----------

  /** On these elements `less` is what a sort asks for; it never compares an element with itself. */
  predicate WeakOn<T>(s: seq<T>, less: (T, T) -> bool) {
    && (forall i, j :: 0 <= i < |s| && 0 <= j < |s| && i != j && less(s[i], s[j]) ==> !less(s[j], s[i]))
    && (forall i, j, k {:trigger s[i], s[j], s[k]} ::
          0 <= i < |s| && 0 <= j < |s| && 0 <= k < |s| && i != j && j != k && i != k ==>
          !less(s[j], s[i]) && !less(s[k], s[j]) ==> !less(s[k], s[i]))
  }

  /** Of two elements at different places exactly one precedes the other. */
  predicate TotalOn<T>(s: seq<T>, less: (T, T) -> bool) {
    forall i, j :: 0 <= i < |s| && 0 <= j < |s| && i != j ==> less(s[i], s[j]) || less(s[j], s[i])
  }

  /** On these elements `less` is a ranking: strict, transitive and total. */
  predicate RankingOn<T>(s: seq<T>, less: (T, T) -> bool) {
    WeakOn(s, less) && TotalOn(s, less)
  }

  lemma NoCircle<T(!new)>(s: seq<T>, less: (T, T) -> bool, i: nat, j: nat, k: nat)
    requires WeakOn(s, less) && i < |s| && j < |s| && k < |s| && i != j && j != k && i != k
    requires less(s[i], s[j]) && less(s[j], s[k])
    ensures !less(s[k], s[i])
  {
    assert !less(s[j], s[i]) && !less(s[k], s[j]);
  }

  /** A ranking in the usual words. */
  lemma StrictIsRanking<T(!new)>(s: seq<T>, less: (T, T) -> bool)
    requires TotalOn(s, less) && AsymmetricOn(s, less) && TransitiveOn(s, less)
    ensures RankingOn(s, less)
  {
    forall i, j, k | 0 <= i < |s| && 0 <= j < |s| && 0 <= k < |s| && i != j && j != k && i != k
      ensures !less(s[j], s[i]) && !less(s[k], s[j]) ==> !less(s[k], s[i])
    {
      assert less(s[i], s[j]) && less(s[j], s[k]) ==> less(s[i], s[k]);
    }
  }

  ghost predicate TransitiveOn<T(!new)>(s: seq<T>, less: (T, T) -> bool) {
    forall i, j, k :: 0 <= i < |s| && 0 <= j < |s| && 0 <= k < |s| && i != j && j != k && i != k ==>
      less(s[i], s[j]) && less(s[j], s[k]) ==> less(s[i], s[k])
  }

  lemma WeakPermutes<T(!new)>(s: seq<T>, t: seq<T>, less: (T, T) -> bool)
    requires WeakOn(s, less) && multiset(s) == multiset(t)
    ensures WeakOn(t, less)
  {
    var f := Places(s, t);
    forall i, j | 0 <= i < |t| && 0 <= j < |t| && i != j && less(t[i], t[j])
      ensures !less(t[j], t[i])
    {
      assert s[f[i]] == t[i] && s[f[j]] == t[j];
    }
    forall i, j, k | 0 <= i < |t| && 0 <= j < |t| && 0 <= k < |t| && i != j && j != k && i != k
      ensures !less(t[j], t[i]) && !less(t[k], t[j]) ==> !less(t[k], t[i])
    {
      assert s[f[i]] == t[i] && s[f[j]] == t[j] && s[f[k]] == t[k];
    }
  }

  lemma RankingPermutes<T(!new)>(s: seq<T>, t: seq<T>, less: (T, T) -> bool)
    requires RankingOn(s, less) && multiset(s) == multiset(t)
    ensures RankingOn(t, less)
  {
    WeakPermutes(s, t, less);
    var f := Places(s, t);
    hide WeakOn;
    forall i, j | 0 <= i < |t| && 0 <= j < |t| && i != j
      ensures less(t[i], t[j]) || less(t[j], t[i])
    {
      assert s[f[i]] == t[i] && s[f[j]] == t[j];
    }
  }

  /** Elements that compare alike, place by place. */
  ghost predicate ComparesAlike<T(!new), U(!new)>(s: seq<T>, lessS: (T, T) -> bool, t: seq<U>, lessT: (U, U) -> bool) {
    |s| == |t| && forall i, j :: 0 <= i < |s| && 0 <= j < |s| ==> (lessS(s[i], s[j]) <==> lessT(t[i], t[j]))
  }

  lemma WeakAlike<T(!new), U(!new)>(s: seq<T>, lessS: (T, T) -> bool, t: seq<U>, lessT: (U, U) -> bool)
    requires ComparesAlike(s, lessS, t, lessT)
    ensures WeakOn(s, lessS) <==> WeakOn(t, lessT)
    ensures RankingOn(s, lessS) <==> RankingOn(t, lessT)
  {
  }

  lemma WeakStep<T(!new)>(s: seq<T>, less: (T, T) -> bool, i: nat, j: nat, k: nat)
    requires WeakOn(s, less) && i < j < k < |s| && !less(s[j], s[i]) && !less(s[k], s[j])
    ensures !less(s[k], s[i])
  {
  }

  lemma {:induction false} NoInversionWeak<T(!new)>(s: seq<T>, less: (T, T) -> bool, i: nat, j: nat)
    requires WeakOn(s, less) && NoInversion(s, less) && i < j < |s|
    ensures !less(s[j], s[i])
    decreases j
  {
    hide WeakOn;
    if i < j - 1 {
      NoInversionWeak(s, less, i, j - 1);
      WeakStep(s, less, i, j - 1, j);
    }
  }

  /** The sort puts elements on which `less` is a weak order in order. */
  lemma SortSortsOn<T(!new)>(s: seq<T>, less: (T, T) -> bool)
    requires WeakOn(s, less)
    ensures Sorted(Sort(s, less), less)
  {
    var r := Sort(s, less);
    SortNoInversion(s, less);
    SortPermutes(s, less);
    WeakPermutes(s, r, less);
    forall i, j | 0 <= i < j < |r|
      ensures !less(r[j], r[i])
    {
      NoInversionWeak(r, less, i, j);
    }
  }

  /** No element comes before the head. */
  lemma HeadFirst<T(!new)>(s: seq<T>, x: T, less: (T, T) -> bool)
    requires TotalOn(s, less) && Sorted(s, less) && x in s && x != s[0]
    ensures less(s[0], x) && !less(x, s[0])
  {
    var i :| 0 <= i < |s| && s[i] == x;
  }

  lemma SameHead<T(!new)>(s: seq<T>, t: seq<T>, less: (T, T) -> bool)
    requires s != [] && multiset(s) == multiset(t)
    requires TotalOn(s, less) && TotalOn(t, less) && Sorted(s, less) && Sorted(t, less)
    ensures t != [] && s[0] == t[0]
  {
    assert s[0] in multiset(s);
    assert s[0] in t && t[0] in multiset(t);
    assert t[0] in s;
    hide TotalOn, Sorted;
    if s[0] != t[0] {
      HeadFirst(s, t[0], less);
      HeadFirst(t, s[0], less);
    }
  }

  lemma TailTotal<T(!new)>(s: seq<T>, less: (T, T) -> bool)
    requires s != [] && TotalOn(s, less) && Sorted(s, less)
    ensures TotalOn(s[1..], less) && Sorted(s[1..], less)
  {
    assert forall i :: 0 <= i < |s[1..]| ==> s[1..][i] == s[i + 1];
  }

  /** A ranking leaves a sort no choice: any two sorted permutations are equal. */
  lemma {:induction false} SortedUnique<T(!new)>(s: seq<T>, t: seq<T>, less: (T, T) -> bool)
    requires multiset(s) == multiset(t) && TotalOn(s, less) && TotalOn(t, less) && Sorted(s, less) && Sorted(t, less)
    ensures s == t
  {
    if s == [] {
      assert |multiset(t)| == 0;
    } else {
      SameHead(s, t, less);
      TailTotal(s, less);
      TailTotal(t, less);
      hide TotalOn, Sorted;
      HeadAndTail(s);
      HeadAndTail(t);
      SortedUnique(s[1..], t[1..], less);
    }
  }

  lemma HeadAndTail<T(!new)>(s: seq<T>)
    requires s != []
    ensures s == [s[0]] + s[1..] && multiset(s[1..]) == multiset(s) - multiset{s[0]}
  {
    TakeOut(s, 0);
    assert s[..0] + s[1..] == s[1..];
  }

  lemma InsertKeepsPair<T(!new)>(x: T, s: seq<T>, less: (T, T) -> bool, k: nat, l: nat) returns (k': nat, l': nat)
    requires k < l < |s|
    ensures k' < l' <= |s| && |Insert(x, s, less)| == |s| + 1
    ensures Insert(x, s, less)[k'] == s[k] && Insert(x, s, less)[l'] == s[l]
  {
    var at := InsertPlace(x, s, less);
    hide Insert;
    k', l' := if k < at then k else k + 1, if l < at then l else l + 1;
  }

  lemma InsertBehind<T(!new)>(x: T, s: seq<T>, less: (T, T) -> bool, k: nat) returns (l: nat)
    requires k < |s| && !less(x, s[k])
    ensures k < l <= |s| && |Insert(x, s, less)| == |s| + 1
    ensures Insert(x, s, less)[k] == s[k] && Insert(x, s, less)[l] == x
  {
    l := InsertPlace(x, s, less);
    hide Insert;
  }

  /** An element never overtakes another that it does not precede. */
  lemma {:induction false} SortKeepsOrder<T(!new)>(s: seq<T>, less: (T, T) -> bool, p: nat, q: nat)
    returns (k: nat, l: nat)
    requires p < q < |s| && !less(s[q], s[p])
    ensures k < l < |s| && Sort(s, less)[k] == s[p] && Sort(s, less)[l] == s[q]
  {
    var init, x := s[..|s| - 1], s[|s| - 1];
    var r := Sort(init, less);
    assert Sort(s, less) == Insert(x, r, less);
    if q < |init| {
      k, l := SortKeepsOrder(init, less, p, q);
      hide Insert, Sort;
      k, l := InsertKeepsPair(x, r, less, k, l);
    } else {
      SortMembers(init, less);
      assert init[p] in r;
      k :| 0 <= k < |r| && r[k] == s[p];
      hide Insert, Sort;
      l := InsertBehind(x, r, less, k);
    }
  }

  // ---------- members ----------

  function Members<T>(s: seq<T>): set<T> {
    set x | x in s
  }

  ghost predicate NoDuplicates<T(!new)>(s: seq<T>) {
    forall i, j :: 0 <= i < j < |s| ==> s[i] != s[j]
  }

  lemma {:induction false} InsertNoDuplicates<T(!new)>(x: T, s: seq<T>, less: (T, T) -> bool)
    requires NoDuplicates(s) && x !in s
    ensures NoDuplicates(Insert(x, s, less))
    ensures forall y :: y in Insert(x, s, less) <==> y == x || y in s
  {
    if s != [] && less(x, s[|s| - 1]) {
      InsertNoDuplicates(x, s[..|s| - 1], less);
      assert s[|s| - 1] !in Insert(x, s[..|s| - 1], less);
      assert forall y :: y in s <==> y in s[..|s| - 1] || y == s[|s| - 1];
    }
  }

  lemma {:induction false} SortNoDuplicates<T(!new)>(s: seq<T>, less: (T, T) -> bool)
    requires NoDuplicates(s)
    ensures NoDuplicates(Sort(s, less))
  {
    if s != [] {
      SortNoDuplicates(s[..|s| - 1], less);
      SortMembers(s[..|s| - 1], less);
      InsertNoDuplicates(s[|s| - 1], Sort(s[..|s| - 1], less), less);
    }
  }

  lemma NoDuplicatesPermutes<T(!new)>(s: seq<T>, t: seq<T>)
    requires NoDuplicates(s) && multiset(s) == multiset(t)
    ensures NoDuplicates(t)
  {
    forall i, j | 0 <= i < j < |t|
      ensures t[i] != t[j]
    {
      if t[i] == t[j] {
        CountedTwice(t, i, j);
        var k, l := TwoPositions(s, t[i]);
      }
    }
  }

  lemma {:induction false} SubsetSize<T>(a: set<T>, b: set<T>)
    requires a <= b
    ensures |a| <= |b|
  {
    if a != {} {
      var x :| x in a;
      SubsetSize(a - {x}, b - {x});
    }
  }
}
