/** The search over failure combinations of one size. */
module Combinations {

  /** The combinations in the order in which they are handed to the callback. */
  function Combos<E>(elements: seq<E>, want: int, start: nat, cur: seq<E>): seq<seq<E>>
    decreases |elements| - start
  {
    if |cur| == want then [cur]
    else if start >= |elements| then []
    else Combos(elements, want, start + 1, cur + [elements[start]]) + Combos(elements, want, start + 1, cur)
  }

  /** With element i first, then without it. */
  lemma CombosStep<E>(elements: seq<E>, want: int, i: nat, cur: seq<E>, visited: seq<seq<E>>)
    requires |cur| != want && i < |elements|
    ensures visited + Combos(elements, want, i, cur) ==
      visited + Combos(elements, want, i + 1, cur + [elements[i]]) + Combos(elements, want, i + 1, cur)
  {
  }

  /** The calls end with the first combination accepted, if there is one. */
  ghost predicate StopsAtFirst<E>(visited: seq<seq<E>>, fn: seq<E> -> bool, found: bool) {
    && (forall i :: 0 <= i < |visited| - 1 ==> !fn(visited[i]))
    && (if found then visited != [] && fn(visited[|visited| - 1])
        else visited == [] || !fn(visited[|visited| - 1]))
  }

  lemma StopsAtFirstConcat<E>(visited: seq<seq<E>>, below: seq<seq<E>>, fn: seq<E> -> bool, found: bool)
    requires StopsAtFirst(visited, fn, false) && StopsAtFirst(below, fn, found)
    ensures StopsAtFirst(visited + below, fn, found)
  {
    var all := visited + below;
    forall i | 0 <= i < |all| - 1
      ensures !fn(all[i])
    {
      assert all[i] == if i < |visited| then visited[i] else below[i - |visited|];
    }
    if below == [] {
      assert all == visited;
    } else {
      assert all[|all| - 1] == below[|below| - 1];
    }
  }

  lemma PrefixConcat<T>(visited: seq<T>, below: seq<T>, all: seq<T>, rest: seq<T>)
    requires below <= all
    ensures visited + below <= visited + all + rest
  {
    assert visited + all + rest == visited + below + (all[|below|..] + rest);
  }

  /** FindElementCombo: backtracks over `cur` and stops at the first combination accepted. */
  method FindElementCombo<E>(elements: seq<E>, want: int, start: nat, cur: seq<E>, fn: seq<E> -> bool)
    returns (found: bool, visited: seq<seq<E>>)
    ensures visited <= Combos(elements, want, start, cur)
    ensures !found ==> visited == Combos(elements, want, start, cur)
    ensures StopsAtFirst(visited, fn, found)
    decreases |elements| - start
  {
    if |cur| == want {
      return fn(cur), [cur];
    }
    visited := [];
    var cur' := cur;
    var i := start;
    while i < |elements|
      invariant start <= i && cur' == cur
      invariant Combos(elements, want, start, cur) == visited + Combos(elements, want, i, cur)
      invariant StopsAtFirst(visited, fn, false)
    {
      hide Combos, StopsAtFirst;
      cur' := cur' + [elements[i]];
      CombosStep(elements, want, i, cur, visited);
      var hit, below := FindElementCombo(elements, want, i + 1, cur', fn);
      StopsAtFirstConcat(visited, below, fn, hit);
      PrefixConcat(visited, below, Combos(elements, want, i + 1, cur'), Combos(elements, want, i + 1, cur));
      visited := visited + below;
      if hit {
        return true, visited;
      }
      cur' := cur'[..|cur'| - 1];
      i := i + 1;
    }
    found := false;
  }

  // ---------- every combination exactly once ----------

  predicate Increasing(idx: seq<nat>) {
    forall i, j :: 0 <= i < j < |idx| ==> idx[i] < idx[j]
  }

  function Positions(n: nat): (r: seq<nat>)
    ensures |r| == n && forall i :: 0 <= i < n ==> r[i] == i
  {
    seq(n, i => i)
  }

  /** A selection of `want` positions that extends `cur` by positions from `start` on. */
  predicate Extends(n: nat, want: nat, start: nat, cur: seq<nat>, idx: seq<nat>) {
    && |idx| == want
    && cur <= idx
    && Increasing(idx)
    && forall i :: |cur| <= i < |idx| ==> start <= idx[i] < n
  }

  lemma {:induction false} ComboCount(n: nat, want: nat, start: nat, cur: seq<nat>, idx: seq<nat>)
    requires start <= n && |cur| <= want && Increasing(cur)
    requires forall i :: 0 <= i < |cur| ==> cur[i] < start
    ensures multiset(Combos(Positions(n), want, start, cur))[idx] == if Extends(n, want, start, cur, idx) then 1 else 0
    decreases n - start
  {
    if |cur| == want {
      assert Extends(n, want, start, cur, idx) <==> idx == cur;
    } else if start >= n {
      NothingLeft(n, want, start, cur, idx);
    } else {
      var with := cur + [start];
      ComboCount(n, want, start + 1, with, idx);
      ComboCount(n, want, start + 1, cur, idx);
      ExtendsSplits(n, want, start, cur, idx);
      hide Extends;
      assert Combos(Positions(n), want, start, cur) ==
        Combos(Positions(n), want, start + 1, with) + Combos(Positions(n), want, start + 1, cur);
    }
  }

  lemma NothingLeft(n: nat, want: nat, start: nat, cur: seq<nat>, idx: seq<nat>)
    requires start >= n && |cur| < want
    ensures !Extends(n, want, start, cur, idx)
  {
    assert |cur| < |idx| ==> !(start <= idx[|cur|] < n);
  }

  /** The next position is `start` or a later one. */
  lemma ExtendsSplits(n: nat, want: nat, start: nat, cur: seq<nat>, idx: seq<nat>)
    requires start < n && |cur| < want
    ensures Extends(n, want, start, cur, idx) <==>
      Extends(n, want, start + 1, cur + [start], idx) || Extends(n, want, start + 1, cur, idx)
    ensures !(Extends(n, want, start + 1, cur + [start], idx) && Extends(n, want, start + 1, cur, idx))
  {
    var with := cur + [start];
    if Extends(n, want, start + 1, with, idx) {
      assert idx[|cur|] == with[|cur|] == start;
      assert cur <= with <= idx;
    }
    if Extends(n, want, start, cur, idx) && idx[|cur|] == start {
      assert with <= idx;
    }
  }

  /** Each increasing selection of k positions is visited once, and nothing else is. */
  lemma EachComboOnce(n: nat, k: nat, idx: seq<nat>)
    ensures multiset(Combos(Positions(n), k, 0, []))[idx] ==
      if |idx| == k && Increasing(idx) && (forall i :: 0 <= i < k ==> idx[i] < n) then 1 else 0
  {
    ComboCount(n, k, 0, [], idx);
    assert [] <= idx;
  }

  function Pick<E>(elements: seq<E>, idx: seq<nat>): (r: seq<E>)
    requires forall i :: 0 <= i < |idx| ==> idx[i] < |elements|
  {
    seq(|idx|, i requires 0 <= i < |idx| => elements[idx[i]])
  }

  ghost predicate InRange(n: nat, idx: seq<nat>) {
    forall i :: 0 <= i < |idx| ==> idx[i] < n
  }

  /** The combinations are the selections of positions, in the same order. */
  lemma {:induction false} CombosPick<E>(elements: seq<E>, want: int, start: nat, cur: seq<nat>)
    requires start <= |elements| && InRange(|elements|, cur)
    ensures
      var cs, ps := Combos(elements, want, start, Pick(elements, cur)), Combos(Positions(|elements|), want, start, cur);
      |cs| == |ps| && forall i :: 0 <= i < |cs| ==> InRange(|elements|, ps[i]) && cs[i] == Pick(elements, ps[i])
    decreases |elements| - start
  {
    if |cur| != want && start < |elements| {
      CombosPick(elements, want, start + 1, cur + [start]);
      CombosPick(elements, want, start + 1, cur);
      assert Pick(elements, cur + [start]) == Pick(elements, cur) + [elements[start]];
    }
  }

  lemma {:induction false} ComboSizes<E>(elements: seq<E>, want: int, start: nat, cur: seq<E>)
    ensures forall c :: c in Combos(elements, want, start, cur) ==> |c| == want
    decreases |elements| - start
  {
    if |cur| != want && start < |elements| {
      ComboSizes(elements, want, start + 1, cur + [elements[start]]);
      ComboSizes(elements, want, start + 1, cur);
    }
  }
}
