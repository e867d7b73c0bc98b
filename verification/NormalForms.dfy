/**
 The canonicalising constructors `And`, `Or`, `Not` and the rewriting `normalizeCond`:
 they keep the meaning, and equal operand sets give equal results.
 */
module NormalForms {
  import opened Failure
  import opened Conditions
  import Sorting
  import Text

  predicate ByKey(a: Cond, b: Cond) {
    Text.Less(Key(a), Key(b))
  }

  // ---------- the rewriting ----------

  function Normalize(c: Cond): Cond
    decreases c, 0
  {
    match c
    case Nary(op, args) => Flatten(op, args)
    case Neg(x) => Not(x)
    case _ => c
  }

  function Not(c: Cond): Cond
    decreases c, 1
  {
    match Normalize(c)
    case True => False
    case False => True
    case Neg(x) => x
    case n => Neg(n)
  }

  function NormalizeAll(cs: seq<Cond>): (ns: seq<Cond>)
    ensures |ns| == |cs|
    ensures forall i :: 0 <= i < |cs| ==> ns[i] == Normalize(cs[i])
    decreases cs, 0
  {
    if cs == [] then [] else [Normalize(cs[0])] + NormalizeAll(cs[1..])
  }

  /** And(cs...) and Or(cs...). */
  function Flatten(op: Op, cs: seq<Cond>): Cond
    decreases cs, 1
  {
    Combine(op, NormalizeAll(cs))
  }

  function And(cs: seq<Cond>): Cond {
    Flatten(AndOp, cs)
  }

  function Or(cs: seq<Cond>): Cond {
    Flatten(OrOp, cs)
  }

  datatype Gathered = Decided | Operands(out: seq<Cond>)

  function Combine(op: Op, ns: seq<Cond>): Cond {
    match Gather(op, ns, [])
    case Decided => Const(op.Zero())
    case Operands(out) => Rebuild(op, out)
  }

  /** The operands of normalised arguments, nested ones of the same operator unfolded. */
  function Gather(op: Op, ns: seq<Cond>, out: seq<Cond>): Gathered {
    if ns == [] then Operands(out)
    else if ns[0] == Const(op.Zero()) then Decided
    else Gather(op, ns[1..], AddNew(out, Spread(op, ns[0])))
  }

  /** What one normalised argument contributes. */
  function Spread(op: Op, n: Cond): seq<Cond> {
    if n == Const(!op.Zero()) then []
    else if n.Nary? && n.op == op then n.args
    else [n]
  }

  /** Appends the conditions whose keys have not been seen. */
  function AddNew(out: seq<Cond>, xs: seq<Cond>): seq<Cond>
    decreases xs
  {
    if xs == [] then out
    else if Seen(out, xs[0]) then AddNew(out, xs[1..])
    else AddNew(out + [xs[0]], xs[1..])
  }

  predicate Seen(out: seq<Cond>, x: Cond) {
    exists i :: 0 <= i < |out| && Key(out[i]) == Key(x)
  }

  function Rebuild(op: Op, out: seq<Cond>): Cond {
    if out == [] then Const(!op.Zero())
    else if |out| == 1 then out[0]
    else Nary(op, Sorting.Sort(out, ByKey))
  }

  /** flattenAnd and flattenOr as they run: one pass with a seen set and an accumulator. */
  method FlattenLoop(op: Op, cs: seq<Cond>) returns (r: Cond)
    ensures r == Flatten(op, cs)
  {
    var out: seq<Cond>, seen: set<string> := [], {};
    var k := 0;
    ghost var ns := NormalizeAll(cs);
    while k < |cs|
      invariant 0 <= k <= |cs|
      invariant SeenIs(seen, out)
      invariant Gather(op, ns, []) == Gather(op, ns[k..], out)
    {
      var c := Normalize(cs[k]);
      assert ns[k] == c && ns[k..][1..] == ns[k + 1..];
      if c == Const(op.Zero()) {
        return Const(op.Zero());
      }
      ghost var before := out;
      if c == Const(!op.Zero()) {
      } else if c.Nary? && c.op == op {
        var j := 0;
        while j < |c.args|
          invariant 0 <= j <= |c.args|
          invariant SeenIs(seen, out)
          invariant AddNew(before, c.args) == AddNew(out, c.args[j..])
        {
          var child := c.args[j];
          assert c.args[j..][1..] == c.args[j + 1..];
          SeenIsSeen(seen, out, child);
          if Key(child) !in seen {
            seen := seen + {Key(child)};
            out := out + [child];
          }
          j := j + 1;
        }
      } else {
        SeenIsSeen(seen, out, c);
        if Key(c) !in seen {
          seen := seen + {Key(c)};
          out := out + [c];
        }
      }
      assert out == AddNew(before, Spread(op, c));
      k := k + 1;
    }
    if |out| == 0 {
      return Const(!op.Zero());
    }
    if |out| == 1 {
      return out[0];
    }
    r := Nary(op, Sorting.Sort(out, ByKey));
  }

  ghost predicate SeenIs(seen: set<string>, out: seq<Cond>) {
    seen == set x | x in out :: Key(x)
  }

  lemma SeenIsSeen(seen: set<string>, out: seq<Cond>, x: Cond)
    requires SeenIs(seen, out)
    ensures Key(x) in seen <==> Seen(out, x)
    ensures SeenIs(seen + {Key(x)}, out + [x])
  {
    if Key(x) in seen {
      var y :| y in out && Key(y) == Key(x);
      var i :| 0 <= i < |out| && out[i] == y;
    }
    assert forall y :: y in out + [x] <==> y in out || y == x;
  }

  // ---------- what gathering collects ----------

  ghost predicate DistinctKeys(s: seq<Cond>) {
    forall i, j :: 0 <= i < j < |s| ==> Key(s[i]) != Key(s[j])
  }

  /** The operands that normalised arguments stand for. */
  ghost predicate Atom(op: Op, ns: seq<Cond>, x: Cond) {
    exists i :: 0 <= i < |ns| && x in Spread(op, ns[i])
  }

  lemma {:induction false} AddNewSound(out: seq<Cond>, xs: seq<Cond>)
    requires DistinctKeys(out)
    ensures DistinctKeys(AddNew(out, xs))
    ensures forall x :: x in AddNew(out, xs) ==> x in out || x in xs
    ensures forall x :: x in out ==> x in AddNew(out, xs)
    ensures forall x :: x in xs ==> Seen(AddNew(out, xs), x)
    decreases xs
  {
    if xs != [] {
      var out' := if Seen(out, xs[0]) then out else out + [xs[0]];
      assert Seen(out', xs[0]) by {
        if !Seen(out, xs[0]) {
          assert Key(out'[|out|]) == Key(xs[0]);
        }
      }
      AddNewSound(out', xs[1..]);
      var i :| 0 <= i < |out'| && Key(out'[i]) == Key(xs[0]);
      assert out'[i] in AddNew(out, xs);
    }
  }

  lemma {:induction false} GatherSound(op: Op, ns: seq<Cond>, out: seq<Cond>)
    requires DistinctKeys(out)
    ensures Gather(op, ns, out).Decided? <==> Const(op.Zero()) in ns
    ensures Gather(op, ns, out).Operands? ==>
      var r := Gather(op, ns, out).out;
      && DistinctKeys(r)
      && (forall x :: x in r ==> x in out || Atom(op, ns, x))
      && (forall x :: x in out ==> x in r)
      && (forall x :: Atom(op, ns, x) ==> Seen(r, x))
  {
    if ns != [] && ns[0] != Const(op.Zero()) {
      var out' := AddNew(out, Spread(op, ns[0]));
      AddNewSound(out, Spread(op, ns[0]));
      GatherSound(op, ns[1..], out');
      assert forall x :: x in ns <==> x == ns[0] || x in ns[1..];
      forall x
        ensures Atom(op, ns, x) <==> x in Spread(op, ns[0]) || Atom(op, ns[1..], x)
      {
        if Atom(op, ns[1..], x) {
          var i :| 0 <= i < |ns[1..]| && x in Spread(op, ns[1..][i]);
          assert ns[i + 1] == ns[1..][i];
        }
        if Atom(op, ns, x) && x !in Spread(op, ns[0]) {
          var i :| 0 <= i < |ns| && x in Spread(op, ns[i]);
          assert ns[1..][i - 1] == ns[i];
        }
      }
      if Gather(op, ns, out).Operands? {
        var r := Gather(op, ns, out).out;
        forall x | Atom(op, ns, x)
          ensures Seen(r, x)
        {
          if x in Spread(op, ns[0]) {
            var i :| 0 <= i < |out'| && Key(out'[i]) == Key(x);
            assert out'[i] in r;
          }
        }
      }
    }
  }

  /** With clean names, "seen" means "present". */
  lemma SeenMeansIn(out: seq<Cond>, x: Cond)
    requires CleanAll(out) && Clean(x)
    ensures Seen(out, x) <==> x in out
  {
    if Seen(out, x) {
      var i :| 0 <= i < |out| && Key(out[i]) == Key(x);
      KeyInjective(out[i], x);
    }
  }

  lemma GatherExact(op: Op, ns: seq<Cond>)
    requires CleanAll(ns) && Const(op.Zero()) !in ns
    ensures Gather(op, ns, []).Operands?
    ensures DistinctKeys(Gather(op, ns, []).out) && CleanAll(Gather(op, ns, []).out)
    ensures forall x :: x in Gather(op, ns, []).out <==> Atom(op, ns, x)
  {
    GatherSound(op, ns, []);
    var r := Gather(op, ns, []).out;
    forall x | Atom(op, ns, x)
      ensures Clean(x)
    {
      var i :| 0 <= i < |ns| && x in Spread(op, ns[i]);
      assert Clean(ns[i]);
    }
    forall x | Atom(op, ns, x)
      ensures x in r
    {
      SeenMeansIn(r, x);
    }
  }

  // ---------- normal forms ----------

  ghost predicate StrictlySorted(s: seq<Cond>) {
    forall i, j :: 0 <= i < j < |s| ==> Text.Less(Key(s[i]), Key(s[j]))
  }

  /** No constants inside, no operator directly below itself, operands in key order. */
  ghost predicate Normal(c: Cond) {
    match c
    case Neg(x) => Normal(x) && !x.True? && !x.False? && !x.Neg?
    case Nary(op, args) =>
      && |args| >= 2
      && StrictlySorted(args)
      && forall i :: 0 <= i < |args| ==> Normal(args[i]) && Operand(op, args[i])
    case _ => true
  }

  ghost predicate Operand(op: Op, x: Cond) {
    !x.True? && !x.False? && !(x.Nary? && x.op == op)
  }

  lemma ByKeyWeakOrder()
    ensures Sorting.WeakOrder(ByKey)
  {
    forall a, b | ByKey(a, b)
      ensures !ByKey(b, a)
    {
      Text.LessAsymmetric(Key(a), Key(b));
    }
    forall a, b, c | !ByKey(b, a) && !ByKey(c, b)
      ensures !ByKey(c, a)
    {
      if ByKey(c, a) {
        Text.LessTotal(Key(a), Key(b));
        Text.LessTotal(Key(b), Key(c));
        if Key(a) != Key(b) {
          Text.LessTransitive(Key(c), Key(a), Key(b));
        }
      }
    }
  }

  lemma SortByKey(s: seq<Cond>)
    requires DistinctKeys(s)
    ensures StrictlySorted(Sorting.Sort(s, ByKey))
    ensures forall x :: x in Sorting.Sort(s, ByKey) <==> x in s
  {
    var r := Sorting.Sort(s, ByKey);
    ByKeyWeakOrder();
    Sorting.SortSorts(s, ByKey);
    Sorting.SortMembers(s, ByKey);
    Sorting.SortNoDuplicates(s, ByKey);
    forall i, j | 0 <= i < j < |r|
      ensures ByKey(r[i], r[j])
    {
      assert r[i] in s && r[j] in s && r[i] != r[j];
      Text.LessTotal(Key(r[i]), Key(r[j]));
    }
  }

  /** Every result is in normal form. */
  lemma {:induction false} NormalizeIsNormal(c: Cond)
    ensures Normal(Normalize(c))
    decreases c, 0
  {
    match c
    case Nary(op, args) => FlattenIsNormal(op, args);
    case Neg(x) => NormalizeIsNormal(x);
    case _ =>
  }

  lemma {:induction false} FlattenIsNormal(op: Op, cs: seq<Cond>)
    ensures Normal(Flatten(op, cs))
    decreases cs, 1
  {
    var ns := NormalizeAll(cs);
    forall i | 0 <= i < |cs|
      ensures Normal(ns[i])
    {
      NormalizeIsNormal(cs[i]);
    }
    GatherSound(op, ns, []);
    if Gather(op, ns, []).Operands? {
      var out := Gather(op, ns, []).out;
      forall x | x in out
        ensures Normal(x) && Operand(op, x)
      {
        var i :| 0 <= i < |ns| && x in Spread(op, ns[i]);
        SpreadNormal(op, ns[i], x);
      }
      RebuildNormal(op, out);
    }
  }

  lemma SpreadNormal(op: Op, n: Cond, x: Cond)
    requires Normal(n) && n != Const(op.Zero()) && x in Spread(op, n)
    ensures Normal(x) && Operand(op, x)
  {
  }

  lemma RebuildNormal(op: Op, out: seq<Cond>)
    requires DistinctKeys(out)
    requires forall x :: x in out ==> Normal(x) && Operand(op, x)
    ensures Normal(Rebuild(op, out))
  {
    if |out| == 1 {
      assert out[0] in out;
    } else {
      SortByKey(out);
      var s := Sorting.Sort(out, ByKey);
      forall i | 0 <= i < |s|
        ensures Normal(s[i]) && Operand(op, s[i])
      {
        assert s[i] in out;
      }
    }
  }

  lemma {:induction false} GatherPlain(op: Op, out: seq<Cond>, ns: seq<Cond>)
    requires DistinctKeys(out + ns)
    requires forall i :: 0 <= i < |ns| ==> Operand(op, ns[i])
    ensures Gather(op, ns, out) == Operands(out + ns)
    decreases ns
  {
    if ns == [] {
      assert out + ns == out;
    } else {
      var all := out + ns;
      assert forall i :: 0 <= i < |out| ==> all[i] == out[i];
      assert all[|out|] == ns[0];
      assert !Seen(out, ns[0]);
      assert AddNew(out, [ns[0]]) == out + [ns[0]];
      assert out + ns == out + [ns[0]] + ns[1..];
      GatherPlain(op, out + [ns[0]], ns[1..]);
    }
  }

  /** Normal forms are left alone. */
  lemma {:induction false} NormalFixpoint(c: Cond)
    requires Normal(c)
    ensures Normalize(c) == c
  {
    match c
    case Neg(x) => NormalFixpoint(x);
    case Nary(op, args) =>
      forall i | 0 <= i < |args|
        ensures Normalize(args[i]) == args[i]
      {
        NormalFixpoint(args[i]);
      }
      assert NormalizeAll(args) == args;
      forall i, j | 0 <= i < j < |args|
        ensures Key(args[i]) != Key(args[j]) && !ByKey(args[j], args[i])
      {
        assert ByKey(args[i], args[j]);
        Text.LessIrreflexive(Key(args[i]));
        Text.LessAsymmetric(Key(args[i]), Key(args[j]));
      }
      assert [] + args == args;
      GatherPlain(op, [], args);
      Sorting.SortFixpoint(args, ByKey);
    case _ =>
  }

  /** normalizeCond is idempotent. */
  lemma NormalizeIdempotent(c: Cond)
    ensures Normalize(Normalize(c)) == Normalize(c)
  {
    NormalizeIsNormal(c);
    NormalFixpoint(Normalize(c));
  }

  // ---------- variables ----------

  /** Normalising invents no variable, so clean names stay clean. */
  lemma {:induction false} NormalizeVars(c: Cond, v: Var)
    ensures Mentions(Normalize(c), v) ==> Mentions(c, v)
    decreases c, 0
  {
    match c
    case Nary(op, args) => FlattenVars(op, args, v);
    case Neg(x) =>
      NormalizeVars(x, v);
      NotVars(x, v);
    case _ =>
  }

  lemma NotVars(x: Cond, v: Var)
    ensures Mentions(Not(x), v) ==> Mentions(Normalize(x), v)
  {
    var n := Normalize(x);
    assert Mentions(Neg(n), v) <==> Mentions(n, v);
    assert n.Neg? ==> (Mentions(n, v) <==> Mentions(n.arg, v));
  }

  lemma RebuildVars(op: Op, out: seq<Cond>, v: Var)
    requires DistinctKeys(out) && Mentions(Rebuild(op, out), v)
    ensures exists x :: x in out && Mentions(x, v)
  {
    if |out| == 1 {
      assert out[0] in out;
    } else {
      SortByKey(out);
      var i :| 0 <= i < |out| && Mentions(Sorting.Sort(out, ByKey)[i], v);
      assert Sorting.Sort(out, ByKey)[i] in out;
    }
  }

  lemma SpreadVars(op: Op, n: Cond, x: Cond, v: Var)
    requires x in Spread(op, n) && Mentions(x, v)
    ensures Mentions(n, v)
  {
  }

  lemma {:induction false} FlattenVars(op: Op, cs: seq<Cond>, v: Var)
    ensures Mentions(Flatten(op, cs), v) ==> exists i :: 0 <= i < |cs| && Mentions(cs[i], v)
    decreases cs, 1
  {
    var ns := NormalizeAll(cs);
    GatherSound(op, ns, []);
    if Gather(op, ns, []).Operands? && Mentions(Flatten(op, cs), v) {
      var out := Gather(op, ns, []).out;
      RebuildVars(op, out, v);
      var x :| x in out && Mentions(x, v);
      var i :| 0 <= i < |ns| && x in Spread(op, ns[i]);
      SpreadVars(op, ns[i], x, v);
      NormalizeVars(cs[i], v);
    }
  }

  lemma NormalizeClean(c: Cond)
    requires Clean(c)
    ensures Clean(Normalize(c))
  {
    CleanMentions(c);
    CleanMentions(Normalize(c));
    forall v | Mentions(Normalize(c), v)
      ensures CleanName(v.name)
    {
      NormalizeVars(c, v);
    }
  }

  lemma NormalizeAllClean(cs: seq<Cond>)
    requires CleanAll(cs)
    ensures CleanAll(NormalizeAll(cs))
  {
    forall i | 0 <= i < |cs|
      ensures Clean(NormalizeAll(cs)[i])
    {
      NormalizeClean(cs[i]);
    }
  }

  lemma FlattenClean(op: Op, cs: seq<Cond>)
    requires CleanAll(cs)
    ensures Clean(Flatten(op, cs))
  {
    assert Clean(Nary(op, cs));
    NormalizeClean(Nary(op, cs));
  }

  lemma NotClean(c: Cond)
    requires Clean(c)
    ensures Clean(Not(c))
  {
    NormalizeClean(Neg(c));
  }

  // ---------- meaning ----------

  lemma EvalByMembers(op: Op, s: seq<Cond>, ctx: Context)
    ensures Eval(Nary(op, s), ctx) == op.Zero() <==> exists x :: x in s && Eval(x, ctx) == op.Zero()
  {
    assert forall i :: 0 <= i < |s| ==> s[i] in s;
  }

  lemma SpreadEval(op: Op, n: Cond, ctx: Context)
    ensures Eval(n, ctx) == op.Zero() <==> exists x :: x in Spread(op, n) && Eval(x, ctx) == op.Zero()
  {
    if n.Nary? && n.op == op {
      EvalByMembers(op, n.args, ctx);
    } else if n != Const(!op.Zero()) {
      assert n in Spread(op, n);
    }
  }

  lemma RebuildEval(op: Op, out: seq<Cond>, ctx: Context)
    requires DistinctKeys(out)
    ensures Eval(Rebuild(op, out), ctx) == Eval(Nary(op, out), ctx)
  {
    EvalByMembers(op, out, ctx);
    if |out| == 1 {
      assert out[0] in out;
    } else {
      SortByKey(out);
      EvalByMembers(op, Sorting.Sort(out, ByKey), ctx);
    }
  }

  lemma CombineEval(op: Op, ns: seq<Cond>, ctx: Context)
    requires CleanAll(ns)
    ensures Eval(Combine(op, ns), ctx) == Eval(Nary(op, ns), ctx)
  {
    EvalByMembers(op, ns, ctx);
    GatherSound(op, ns, []);
    if Const(op.Zero()) !in ns {
      GatherExact(op, ns);
      var out := Gather(op, ns, []).out;
      RebuildEval(op, out, ctx);
      EvalByMembers(op, out, ctx);
      forall n | n in ns
        ensures Eval(n, ctx) == op.Zero() ==> exists x :: x in out && Eval(x, ctx) == op.Zero()
      {
        SpreadEval(op, n, ctx);
        assert forall x :: x in Spread(op, n) ==> Atom(op, ns, x);
      }
      forall x | x in out && Eval(x, ctx) == op.Zero()
        ensures exists n :: n in ns && Eval(n, ctx) == op.Zero()
      {
        var i :| 0 <= i < |ns| && x in Spread(op, ns[i]);
        SpreadEval(op, ns[i], ctx);
      }
    }
  }

  /** normalizeCond keeps the truth value in every context. */
  lemma {:induction false} NormalizeEval(c: Cond, ctx: Context)
    requires Clean(c)
    ensures Eval(Normalize(c), ctx) == Eval(c, ctx)
    decreases c, 0
  {
    match c
    case Nary(op, args) => FlattenEval(op, args, ctx);
    case Neg(x) => NormalizeEval(x, ctx);
    case _ =>
  }

  lemma {:induction false} FlattenEval(op: Op, cs: seq<Cond>, ctx: Context)
    requires CleanAll(cs)
    ensures Eval(Flatten(op, cs), ctx) == Eval(Nary(op, cs), ctx)
    decreases cs, 1
  {
    var ns := NormalizeAll(cs);
    NormalizeAllClean(cs);
    CombineEval(op, ns, ctx);
    forall i | 0 <= i < |cs|
      ensures Eval(ns[i], ctx) == Eval(cs[i], ctx)
    {
      NormalizeEval(cs[i], ctx);
    }
  }

  /** What And, Or and Not mean. */
  lemma AndMeans(cs: seq<Cond>, ctx: Context)
    requires CleanAll(cs)
    ensures Eval(And(cs), ctx) <==> forall x :: x in cs ==> Eval(x, ctx)
  {
    FlattenEval(AndOp, cs, ctx);
    EvalAnd(cs, ctx);
  }

  lemma OrMeans(cs: seq<Cond>, ctx: Context)
    requires CleanAll(cs)
    ensures Eval(Or(cs), ctx) <==> exists x :: x in cs && Eval(x, ctx)
  {
    FlattenEval(OrOp, cs, ctx);
    EvalOr(cs, ctx);
  }

  lemma NotMeans(c: Cond, ctx: Context)
    requires Clean(c)
    ensures Eval(Not(c), ctx) <==> !Eval(c, ctx)
  {
    NormalizeEval(Neg(c), ctx);
  }

  // ---------- canonicity ----------

  lemma HeadIsLeast(s: seq<Cond>, x: Cond)
    requires StrictlySorted(s) && x in s
    ensures x == s[0] || Text.Less(Key(s[0]), Key(x))
  {
  }

  /** The head occurs nowhere else. */
  lemma RestWithoutHead(s: seq<Cond>)
    requires StrictlySorted(s) && s != []
    ensures StrictlySorted(s[1..]) && forall x :: x in s[1..] <==> x in s && x != s[0]
  {
    Text.LessIrreflexive(Key(s[0]));
    hide Key, Text.Less;
    forall x | x in s && x != s[0]
      ensures x in s[1..]
    {
      var i :| 0 <= i < |s| && s[i] == x;
      assert s[1..][i - 1] == x;
    }
  }

  lemma {:induction false} StrictlySortedUnique(s: seq<Cond>, t: seq<Cond>)
    requires StrictlySorted(s) && StrictlySorted(t)
    requires forall x :: x in s <==> x in t
    ensures s == t
  {
    hide StrictlySorted, Key, Text.Less;
    assert s != [] ==> s[0] in s;
    assert t != [] ==> t[0] in t;
    if s != [] && t != [] {
      HeadIsLeast(t, s[0]);
      HeadIsLeast(s, t[0]);
      if s[0] != t[0] {
        Text.LessAsymmetric(Key(s[0]), Key(t[0]));
      }
      RestWithoutHead(s);
      RestWithoutHead(t);
      StrictlySortedUnique(s[1..], t[1..]);
      assert s == [s[0]] + s[1..] && t == [t[0]] + t[1..];
    }
  }

  lemma RebuildSame(op: Op, out: seq<Cond>, out': seq<Cond>)
    requires DistinctKeys(out) && DistinctKeys(out')
    requires forall x :: x in out <==> x in out'
    ensures Rebuild(op, out) == Rebuild(op, out')
  {
    SortByKey(out);
    SortByKey(out');
    StrictlySortedUnique(Sorting.Sort(out, ByKey), Sorting.Sort(out', ByKey));
    assert |out| == |out'|;
    if |out| == 1 {
      assert out[0] in out';
    }
  }

  lemma CombineSame(op: Op, ns: seq<Cond>, ns': seq<Cond>)
    requires CleanAll(ns) && CleanAll(ns')
    requires Const(op.Zero()) in ns <==> Const(op.Zero()) in ns'
    requires forall x :: Atom(op, ns, x) <==> Atom(op, ns', x)
    ensures Combine(op, ns) == Combine(op, ns')
  {
    GatherSound(op, ns, []);
    GatherSound(op, ns', []);
    if Const(op.Zero()) !in ns {
      GatherExact(op, ns);
      GatherExact(op, ns');
      RebuildSame(op, Gather(op, ns, []).out, Gather(op, ns', []).out);
    }
  }

  lemma AtomsByMembers(op: Op, ns: seq<Cond>, x: Cond)
    ensures Atom(op, ns, x) <==> exists n :: n in ns && x in Spread(op, n)
  {
    if Atom(op, ns, x) {
      var i :| 0 <= i < |ns| && x in Spread(op, ns[i]);
      assert ns[i] in ns;
    }
  }

  lemma AtomsConcat(op: Op, ns: seq<Cond>, ms: seq<Cond>, x: Cond)
    ensures Atom(op, ns + ms, x) <==> Atom(op, ns, x) || Atom(op, ms, x)
  {
    AtomsByMembers(op, ns + ms, x);
    AtomsByMembers(op, ns, x);
    AtomsByMembers(op, ms, x);
  }

  /** Reordering or repeating operands does not change the result. */
  lemma FlattenCanonical(op: Op, cs: seq<Cond>, ds: seq<Cond>)
    requires CleanAll(cs) && CleanAll(ds)
    requires forall x :: x in cs <==> x in ds
    ensures Flatten(op, cs) == Flatten(op, ds)
  {
    var ns, ms := NormalizeAll(cs), NormalizeAll(ds);
    NormalizeAllClean(cs);
    NormalizeAllClean(ds);
    SameNormalized(cs, ds);
    SameNormalized(ds, cs);
    forall x
      ensures Atom(op, ns, x) <==> Atom(op, ms, x)
    {
      AtomsByMembers(op, ns, x);
      AtomsByMembers(op, ms, x);
    }
    CombineSame(op, ns, ms);
  }

  lemma SameNormalized(cs: seq<Cond>, ds: seq<Cond>)
    requires forall x :: x in cs ==> x in ds
    ensures forall n :: n in NormalizeAll(cs) ==> n in NormalizeAll(ds)
  {
    forall n | n in NormalizeAll(cs)
      ensures n in NormalizeAll(ds)
    {
      var i :| 0 <= i < |cs| && NormalizeAll(cs)[i] == n;
      assert cs[i] in ds;
      var j :| 0 <= j < |ds| && ds[j] == cs[i];
      assert NormalizeAll(ds)[j] == n;
    }
  }

  lemma NormalizeConcat(xs: seq<Cond>, ys: seq<Cond>)
    ensures NormalizeAll(xs + ys) == NormalizeAll(xs) + NormalizeAll(ys)
  {
  }

  /** Replacing a run of operands by one that contributes the same changes nothing. */
  lemma CombineReplace(op: Op, nf: Cond, nx: seq<Cond>, ny: seq<Cond>)
    requires Clean(nf) && CleanAll(nx) && CleanAll(ny)
    requires nf == Const(op.Zero()) <==> Const(op.Zero()) in nx
    requires Const(op.Zero()) !in nx ==> forall x :: x in Spread(op, nf) <==> Atom(op, nx, x)
    ensures Combine(op, [nf] + ny) == Combine(op, nx + ny)
  {
    if Const(op.Zero()) in nx {
      GatherSound(op, [nf] + ny, []);
      GatherSound(op, nx + ny, []);
    } else {
      forall x
        ensures Atom(op, [nf] + ny, x) <==> Atom(op, nx + ny, x)
      {
        AtomsConcat(op, [nf], ny, x);
        AtomsConcat(op, nx, ny, x);
        AtomsByMembers(op, [nf], x);
      }
      CombineSame(op, [nf] + ny, nx + ny);
    }
  }

  /** Grouping operands does not change the result: And(And(xs), ys) is And(xs, ys). */
  lemma FlattenAssociates(op: Op, xs: seq<Cond>, ys: seq<Cond>)
    requires CleanAll(xs) && CleanAll(ys)
    ensures Flatten(op, [Nary(op, xs)] + ys) == Flatten(op, xs + ys)
  {
    NormalizeConcat([Nary(op, xs)], ys);
    NormalizeConcat(xs, ys);
    NormalizeAllClean(xs);
    NormalizeAllClean(ys);
    FlattenClean(op, xs);
    FlattenSpreads(op, xs);
    CombineReplace(op, Flatten(op, xs), NormalizeAll(xs), NormalizeAll(ys));
  }

  /** A flattened list contributes what its elements contribute. */
  lemma FlattenSpreads(op: Op, xs: seq<Cond>)
    requires CleanAll(xs)
    ensures Flatten(op, xs) == Const(op.Zero()) <==> Const(op.Zero()) in NormalizeAll(xs)
    ensures Const(op.Zero()) !in NormalizeAll(xs) ==>
      forall x :: x in Spread(op, Flatten(op, xs)) <==> Atom(op, NormalizeAll(xs), x)
  {
    var ns := NormalizeAll(xs);
    NormalizeAllClean(xs);
    GatherSound(op, ns, []);
    FlattenIsNormal(op, xs);
    if Const(op.Zero()) !in ns {
      GatherExact(op, ns);
      var out := Gather(op, ns, []).out;
      forall x | x in out
        ensures Operand(op, x)
      {
        var i :| 0 <= i < |ns| && x in Spread(op, ns[i]);
        NormalizeIsNormal(xs[i]);
        SpreadNormal(op, ns[i], x);
      }
      SpreadRebuild(op, out);
    }
  }

  lemma SpreadRebuild(op: Op, out: seq<Cond>)
    requires DistinctKeys(out)
    requires forall x :: x in out ==> Operand(op, x)
    ensures Rebuild(op, out) != Const(op.Zero())
    ensures forall x :: x in Spread(op, Rebuild(op, out)) <==> x in out
  {
    if |out| == 1 {
      assert out[0] in out;
    } else {
      SortByKey(out);
    }
  }

  // ---------- unclean names ----------

  /** Two different operands with one key are taken for one, and the second is dropped. */
  lemma SharedKeyDropsOperand(x: Cond, y: Cond)
    requires Normal(x) && Normal(y) && x.Nary? && y.Nary? && x.op == y.op == OrOp
    requires Key(x) == Key(y)
    ensures And([x, y]) == x
  {
    NormalFixpoint(x);
    NormalFixpoint(y);
    assert NormalizeAll([x, y]) == [x, y];
    assert Seen([x], y) by {
      assert Key([x][0]) == Key(y);
    }
    assert !Seen([], x);
    assert AddNew([], [x]) == AddNew([] + [x], [x][1..]) == [x];
    assert AddNew([x], [y]) == AddNew([x], [y][1..]) == [x];
    assert [x, y][1..] == [y] && [y][1..] == [];
    assert Gather(AndOp, [x, y], []) == Gather(AndOp, [y], [x]) == Gather(AndOp, [], [x]);
  }

  /** So without clean names the meaning can be lost. */
  lemma UncleanNamesLoseMeaning()
    ensures exists x, y, ctx :: Eval(And([x, y]), ctx) && !Eval(y, ctx)
  {
    var a, b, c, z := Lit(LinkVar("a")), Lit(LinkVar("b")), Lit(LinkVar("c")), Lit(LinkVar("a,var:link:b"));
    hide Key, ByKey, Eval, Flatten, And;
    var ctx := Context(FailureSet({"c", "a,var:link:b"}, {}), map[]);
    CollisionOrder(a, b, c, z);
    CollisionContext(a, c, z, ctx);
    CollisionLosesMeaning(a, b, c, z, ctx);
  }

  lemma CollisionOrder(a: Cond, b: Cond, c: Cond, z: Cond)
    requires a == Lit(LinkVar("a")) && b == Lit(LinkVar("b")) && c == Lit(LinkVar("c"))
    requires z == Lit(LinkVar("a,var:link:b"))
    ensures ByKey(a, b) && ByKey(b, c) && ByKey(a, c) && ByKey(z, c)
    ensures Key(Nary(OrOp, [a, b, c])) == Key(Nary(OrOp, [z, c]))
  {
    KeysOfCollision(a, b, c, z);
    VarKeysInOrder();
  }

  lemma CollisionContext(a: Cond, c: Cond, z: Cond, ctx: Context)
    requires a == Lit(LinkVar("a")) && c == Lit(LinkVar("c")) && z == Lit(LinkVar("a,var:link:b"))
    requires ctx == Context(FailureSet({"c", "a,var:link:b"}, {}), map[])
    ensures Eval(a, ctx) && !Eval(c, ctx) && !Eval(z, ctx)
  {
    assert "a"[0] != "c"[0];
  }

  lemma CollisionLosesMeaning(a: Cond, b: Cond, c: Cond, z: Cond, ctx: Context)
    requires a.Lit? && b.Lit? && c.Lit? && z.Lit?
    requires ByKey(a, b) && ByKey(b, c) && ByKey(a, c) && ByKey(z, c)
    requires Key(Nary(OrOp, [a, b, c])) == Key(Nary(OrOp, [z, c]))
    requires Eval(a, ctx) && !Eval(c, ctx) && !Eval(z, ctx)
    ensures exists x, y :: Eval(And([x, y]), ctx) && !Eval(y, ctx)
  {
    hide Key, Text.Less, Flatten, And, Normal;
    var x, y := Nary(OrOp, [a, b, c]), Nary(OrOp, [z, c]);
    LiteralsNormal([a, b, c]);
    LiteralsNormal([z, c]);
    SharedKeyDropsOperand(x, y);
    CollisionEval(a, b, c, z, ctx);
    assert Eval(And([x, y]), ctx) && !Eval(y, ctx);
  }

  lemma LiteralsNormal(xs: seq<Cond>)
    requires |xs| >= 2 && StrictlySorted(xs) && forall i :: 0 <= i < |xs| ==> xs[i].Lit?
    ensures Normal(Nary(OrOp, xs))
  {
    forall i | 0 <= i < |xs|
      ensures Normal(xs[i]) && Operand(OrOp, xs[i])
    {
      assert xs[i].Lit?;
    }
  }

  lemma CollisionEval(a: Cond, b: Cond, c: Cond, z: Cond, ctx: Context)
    requires Eval(a, ctx) && !Eval(c, ctx) && !Eval(z, ctx)
    ensures Eval(Nary(OrOp, [a, b, c]), ctx) && !Eval(Nary(OrOp, [z, c]), ctx)
  {
    EvalOr([a, b, c], ctx);
    EvalOr([z, c], ctx);
    assert a in [a, b, c];
  }

  lemma VarKeysInOrder()
    ensures Text.Less("var:link:a", "var:link:b") && Text.Less("var:link:b", "var:link:c")
    ensures Text.Less("var:link:a", "var:link:c") && Text.Less("var:link:a,var:link:b", "var:link:c")
  {
    var h := "var:link:";
    assert h + "a" == "var:link:a" && h + "b" == "var:link:b" && h + "c" == "var:link:c";
    assert h + "a,var:link:b" == "var:link:a,var:link:b";
    Text.LessAfterHead(h, "a", "b");
    Text.LessAfterHead(h, "b", "c");
    Text.LessAfterHead(h, "a", "c");
    Text.LessAfterHead(h, "a,var:link:b", "c");
  }

  lemma KeysOfCollision(a: Cond, b: Cond, c: Cond, z: Cond)
    requires a == Lit(LinkVar("a")) && b == Lit(LinkVar("b")) && c == Lit(LinkVar("c"))
    requires z == Lit(LinkVar("a,var:link:b"))
    ensures Key(Nary(OrOp, [a, b, c])) == Key(Nary(OrOp, [z, c]))
    ensures Key(a) == "var:link:a" && Key(b) == "var:link:b" && Key(c) == "var:link:c"
    ensures Key(z) == "var:link:a,var:link:b"
  {
    CollisionText();
    KeysOfThree(a, b, c);
    KeysOfTwo(z, c);
  }

  lemma KeysOfThree(a: Cond, b: Cond, c: Cond)
    ensures JoinedKeys([a, b, c]) == (Key(a) + ("," + Key(b))) + ("," + Key(c))
  {
    KeysOfTwo(b, c);
    JoinedKeysCons([a, b, c]);
    assert [a, b, c][1..] == [b, c];
    Text.Assoc(",", Key(b), "," + Key(c));
    Text.Assoc(Key(a), "," + Key(b), "," + Key(c));
  }

  lemma KeysOfTwo(a: Cond, b: Cond)
    ensures JoinedKeys([a, b]) == Key(a) + ("," + Key(b))
  {
    JoinedKeysCons([a, b]);
    JoinedKeysCons([b]);
    assert [a, b][1..] == [b];
  }
}
