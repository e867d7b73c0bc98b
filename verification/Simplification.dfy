/** SimplifyCond: contradictions and tautologies between the operands of and/or. */
module Simplification {
  import opened Failure
  import opened Conditions
  import opened NormalForms

  predicate IsNegation(a: Cond, b: Cond) {
    var n, m := Normalize(a), Normalize(b);
    (n.Neg? && Key(n.arg) == Key(m)) || (m.Neg? && Key(m.arg) == Key(n))
  }

  /** Some operand is the negation of a later one. */
  predicate Contradicts(args: seq<Cond>) {
    exists i, j :: 0 <= i < j < |args| && IsNegation(args[i], args[j])
  }

  /** Every one of ys is negated by some operand. */
  predicate AllNegated(ys: seq<Cond>, args: seq<Cond>) {
    forall k :: 0 <= k < |ys| ==> exists j :: 0 <= j < |args| && IsNegation(ys[k], args[j])
  }

  /** simplifyAnd and simplifyOr. */
  function SimplifyNary(op: Op, args: seq<Cond>): Cond {
    if Contradicts(args) then Const(op.Zero())
    else if
      exists i :: 0 <= i < |args| && args[i].Nary? && args[i].op == op.Dual() && AllNegated(args[i].args, args)
    then
      Const(op.Zero())
    else Nary(op, args)
  }

  function SimplifyCond(c: Cond): Cond
    decreases Normalize(c)
  {
    var n := Normalize(c);
    match n
    case Nary(op, args) =>
      NormalChildren(c);
      var children := seq(|args|, i requires 0 <= i < |args| => SimplifyCond(args[i]));
      var norm := Normalize(Nary(op, children));
      if norm.Nary? && norm.op == op then SimplifyNary(op, norm.args) else norm
    case _ => n
  }

  /** The operands of a normalised condition are normalised, which bounds the recursion. */
  lemma NormalChildren(c: Cond)
    ensures Normalize(c).Nary? ==>
      forall i :: 0 <= i < |Normalize(c).args| ==> Normalize(Normalize(c).args[i]) == Normalize(c).args[i]
    ensures Normalize(c).Neg? ==> Normalize(Normalize(c).arg) == Normalize(c).arg
  {
    var n := Normalize(c);
    NormalizeIsNormal(c);
    if n.Nary? {
      forall i | 0 <= i < |n.args|
        ensures Normalize(n.args[i]) == n.args[i]
      {
        NormalFixpoint(n.args[i]);
      }
    } else if n.Neg? {
      NormalFixpoint(n.arg);
    }
  }

  lemma NegationMeans(a: Cond, b: Cond, ctx: Context)
    requires Clean(a) && Clean(b) && IsNegation(a, b)
    ensures Eval(a, ctx) != Eval(b, ctx)
  {
    var n, m := Normalize(a), Normalize(b);
    NormalizeClean(a);
    NormalizeClean(b);
    NormalizeEval(a, ctx);
    NormalizeEval(b, ctx);
    if n.Neg? && Key(n.arg) == Key(m) {
      KeyInjective(n.arg, m);
    } else {
      KeyInjective(m.arg, n);
    }
  }

  lemma SimplifyNaryEval(op: Op, args: seq<Cond>, ctx: Context)
    requires CleanAll(args)
    ensures Eval(SimplifyNary(op, args), ctx) == Eval(Nary(op, args), ctx)
  {
    if Contradicts(args) {
      var i, j :| 0 <= i < j < |args| && IsNegation(args[i], args[j]);
      NegationMeans(args[i], args[j], ctx);
      assert Eval(args[i], ctx) == op.Zero() || Eval(args[j], ctx) == op.Zero();
    } else if i :| 0 <= i < |args| && args[i].Nary? && args[i].op == op.Dual() && AllNegated(args[i].args, args) {
      if Eval(Nary(op, args), ctx) != op.Zero() {
        var ys := args[i].args;
        forall k | 0 <= k < |ys|
          ensures Eval(ys[k], ctx) == op.Zero()
        {
          var j :| 0 <= j < |args| && IsNegation(ys[k], args[j]);
          assert Clean(args[i]);
          NegationMeans(ys[k], args[j], ctx);
        }
        assert Eval(args[i], ctx) == op.Zero();
      }
    }
  }

  /** SimplifyCond keeps the truth value in every context. */
  lemma {:induction false} SimplifyEval(c: Cond, ctx: Context)
    requires Clean(c)
    ensures Eval(SimplifyCond(c), ctx) == Eval(c, ctx)
    ensures Clean(SimplifyCond(c))
    decreases Normalize(c)
  {
    var n := Normalize(c);
    NormalizeEval(c, ctx);
    NormalizeClean(c);
    if n.Nary? {
      var op, args := n.op, n.args;
      NormalChildren(c);
      var children := seq(|args|, i requires 0 <= i < |args| => SimplifyCond(args[i]));
      forall i | 0 <= i < |args|
        ensures Eval(children[i], ctx) == Eval(args[i], ctx) && Clean(children[i])
      {
        SimplifyEval(args[i], ctx);
      }
      assert Eval(Nary(op, children), ctx) == Eval(n, ctx);
      assert Clean(Nary(op, children));
      NormalizeEval(Nary(op, children), ctx);
      NormalizeClean(Nary(op, children));
      var norm := Normalize(Nary(op, children));
      if norm.Nary? && norm.op == op {
        SimplifyNaryEval(op, norm.args, ctx);
      }
    }
  }

  /** SimplifyCond only ever drops variables. */
  lemma {:induction false} SimplifyVars(c: Cond, v: Var)
    ensures Mentions(SimplifyCond(c), v) ==> Mentions(c, v)
    decreases Normalize(c)
  {
    var n := Normalize(c);
    NormalizeVars(c, v);
    if n.Nary? {
      var op, args := n.op, n.args;
      NormalChildren(c);
      var children := seq(|args|, i requires 0 <= i < |args| => SimplifyCond(args[i]));
      NormalizeVars(Nary(op, children), v);
      if Mentions(SimplifyCond(c), v) {
        assert Mentions(Nary(op, children), v);
        var i :| 0 <= i < |children| && Mentions(children[i], v);
        SimplifyVars(args[i], v);
        assert Mentions(n, v);
      }
    }
  }

  // ---------- what simplifying achieves ----------

  predicate Opposite(a: Cond, b: Cond) {
    a == Neg(b) || b == Neg(a)
  }

  /**
   No operand is the negation of another one, and every operand with the other operator has an operand
   of its own whose negation does not stand beside it.
   */
  ghost predicate Unopposed(op: Op, args: seq<Cond>) {
    && (forall x, y :: x in args && y in args ==> !Opposite(x, y))
    && (forall x :: x in args && x.Nary? && x.op == op.Dual() ==>
          exists z :: z in x.args && Unmatched(z, args))
  }

  ghost predicate Unmatched(z: Cond, args: seq<Cond>) {
    forall y :: y in args ==> !Opposite(z, y)
  }

  /** Unopposed at every operator down to the negations, below which nothing is simplified. */
  ghost predicate Simplified(c: Cond) {
    match c
    case Nary(op, args) => Unopposed(op, args) && forall i :: 0 <= i < |args| ==> Simplified(args[i])
    case _ => true
  }

  ghost predicate NormalAll(s: seq<Cond>) {
    forall x :: x in s ==> Normal(x)
  }

  lemma OppositeNegation(a: Cond, b: Cond)
    requires Normal(a) && Normal(b)
    ensures Opposite(a, b) ==> IsNegation(a, b)
    ensures Clean(a) && Clean(b) ==> (Opposite(a, b) <==> IsNegation(a, b))
  {
    NormalFixpoint(a);
    NormalFixpoint(b);
    if Clean(a) && Clean(b) {
      if a.Neg? {
        KeyInjective(a.arg, b);
      }
      if b.Neg? {
        KeyInjective(b.arg, a);
      }
    }
  }

  lemma OperandsNormal(args: seq<Cond>, x: Cond)
    requires NormalAll(args) && x in args && x.Nary?
    ensures NormalAll(x.args)
  {
    assert Normal(x);
  }

  lemma KeptIsUnopposed(op: Op, args: seq<Cond>)
    requires NormalAll(args) && SimplifyNary(op, args).Nary?
    ensures Unopposed(op, args)
  {
    forall x, y | x in args && y in args
      ensures !Opposite(x, y)
    {
      var i :| 0 <= i < |args| && args[i] == x;
      var j :| 0 <= j < |args| && args[j] == y;
      OppositeNegation(args[i], args[j]);
      OppositeNegation(args[j], args[i]);
    }
    forall x | x in args && x.Nary? && x.op == op.Dual()
      ensures exists z :: z in x.args && Unmatched(z, args)
    {
      var i :| 0 <= i < |args| && args[i] == x;
      assert !AllNegated(x.args, args);
      var k :| 0 <= k < |x.args| && !exists j :: 0 <= j < |args| && IsNegation(x.args[k], args[j]);
      OperandsNormal(args, x);
      UnmatchedIfNoNegation(x.args[k], args);
      assert x.args[k] in x.args;
    }
    hide IsNegation, Normal, Opposite, Unmatched;
  }

  lemma UnmatchedIfNoNegation(z: Cond, args: seq<Cond>)
    requires Normal(z) && NormalAll(args)
    requires !exists j :: 0 <= j < |args| && IsNegation(z, args[j])
    ensures Unmatched(z, args)
  {
    forall y | y in args
      ensures !Opposite(z, y)
    {
      var j :| 0 <= j < |args| && args[j] == y;
      OppositeNegation(z, args[j]);
    }
  }

  lemma UnopposedIsKept(op: Op, args: seq<Cond>)
    requires NormalAll(args) && CleanAll(args)
    ensures SimplifyNary(op, args) == if Unopposed(op, args) then Nary(op, args) else Const(op.Zero())
  {
    if SimplifyNary(op, args).Nary? {
      KeptIsUnopposed(op, args);
    } else if Contradicts(args) {
      var i, j :| 0 <= i < j < |args| && IsNegation(args[i], args[j]);
      OppositeNegation(args[i], args[j]);
      assert args[i] in args && args[j] in args;
    } else {
      var i :| 0 <= i < |args| && args[i].Nary? && args[i].op == op.Dual() && AllNegated(args[i].args, args);
      assert args[i] in args && Clean(args[i]);
      OperandsNormal(args, args[i]);
      forall z | z in args[i].args
        ensures !Unmatched(z, args)
      {
        var k :| 0 <= k < |args[i].args| && args[i].args[k] == z;
        var j :| 0 <= j < |args| && IsNegation(args[i].args[k], args[j]);
        OppositeNegation(z, args[j]);
        assert args[j] in args;
      }
    }
    hide IsNegation, Normal;
  }

  /** Normalising puts simplified operands side by side and changes none of them. */
  lemma OperandsSimplified(op: Op, cs: seq<Cond>)
    requires forall i :: 0 <= i < |cs| ==> Normal(cs[i]) && Simplified(cs[i])
    ensures
      var norm := Normalize(Nary(op, cs));
      if norm.Nary? && norm.op == op then forall x :: x in norm.args ==> Simplified(x) else Simplified(norm)
  {
    var ns := NormalizeAll(cs);
    forall i | 0 <= i < |cs|
      ensures ns[i] == cs[i]
    {
      NormalFixpoint(cs[i]);
    }
    GatherSound(op, ns, []);
    if Gather(op, ns, []).Operands? {
      var out := Gather(op, ns, []).out;
      forall x | x in out
        ensures Simplified(x)
      {
        var i :| 0 <= i < |ns| && x in Spread(op, ns[i]);
        assert Simplified(ns[i]);
      }
      if |out| == 1 {
        assert out[0] in out;
      } else if |out| > 1 {
        SortByKey(out);
      }
    }
  }

  /**
   What comes out is in normal form and simplified at every operator: nothing stands beside its own
   negation, nor beside the negations of all its operands.
   */
  lemma {:induction false} SimplifyIsSimplified(c: Cond)
    ensures Normal(SimplifyCond(c)) && Simplified(SimplifyCond(c))
    decreases Normalize(c)
  {
    var n := Normalize(c);
    NormalizeIsNormal(c);
    if n.Nary? {
      var op, args := n.op, n.args;
      NormalChildren(c);
      var children := seq(|args|, i requires 0 <= i < |args| => SimplifyCond(args[i]));
      forall i | 0 <= i < |args|
        ensures Normal(children[i]) && Simplified(children[i])
      {
        SimplifyIsSimplified(args[i]);
      }
      var norm := Normalize(Nary(op, children));
      NormalizeIsNormal(Nary(op, children));
      OperandsSimplified(op, children);
      if norm.Nary? && norm.op == op && SimplifyNary(op, norm.args).Nary? {
        assert forall x :: x in norm.args ==> Normal(x);
        KeptIsUnopposed(op, norm.args);
      }
    }
  }

  /** Conditions that are simplified already are left alone. */
  lemma {:induction false} SimplifiedFixpoint(c: Cond)
    requires Clean(c) && Normal(c) && Simplified(c)
    ensures SimplifyCond(c) == c
    decreases c
  {
    NormalFixpoint(c);
    if c.Nary? {
      var op, args := c.op, c.args;
      NormalChildren(c);
      var children := seq(|args|, i requires 0 <= i < |args| => SimplifyCond(args[i]));
      forall i | 0 <= i < |args|
        ensures children[i] == args[i]
      {
        SimplifiedFixpoint(args[i]);
      }
      assert children == args;
      UnopposedIsKept(op, args);
    }
  }

  /** SimplifyCond is idempotent. */
  lemma SimplifyIdempotent(c: Cond)
    requires Clean(c)
    ensures SimplifyCond(SimplifyCond(c)) == SimplifyCond(c)
  {
    SimplifyIsSimplified(c);
    SimplifyEval(c, Context(FailureSet({}, {}), map[]));
    SimplifiedFixpoint(SimplifyCond(c));
  }

  /** Simplified operands that are not unopposed together give the constant. */
  lemma OpposedGivesConstant(op: Op, args: seq<Cond>)
    requires Clean(Nary(op, args)) && Normal(Nary(op, args))
    requires forall i :: 0 <= i < |args| ==> Simplified(args[i])
    ensures SimplifyCond(Nary(op, args)) == if Unopposed(op, args) then Nary(op, args) else Const(op.Zero())
  {
    var c := Nary(op, args);
    NormalFixpoint(c);
    NormalChildren(c);
    var children := seq(|args|, i requires 0 <= i < |args| => SimplifyCond(args[i]));
    forall i | 0 <= i < |args|
      ensures children[i] == args[i]
    {
      SimplifiedFixpoint(args[i]);
    }
    assert children == args;
    UnopposedIsKept(op, args);
  }

  // ---------- a condition beside its own negation ----------

  lemma NormalizedPair(n: Cond)
    requires Normal(n) && (n.Lit? || n.Nary?)
    ensures NormalizeAll([n, Neg(n)]) == [n, Neg(n)]
  {
    NormalFixpoint(n);
    var ns := NormalizeAll([n, Neg(n)]);
    assert ns[0] == Normalize(n) && ns[1] == Normalize(Neg(n)) == Not(n);
  }

  lemma BesideNegation(op: Op, n: Cond)
    requires Clean(n) && Normal(n) && (n.Lit? || n.Nary?)
    ensures
      var norm := Normalize(Nary(op, [n, Neg(n)]));
      && norm.Nary? && norm.op == op && Clean(norm) && Normal(norm)
      && forall x :: x in norm.args <==> x in Spread(op, n) || x == Neg(n)
  {
    var c := Nary(op, [n, Neg(n)]);
    assert Clean(c) by {
      assert Clean(c.args[0]) && Clean(c.args[1]);
    }
    NormalizeIsNormal(c);
    NormalizeClean(c);
    var ns := NormalizeAll(c.args);
    NormalizedPair(n);
    GatherExact(op, ns);
    var out := Gather(op, ns, []).out;
    forall x
      ensures Atom(op, ns, x) <==> x in Spread(op, n) || x == Neg(n)
    {
      assert Spread(op, ns[0]) == Spread(op, n) && Spread(op, ns[1]) == [Neg(n)];
    }
    var first := if n.Nary? && n.op == op then n.args[0] else n;
    assert first in Spread(op, n) && first in out && Neg(n) in out && first != Neg(n);
    assert |out| >= 2;
    SortByKey(out);
  }

  /**
   A condition beside its own negation is found out exactly when it is not of the same operator: the
   operands of a conjunction are spread into the conjunction around it, where nothing opposes them.
   */
  lemma OppositesFoundExactly(op: Op, n: Cond)
    requires Clean(n) && Normal(n) && Simplified(n) && (n.Lit? || n.Nary?)
    ensures SimplifyCond(Nary(op, [n, Neg(n)])) == Const(op.Zero()) <==> !(n.Nary? && n.op == op)
  {
    var norm := Normalize(Nary(op, [n, Neg(n)]));
    BesideNegation(op, n);
    NormalFixpoint(norm);
    assert SimplifyCond(Nary(op, [n, Neg(n)])) == SimplifyCond(norm);
    forall x | x in norm.args
      ensures Simplified(x)
    {
    }
    OpposedGivesConstant(op, norm.args);
    if n.Nary? && n.op == op {
      SpreadUnopposed(op, n, norm.args);
    } else {
      assert n in norm.args && Neg(n) in norm.args && Opposite(n, Neg(n));
    }
    hide SimplifyCond, Normal, Clean;
  }

  lemma SpreadUnopposed(op: Op, n: Cond, args: seq<Cond>)
    requires Normal(n) && Simplified(n) && n.Nary? && n.op == op
    requires forall x :: x in args <==> x in n.args || x == Neg(n)
    ensures Unopposed(op, args)
  {
    forall x | x in n.args
      ensures !Opposite(x, Neg(n))
    {
      assert Normal(x);
    }
    forall x | x in args && x.Nary? && x.op == op.Dual()
      ensures exists z :: z in x.args && Unmatched(z, args)
    {
      assert x in n.args && Normal(x);
      var z :| z in x.args && Unmatched(z, n.args);
      assert Normal(z) && z != n;
      assert Unmatched(z, args);
    }
  }
}
