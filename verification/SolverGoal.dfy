/** ExpandLinkVars and BoolExpr: from conditions to what the solver reads. */
module SolverGoal {
  import opened Failure
  import opened Conditions
  import opened NormalForms
  import opened Simplification
  import E = SymbolicExpr

  /** Makes "a link needs its endpoints" explicit. */
  function ExpandLinkVars(c: Cond, linksByName: map<string, Link>): Cond
    decreases Normalize(c)
  {
    var n := Normalize(c);
    NormalChildren(c);
    match n
    case Lit(LinkVar(name)) =>
      if name !in linksByName then n
      else And([n, Lit(NodeVar(linksByName[name].a)), Lit(NodeVar(linksByName[name].b))])
    case Nary(op, args) =>
      Flatten(op, seq(|args|, i requires 0 <= i < |args| => ExpandLinkVars(args[i], linksByName)))
    case Neg(x) => Not(ExpandLinkVars(x, linksByName))
    case _ => n
  }

  predicate CleanLinks(linksByName: map<string, Link>) {
    forall name :: name in linksByName ==> CleanName(linksByName[name].a) && CleanName(linksByName[name].b)
  }

  /**
   The expanded condition means the same in the context, and it means the same again
   when the solver reads every link and node variable as a boolean of its own.
   */
  lemma {:induction false} ExpandEval(c: Cond, ctx: Context)
    requires Clean(c) && CleanLinks(ctx.linksByName)
    ensures Clean(ExpandLinkVars(c, ctx.linksByName))
    ensures Eval(ExpandLinkVars(c, ctx.linksByName), ctx) == Eval(c, ctx)
    ensures Eval(ExpandLinkVars(c, ctx.linksByName), ctx.Independent()) == Eval(c, ctx)
    decreases Normalize(c)
  {
    var n, links := Normalize(c), ctx.linksByName;
    NormalizeEval(c, ctx);
    NormalizeClean(c);
    NormalChildren(c);
    match n
    case Lit(v) =>
      if v.LinkVar? && v.name in links {
        ExpandLinkEval(v.name, ctx);
      }
    case Nary(op, args) =>
      var children := seq(|args|, i requires 0 <= i < |args| => ExpandLinkVars(args[i], links));
      forall i | 0 <= i < |args|
        ensures Clean(children[i])
        ensures Eval(children[i], ctx) == Eval(args[i], ctx) == Eval(children[i], ctx.Independent())
      {
        ExpandEval(args[i], ctx);
      }
      FlattenClean(op, children);
      FlattenEval(op, children, ctx);
      FlattenEval(op, children, ctx.Independent());
    case Neg(x) =>
      ExpandEval(x, ctx);
      NotClean(ExpandLinkVars(x, links));
      NotMeans(ExpandLinkVars(x, links), ctx);
      NotMeans(ExpandLinkVars(x, links), ctx.Independent());
    case _ =>
  }

  /** A link variable with its endpoints is true exactly when the link has not failed. */
  lemma ExpandLinkEval(name: string, ctx: Context)
    requires CleanName(name) && CleanLinks(ctx.linksByName) && name in ctx.linksByName
    ensures
      var l := ctx.linksByName[name];
      var e := And([Lit(LinkVar(name)), Lit(NodeVar(l.a)), Lit(NodeVar(l.b))]);
      Clean(e) && Eval(e, ctx) == Eval(e, ctx.Independent()) == !ctx.LinkFailed(name)
  {
    var l := ctx.linksByName[name];
    var x, y, z := Lit(LinkVar(name)), Lit(NodeVar(l.a)), Lit(NodeVar(l.b));
    FlattenClean(AndOp, [x, y, z]);
    AndMeans([x, y, z], ctx);
    AndMeans([x, y, z], ctx.Independent());
    assert x in [x, y, z] && y in [x, y, z] && z in [x, y, z];
    assert forall w :: w in [x, y, z] ==> w == x || w == y || w == z;
  }

  function BoolExpr(c: Cond): E.Expr
    decreases Normalize(c)
  {
    var n := Normalize(c);
    NormalChildren(c);
    match n
    case True => E.Const(true)
    case False => E.Const(false)
    case Lit(NodeVar(name)) => E.NodeVar(name)
    case Lit(LinkVar(name)) => E.LinkVar(name)
    case Nary(op, args) => E.Flatten(op, seq(|args|, i requires 0 <= i < |args| => BoolExpr(args[i])))
    case Neg(x) => E.Not(BoolExpr(x))
  }

  /** Translating a condition gives exactly its normal form in the solver's language. */
  lemma {:induction false} BoolExprIsNormalForm(c: Cond)
    ensures E.Typed(BoolExpr(c))
    ensures E.AsCond(BoolExpr(c)) == Normalize(c)
    decreases Normalize(c)
  {
    var n := Normalize(c);
    NormalizeIsNormal(c);
    NormalChildren(c);
    match n
    case Nary(op, args) =>
      var es := seq(|args|, i requires 0 <= i < |args| => BoolExpr(args[i]));
      forall i | 0 <= i < |args|
        ensures E.Typed(es[i]) && E.AsCond(es[i]) == args[i]
      {
        BoolExprIsNormalForm(args[i]);
      }
      assert E.AsConds(es) == args;
      E.FlattenAgrees(op, es);
      E.FlattenTyped(op, es);
      NormalFixpoint(n);
    case Neg(x) =>
      BoolExprIsNormalForm(x);
      E.NotAgrees(BoolExpr(x));
      E.NotTyped(BoolExpr(x));
      NormalFixpoint(n);
    case _ =>
  }

  /**
   The solver's goal is faithful: the expanded and translated condition, read with
   independent booleans, is the condition read in the failure context.
   */
  lemma SolverGoalFaithful(c: Cond, ctx: Context)
    requires Clean(c) && CleanLinks(ctx.linksByName)
    ensures E.Holds(BoolExpr(ExpandLinkVars(c, ctx.linksByName)), ctx.failures) == Eval(c, ctx)
  {
    var x := ExpandLinkVars(c, ctx.linksByName);
    ExpandEval(c, ctx);
    BoolExprIsNormalForm(x);
    NormalizeEval(x, ctx.Independent());
  }

  /** Without expanding, the solver misreads a link exactly when only an endpoint is down. */
  lemma ExpansionNeeded(name: string, ctx: Context)
    ensures E.Holds(BoolExpr(Lit(LinkVar(name))), ctx.failures) != Eval(Lit(LinkVar(name)), ctx) <==>
      && name !in ctx.failures.links
      && name in ctx.linksByName
      && (ctx.NodeFailed(ctx.linksByName[name].a) || ctx.NodeFailed(ctx.linksByName[name].b))
  {
    assert Normalize(Lit(LinkVar(name))) == Lit(LinkVar(name));
  }
}
