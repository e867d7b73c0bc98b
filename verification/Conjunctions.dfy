/** The short conjunctions and the exclusions that the forwarding code builds. */
module Conjunctions {
  import opened Failure
  import opened Conditions
  import opened NormalForms

  lemma AndTwo(x: Cond, y: Cond, ctx: Context)
    requires Clean(x) && Clean(y)
    ensures Clean(And([x, y])) && (Eval(And([x, y]), ctx) <==> Eval(x, ctx) && Eval(y, ctx))
  {
    var cs := [x, y];
    FlattenClean(AndOp, cs);
    AndMeans(cs, ctx);
    assert cs[0] in cs && cs[1] in cs;
    hide And;
  }

  lemma AndThree(x: Cond, y: Cond, z: Cond, ctx: Context)
    requires Clean(x) && Clean(y) && Clean(z)
    ensures Clean(And([x, y, z])) && (Eval(And([x, y, z]), ctx) <==> Eval(x, ctx) && Eval(y, ctx) && Eval(z, ctx))
  {
    var cs := [x, y, z];
    FlattenClean(AndOp, cs);
    AndMeans(cs, ctx);
    assert cs[0] in cs && cs[1] in cs && cs[2] in cs;
    hide And;
  }

  lemma AndFour(w: Cond, x: Cond, y: Cond, z: Cond, ctx: Context)
    requires Clean(w) && Clean(x) && Clean(y) && Clean(z)
    ensures Clean(And([w, x, y, z]))
    ensures Eval(And([w, x, y, z]), ctx) <==> Eval(w, ctx) && Eval(x, ctx) && Eval(y, ctx) && Eval(z, ctx)
  {
    var cs := [w, x, y, z];
    FlattenClean(AndOp, cs);
    AndMeans(cs, ctx);
    assert cs[0] in cs && cs[1] in cs && cs[2] in cs && cs[3] in cs;
    hide And;
  }

  /** Not(Or(cs)): none of them. */
  lemma NoneOf(cs: seq<Cond>, ctx: Context)
    requires CleanAll(cs)
    ensures Clean(Not(Or(cs))) && (Eval(Not(Or(cs)), ctx) <==> !exists c :: c in cs && Eval(c, ctx))
  {
    FlattenClean(OrOp, cs);
    OrMeans(cs, ctx);
    NotClean(Or(cs));
    NotMeans(Or(cs), ctx);
  }

  /** isFalseCond */
  predicate IsFalse(c: Cond) {
    Key(c) == Key(False)
  }

  /** Only the constant is recognised, whatever the names. */
  lemma IsFalseExactly(c: Cond)
    ensures IsFalse(c) <==> c == False
  {
    if IsFalse(c) {
      assert Key(c) + "" == Key(False) + "";
      TagsAgree(c, False, "", "");
    }
  }
}
