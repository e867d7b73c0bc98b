/**
 The solver's expression language. Its constructors repeat the condition algebra on a
 record with a kind tag, so everything is proved by reading an expression as a condition.
 */
module SymbolicExpr {
  import opened Failure
  import C = Conditions
  import NF = NormalForms
  import Sorting
  import Text

  datatype Kind = KindTrue | KindFalse | KindVar | KindAnd | KindOr | KindNot

  datatype VarKind = NoVar | VarLink | VarNode

  datatype Expr = Expr(kind: Kind, varKind: VarKind, name: string, children: seq<Expr>)

  function Const(b: bool): Expr {
    Expr(if b then KindTrue else KindFalse, NoVar, "", [])
  }

  function LinkVar(name: string): Expr {
    Expr(KindVar, VarLink, name, [])
  }

  function NodeVar(name: string): Expr {
    Expr(KindVar, VarNode, name, [])
  }

  function OpKind(op: C.Op): Kind {
    if op.AndOp? then KindAnd else KindOr
  }

  function ConstKind(b: bool): Kind {
    if b then KindTrue else KindFalse
  }

  // ---------- the program's functions ----------

  function Key(e: Expr): string
    decreases e, 1
  {
    match e.kind
    case KindTrue => "true"
    case KindFalse => "false"
    case KindVar => (if e.varKind.VarNode? then "var:node:" else "var:link:") + e.name
    case KindNot => if e.children == [] then "not()" else "not(" + Key(e.children[0]) + ")"
    case KindAnd => "and(" + Text.Join(Keys(e.children), ",") + ")"
    case KindOr => "or(" + Text.Join(Keys(e.children), ",") + ")"
  }

  function Keys(es: seq<Expr>): (ks: seq<string>)
    ensures |ks| == |es|
    decreases es, 0
  {
    if es == [] then [] else [Key(es[0])] + Keys(es[1..])
  }

  predicate ByKey(a: Expr, b: Expr) {
    Text.Less(Key(a), Key(b))
  }

  function Normalize(e: Expr): Expr
    decreases e, 0
  {
    match e.kind
    case KindAnd => Flatten(C.AndOp, e.children)
    case KindOr => Flatten(C.OrOp, e.children)
    case KindNot => if e.children == [] then Const(true) else Not(e.children[0])
    case _ => e
  }

  function Not(x: Expr): Expr
    decreases x, 1
  {
    var n := Normalize(x);
    match n.kind
    case KindTrue => Const(false)
    case KindFalse => Const(true)
    case KindNot => if n.children == [] then Const(true) else n.children[0]
    case _ => Expr(KindNot, NoVar, "", [n])
  }

  function NormalizeAll(es: seq<Expr>): (ns: seq<Expr>)
    ensures |ns| == |es|
    ensures forall i :: 0 <= i < |es| ==> ns[i] == Normalize(es[i])
    decreases es, 0
  {
    if es == [] then [] else [Normalize(es[0])] + NormalizeAll(es[1..])
  }

  /** And(xs...) and Or(xs...). */
  function Flatten(op: C.Op, xs: seq<Expr>): Expr
    decreases xs, 1
  {
    match Gather(op, NormalizeAll(xs), [])
    case Decided => Const(op.Zero())
    case Operands(out) => Rebuild(op, out)
  }

  datatype Gathered = Decided | Operands(out: seq<Expr>)

  function Gather(op: C.Op, ns: seq<Expr>, out: seq<Expr>): Gathered {
    if ns == [] then Operands(out)
    else if ns[0].kind == ConstKind(op.Zero()) then Decided
    else Gather(op, ns[1..], AddNew(out, Spread(op, ns[0])))
  }

  function Spread(op: C.Op, n: Expr): seq<Expr> {
    if n.kind == ConstKind(!op.Zero()) then []
    else if n.kind == OpKind(op) then n.children
    else [n]
  }

  function AddNew(out: seq<Expr>, xs: seq<Expr>): seq<Expr>
    decreases xs
  {
    if xs == [] then out
    else if exists i :: 0 <= i < |out| && Key(out[i]) == Key(xs[0]) then AddNew(out, xs[1..])
    else AddNew(out + [xs[0]], xs[1..])
  }

  function Rebuild(op: C.Op, out: seq<Expr>): Expr {
    if out == [] then Const(!op.Zero())
    else if |out| == 1 then out[0]
    else Expr(OpKind(op), NoVar, "", Sorting.Sort(out, ByKey))
  }

  // ---------- reading an expression as a condition ----------

  /** A negation has its operand and a variable its kind. */
  predicate WellFormed(e: Expr) {
    && (e.kind.KindNot? ==> e.children != [])
    && (e.kind.KindVar? ==> !e.varKind.NoVar?)
    && (e.kind in {KindNot, KindAnd, KindOr} ==> forall i :: 0 <= i < |e.children| ==> WellFormed(e.children[i]))
  }

  predicate AllWellFormed(es: seq<Expr>) {
    forall i :: 0 <= i < |es| ==> WellFormed(es[i])
  }

  function AsCond(e: Expr): C.Cond
    decreases e, 1
  {
    match e.kind
    case KindTrue => C.True
    case KindFalse => C.False
    case KindVar => C.Lit(if e.varKind.VarNode? then C.NodeVar(e.name) else C.LinkVar(e.name))
    case KindNot => if e.children == [] then C.True else C.Neg(AsCond(e.children[0]))
    case KindAnd => C.Nary(C.AndOp, AsConds(e.children))
    case KindOr => C.Nary(C.OrOp, AsConds(e.children))
  }

  function AsConds(es: seq<Expr>): (cs: seq<C.Cond>)
    ensures |cs| == |es|
    ensures forall i :: 0 <= i < |es| ==> cs[i] == AsCond(es[i])
    decreases es, 0
  {
    if es == [] then [] else [AsCond(es[0])] + AsConds(es[1..])
  }

  /** The solver's reading: every variable is a boolean of its own. */
  predicate Holds(e: Expr, failures: FailureSet) {
    C.Eval(AsCond(e), Context(failures, map[]))
  }

  lemma {:induction false} KeyAgrees(e: Expr)
    requires WellFormed(e)
    ensures Key(e) == C.Key(AsCond(e))
    decreases e, 1
  {
    match e.kind
    case KindNot => KeyAgrees(e.children[0]);
    case KindAnd => KeysAgree(e.children);
    case KindOr => KeysAgree(e.children);
    case _ =>
  }

  lemma {:induction false} KeysAgree(es: seq<Expr>)
    requires AllWellFormed(es)
    ensures Keys(es) == C.Keys(AsConds(es))
    decreases es, 0
  {
    if es != [] {
      KeyAgrees(es[0]);
      KeysAgree(es[1..]);
      assert AsConds(es)[1..] == AsConds(es[1..]);
    }
  }

  lemma {:induction false} AddNewAgrees(out: seq<Expr>, xs: seq<Expr>)
    requires AllWellFormed(out) && AllWellFormed(xs)
    ensures AllWellFormed(AddNew(out, xs))
    ensures AsConds(AddNew(out, xs)) == NF.AddNew(AsConds(out), AsConds(xs))
    decreases xs
  {
    if xs != [] {
      forall i | 0 <= i < |out|
        ensures Key(out[i]) == C.Key(AsConds(out)[i])
      {
        KeyAgrees(out[i]);
      }
      KeyAgrees(xs[0]);
      assert NF.Seen(AsConds(out), AsConds(xs)[0]) <==> exists i :: 0 <= i < |out| && Key(out[i]) == Key(xs[0]);
      assert AsConds(xs)[1..] == AsConds(xs[1..]);
      assert AsConds(out + [xs[0]]) == AsConds(out) + [AsConds(xs)[0]];
      AddNewAgrees(if NF.Seen(AsConds(out), AsConds(xs)[0]) then out else out + [xs[0]], xs[1..]);
    }
  }

  lemma SpreadAgrees(op: C.Op, n: Expr)
    requires WellFormed(n)
    ensures AllWellFormed(Spread(op, n))
    ensures AsConds(Spread(op, n)) == NF.Spread(op, AsCond(n))
    ensures n.kind == ConstKind(op.Zero()) <==> AsCond(n) == C.Const(op.Zero())
  {
  }

  lemma {:induction false} GatherAgrees(op: C.Op, ns: seq<Expr>, out: seq<Expr>)
    requires AllWellFormed(ns) && AllWellFormed(out)
    ensures Gather(op, ns, out).Decided? <==> NF.Gather(op, AsConds(ns), AsConds(out)).Decided?
    ensures Gather(op, ns, out).Operands? ==>
      && AllWellFormed(Gather(op, ns, out).out)
      && NF.Gather(op, AsConds(ns), AsConds(out)) == NF.Operands(AsConds(Gather(op, ns, out).out))
    decreases ns
  {
    if ns != [] {
      SpreadAgrees(op, ns[0]);
      assert AsConds(ns)[1..] == AsConds(ns[1..]);
      if ns[0].kind != ConstKind(op.Zero()) {
        AddNewAgrees(out, Spread(op, ns[0]));
        GatherAgrees(op, ns[1..], AddNew(out, Spread(op, ns[0])));
      }
    }
  }

  lemma {:induction false} InsertAgrees(x: Expr, s: seq<Expr>)
    requires WellFormed(x) && AllWellFormed(s)
    ensures AllWellFormed(Sorting.Insert(x, s, ByKey))
    ensures AsConds(Sorting.Insert(x, s, ByKey)) == Sorting.Insert(AsCond(x), AsConds(s), NF.ByKey)
  {
    if s != [] {
      var last := s[|s| - 1];
      KeyAgrees(x);
      KeyAgrees(last);
      assert AsConds(s)[..|s| - 1] == AsConds(s[..|s| - 1]);
      if ByKey(x, last) {
        InsertAgrees(x, s[..|s| - 1]);
      }
    }
  }

  lemma {:induction false} SortAgrees(s: seq<Expr>)
    requires AllWellFormed(s)
    ensures AllWellFormed(Sorting.Sort(s, ByKey))
    ensures AsConds(Sorting.Sort(s, ByKey)) == Sorting.Sort(AsConds(s), NF.ByKey)
  {
    if s != [] {
      SortAgrees(s[..|s| - 1]);
      assert AsConds(s)[..|s| - 1] == AsConds(s[..|s| - 1]);
      InsertAgrees(s[|s| - 1], Sorting.Sort(s[..|s| - 1], ByKey));
    }
  }

  lemma RebuildAgrees(op: C.Op, out: seq<Expr>)
    requires AllWellFormed(out)
    ensures WellFormed(Rebuild(op, out))
    ensures AsCond(Rebuild(op, out)) == NF.Rebuild(op, AsConds(out))
  {
    hide Key, Sorting.Sort, NF.ByKey, ByKey;
    if |out| >= 2 {
      SortAgrees(out);
    }
  }

  /** The solver's operands: every variable has a kind. */
  predicate Typed(e: Expr) {
    && (e.kind.KindVar? ==> !e.varKind.NoVar?)
    && forall i :: 0 <= i < |e.children| ==> Typed(e.children[i])
  }

  /** Normalising an expression is normalising the condition it stands for. */
  lemma {:induction false} NormalizeAgrees(e: Expr)
    requires Typed(e)
    ensures WellFormed(Normalize(e))
    ensures AsCond(Normalize(e)) == NF.Normalize(AsCond(e))
    decreases e, 0
  {
    match e.kind
    case KindAnd => FlattenAgrees(C.AndOp, e.children);
    case KindOr => FlattenAgrees(C.OrOp, e.children);
    case KindNot =>
      if e.children != [] {
        NotAgrees(e.children[0]);
      }
    case _ =>
  }

  lemma {:induction false} NotAgrees(x: Expr)
    requires Typed(x)
    ensures WellFormed(Not(x))
    ensures AsCond(Not(x)) == NF.Not(AsCond(x))
    decreases x, 1
  {
    NormalizeAgrees(x);
  }

  lemma {:induction false} FlattenAgrees(op: C.Op, xs: seq<Expr>)
    requires forall i :: 0 <= i < |xs| ==> Typed(xs[i])
    ensures WellFormed(Flatten(op, xs))
    ensures AsCond(Flatten(op, xs)) == NF.Flatten(op, AsConds(xs))
    decreases xs, 1
  {
    var ns := NormalizeAll(xs);
    forall i | 0 <= i < |xs|
      ensures WellFormed(ns[i]) && AsCond(ns[i]) == NF.Normalize(AsConds(xs)[i])
    {
      NormalizeAgrees(xs[i]);
    }
    assert AsConds(ns) == NF.NormalizeAll(AsConds(xs));
    GatherAgrees(op, ns, []);
    if Gather(op, ns, []).Operands? {
      RebuildAgrees(op, Gather(op, ns, []).out);
    }
  }

  lemma {:induction false} TypedInside(op: C.Op, ns: seq<Expr>, out: seq<Expr>)
    requires forall i :: 0 <= i < |ns| ==> Typed(ns[i])
    requires forall i :: 0 <= i < |out| ==> Typed(out[i])
    ensures Gather(op, ns, out).Operands? ==> forall x :: x in Gather(op, ns, out).out ==> Typed(x)
    decreases ns
  {
    if ns != [] && ns[0].kind != ConstKind(op.Zero()) {
      AddNewTyped(out, Spread(op, ns[0]));
      TypedInside(op, ns[1..], AddNew(out, Spread(op, ns[0])));
    }
  }

  lemma {:induction false} AddNewTyped(out: seq<Expr>, xs: seq<Expr>)
    requires forall i :: 0 <= i < |xs| ==> Typed(xs[i])
    requires forall i :: 0 <= i < |out| ==> Typed(out[i])
    ensures forall x :: x in AddNew(out, xs) ==> Typed(x)
    decreases xs
  {
    if xs != [] {
      AddNewTyped(out, xs[1..]);
      AddNewTyped(out + [xs[0]], xs[1..]);
    }
  }

  lemma {:induction false} NormalizeTyped(e: Expr)
    requires Typed(e)
    ensures Typed(Normalize(e))
    decreases e, 0
  {
    match e.kind
    case KindAnd => FlattenTyped(C.AndOp, e.children);
    case KindOr => FlattenTyped(C.OrOp, e.children);
    case KindNot =>
      if e.children != [] {
        NotTyped(e.children[0]);
      }
    case _ =>
  }

  lemma {:induction false} NotTyped(x: Expr)
    requires Typed(x)
    ensures Typed(Not(x))
    decreases x, 1
  {
    NormalizeTyped(x);
  }

  lemma {:induction false} FlattenTyped(op: C.Op, xs: seq<Expr>)
    requires forall i :: 0 <= i < |xs| ==> Typed(xs[i])
    ensures Typed(Flatten(op, xs))
    decreases xs, 1
  {
    var ns := NormalizeAll(xs);
    forall i | 0 <= i < |xs|
      ensures Typed(ns[i])
    {
      NormalizeTyped(xs[i]);
    }
    TypedInside(op, ns, []);
    if Gather(op, ns, []).Operands? {
      var out := Gather(op, ns, []).out;
      Sorting.SortMembers(out, ByKey);
      if |out| == 1 {
        assert out[0] in out;
      } else {
        forall i | 0 <= i < |out|
          ensures Typed(Sorting.Sort(out, ByKey)[i])
        {
          assert Sorting.Sort(out, ByKey)[i] in out;
        }
      }
    }
  }
}
