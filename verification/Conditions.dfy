/**
 Conditions over link and node failures: their meaning and their keys.

 `and` and `or` are one constructor with an operator, since everything the program does
 to the one it does to the other with true and false exchanged.
 */
module Conditions {
  import opened Failure
  import Text

  datatype Var = LinkVar(name: string) | NodeVar(name: string)

  datatype Op = AndOp | OrOp {
    /** The value that decides the operator on its own. */
    function Zero(): bool { OrOp? }

    function Dual(): Op { if AndOp? then OrOp else AndOp }

    function Word(): string { if AndOp? then "and" else "or" }
  }

  datatype Cond =
    | True
    | False
    | Lit(v: Var)
    | Nary(op: Op, args: seq<Cond>)
    | Neg(arg: Cond)

  function Const(b: bool): Cond {
    if b then True else False
  }

  predicate Up(ctx: Context, v: Var) {
    match v
    case LinkVar(name) => !ctx.LinkFailed(name)
    case NodeVar(name) => !ctx.NodeFailed(name)
  }

  /** An operator yields its zero exactly when some operand does. */
  predicate Eval(c: Cond, ctx: Context) {
    match c
    case True => true
    case False => false
    case Lit(v) => Up(ctx, v)
    case Neg(x) => !Eval(x, ctx)
    case Nary(op, args) =>
      if exists i :: 0 <= i < |args| && Eval(args[i], ctx) == op.Zero() then op.Zero() else !op.Zero()
  }

  lemma EvalAnd(args: seq<Cond>, ctx: Context)
    ensures Eval(Nary(AndOp, args), ctx) <==> forall x :: x in args ==> Eval(x, ctx)
  {
    assert forall i :: 0 <= i < |args| ==> args[i] in args;
  }

  lemma EvalOr(args: seq<Cond>, ctx: Context)
    ensures Eval(Nary(OrOp, args), ctx) <==> exists x :: x in args && Eval(x, ctx)
  {
    assert forall i :: 0 <= i < |args| ==> args[i] in args;
  }

  function VarKey(v: Var): string {
    match v
    case LinkVar(name) => "var:link:" + name
    case NodeVar(name) => "var:node:" + name
  }

  function Key(c: Cond): string
    decreases c, 1
  {
    match c
    case True => "true"
    case False => "false"
    case Lit(v) => VarKey(v)
    case Nary(op, args) => op.Word() + "(" + JoinedKeys(args) + ")"
    case Neg(x) => "not(" + Key(x) + ")"
  }

  function JoinedKeys(cs: seq<Cond>): string
    decreases cs, 1
  {
    Text.Join(Keys(cs), ",")
  }

  /** What follows the first key. */
  function JoinedTail(cs: seq<Cond>): string
    requires cs != []
  {
    if |cs| == 1 then "" else "," + JoinedKeys(cs[1..])
  }

  function Keys(cs: seq<Cond>): (ks: seq<string>)
    ensures |ks| == |cs|
    ensures forall i :: 0 <= i < |cs| ==> ks[i] == Key(cs[i])
    decreases cs, 0
  {
    if cs == [] then [] else [Key(cs[0])] + Keys(cs[1..])
  }

  /** The variables a condition mentions. */
  ghost predicate Mentions(c: Cond, v: Var) {
    match c
    case True => false
    case False => false
    case Lit(w) => v == w
    case Neg(x) => Mentions(x, v)
    case Nary(_, args) => exists i :: 0 <= i < |args| && Mentions(args[i], v)
  }

  /** A name in which the end of a variable can be recognised. */
  predicate CleanName(name: string) {
    ',' !in name && ')' !in name
  }

  /** All names are clean: what the keys need to be unambiguous. */
  predicate Clean(c: Cond) {
    match c
    case True => true
    case False => true
    case Lit(v) => CleanName(v.name)
    case Neg(x) => Clean(x)
    case Nary(_, args) => forall i :: 0 <= i < |args| ==> Clean(args[i])
  }

  predicate CleanAll(cs: seq<Cond>) {
    forall i :: 0 <= i < |cs| ==> Clean(cs[i])
  }

  lemma {:induction false} CleanMentions(c: Cond)
    ensures Clean(c) <==> forall v :: Mentions(c, v) ==> CleanName(v.name)
  {
    match c
    case True =>
    case False =>
    case Lit(w) => assert Mentions(c, w);
    case Neg(x) => CleanMentions(x);
    case Nary(_, args) =>
      forall i | 0 <= i < |args|
        ensures Clean(args[i]) <==> forall v :: Mentions(args[i], v) ==> CleanName(v.name)
      {
        CleanMentions(args[i]);
      }
      if !Clean(c) {
        var i :| 0 <= i < |args| && !Clean(args[i]);
        var v :| Mentions(args[i], v) && !CleanName(v.name);
        assert Mentions(c, v);
      }
  }

  // ---------- keys are unambiguous ----------

  /** What may follow a key inside a larger one. */
  predicate Stop(s: string) {
    s == "" || s[0] == ',' || s[0] == ')'
  }

  lemma {:induction false} CleanNamePrefix(a: string, b: string, s: string, t: string)
    requires CleanName(a) && CleanName(b) && Stop(s) && Stop(t)
    requires a + s == b + t
    ensures a == b && s == t
  {
    assert a == "" ==> a + s == s;
    assert b == "" ==> b + t == t;
    assert a != "" ==> (a + s)[0] == a[0];
    assert b != "" ==> (b + t)[0] == b[0];
    if a != "" && b != "" {
      assert (a + s)[1..] == a[1..] + s;
      assert (b + t)[1..] == b[1..] + t;
      CleanNamePrefix(a[1..], b[1..], s, t);
      assert a == [a[0]] + a[1..] && b == [b[0]] + b[1..];
    }
  }

  /** The first characters of a key tell the constructor. */
  function Tag(c: Cond): string {
    match c
    case True => "true"
    case False => "false"
    case Lit(_) => "var:"
    case Nary(op, _) => op.Word() + "("
    case Neg(_) => "not("
  }

  /** Its first letter already does. */
  function Initial(c: Cond): (ch: char)
    ensures Tag(c) != "" && Tag(c)[0] == ch
  {
    match c
    case True => 't'
    case False => 'f'
    case Lit(_) => 'v'
    case Nary(op, _) => if op.AndOp? then 'a' else 'o'
    case Neg(_) => 'n'
  }

  function Rest(c: Cond): string {
    match c
    case True => ""
    case False => ""
    case Lit(LinkVar(name)) => "link:" + name
    case Lit(NodeVar(name)) => "node:" + name
    case Nary(op, args) => JoinedKeys(args) + ")"
    case Neg(x) => Key(x) + ")"
  }

  lemma KeySplits(c: Cond)
    ensures Key(c) == Tag(c) + Rest(c)
  {
    match c
    case True =>
    case False =>
    case Lit(LinkVar(name)) =>
      assert "var:link:" == "var:" + "link:";
      Text.Assoc("var:", "link:", name);
    case Lit(NodeVar(name)) =>
      assert "var:node:" == "var:" + "node:";
      Text.Assoc("var:", "node:", name);
    case Nary(op, args) =>
      Text.Assoc(op.Word() + "(", JoinedKeys(args), ")");
    case Neg(x) =>
      Text.Assoc("not(", Key(x), ")");
  }

  /** Two keys that start the same text have the same tag. */
  lemma TagsAgree(a: Cond, b: Cond, s: string, t: string)
    requires Key(a) + s == Key(b) + t
    ensures Initial(a) == Initial(b) && Rest(a) + s == Rest(b) + t
  {
    KeySplits(a);
    KeySplits(b);
    Text.Assoc(Tag(a), Rest(a), s);
    Text.Assoc(Tag(b), Rest(b), t);
    if Initial(a) != Initial(b) {
      Text.HeadDiffers(Tag(a), Tag(b), Rest(a) + s, Rest(b) + t);
    } else {
      Text.DropHead(Tag(a), Rest(a) + s, Rest(b) + t);
    }
  }

  lemma VarPrefix(v: Var, w: Var, s: string, t: string)
    requires CleanName(v.name) && CleanName(w.name) && Stop(s) && Stop(t)
    requires Rest(Lit(v)) + s == Rest(Lit(w)) + t
    ensures v == w && s == t
  {
    var pv, pw := if v.LinkVar? then "link:" else "node:", if w.LinkVar? then "link:" else "node:";
    Text.Assoc(pv, v.name, s);
    Text.Assoc(pw, w.name, t);
    if v.LinkVar? != w.LinkVar? {
      Text.HeadDiffers(pv, pw, v.name + s, w.name + t);
    } else {
      Text.DropHead(pv, v.name + s, w.name + t);
      CleanNamePrefix(v.name, w.name, s, t);
    }
  }

  /**
   A key can be read back: whatever follows it, only one condition with clean names
   starts the text.
   */
  lemma {:induction false} KeyPrefix(a: Cond, b: Cond, s: string, t: string)
    requires Clean(a) && Clean(b) && Stop(s) && Stop(t)
    requires Key(a) + s == Key(b) + t
    ensures a == b && s == t
    decreases a, 1
  {
    TagsAgree(a, b, s, t);
    match a
    case True => assert "" + s == s && "" + t == t;
    case False => assert "" + s == s && "" + t == t;
    case Lit(v) => VarPrefix(v, b.v, s, t);
    case Nary(op, args) =>
      Text.Assoc(JoinedKeys(args), ")", s);
      Text.Assoc(JoinedKeys(b.args), ")", t);
      KeysPrefix(args, b.args, ")" + s, ")" + t);
      Text.DropHead(")", s, t);
    case Neg(x) =>
      Text.Assoc(Key(x), ")", s);
      Text.Assoc(Key(b.arg), ")", t);
      KeyPrefix(x, b.arg, ")" + s, ")" + t);
      Text.DropHead(")", s, t);
  }

  lemma KeyStartsWithLetter(c: Cond)
    ensures Key(c) != "" && Key(c)[0] != ')' && Key(c)[0] != ','
  {
    KeySplits(c);
  }

  lemma JoinedKeysCons(cs: seq<Cond>)
    requires cs != []
    ensures JoinedKeys(cs) == Key(cs[0]) + JoinedTail(cs)
  {
    assert Keys(cs)[1..] == Keys(cs[1..]);
    Text.JoinCons(Keys(cs), ",");
  }

  /** The same for a list of keys up to its closing parenthesis. */
  lemma {:induction false} KeysPrefix(xs: seq<Cond>, ys: seq<Cond>, s: string, t: string)
    requires CleanAll(xs) && CleanAll(ys)
    requires s != "" && t != "" && s[0] == t[0] == ')'
    requires JoinedKeys(xs) + s == JoinedKeys(ys) + t
    ensures xs == ys && s == t
    decreases xs, 0
  {
    assert "" + s == s && "" + t == t;
    if xs == [] || ys == [] {
      if xs != [] {
        KeyStartsWithLetter(xs[0]);
        JoinedKeysCons(xs);
        Text.HeadDiffers(JoinedKeys(xs), t, s, "");
      } else if ys != [] {
        KeyStartsWithLetter(ys[0]);
        JoinedKeysCons(ys);
        Text.HeadDiffers(JoinedKeys(ys), s, t, "");
      }
    } else {
      JoinedKeysCons(xs);
      JoinedKeysCons(ys);
      Text.Assoc(Key(xs[0]), JoinedTail(xs), s);
      Text.Assoc(Key(ys[0]), JoinedTail(ys), t);
      KeyPrefix(xs[0], ys[0], JoinedTail(xs) + s, JoinedTail(ys) + t);
      TailsPrefix(xs, ys, s, t);
    }
  }

  lemma {:induction false} TailsPrefix(xs: seq<Cond>, ys: seq<Cond>, s: string, t: string)
    requires xs != [] && ys != [] && xs[0] == ys[0] && CleanAll(xs) && CleanAll(ys)
    requires s != "" && t != "" && s[0] == t[0] == ')'
    requires JoinedTail(xs) + s == JoinedTail(ys) + t
    ensures xs == ys && s == t
    decreases xs[1..], 1
  {
    assert "" + s == s && "" + t == t;
    assert xs == [xs[0]] + xs[1..] && ys == [ys[0]] + ys[1..];
    Text.Assoc(",", JoinedKeys(xs[1..]), s);
    Text.Assoc(",", JoinedKeys(ys[1..]), t);
    if |xs| > 1 && |ys| > 1 {
      Text.DropHead(",", JoinedKeys(xs[1..]) + s, JoinedKeys(ys[1..]) + t);
      KeysPrefix(xs[1..], ys[1..], s, t);
    }
  }

  /** Equal keys mean equal conditions, as long as every name is clean. */
  lemma KeyInjective(a: Cond, b: Cond)
    requires Clean(a) && Clean(b)
    ensures Key(a) == Key(b) <==> a == b
  {
    if Key(a) == Key(b) {
      assert Key(a) + "" == Key(a) && Key(b) + "" == Key(b);
      KeyPrefix(a, b, "", "");
    }
  }

  /** One comma in a name is enough for two different conditions to share a key. */
  lemma KeyCollision()
    ensures
      var two := Nary(OrOp, [Lit(LinkVar("a")), Lit(LinkVar("b"))]);
      var one := Nary(OrOp, [Lit(LinkVar("a,var:link:b"))]);
      && Key(two) == Key(one)
      && var ctx := Context(FailureSet({"a,var:link:b"}, {}), map[]);
         Eval(two, ctx) && !Eval(one, ctx)
  {
    var x, y, z := Lit(LinkVar("a")), Lit(LinkVar("b")), Lit(LinkVar("a,var:link:b"));
    JoinedKeysCons([x, y]);
    JoinedKeysCons([y]);
    JoinedKeysCons([z]);
    assert [x, y][1..] == [y];
    assert JoinedKeys([x, y]) == Key(x) + ("," + Key(y));
    assert JoinedKeys([z]) == Key(z);
    CollisionText();
    var ctx := Context(FailureSet({"a,var:link:b"}, {}), map[]);
    EvalOr([x, y], ctx);
    EvalOr([z], ctx);
    assert x in [x, y];
  }

  lemma CollisionText()
    ensures "var:link:" + "a" + ("," + ("var:link:" + "b")) == "var:link:" + "a,var:link:b"
  {
  }
}
