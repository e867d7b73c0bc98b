/** What is read off a shortest-path tree: one representative path, and a condition. */
module SpfPaths {
  import opened Failure
  import opened Conditions
  import opened NormalForms
  import opened Graph
  import opened Spf
  import opened Wrappers

  /** Predecessors are strictly nearer, so following them ends. */
  ghost predicate Descending(tree: Tree) {
    forall v, p :: v in tree && tree[v].cost < UNREACHABLE && p in tree[v].preds ==>
      p.node in tree && 0 <= tree[p.node].cost < tree[v].cost
  }

  ghost function Rank(tree: Tree, v: string): nat {
    if v in tree && tree[v].cost >= 0 then tree[v].cost else 0
  }

  lemma TreeDescends(adjacencies: Adjacencies, src: string, tree: Tree)
    requires Positive(adjacencies) && IsTree(adjacencies, src, tree)
    ensures NonNegative(adjacencies) && Descending(tree)
  {
    forall v, p | v in tree && tree[v].cost < UNREACHABLE && p in tree[v].preds
      ensures p.node in tree && 0 <= tree[p.node].cost < tree[v].cost
    {
      var h :| TightHop(adjacencies, tree, h, v) && p == PredOf(h.node, h.adj);
      assert h.adj in adjacencies(h.node);
    }
  }

  /** The last hop of a shortest walk is tight, and the walk up to it is shortest. */
  lemma LastHopTight(adjacencies: Adjacencies, src: string, tree: Tree, w: seq<Hop>, v: string)
    requires NonNegative(adjacencies) && IsTree(adjacencies, src, tree)
    requires Walk(adjacencies, tree.Keys, src, w, v) && w != [] && Length(w) == tree[v].cost < UNREACHABLE
    ensures
      var h, before := w[|w| - 1], w[..|w| - 1];
      && TightHop(adjacencies, tree, h, v)
      && PredOf(h.node, h.adj) in tree[v].preds
      && Walk(adjacencies, tree.Keys, src, before, h.node) && Length(before) == tree[h.node].cost
  {
    var h, before := w[|w| - 1], w[..|w| - 1];
    TreeIsShortest(adjacencies, src, tree, before, h.node);
    assert h.adj in adjacencies(h.node) && h.adj.cost >= 0;
    assert TightHop(adjacencies, tree, h, v);
  }

  ghost predicate ShortestWalk(adjacencies: Adjacencies, src: string, tree: Tree, w: seq<Hop>, dst: string) {
    && dst in tree && tree[dst].cost < UNREACHABLE
    && Walk(adjacencies, tree.Keys, src, w, dst)
    && Length(w) == tree[dst].cost
  }

  lemma ReachedByWalk(adjacencies: Adjacencies, src: string, tree: Tree, v: string) returns (w: seq<Hop>)
    requires IsTree(adjacencies, src, tree) && v in tree && tree[v].cost < UNREACHABLE
    ensures ShortestWalk(adjacencies, src, tree, w, v)
  {
    w :| Walk(adjacencies, tree.Keys, src, w, v) && Length(w) == tree[v].cost;
  }

  lemma PredHop(adjacencies: Adjacencies, src: string, tree: Tree, v: string, p: Pred) returns (h: Hop)
    requires IsTree(adjacencies, src, tree) && v in tree && p in tree[v].preds
    ensures TightHop(adjacencies, tree, h, v) && p == PredOf(h.node, h.adj)
  {
    h :| TightHop(adjacencies, tree, h, v) && p == PredOf(h.node, h.adj);
  }

  lemma ExtendShortest(adjacencies: Adjacencies, src: string, tree: Tree, w: seq<Hop>, h: Hop, v: string)
    requires ShortestWalk(adjacencies, src, tree, w, h.node) && TightHop(adjacencies, tree, h, v)
    requires tree[v].cost < UNREACHABLE
    ensures ShortestWalk(adjacencies, src, tree, w + [h], v)
    ensures (w + [h])[..|w|] == w
  {
    assert (w + [h])[..|w|] == w;
  }

  lemma SourceWalk(adjacencies: Adjacencies, src: string, tree: Tree)
    requires IsTree(adjacencies, src, tree)
    ensures ShortestWalk(adjacencies, src, tree, [], src)
  {
  }

  /** Only the source is reached without a hop. */
  lemma NeedsPred(adjacencies: Adjacencies, src: string, tree: Tree, v: string)
    requires NonNegative(adjacencies) && IsTree(adjacencies, src, tree)
    requires v in tree && tree[v].cost < UNREACHABLE && v != src
    ensures tree[v].preds != []
  {
    var w := ReachedByWalk(adjacencies, src, tree, v);
    LastHopTight(adjacencies, src, tree, w, v);
  }

  // ---------- one path ----------

  /** Follows the first predecessor back to the source. */
  function RepresentativePath(src: string, dst: string, tree: Tree): Option<Route>
    requires Descending(tree)
    decreases Rank(tree, dst)
  {
    if src == dst then Some(Route([src], [], []))
    else if dst !in tree || tree[dst].cost >= UNREACHABLE || tree[dst].preds == [] then None
    else
      var pred := tree[dst].preds[0];
      match RepresentativePath(src, pred.node, tree)
      case None => None
      case Some(r) => Some(Route(r.nodes + [dst], r.links + [pred.link], r.areas + [pred.area]))
  }

  /** A path is found exactly for the nodes reached, and it is a shortest walk. */
  lemma {:induction false} RepresentativeIsShortest(adjacencies: Adjacencies, src: string, dst: string, tree: Tree)
    requires Positive(adjacencies) && IsTree(adjacencies, src, tree) && Descending(tree)
    ensures RepresentativePath(src, dst, tree).Some? <==> dst in tree && tree[dst].cost < UNREACHABLE
    ensures RepresentativePath(src, dst, tree).Some? ==>
      exists w :: ShortestWalk(adjacencies, src, tree, w, dst)
        && RepresentativePath(src, dst, tree).value == RouteOf(src, w)
    decreases Rank(tree, dst)
  {
    TreeDescends(adjacencies, src, tree);
    SourceWalk(adjacencies, src, tree);
    hide IsTree, Walk, Length, Positive, NonNegative, TightHop;
    if src != dst && dst in tree && tree[dst].cost < UNREACHABLE {
      NeedsPred(adjacencies, src, tree, dst);
      var pred := tree[dst].preds[0];
      var h := PredHop(adjacencies, src, tree, dst, pred);
      TightHopTo(adjacencies, tree, h, dst);
      RepresentativeIsShortest(adjacencies, src, pred.node, tree);
      var w :| ShortestWalk(adjacencies, src, tree, w, pred.node)
        && RepresentativePath(src, pred.node, tree).value == RouteOf(src, w);
      ExtendShortest(adjacencies, src, tree, w, h, dst);
      assert RepresentativePath(src, dst, tree).value == RouteOf(src, w + [h]);
    }
  }

  lemma TightHopTo(adjacencies: Adjacencies, tree: Tree, h: Hop, v: string)
    requires TightHop(adjacencies, tree, h, v)
    ensures h.adj.to == v && h.adj in adjacencies(h.node)
  {
  }

  // ---------- the condition ----------

  /** The condition without sharing: some predecessor is reached, its link and this node are up. */
  function CondOf(src: string, dst: string, tree: Tree): Cond
    requires Descending(tree)
    decreases Rank(tree, dst)
  {
    if src == dst then Lit(NodeVar(src))
    else if dst !in tree || tree[dst].cost >= UNREACHABLE || tree[dst].preds == [] then False
    else
      var preds := tree[dst].preds;
      Or(seq(|preds|, i requires 0 <= i < |preds| =>
        And([CondOf(src, preds[i].node, tree), Lit(LinkVar(preds[i].link)), Lit(NodeVar(dst))])))
  }

  /** The memo table shared by the recursive calls. */
  class Memo {
    var conds: map<string, Cond>

    constructor ()
      ensures conds == map[]
    {
      conds := map[];
    }

    ghost predicate ValidFor(src: string, tree: Tree)
      requires Descending(tree)
      reads this
    {
      forall v :: v in conds ==> conds[v] == CondOf(src, v, tree)
    }
  }

  /** SPFCondition: every node's condition is computed once, and sharing changes nothing. */
  method SPFCondition(src: string, dst: string, tree: Tree, memo: Memo) returns (cond: Cond)
    requires Descending(tree) && memo.ValidFor(src, tree)
    modifies memo
    ensures cond == CondOf(src, dst, tree)
    ensures memo.ValidFor(src, tree)
    decreases Rank(tree, dst)
  {
    if dst in memo.conds {
      return memo.conds[dst];
    }
    if src == dst {
      cond := Lit(NodeVar(src));
      memo.conds := memo.conds[dst := cond];
      return;
    }
    if dst !in tree || tree[dst].cost >= UNREACHABLE || tree[dst].preds == [] {
      return False;
    }
    var preds := tree[dst].preds;
    var branches: seq<Cond> := [];
    for i := 0 to |preds|
      invariant memo.ValidFor(src, tree)
      invariant |branches| == i
      invariant forall j :: 0 <= j < i ==>
        branches[j] == And([CondOf(src, preds[j].node, tree), Lit(LinkVar(preds[j].link)), Lit(NodeVar(dst))])
    {
      assert preds[i] in preds;
      var below := SPFCondition(src, preds[i].node, tree, memo);
      branches := branches + [And([below, Lit(LinkVar(preds[i].link)), Lit(NodeVar(dst))])];
    }
    cond := Or(branches);
    assert branches == seq(|preds|, i requires 0 <= i < |preds| =>
      And([CondOf(src, preds[i].node, tree), Lit(LinkVar(preds[i].link)), Lit(NodeVar(dst))]));
    memo.conds := memo.conds[dst := cond];
  }

  ghost predicate CleanGraph(adjacencies: Adjacencies, src: string) {
    && CleanName(src)
    && forall u, i :: 0 <= i < |adjacencies(u)| ==> CleanName(adjacencies(u)[i].to) && CleanName(adjacencies(u)[i].link)
  }

  /** Every node and every link of the walk is up. */
  ghost predicate WalkUp(src: string, w: seq<Hop>, ctx: Context) {
    && !ctx.NodeFailed(src)
    && forall i :: 0 <= i < |w| ==> !ctx.LinkFailed(w[i].adj.link) && !ctx.NodeFailed(w[i].adj.to)
  }

  lemma BranchMeans(below: Cond, link: string, node: string, ctx: Context)
    requires Clean(below) && CleanName(link) && CleanName(node)
    ensures Clean(And([below, Lit(LinkVar(link)), Lit(NodeVar(node))]))
    ensures Eval(And([below, Lit(LinkVar(link)), Lit(NodeVar(node))]), ctx) <==>
      Eval(below, ctx) && !ctx.LinkFailed(link) && !ctx.NodeFailed(node)
  {
    var x, y := Lit(LinkVar(link)), Lit(NodeVar(node));
    FlattenClean(AndOp, [below, x, y]);
    AndMeans([below, x, y], ctx);
    assert below in [below, x, y] && x in [below, x, y] && y in [below, x, y];
    assert forall z :: z in [below, x, y] ==> z == below || z == x || z == y;
  }

  /** The condition is true exactly when some shortest walk is entirely up. */
  lemma {:induction false} ConditionExact(adjacencies: Adjacencies, src: string, dst: string, tree: Tree, ctx: Context)
    requires Positive(adjacencies) && IsTree(adjacencies, src, tree) && Descending(tree) && CleanGraph(adjacencies, src)
    ensures Clean(CondOf(src, dst, tree))
    ensures Eval(CondOf(src, dst, tree), ctx) <==>
      exists w :: ShortestWalk(adjacencies, src, tree, w, dst) && WalkUp(src, w, ctx)
    decreases Rank(tree, dst)
  {
    TreeDescends(adjacencies, src, tree);
    if src == dst {
      ConditionAtSource(adjacencies, src, tree, ctx);
    } else if dst in tree && tree[dst].cost < UNREACHABLE {
      NeedsPred(adjacencies, src, tree, dst);
      BranchesCover(adjacencies, src, dst, tree, ctx);
      hide IsTree, Walk, Length, NonNegative, TightHop, ShortestWalk, Eval, And, Flatten;
      var preds := tree[dst].preds;
      var branches := seq(|preds|, i requires 0 <= i < |preds| =>
        And([CondOf(src, preds[i].node, tree), Lit(LinkVar(preds[i].link)), Lit(NodeVar(dst))]));
      forall i | 0 <= i < |preds|
        ensures Clean(branches[i])
        ensures Eval(branches[i], ctx) <==> BranchUp(adjacencies, src, tree, dst, preds[i], ctx)
      {
        var h := PredHop(adjacencies, src, tree, dst, preds[i]);
        TightHopTo(adjacencies, tree, h, dst);
        ConditionExact(adjacencies, src, preds[i].node, tree, ctx);
        BranchMeans(CondOf(src, preds[i].node, tree), preds[i].link, dst, ctx);
      }
      OrOfBranches(adjacencies, src, dst, tree, branches, ctx);
    }
  }

  lemma OrOfBranches(adjacencies: Adjacencies, src: string, dst: string, tree: Tree, branches: seq<Cond>, ctx: Context)
    requires dst in tree && |branches| == |tree[dst].preds| && CleanAll(branches)
    requires forall i :: 0 <= i < |branches| ==>
      (Eval(branches[i], ctx) <==> BranchUp(adjacencies, src, tree, dst, tree[dst].preds[i], ctx))
    ensures Clean(Or(branches))
    ensures Eval(Or(branches), ctx) <==>
        exists p :: p in tree[dst].preds && BranchUp(adjacencies, src, tree, dst, p, ctx)
  {
    hide BranchUp, Eval, Flatten, Or;
    var preds := tree[dst].preds;
    FlattenClean(OrOp, branches);
    assert Or(branches) == Flatten(OrOp, branches) by {
      OrIsFlatten(branches);
    }
    OrMeans(branches, ctx);
    if x :| x in branches && Eval(x, ctx) {
      var i :| 0 <= i < |branches| && branches[i] == x;
      assert preds[i] in preds;
    }
    if p: Pred :| p in preds && BranchUp(adjacencies, src, tree, dst, p, ctx) {
      var i :| 0 <= i < |preds| && preds[i] == p;
      assert branches[i] in branches;
    }
  }

  lemma OrIsFlatten(cs: seq<Cond>)
    ensures Or(cs) == Flatten(OrOp, cs)
  {
  }

  lemma ConditionAtSource(adjacencies: Adjacencies, src: string, tree: Tree, ctx: Context)
    requires Positive(adjacencies) && IsTree(adjacencies, src, tree) && Descending(tree) && CleanName(src)
    ensures Clean(CondOf(src, src, tree))
    ensures Eval(CondOf(src, src, tree), ctx) <==>
      exists w :: ShortestWalk(adjacencies, src, tree, w, src) && WalkUp(src, w, ctx)
  {
    if !ctx.NodeFailed(src) {
      assert ShortestWalk(adjacencies, src, tree, [], src) && WalkUp(src, [], ctx);
    }
  }

  /** A walk that is up leads to the predecessor, and its link and dst are up. */
  ghost predicate BranchUp(adjacencies: Adjacencies, src: string, tree: Tree, dst: string, p: Pred, ctx: Context) {
    && !ctx.LinkFailed(p.link) && !ctx.NodeFailed(dst)
    && exists w :: ShortestWalk(adjacencies, src, tree, w, p.node) && WalkUp(src, w, ctx)
  }

  lemma BranchesCover(adjacencies: Adjacencies, src: string, dst: string, tree: Tree, ctx: Context)
    requires Positive(adjacencies) && NonNegative(adjacencies) && IsTree(adjacencies, src, tree)
    requires src != dst && dst in tree && tree[dst].cost < UNREACHABLE
    ensures (exists p :: p in tree[dst].preds && BranchUp(adjacencies, src, tree, dst, p, ctx)) <==>
      exists w :: ShortestWalk(adjacencies, src, tree, w, dst) && WalkUp(src, w, ctx)
  {
    hide IsTree, Walk, Length, Positive, NonNegative, TightHop;
    if w: seq<Hop> :| ShortestWalk(adjacencies, src, tree, w, dst) && WalkUp(src, w, ctx) {
      NotSource(adjacencies, src, tree, w, dst);
      LastHopTight(adjacencies, src, tree, w, dst);
      var h, before := w[|w| - 1], w[..|w| - 1];
      TightHopTo(adjacencies, tree, h, dst);
      TightHopFrom(adjacencies, tree, h, dst);
      assert ShortestWalk(adjacencies, src, tree, before, h.node) && WalkUp(src, before, ctx);
      assert BranchUp(adjacencies, src, tree, dst, PredOf(h.node, h.adj), ctx);
    }
    if p: Pred :| p in tree[dst].preds && BranchUp(adjacencies, src, tree, dst, p, ctx) {
      var h := PredHop(adjacencies, src, tree, dst, p);
      TightHopTo(adjacencies, tree, h, dst);
      var w :| ShortestWalk(adjacencies, src, tree, w, p.node) && WalkUp(src, w, ctx);
      ExtendShortest(adjacencies, src, tree, w, h, dst);
      assert WalkUp(src, w + [h], ctx);
    }
  }

  lemma NotSource(adjacencies: Adjacencies, src: string, tree: Tree, w: seq<Hop>, dst: string)
    requires Walk(adjacencies, tree.Keys, src, w, dst) && src != dst
    ensures w != []
  {
  }

  lemma TightHopFrom(adjacencies: Adjacencies, tree: Tree, h: Hop, v: string)
    requires TightHop(adjacencies, tree, h, v)
    ensures h.node in tree && tree[h.node].cost < UNREACHABLE
  {
  }
}
