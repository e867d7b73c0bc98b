/** ShortestPathTree: Dijkstra's algorithm keeping every equal-cost predecessor. */
module Spf {
  import opened Graph
  import Sorting
  import Text

  /** math.MaxInt, the cost of a node not reached. */
  const UNREACHABLE: int := 0x7fff_ffff_ffff_ffff

  datatype Pred = Pred(node: string, link: string, area: string)

  datatype SpfNode = SpfNode(cost: int, preds: seq<Pred>)

  type Tree = map<string, SpfNode>

  datatype Item = Item(node: string, cost: int)

  predicate PredLess(a: Pred, b: Pred) {
    if a.node == b.node then Text.Less(a.link, b.link) else Text.Less(a.node, b.node)
  }

  predicate ItemLess(a: Item, b: Item) {
    if a.cost == b.cost then Text.Less(a.node, b.node) else a.cost < b.cost
  }

  function PredOf(node: string, adj: Adjacency): Pred {
    Pred(node, adj.link, adj.area)
  }

  // ---------- what the tree promises ----------

  /** The hop ends in v and lies on a shortest path to it. */
  ghost predicate TightHop(adjacencies: Adjacencies, tree: Tree, h: Hop, v: string) {
    && v in tree
    && Edge(adjacencies, tree.Keys, h)
    && h.adj.to == v
    && tree[h.node].cost < UNREACHABLE
    && tree[h.node].cost + h.adj.cost == tree[v].cost
  }

  /** By name of the node, and by name of the link among those from one node. */
  ghost predicate ByNodeThenLink(preds: seq<Pred>) {
    forall i, j :: 0 <= i < j < |preds| ==>
      if preds[i].node == preds[j].node then !Text.Less(preds[j].link, preds[i].link)
      else !Text.Less(preds[j].node, preds[i].node)
  }

  ghost predicate IsTree(adjacencies: Adjacencies, src: string, tree: Tree) {
    && src in tree && tree[src].cost == 0
    && (forall v :: v in tree ==> 0 <= tree[v].cost <= UNREACHABLE)
    && (forall v :: v in tree && tree[v].cost < UNREACHABLE ==>
          exists w :: Walk(adjacencies, tree.Keys, src, w, v) && Length(w) == tree[v].cost)
    && (forall h :: Edge(adjacencies, tree.Keys, h) && tree[h.node].cost < UNREACHABLE ==>
          tree[h.adj.to].cost <= tree[h.node].cost + h.adj.cost)
    && (forall v, p :: v in tree ==>
          (p in tree[v].preds <==> exists h ::
            TightHop(adjacencies, tree, h, v) && p == Pred(h.node, h.adj.link, h.adj.area)))
    && (forall v :: v in tree ==> ByNodeThenLink(tree[v].preds))
  }

  /** No adjacency of a node is listed twice. */
  ghost predicate Distinct(adjacencies: Adjacencies) {
    forall u, i, j :: 0 <= i < j < |adjacencies(u)| ==>
      adjacencies(u)[i].to != adjacencies(u)[j].to || PredOf(u, adjacencies(u)[i]) != PredOf(u, adjacencies(u)[j])
  }

  /** No walk is shorter than the tree says. */
  lemma {:induction false} TreeIsShortest(adjacencies: Adjacencies, src: string, tree: Tree, w: seq<Hop>, v: string)
    requires NonNegative(adjacencies) && IsTree(adjacencies, src, tree)
    requires Walk(adjacencies, tree.Keys, src, w, v)
    ensures v in tree && tree[v].cost <= Length(w)
  {
    if w != [] {
      var h := w[|w| - 1];
      TreeIsShortest(adjacencies, src, tree, w[..|w| - 1], h.node);
      assert h.adj in adjacencies(h.node);
    }
  }

  /** The cost of a node is below the greatest integer exactly when some walk of such a length leads there. */
  lemma ReachedExactly(adjacencies: Adjacencies, src: string, tree: Tree, v: string)
    requires NonNegative(adjacencies) && IsTree(adjacencies, src, tree) && v in tree
    ensures tree[v].cost <= 0x7fff_ffff_ffff_ffff
    ensures tree[v].cost < 0x7fff_ffff_ffff_ffff <==>
      exists w :: Walk(adjacencies, tree.Keys, src, w, v) && Length(w) < 0x7fff_ffff_ffff_ffff
  {
    if w :| Walk(adjacencies, tree.Keys, src, w, v) && Length(w) < 0x7fff_ffff_ffff_ffff {
      TreeIsShortest(adjacencies, src, tree, w, v);
    }
  }

  // ---------- the invariant of the search ----------

  /** The adjacencies relaxed so far: all of the settled nodes, the first i of the current one. */
  ghost predicate Relaxed(settled: set<string>, cur: string, i: int, u: string, j: int) {
    u in settled || (u == cur && j < i)
  }

  ghost predicate RelaxedTo(adjacencies: Adjacencies, tree: Tree, settled: set<string>, cur: string, i: int,
                            u: string, j: int, v: string) {
    && u in tree
    && 0 <= j < |adjacencies(u)|
    && Relaxed(settled, cur, i, u, j)
    && adjacencies(u)[j].to == v
  }

  ghost predicate BoundsOk(src: string, tree: Tree) {
    && src in tree && tree[src].cost == 0
    && forall v :: v in tree ==> 0 <= tree[v].cost <= UNREACHABLE
  }

  ghost predicate WalksOk(adjacencies: Adjacencies, src: string, tree: Tree, via: map<string, seq<Hop>>) {
    forall v :: v in tree && tree[v].cost < UNREACHABLE ==>
      v in via && Walk(adjacencies, tree.Keys, src, via[v], v) && Length(via[v]) == tree[v].cost
  }

  ghost predicate CostsOk(adjacencies: Adjacencies, tree: Tree, settled: set<string>, cur: string, i: int) {
    forall u, j, v :: RelaxedTo(adjacencies, tree, settled, cur, i, u, j, v) && v in tree ==>
      tree[v].cost <= tree[u].cost + adjacencies(u)[j].cost
  }

  ghost predicate TightPred(adjacencies: Adjacencies, tree: Tree, settled: set<string>, cur: string, i: int,
                            v: string, p: Pred)
    requires v in tree
  {
    exists j :: RelaxedTo(adjacencies, tree, settled, cur, i, p.node, j, v)
      && p == PredOf(p.node, adjacencies(p.node)[j])
      && tree[p.node].cost + adjacencies(p.node)[j].cost == tree[v].cost
  }

  ghost predicate PredsOk(adjacencies: Adjacencies, tree: Tree, settled: set<string>, cur: string, i: int) {
    && (forall v, p :: v in tree ==> (p in tree[v].preds <==> TightPred(adjacencies, tree, settled, cur, i, v, p)))
    && (forall v :: v in tree ==> Sorting.Sorted(tree[v].preds, PredLess))
    && (Distinct(adjacencies) ==> forall v :: v in tree ==> Sorting.NoDuplicates(tree[v].preds))
  }

  /** Settled nodes are final; every other node reached waits in the queue with its cost. */
  ghost predicate QueueOk(tree: Tree, settled: set<string>, cur: string, q: multiset<Item>, level: int) {
    && settled <= tree.Keys
    && level >= 0
    && (forall u :: u in tree && (u in settled || u == cur) ==>
          tree[u].cost <= level && tree[u].cost < UNREACHABLE && Item(u, tree[u].cost) !in q)
    && (forall x :: x in q ==>
          q[x] == 1 && x.node in tree && level <= x.cost < UNREACHABLE && tree[x.node].cost <= x.cost)
    && (forall v :: v in tree && v !in settled && v != cur && tree[v].cost < UNREACHABLE ==> Item(v, tree[v].cost) in q)
  }

  ghost predicate Invariant(adjacencies: Adjacencies, src: string, tree: Tree, via: map<string, seq<Hop>>,
                            settled: set<string>, cur: string, i: int, q: multiset<Item>, level: int)
  {
    && BoundsOk(src, tree)
    && WalksOk(adjacencies, src, tree, via)
    && CostsOk(adjacencies, tree, settled, cur, i)
    && PredsOk(adjacencies, tree, settled, cur, i)
    && QueueOk(tree, settled, cur, q, level)
  }

  // ---------- one relaxation ----------

  lemma PredOrder()
    ensures Sorting.WeakOrder(PredLess)
  {
    forall a, b | PredLess(a, b)
      ensures !PredLess(b, a)
    {
      Text.LessAsymmetric(if a.node == b.node then a.link else a.node, if a.node == b.node then b.link else b.node);
    }
    forall a, b, c | !PredLess(b, a) && !PredLess(c, b)
      ensures !PredLess(c, a)
    {
      Text.LessTotal(a.node, b.node);
      Text.LessTotal(b.node, c.node);
      Text.LessTotal(a.link, b.link);
      Text.LessTotal(b.link, c.link);
      Text.LessIrreflexive(a.node);
      Text.LessIrreflexive(a.link);
      if PredLess(c, a) {
        if a.node == b.node && b.node == c.node {
          if a.link != b.link {
            Text.LessTransitive(c.link, a.link, b.link);
          }
        } else if a.node != b.node {
          if c.node != a.node {
            Text.LessTransitive(c.node, a.node, b.node);
          }
          Text.LessAsymmetric(a.node, b.node);
          if b.node != c.node {
            Text.LessAsymmetric(b.node, c.node);
          }
        } else {
          Text.LessAsymmetric(b.node, c.node);
        }
      }
    }
  }

  /** The adjacency being looked at, and the facts every case shares. */
  ghost predicate AtHop(adjacencies: Adjacencies, tree: Tree, settled: set<string>, cur: string, i: nat) {
    cur in tree && cur !in settled && i < |adjacencies(cur)|
  }

  /** Costs only fall, and not below the hop just looked at. */
  lemma CostsAdvance(adjacencies: Adjacencies, tree: Tree, tree': Tree, settled: set<string>, cur: string, i: nat)
    requires AtHop(adjacencies, tree, settled, cur, i) && CostsOk(adjacencies, tree, settled, cur, i)
    requires tree'.Keys == tree.Keys && forall y :: y in tree ==> tree'[y].cost <= tree[y].cost
    requires forall u :: u in tree && (u in settled || u == cur) ==> tree'[u].cost == tree[u].cost
    requires
      var a := adjacencies(cur)[i];
      a.to in tree ==> tree'[a.to].cost <= tree[cur].cost + a.cost
    ensures CostsOk(adjacencies, tree', settled, cur, i + 1)
  {
    forall u, j, x | RelaxedTo(adjacencies, tree', settled, cur, i + 1, u, j, x) && x in tree'
      ensures tree'[x].cost <= tree'[u].cost + adjacencies(u)[j].cost
    {
      if !(u == cur && j == i) {
        assert RelaxedTo(adjacencies, tree, settled, cur, i, u, j, x);
      }
    }
  }

  /** Only a node that is not settled can become cheaper. */
  lemma ImproveOpen(adjacencies: Adjacencies, src: string, tree: Tree, via: map<string, seq<Hop>>,
                    settled: set<string>, cur: string, i: nat, q: multiset<Item>, level: int)
    requires NonNegative(adjacencies) && AtHop(adjacencies, tree, settled, cur, i)
    requires BoundsOk(src, tree) && WalksOk(adjacencies, src, tree, via) && QueueOk(tree, settled, cur, q, level)
    requires tree[cur].cost == level && adjacencies(cur)[i].to in tree
    requires level + adjacencies(cur)[i].cost < tree[adjacencies(cur)[i].to].cost
    ensures adjacencies(cur)[i].cost >= 0 && cur in via
    ensures adjacencies(cur)[i].to !in settled && adjacencies(cur)[i].to != cur && adjacencies(cur)[i].to != src
  {
  }

  lemma ImproveWalks(adjacencies: Adjacencies, src: string, tree: Tree, via: map<string, seq<Hop>>, cur: string,
                     a: Adjacency, n: SpfNode)
    requires WalksOk(adjacencies, src, tree, via)
    requires cur in tree && tree[cur].cost < UNREACHABLE && a in adjacencies(cur) && a.to in tree
    requires n.cost == tree[cur].cost + a.cost
    ensures WalksOk(adjacencies, src, tree[a.to := n], via[a.to := via[cur] + [Hop(cur, a)]])
  {
    assert tree[a.to := n].Keys == tree.Keys;
    assert (via[cur] + [Hop(cur, a)])[..|via[cur]|] == via[cur];
    assert Edge(adjacencies, tree.Keys, Hop(cur, a));
  }

  lemma ImproveQueue(tree: Tree, settled: set<string>, cur: string, q: multiset<Item>, level: int, v: string,
                     n: SpfNode)
    requires QueueOk(tree, settled, cur, q, level)
    requires v in tree && v != cur && v !in settled && level <= n.cost < tree[v].cost <= UNREACHABLE
    ensures QueueOk(tree[v := n], settled, cur, q + multiset{Item(v, n.cost)}, level)
  {
    assert Item(v, n.cost) !in q;
  }

  /** A strictly cheaper way to v: one predecessor, and v waits with the new cost. */
  lemma Improve(adjacencies: Adjacencies, src: string, tree: Tree, via: map<string, seq<Hop>>,
                settled: set<string>, cur: string, i: nat, q: multiset<Item>, level: int,
                tree': Tree, via': map<string, seq<Hop>>, q': multiset<Item>)
    requires NonNegative(adjacencies) && AtHop(adjacencies, tree, settled, cur, i)
    requires Invariant(adjacencies, src, tree, via, settled, cur, i, q, level)
    requires tree[cur].cost == level && adjacencies(cur)[i].to in tree
    requires level + adjacencies(cur)[i].cost < tree[adjacencies(cur)[i].to].cost
    requires
      var a := adjacencies(cur)[i];
      && cur in via
      && tree' == tree[a.to := SpfNode(level + a.cost, [PredOf(cur, a)])]
      && via' == via[a.to := via[cur] + [Hop(cur, a)]]
      && q' == q + multiset{Item(a.to, level + a.cost)}
    ensures Invariant(adjacencies, src, tree', via', settled, cur, i + 1, q', level)
  {
    hide WalksOk, CostsOk, PredsOk, QueueOk;
    var a := adjacencies(cur)[i];
    var n := SpfNode(level + a.cost, [PredOf(cur, a)]);
    ImproveOpen(adjacencies, src, tree, via, settled, cur, i, q, level);
    ImproveWalks(adjacencies, src, tree, via, cur, a, n);
    ImproveQueue(tree, settled, cur, q, level, a.to, n);
    ImproveCosts(adjacencies, tree, settled, cur, i, n);
    ImprovePreds(adjacencies, tree, settled, cur, i, n);
  }

  lemma ImproveCosts(adjacencies: Adjacencies, tree: Tree, settled: set<string>, cur: string, i: nat, n: SpfNode)
    requires AtHop(adjacencies, tree, settled, cur, i) && CostsOk(adjacencies, tree, settled, cur, i)
    requires
      var a := adjacencies(cur)[i];
      && a.to in tree && a.to != cur && a.to !in settled
      && n.cost == tree[cur].cost + a.cost < tree[a.to].cost
    ensures CostsOk(adjacencies, tree[adjacencies(cur)[i].to := n], settled, cur, i + 1)
  {
    CostsAdvance(adjacencies, tree, tree[adjacencies(cur)[i].to := n], settled, cur, i);
  }

  lemma ImprovePreds(adjacencies: Adjacencies, tree: Tree, settled: set<string>, cur: string, i: nat, n: SpfNode)
    requires AtHop(adjacencies, tree, settled, cur, i)
    requires CostsOk(adjacencies, tree, settled, cur, i) && PredsOk(adjacencies, tree, settled, cur, i)
    requires
      var a := adjacencies(cur)[i];
      && a.to in tree && a.to != cur && a.to !in settled
      && n == SpfNode(tree[cur].cost + a.cost, [PredOf(cur, a)])
      && n.cost < tree[a.to].cost
    ensures PredsOk(adjacencies, tree[adjacencies(cur)[i].to := n], settled, cur, i + 1)
  {
    var tree' := tree[adjacencies(cur)[i].to := n];
    forall x, p | x in tree'
      ensures p in tree'[x].preds <==> TightPred(adjacencies, tree', settled, cur, i + 1, x, p)
    {
      ImprovePred(adjacencies, tree, tree', settled, cur, i, x, p);
    }
  }

  lemma ImprovePred(adjacencies: Adjacencies, tree: Tree, tree': Tree, settled: set<string>, cur: string, i: nat,
                    x: string, p: Pred)
    requires CostsOk(adjacencies, tree, settled, cur, i) && PredsOk(adjacencies, tree, settled, cur, i)
    requires cur in tree && cur !in settled && i < |adjacencies(cur)| && adjacencies(cur)[i].to in tree
    requires
      var a := adjacencies(cur)[i];
      && a.to != cur && a.to !in settled
      && tree[cur].cost + a.cost < tree[a.to].cost
      && tree' == tree[a.to := SpfNode(tree[cur].cost + a.cost, [PredOf(cur, a)])]
    requires x in tree'
    ensures p in tree'[x].preds <==> TightPred(adjacencies, tree', settled, cur, i + 1, x, p)
  {
    var a := adjacencies(cur)[i];
    if x == a.to {
      if p == PredOf(cur, a) {
        assert RelaxedTo(adjacencies, tree', settled, cur, i + 1, cur, i, x);
      }
      if TightPred(adjacencies, tree', settled, cur, i + 1, x, p) {
        var j :| RelaxedTo(adjacencies, tree', settled, cur, i + 1, p.node, j, x)
          && p == PredOf(p.node, adjacencies(p.node)[j])
          && tree'[p.node].cost + adjacencies(p.node)[j].cost == tree'[x].cost;
        if !(p.node == cur && j == i) {
          assert RelaxedTo(adjacencies, tree, settled, cur, i, p.node, j, x);
        }
      }
    } else {
      if TightPred(adjacencies, tree', settled, cur, i + 1, x, p) {
        var j :| RelaxedTo(adjacencies, tree', settled, cur, i + 1, p.node, j, x)
          && p == PredOf(p.node, adjacencies(p.node)[j])
          && tree'[p.node].cost + adjacencies(p.node)[j].cost == tree'[x].cost;
        assert RelaxedTo(adjacencies, tree, settled, cur, i, p.node, j, x);
      }
      if TightPred(adjacencies, tree, settled, cur, i, x, p) {
        var j :| RelaxedTo(adjacencies, tree, settled, cur, i, p.node, j, x)
          && p == PredOf(p.node, adjacencies(p.node)[j])
          && tree[p.node].cost + adjacencies(p.node)[j].cost == tree[x].cost;
        assert RelaxedTo(adjacencies, tree', settled, cur, i + 1, p.node, j, x);
      }
    }
  }

  /** One more predecessor of v. */
  lemma TiePreds(adjacencies: Adjacencies, tree: Tree, settled: set<string>, cur: string, i: nat, n: SpfNode)
    requires AtHop(adjacencies, tree, settled, cur, i) && PredsOk(adjacencies, tree, settled, cur, i)
    requires
      var a := adjacencies(cur)[i];
      && a.to in tree
      && tree[cur].cost + a.cost == tree[a.to].cost
      && n == SpfNode(tree[a.to].cost, Sorting.Sort(tree[a.to].preds + [PredOf(cur, a)], PredLess))
    ensures PredsOk(adjacencies, tree[adjacencies(cur)[i].to := n], settled, cur, i + 1)
  {
    var a := adjacencies(cur)[i];
    var all, tree' := tree[a.to].preds + [PredOf(cur, a)], tree[a.to := n];
    PredOrder();
    Sorting.SortSorts(all, PredLess);
    Sorting.SortMembers(all, PredLess);
    forall x, p | x in tree'
      ensures p in tree'[x].preds <==> TightPred(adjacencies, tree', settled, cur, i + 1, x, p)
    {
      AdvancePred(adjacencies, tree, tree', settled, cur, i, x, p);
    }
    if Distinct(adjacencies) {
      assert PredOf(cur, a) !in tree[a.to].preds;
      Sorting.SortNoDuplicates(all, PredLess);
    }
  }

  lemma SameCosts(tree: Tree, tree': Tree, settled: set<string>, cur: string, q: multiset<Item>, level: int)
    requires QueueOk(tree, settled, cur, q, level)
    requires tree'.Keys == tree.Keys && forall v :: v in tree ==> tree'[v].cost == tree[v].cost
    ensures QueueOk(tree', settled, cur, q, level)
  {
  }

  /** An equally cheap way to v. */
  lemma Tie(adjacencies: Adjacencies, src: string, tree: Tree, via: map<string, seq<Hop>>,
            settled: set<string>, cur: string, i: nat, q: multiset<Item>, level: int, n: SpfNode)
    requires AtHop(adjacencies, tree, settled, cur, i)
    requires Invariant(adjacencies, src, tree, via, settled, cur, i, q, level)
    requires tree[cur].cost == level && adjacencies(cur)[i].to in tree
    requires
      var a := adjacencies(cur)[i];
      && level + a.cost == tree[a.to].cost
      && n == SpfNode(tree[a.to].cost, Sorting.Sort(tree[a.to].preds + [PredOf(cur, a)], PredLess))
    ensures Invariant(adjacencies, src, tree[adjacencies(cur)[i].to := n], via, settled, cur, i + 1, q, level)
  {
    hide PredsOk, QueueOk;
    var tree' := tree[adjacencies(cur)[i].to := n];
    assert tree'.Keys == tree.Keys;
    assert QueueOk(tree', settled, cur, q, level) by {
      SameCosts(tree, tree', settled, cur, q, level);
    }
    TiePreds(adjacencies, tree, settled, cur, i, n);
    CostsAdvance(adjacencies, tree, tree', settled, cur, i);
  }

  /** Costs unchanged: the tight predecessors gain the adjacency just looked at, if it is tight. */
  lemma AdvancePred(adjacencies: Adjacencies, tree: Tree, tree': Tree, settled: set<string>, cur: string, i: nat,
                    x: string, p: Pred)
    requires tree'.Keys == tree.Keys && forall y :: y in tree ==> tree'[y].cost == tree[y].cost
    requires cur in tree && cur !in settled && i < |adjacencies(cur)| && x in tree
    ensures
      var a := adjacencies(cur)[i];
      TightPred(adjacencies, tree', settled, cur, i + 1, x, p) <==>
        || TightPred(adjacencies, tree, settled, cur, i, x, p)
        || (x == a.to && p == PredOf(cur, a) && tree[cur].cost + a.cost == tree[x].cost)
  {
    var a := adjacencies(cur)[i];
    if TightPred(adjacencies, tree', settled, cur, i + 1, x, p) {
      var j :| RelaxedTo(adjacencies, tree', settled, cur, i + 1, p.node, j, x)
        && p == PredOf(p.node, adjacencies(p.node)[j])
        && tree'[p.node].cost + adjacencies(p.node)[j].cost == tree'[x].cost;
      if !(p.node == cur && j == i) {
        assert RelaxedTo(adjacencies, tree, settled, cur, i, p.node, j, x);
      }
    }
    if TightPred(adjacencies, tree, settled, cur, i, x, p) {
      var j :| RelaxedTo(adjacencies, tree, settled, cur, i, p.node, j, x)
        && p == PredOf(p.node, adjacencies(p.node)[j])
        && tree[p.node].cost + adjacencies(p.node)[j].cost == tree[x].cost;
      assert RelaxedTo(adjacencies, tree', settled, cur, i + 1, p.node, j, x);
    }
    if x == a.to && p == PredOf(cur, a) && tree[cur].cost + a.cost == tree[x].cost {
      assert RelaxedTo(adjacencies, tree', settled, cur, i + 1, cur, i, x);
    }
  }

  /** A way that is no improvement, or that leaves the nodes considered. */
  lemma Skip(adjacencies: Adjacencies, src: string, tree: Tree, via: map<string, seq<Hop>>,
             settled: set<string>, cur: string, i: nat, q: multiset<Item>, level: int)
    requires AtHop(adjacencies, tree, settled, cur, i)
    requires Invariant(adjacencies, src, tree, via, settled, cur, i, q, level)
    requires tree[cur].cost == level
    requires adjacencies(cur)[i].to in tree ==> level + adjacencies(cur)[i].cost > tree[adjacencies(cur)[i].to].cost
    ensures Invariant(adjacencies, src, tree, via, settled, cur, i + 1, q, level)
  {
    CostsAdvance(adjacencies, tree, tree, settled, cur, i);
    forall x, p | x in tree
      ensures p in tree[x].preds <==> TightPred(adjacencies, tree, settled, cur, i + 1, x, p)
    {
      AdvancePred(adjacencies, tree, tree, settled, cur, i, x, p);
    }
  }

  // ---------- the queue ----------

  lemma ItemOrder()
    ensures Sorting.WeakOrder(ItemLess)
  {
    forall a, b | ItemLess(a, b)
      ensures !ItemLess(b, a)
    {
      if a.cost == b.cost {
        Text.LessAsymmetric(a.node, b.node);
      }
    }
    forall a, b, c | !ItemLess(b, a) && !ItemLess(c, b)
      ensures !ItemLess(c, a)
    {
      if ItemLess(c, a) && a.cost == b.cost == c.cost {
        Text.LessTotal(a.node, b.node);
        Text.LessTotal(b.node, c.node);
        if a.node != b.node {
          Text.LessTransitive(c.node, a.node, b.node);
        }
      }
    }
  }

  /** heap.Pop: takes out an item that no other item precedes. */
  method Pop(q: seq<Item>) returns (k: nat, rest: seq<Item>)
    requires q != []
    ensures k < |q| && rest == q[..k] + q[k + 1..]
    ensures multiset(q) == multiset(rest) + multiset{q[k]}
    ensures forall x :: x in q ==> !ItemLess(x, q[k])
    ensures forall x :: x in q ==>
        q[k].cost < x.cost || (q[k].cost == x.cost && !Text.Less(x.node, q[k].node))
  {
    ItemOrder();
    k := 0;
    var i := 1;
    while i < |q|
      invariant 1 <= i <= |q| && k < i
      invariant forall j :: 0 <= j < i ==> !ItemLess(q[j], q[k])
    {
      if ItemLess(q[i], q[k]) {
        k := i;
      }
      i := i + 1;
    }
    rest := q[..k] + q[k + 1..];
    assert q == q[..k] + [q[k]] + q[k + 1..];
  }

  /** Removing the least item: what is left is at least as costly. */
  lemma PopQueue(tree: Tree, settled: set<string>, cur: string, q: multiset<Item>, level: int, item: Item)
    requires QueueOk(tree, settled, cur, q, level) && cur !in tree
    requires item in q && forall x :: x in q ==> !ItemLess(x, item)
    ensures item.node in tree && item.cost < UNREACHABLE
    ensures
      var rest := q - multiset{item};
      if item.cost != tree[item.node].cost then QueueOk(tree, settled, cur, rest, level)
      else item.node !in settled && QueueOk(tree, settled, item.node, rest, item.cost)
  {
    assert forall x :: x in q - multiset{item} <==> x in q && x != item;
  }

  /** When all adjacencies of a node are relaxed it becomes settled, and no node is current. */
  lemma Settle(adjacencies: Adjacencies, src: string, tree: Tree, via: map<string, seq<Hop>>,
               settled: set<string>, cur: string, none: string, q: multiset<Item>, level: int)
    requires Invariant(adjacencies, src, tree, via, settled, cur, |adjacencies(cur)|, q, level)
    requires cur in tree && none !in tree
    ensures Invariant(adjacencies, src, tree, via, settled + {cur}, none, 0, q, level)
  {
    var done, i := settled + {cur}, |adjacencies(cur)|;
    forall u, j, x
      ensures RelaxedTo(adjacencies, tree, done, none, 0, u, j, x) == RelaxedTo(adjacencies, tree, settled, cur, i, u,
          j, x)
    {
    }
    forall x, p | x in tree
      ensures TightPred(adjacencies, tree, done, none, 0, x, p) == TightPred(adjacencies, tree, settled, cur, i, x, p)
    {
    }
  }

  /** Which node is current does not matter while none of its adjacencies is relaxed. */
  lemma Rename(adjacencies: Adjacencies, tree: Tree, settled: set<string>, cur: string, next: string)
    requires CostsOk(adjacencies, tree, settled, cur, 0) && PredsOk(adjacencies, tree, settled, cur, 0)
    ensures CostsOk(adjacencies, tree, settled, next, 0) && PredsOk(adjacencies, tree, settled, next, 0)
  {
    forall u, j, x
      ensures RelaxedTo(adjacencies, tree, settled, next, 0, u, j, x) == RelaxedTo(adjacencies, tree, settled, cur, 0,
          u, j, x)
    {
    }
    forall x, p | x in tree
      ensures TightPred(adjacencies, tree, settled, next, 0, x, p) == TightPred(adjacencies, tree, settled, cur, 0, x,
          p)
    {
    }
  }

  // ---------- the search ----------

  /** The tree before anything is reached. */
  function Unreached(names: set<string>): Tree {
    map n | n in names :: SpfNode(UNREACHABLE, [])
  }

  lemma StartInvariant(adjacencies: Adjacencies, src: string, names: set<string>, none: string)
    requires src in names && none !in names
    ensures Invariant(adjacencies, src, Unreached(names)[src := SpfNode(0, [])], map[src := []], {}, none, 0,
        multiset{Item(src, 0)}, 0)
  {
  }

  /** Everything relaxed and nothing waiting: the tree is finished. */
  lemma FinishedTree(adjacencies: Adjacencies, src: string, tree: Tree, via: map<string, seq<Hop>>,
                     settled: set<string>, cur: string, level: int)
    requires Invariant(adjacencies, src, tree, via, settled, cur, 0, multiset{}, level) && cur !in tree
    ensures IsTree(adjacencies, src, tree)
    ensures Distinct(adjacencies) ==> forall v :: v in tree ==> Sorting.NoDuplicates(tree[v].preds)
  {
    assert forall v :: v in tree && tree[v].cost < UNREACHABLE ==> v in settled;
    forall h | Edge(adjacencies, tree.Keys, h) && tree[h.node].cost < UNREACHABLE
      ensures tree[h.adj.to].cost <= tree[h.node].cost + h.adj.cost
    {
      var j :| 0 <= j < |adjacencies(h.node)| && adjacencies(h.node)[j] == h.adj;
      assert RelaxedTo(adjacencies, tree, settled, cur, 0, h.node, j, h.adj.to);
    }
    forall v, p | v in tree
      ensures p in tree[v].preds <==> exists h :: TightHop(adjacencies, tree, h, v) && p == PredOf(h.node, h.adj)
    {
      FinishedPred(adjacencies, tree, settled, cur, v, p);
    }
  }

  lemma FinishedPred(adjacencies: Adjacencies, tree: Tree, settled: set<string>, cur: string, v: string, p: Pred)
    requires v in tree && cur !in tree && PredsOk(adjacencies, tree, settled, cur, 0)
    requires forall u :: u in tree ==> (u in settled <==> tree[u].cost < UNREACHABLE)
    ensures p in tree[v].preds <==> exists h :: TightHop(adjacencies, tree, h, v) && p == PredOf(h.node, h.adj)
  {
    if TightPred(adjacencies, tree, settled, cur, 0, v, p) {
      var j :| RelaxedTo(adjacencies, tree, settled, cur, 0, p.node, j, v)
        && p == PredOf(p.node, adjacencies(p.node)[j])
        && tree[p.node].cost + adjacencies(p.node)[j].cost == tree[v].cost;
      assert TightHop(adjacencies, tree, Hop(p.node, adjacencies(p.node)[j]), v);
    }
    if h :| TightHop(adjacencies, tree, h, v) && p == PredOf(h.node, h.adj) {
      var j :| 0 <= j < |adjacencies(h.node)| && adjacencies(h.node)[j] == h.adj;
      assert RelaxedTo(adjacencies, tree, settled, cur, 0, h.node, j, v);
    }
  }

  /** A name outside a finite set, for "no node is current". */
  lemma {:induction false} FreshName(names: set<string>, bound: nat) returns (none: string)
    requires forall n :: n in names ==> |n| <= bound
    ensures none !in names
  {
    none := seq(bound + 1, i => 'x');
  }

  lemma {:induction false} LongestName(names: seq<string>) returns (bound: nat)
    ensures forall n :: n in names ==> |n| <= bound
  {
    bound := 0;
    if names != [] {
      bound := LongestName(names[1..]);
      bound := if |names[0]| > bound then |names[0]| else bound;
    }
  }

  method InitialTree(nodes: seq<string>, excluded: string) returns (dist: Tree)
    ensures dist == Unreached(set n | n in nodes && n != excluded)
  {
    dist := map[];
    for k := 0 to |nodes|
      invariant dist == Unreached(set n | n in nodes[..k] && n != excluded)
    {
      assert nodes[..k + 1] == nodes[..k] + [nodes[k]];
      if nodes[k] == excluded {
        continue;
      }
      dist := dist[nodes[k] := SpfNode(UNREACHABLE, [])];
    }
    assert nodes[..|nodes|] == nodes;
  }

  /** ShortestPathTree over the named nodes without `excluded`. */
  method ShortestPathTree(nodes: seq<string>, src: string, excluded: string, adjacencies: Adjacencies)
    returns (dist: Tree)
    requires NonNegative(adjacencies)
    ensures dist.Keys == (set n | n in nodes && n != excluded)
    ensures src !in dist ==> dist == Unreached(dist.Keys)
    ensures src in dist ==> IsTree(adjacencies, src, dist)
    ensures src in dist && Distinct(adjacencies) ==> forall v :: v in dist ==> Sorting.NoDuplicates(dist[v].preds)
  {
    dist := InitialTree(nodes, excluded);
    if src !in dist {
      return;
    }
    ghost var bound := LongestName(nodes);
    ghost var none := FreshName(dist.Keys, bound);
    StartInvariant(adjacencies, src, dist.Keys, none);
    hide Invariant, IsTree, Distinct;
    ghost var via, settled, level;
    dist, via, settled, level := Search(adjacencies, src, dist[src := SpfNode(0, [])], excluded, none);
    FinishedTree(adjacencies, src, dist, via, settled, none, level);
  }

  /** The outer loop: settles the least waiting node until none waits. */
  method Search(adjacencies: Adjacencies, src: string, start: Tree, excluded: string, ghost none: string)
    returns (dist: Tree, ghost via: map<string, seq<Hop>>, ghost settled: set<string>, ghost level: int)
    requires NonNegative(adjacencies) && excluded !in start && none !in start
    requires Invariant(adjacencies, src, start, map[src := []], {}, none, 0, multiset{Item(src, 0)}, 0)
    ensures dist.Keys == start.Keys
    ensures Invariant(adjacencies, src, dist, via, settled, none, 0, multiset{}, level)
  {
    dist, via, settled, level := start, map[src := []], {}, 0;
    var q := [Item(src, 0)];
    hide Invariant;
    while |q| > 0
      invariant dist.Keys == start.Keys
      invariant Invariant(adjacencies, src, dist, via, settled, none, 0, multiset(q), level)
      decreases |start.Keys - settled|, |q|
    {
      ghost var before := settled;
      dist, via, settled, q, level := SettleNext(adjacencies, src, dist, via, settled, q, level, excluded, none);
      if settled != before {
        SmallerSet(start.Keys - settled, start.Keys - before);
      }
    }
    assert multiset(q) == multiset{};
  }

  /** One turn: a stale item is dropped, any other one is settled. */
  method SettleNext(adjacencies: Adjacencies, src: string, tree: Tree, ghost via0: map<string, seq<Hop>>,
                    ghost settled0: set<string>, q0: seq<Item>, ghost level0: int, excluded: string, ghost none: string)
    returns (dist: Tree, ghost via: map<string, seq<Hop>>, ghost settled: set<string>, q: seq<Item>, ghost level: int)
    requires NonNegative(adjacencies) && excluded !in tree && none !in tree && |q0| > 0
    requires Invariant(adjacencies, src, tree, via0, settled0, none, 0, multiset(q0), level0)
    ensures dist.Keys == tree.Keys
    ensures Invariant(adjacencies, src, dist, via, settled, none, 0, multiset(q), level)
    ensures
      || (settled == settled0 && |q| < |q0|)
      || (settled0 < settled && tree.Keys - settled < tree.Keys - settled0)
  {
    hide WalksOk, CostsOk, PredsOk, QueueOk, BoundsOk;
    dist, via, settled, level := tree, via0, settled0, level0;
    var k, rest := Pop(q0);
    var item := q0[k];
    PopQueue(dist, settled, none, multiset(q0), level, item);
    assert multiset(q0) - multiset{item} == multiset(rest);
    q := rest;
    if item.cost != dist[item.node].cost {
      return;
    }
    Rename(adjacencies, dist, settled, none, item.node);
    level := item.cost;
    dist, via, q := RelaxAll(adjacencies, src, dist, via, settled, item, q, excluded);
    Settle(adjacencies, src, dist, via, settled, item.node, none, multiset(q), level);
    settled := settled + {item.node};
  }

  lemma {:induction false} SmallerSet(a: set<string>, b: set<string>)
    requires a < b
    ensures |a| < |b|
  {
    assert !(b <= a);
    var x :| x in b && x !in a;
    Sorting.SubsetSize(a, b - {x});
  }

  /** The inner loop: relaxes every adjacency of the node just taken from the queue. */
  method RelaxAll(adjacencies: Adjacencies, src: string, tree: Tree, ghost via0: map<string, seq<Hop>>,
                  ghost settled: set<string>, item: Item, q0: seq<Item>, excluded: string)
    returns (dist: Tree, ghost via: map<string, seq<Hop>>, q: seq<Item>)
    requires NonNegative(adjacencies)
    requires Invariant(adjacencies, src, tree, via0, settled, item.node, 0, multiset(q0), item.cost)
    requires item.node in tree && item.node !in settled && tree[item.node].cost == item.cost
    requires excluded !in tree
    ensures dist.Keys == tree.Keys
    ensures Invariant(adjacencies, src, dist, via, settled, item.node, |adjacencies(item.node)|, multiset(q), item.cost)
  {
    hide WalksOk, CostsOk, PredsOk, QueueOk;
    dist, via, q := tree, via0, q0;
    var i := 0;
    while i < |adjacencies(item.node)|
      invariant 0 <= i <= |adjacencies(item.node)|
      invariant dist.Keys == tree.Keys && dist[item.node].cost == item.cost
      invariant Invariant(adjacencies, src, dist, via, settled, item.node, i, multiset(q), item.cost)
    {
      var adj := adjacencies(item.node)[i];
      if adj.to == excluded || adj.to !in dist {
        Skip(adjacencies, src, dist, via, settled, item.node, i, multiset(q), item.cost);
        i := i + 1;
        continue;
      }
      var next, cost, pred := dist[adj.to], item.cost + adj.cost, PredOf(item.node, adj);
      if cost < next.cost {
        ImproveOpen(adjacencies, src, dist, via, settled, item.node, i, multiset(q), item.cost);
        ghost var via' := via[adj.to := via[item.node] + [Hop(item.node, adj)]];
        Improve(adjacencies, src, dist, via, settled, item.node, i, multiset(q), item.cost,
                dist[adj.to := SpfNode(cost, [pred])], via', multiset(q + [Item(adj.to, cost)]));
        via := via';
        dist := dist[adj.to := SpfNode(cost, [pred])];
        q := q + [Item(adj.to, cost)];
      } else if cost == next.cost {
        var n := SpfNode(next.cost, Sorting.Sort(next.preds + [pred], PredLess));
        Tie(adjacencies, src, dist, via, settled, item.node, i, multiset(q), item.cost, n);
        dist := dist[adj.to := n];
      } else {
        Skip(adjacencies, src, dist, via, settled, item.node, i, multiset(q), item.cost);
      }
      i := i + 1;
    }
  }
}
