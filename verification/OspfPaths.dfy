/**
 ospfCandidatePathsBounded: candidate paths in cost order from a priority queue, with
 dominated transit paths not extended and at most eight paths kept per destination.
 */
module OspfPaths {
  import opened Failure
  import opened Conditions
  import opened NormalForms
  import opened Graph
  import Sorting
  import Text

  const MAX_PATHS_PER_DESTINATION: nat := 8

  datatype Item = Item(cost: int, nodes: seq<string>, links: seq<string>, areas: seq<string>, last: string)

  datatype Path = Path(cost: int, nodes: seq<string>, links: seq<string>, areas: seq<string>, cond: Cond)

  datatype FrontierEntry = FrontierEntry(cost: int, visited: set<string>)

  // ---------- the queue ----------

  predicate NodesLess(a: seq<string>, b: seq<string>) {
    if a == [] || b == [] then |a| < |b|
    else if a[0] != b[0] then Text.Less(a[0], b[0])
    else NodesLess(a[1..], b[1..])
  }

  predicate ItemLess(a: Item, b: Item) {
    if a.cost != b.cost then a.cost < b.cost
    else if |a.nodes| != |b.nodes| then |a.nodes| < |b.nodes|
    else NodesLess(a.nodes, b.nodes)
  }

  /** At the first node that differs, the first list has the lower name; or it is a beginning of the other. */
  predicate FirstLower(a: seq<string>, b: seq<string>, k: nat) {
    && k <= |a| && k < |b| && a[..k] == b[..k]
    && (k == |a| || Text.Less(a[k], b[k]))
  }

  lemma SameHead(a: seq<string>, b: seq<string>, k: nat)
    requires 0 < k <= |a| && k <= |b| && a[..k] == b[..k]
    ensures a[0] == b[0]
  {
    assert a[..k][0] == b[..k][0];
  }

  lemma {:induction false} NodesLessExactly(a: seq<string>, b: seq<string>)
    ensures NodesLess(a, b) <==> exists k: nat :: FirstLower(a, b, k)
  {
    hide Text.Less;
    if a == [] || b == [] || a[0] != b[0] {
      if b != [] && (a == [] || Text.Less(a[0], b[0])) {
        assert FirstLower(a, b, 0);
      }
      forall k: nat | FirstLower(a, b, k)
        ensures k == 0
      {
        if k > 0 {
          SameHead(a, b, k);
        }
      }
    } else {
      NodesLessExactly(a[1..], b[1..]);
      Text.LessIrreflexive(a[0]);
      if k: nat :| FirstLower(a[1..], b[1..], k) {
        assert a[..k + 1] == [a[0]] + a[1..][..k] && b[..k + 1] == [b[0]] + b[1..][..k];
        assert FirstLower(a, b, k + 1);
      }
      if k: nat :| FirstLower(a, b, k) {
        assert k > 0;
        assert a[1..][..k - 1] == a[..k][1..] == b[..k][1..] == b[1..][..k - 1];
        assert FirstLower(a[1..], b[1..], k - 1);
      }
    }
  }

  /** Cost, then the number of nodes, then the names in order. */
  ghost predicate Earlier(a: Item, b: Item) {
    || a.cost < b.cost
    || (a.cost == b.cost && |a.nodes| < |b.nodes|)
    || (a.cost == b.cost && |a.nodes| == |b.nodes| && exists k: nat :: FirstLower(a.nodes, b.nodes, k))
  }

  lemma ItemLessExactly(a: Item, b: Item)
    ensures ItemLess(a, b) <==> Earlier(a, b)
  {
    NodesLessExactly(a.nodes, b.nodes);
    hide NodesLess, FirstLower;
  }

  lemma {:induction false} NodesLessTransitive(a: seq<string>, b: seq<string>, c: seq<string>)
    requires NodesLess(a, b) && NodesLess(b, c)
    ensures NodesLess(a, c)
  {
    if a != [] && b != [] && c != [] {
      if a[0] == b[0] && b[0] == c[0] {
        NodesLessTransitive(a[1..], b[1..], c[1..]);
      } else if a[0] != b[0] && b[0] != c[0] {
        Text.LessTransitive(a[0], b[0], c[0]);
        Text.LessIrreflexive(a[0]);
        Text.LessAsymmetric(a[0], b[0]);
      }
    }
  }

  lemma ItemLessTransitive(a: Item, b: Item, c: Item)
    requires ItemLess(a, b) && ItemLess(b, c)
    ensures ItemLess(a, c)
  {
    if a.cost == b.cost == c.cost && |a.nodes| == |b.nodes| == |c.nodes| {
      NodesLessTransitive(a.nodes, b.nodes, c.nodes);
    }
  }

  /** heap.Pop: takes out an item that no other item precedes. */
  method Pop(q: seq<Item>) returns (item: Item, ghost k: nat, rest: seq<Item>)
    requires q != []
    ensures k < |q| && item == q[k] && rest == q[..k] + q[k + 1..]
    ensures forall x :: x in q ==> !ItemLess(x, item) && !Earlier(x, item)
    ensures forall x :: x in q <==> x == item || x in rest
  {
    var best := 0;
    ItemIrreflexive(q[0]);
    for i := 1 to |q|
      invariant best < i
      invariant forall j :: 0 <= j < i ==> !ItemLess(q[j], q[best])
    {
      if ItemLess(q[i], q[best]) {
        ItemIrreflexive(q[i]);
        forall j | 0 <= j < i
          ensures !ItemLess(q[j], q[i])
        {
          if ItemLess(q[j], q[i]) {
            ItemLessTransitive(q[j], q[i], q[best]);
          }
        }
        best := i;
      }
    }
    item, k, rest := q[best], best, q[..best] + q[best + 1..];
    assert q == q[..best] + [q[best]] + q[best + 1..];
    forall x | x in q
      ensures !ItemLess(x, item) && !Earlier(x, item)
    {
      ItemLessExactly(x, item);
    }
    hide ItemLess, Earlier;
  }

  lemma {:induction false} NodesIrreflexive(a: seq<string>)
    ensures !NodesLess(a, a)
  {
    if a != [] {
      NodesIrreflexive(a[1..]);
    }
  }

  lemma ItemIrreflexive(a: Item)
    ensures !ItemLess(a, a)
  {
    NodesIrreflexive(a.nodes);
  }

  // ---------- items ----------

  function SeedItem(src: string, adj: Adjacency): Item {
    Item(adj.cost, [src, adj.to], [adj.link], [adj.area], adj.to)
  }

  function Child(x: Item, adj: Adjacency): Item {
    Item(x.cost + adj.cost, x.nodes + [adj.to], x.links + [adj.link], x.areas + [adj.area], adj.to)
  }

  function PathCondition(nodes: seq<string>, links: seq<string>): seq<Cond> {
    seq(|nodes|, i requires 0 <= i < |nodes| => Lit(NodeVar(nodes[i]))) +
    seq(|links|, i requires 0 <= i < |links| => Lit(LinkVar(links[i])))
  }

  function PathOf(x: Item): Path {
    Path(x.cost, x.nodes, x.links, x.areas, And(PathCondition(x.nodes, x.links)))
  }

  /** The item records the walk. */
  ghost predicate Records(src: string, w: seq<Hop>, x: Item) {
    var r := RouteOf(src, w);
    w != [] && x == Item(Length(w), r.nodes, r.links, r.areas, w[|w| - 1].adj.to)
  }

  /** No node repeats, except that an adjacency of src with itself may come first. */
  ghost predicate NoRepeats(ns: seq<string>) {
    forall i, j :: 0 <= i < j < |ns| && (i, j) != (0, 1) ==> ns[i] != ns[j]
  }

  ghost predicate Traced(adjacencies: Adjacencies, nodes: set<string>, src: string, x: Item) {
    && NoRepeats(x.nodes)
    && exists w :: Walk(adjacencies, nodes, src, w, x.last) && Records(src, w, x)
  }

  ghost predicate Closed(adjacencies: Adjacencies, nodes: set<string>) {
    forall u, i :: 0 <= i < |adjacencies(u)| ==> adjacencies(u)[i].to in nodes
  }

  lemma SeedTraced(adjacencies: Adjacencies, nodes: set<string>, src: string, adj: Adjacency)
    requires src in nodes && adj in adjacencies(src) && Closed(adjacencies, nodes)
    ensures Traced(adjacencies, nodes, src, SeedItem(src, adj))
    ensures Walk(adjacencies, nodes, src, [Hop(src, adj)], adj.to) && Records(src, [Hop(src, adj)], SeedItem(src, adj))
  {
    var w := [Hop(src, adj)];
    assert w[..0] == [];
    assert RouteOf(src, w) == Route([src] + [adj.to], [] + [adj.link], [] + [adj.area]);
    assert Walk(adjacencies, nodes, src, w[..0], src);
    assert Walk(adjacencies, nodes, src, w, adj.to);
    assert Length(w) == Length(w[..0]) + adj.cost == adj.cost;
    assert Records(src, w, SeedItem(src, adj));
  }

  lemma ChildTraced(adjacencies: Adjacencies, nodes: set<string>, src: string, x: Item, adj: Adjacency)
    requires Traced(adjacencies, nodes, src, x) && Closed(adjacencies, nodes)
    requires adj in adjacencies(x.last) && adj.to !in x.nodes
    ensures Traced(adjacencies, nodes, src, Child(x, adj))
  {
    var w: seq<Hop> :| Walk(adjacencies, nodes, src, w, x.last) && Records(src, w, x);
    var w' := w + [Hop(x.last, adj)];
    WalkNodes(adjacencies, nodes, src, w, x.last);
    assert w'[..|w|] == w;
    assert x.nodes[|w|] == x.last && x.last in x.nodes;
    assert Walk(adjacencies, nodes, src, w', adj.to) && Records(src, w', Child(x, adj));
  }

  // ---------- the termination measure ----------

  /** How many items a partial path ending in n can still lead to, itself included. */
  ghost function Weight(adjacencies: Adjacencies, n: string, fuel: nat): (r: nat)
    ensures r > 0
    decreases fuel, 0
  {
    1 + if fuel == 0 then 0 else Weights(adjacencies, adjacencies(n), fuel - 1)
  }

  ghost function Weights(adjacencies: Adjacencies, adjs: seq<Adjacency>, fuel: nat): nat
    decreases fuel, 1, |adjs|
  {
    if adjs == [] then 0
    else Weights(adjacencies, adjs[..|adjs| - 1], fuel) + Weight(adjacencies, adjs[|adjs| - 1].to, fuel)
  }

  ghost function ItemWeight(adjacencies: Adjacencies, maxHops: nat, x: Item): nat {
    Weight(adjacencies, x.last, if |x.nodes| < maxHops then maxHops - |x.nodes| else 0)
  }

  ghost function QueueWeight(adjacencies: Adjacencies, maxHops: nat, q: seq<Item>): nat {
    if q == [] then 0
    else QueueWeight(adjacencies, maxHops, q[..|q| - 1]) + ItemWeight(adjacencies, maxHops, q[|q| - 1])
  }

  lemma {:induction false} QueueWeightConcat(adjacencies: Adjacencies, maxHops: nat, p: seq<Item>, q: seq<Item>)
    ensures QueueWeight(adjacencies, maxHops, p + q) == QueueWeight(adjacencies, maxHops,
        p) + QueueWeight(adjacencies, maxHops, q)
  {
    if q == [] {
      assert p + q == p;
    } else {
      assert (p + q)[..|p + q| - 1] == p + q[..|q| - 1];
      QueueWeightConcat(adjacencies, maxHops, p, q[..|q| - 1]);
    }
  }

  lemma QueueWeightOne(adjacencies: Adjacencies, maxHops: nat, x: Item)
    ensures QueueWeight(adjacencies, maxHops, [x]) == ItemWeight(adjacencies, maxHops, x)
  {
    assert [x][..0] == [];
  }

  lemma PopWeight(adjacencies: Adjacencies, maxHops: nat, q: seq<Item>, k: nat)
    requires k < |q|
    ensures QueueWeight(adjacencies, maxHops, q) ==
      QueueWeight(adjacencies, maxHops, q[..k] + q[k + 1..]) + ItemWeight(adjacencies, maxHops, q[k])
  {
    assert q == (q[..k] + [q[k]]) + q[k + 1..];
    QueueWeightConcat(adjacencies, maxHops, q[..k] + [q[k]], q[k + 1..]);
    QueueWeightConcat(adjacencies, maxHops, q[..k], [q[k]]);
    QueueWeightConcat(adjacencies, maxHops, q[..k], q[k + 1..]);
    QueueWeightOne(adjacencies, maxHops, q[k]);
  }

  // ---------- dominance ----------

  /** frontierDominates: cheaper or equal, and nothing visited that the other has not. */
  predicate Dominates(a: FrontierEntry, b: FrontierEntry) {
    a.cost <= b.cost && a.visited <= b.visited
  }

  function EntryOf(x: Item): FrontierEntry {
    FrontierEntry(x.cost, Sorting.Members(x.nodes))
  }

  method IsDominated(entries: seq<FrontierEntry>, curr: FrontierEntry) returns (dominated: bool)
    ensures dominated <==> exists e :: e in entries && Dominates(e, curr)
  {
    for i := 0 to |entries|
      invariant forall j :: 0 <= j < i ==> !Dominates(entries[j], curr)
    {
      if Dominates(entries[i], curr) {
        return true;
      }
    }
    return false;
  }

  /** The new entry first, then the old ones it does not dominate. */
  method Replace(entries: seq<FrontierEntry>, curr: FrontierEntry) returns (updated: seq<FrontierEntry>)
    ensures forall e :: e in updated <==> e == curr || (e in entries && !Dominates(curr, e))
  {
    updated := [curr];
    for i := 0 to |entries|
      invariant forall e :: e in updated <==> e == curr || (e in entries[..i] && !Dominates(curr, e))
    {
      assert entries[..i + 1] == entries[..i] + [entries[i]];
      if !Dominates(curr, entries[i]) {
        updated := updated + [entries[i]];
      }
    }
    assert entries[..|entries|] == entries;
  }

  function Entries(frontier: map<string, seq<FrontierEntry>>, n: string): seq<FrontierEntry> {
    if n in frontier then frontier[n] else []
  }

  // ---------- what the loop keeps ----------

  ghost predicate AllTraced(adjacencies: Adjacencies, nodes: set<string>, src: string, xs: seq<Item>) {
    forall x :: x in xs ==> Traced(adjacencies, nodes, src, x)
  }

  /** Items leave the queue in its order. */
  ghost predicate PopOrder(popped: seq<Item>, q: seq<Item>) {
    && (forall i, j :: 0 <= i < j < |popped| ==> !ItemLess(popped[j], popped[i]))
    && (forall x, y :: x in popped && y in q ==> !ItemLess(y, x))
  }

  /** Nothing popped comes after the item. */
  ghost predicate NoneAfter(popped: seq<Item>, item: Item) {
    forall x :: x in popped ==> !ItemLess(item, x)
  }

  /** Cheaper before dearer, then fewer nodes before more, then by the names. */
  ghost predicate InOrder(popped: seq<Item>) {
    && (forall i, j :: 0 <= i < j < |popped| ==> popped[i].cost <= popped[j].cost)
    && (forall i, j :: 0 <= i < j < |popped| ==> !Earlier(popped[j], popped[i]))
  }

  lemma PoppedInOrder(popped: seq<Item>, q: seq<Item>)
    requires PopOrder(popped, q)
    ensures InOrder(popped)
  {
    forall i, j | 0 <= i < j < |popped|
      ensures popped[i].cost <= popped[j].cost && !Earlier(popped[j], popped[i])
    {
      ItemLessExactly(popped[j], popped[i]);
    }
  }

  /** Every frontier entry stands for a path that was extended. */
  ghost predicate FrontierOk(frontier: map<string, seq<FrontierEntry>>, expanded: set<Item>) {
    forall n, e :: n in frontier && e in frontier[n] ==> exists x :: x in expanded && x.last == n && EntryOf(x) == e
  }

  /** The path, or one that dominates it, was extended. */
  ghost predicate Covered(expanded: set<Item>, x: Item) {
    exists e :: e in expanded && e.last == x.last && Dominates(EntryOf(e), EntryOf(x))
  }

  ghost predicate AllCovered(popped: seq<Item>, expanded: set<Item>, maxHops: nat) {
    forall x :: x in popped ==> |x.nodes| >= maxHops || Covered(expanded, x)
  }

  ghost predicate Pending(popped: seq<Item>, q: seq<Item>, x: Item) {
    x in popped || x in q
  }

  /** Extending a path means queueing it with every adjacency that revisits nothing. */
  ghost predicate Extended(adjacencies: Adjacencies, x: Item, upTo: nat, popped: seq<Item>, q: seq<Item>) {
    forall j :: 0 <= j < upTo && j < |adjacencies(x.last)| && adjacencies(x.last)[j].to !in x.nodes ==>
      Pending(popped, q, Child(x, adjacencies(x.last)[j]))
  }

  ghost predicate AllExtended(adjacencies: Adjacencies, expanded: set<Item>, popped: seq<Item>, q: seq<Item>) {
    forall x :: x in expanded ==> Extended(adjacencies, x, |adjacencies(x.last)|, popped, q)
  }

  ghost predicate Seeded(adjacencies: Adjacencies, src: string, upTo: nat, popped: seq<Item>, q: seq<Item>) {
    forall j :: 0 <= j < upTo && j < |adjacencies(src)| ==> Pending(popped, q, SeedItem(src, adjacencies(src)[j]))
  }

  /** The items popped for one destination. */
  ghost function PoppedFor(popped: seq<Item>, d: string): seq<Item> {
    if popped == [] then []
    else PoppedFor(popped[..|popped| - 1], d) + if popped[|popped| - 1].last == d then [popped[|popped| - 1]] else []
  }

  ghost function FirstFew(xs: seq<Item>): seq<Item> {
    if |xs| <= 8 then xs else xs[..8]
  }

  ghost function PathsOf(xs: seq<Item>): (ps: seq<Path>)
    ensures |ps| == |xs| && forall i :: 0 <= i < |xs| ==> ps[i] == PathOf(xs[i])
  {
    seq(|xs|, i requires 0 <= i < |xs| => PathOf(xs[i]))
  }

  function Recorded(out: map<string, seq<Path>>, d: string): seq<Path> {
    if d in out then out[d] else []
  }

  function Count(found: map<string, nat>, d: string): nat {
    if d in found then found[d] else 0
  }

  /** The first eight paths popped for a destination are the ones recorded. */
  ghost predicate RecordedFor(paths: seq<Path>, count: nat, popped: seq<Item>, d: string) {
    paths == PathsOf(FirstFew(PoppedFor(popped, d))) && count == |paths|
  }

  ghost predicate RecordedOk(out: map<string, seq<Path>>, found: map<string, nat>, popped: seq<Item>) {
    && (forall d :: RecordedFor(Recorded(out, d), Count(found, d), popped, d))
    && (forall d :: d in out ==> out[d] != [])
  }

  ghost predicate Invariant(adjacencies: Adjacencies, nodes: set<string>, src: string, popped: seq<Item>, q: seq<Item>,
                            expanded: set<Item>, frontier: map<string, seq<FrontierEntry>>)
  {
    && AllTraced(adjacencies, nodes, src, popped) && AllTraced(adjacencies, nodes, src, q)
    && PopOrder(popped, q)
    && FrontierOk(frontier, expanded)
    && AllCovered(popped, expanded, |nodes|)
    && AllExtended(adjacencies, expanded, popped, q)
    && Seeded(adjacencies, src, |adjacencies(src)|, popped, q)
  }

  // ---------- adjacencies of the source with itself ----------

  /** No node repeats. */
  ghost predicate Plain(x: Item) {
    Sorting.NoDuplicates(x.nodes)
  }

  /** A queued path is a first hop, or extends an extended path. */
  ghost predicate Derived(adjacencies: Adjacencies, src: string, expanded: set<Item>, x: Item) {
    || (exists adj :: adj in adjacencies(src) && x == SeedItem(src, adj))
    || (exists e, adj :: e in expanded && adj in adjacencies(e.last) && adj.to !in e.nodes && x == Child(e, adj))
  }

  /** Every extended path is dominated by an entry of the frontier. */
  ghost predicate FrontierCovers(frontier: map<string, seq<FrontierEntry>>, expanded: set<Item>) {
    forall x :: x in expanded ==> exists f :: f in Entries(frontier, x.last) && Dominates(f, EntryOf(x))
  }

  /** Only paths that repeat no node are extended, apart from the one that goes from src to src. */
  ghost predicate PlainSearch(adjacencies: Adjacencies, src: string, q: seq<Item>, expanded: set<Item>,
                              frontier: map<string, seq<FrontierEntry>>) {
    && FrontierCovers(frontier, expanded)
    && (forall x :: x in expanded ==> Plain(x) || x.last == src)
    && (forall x :: x in q ==> Derived(adjacencies, src, expanded, x))
  }

  /**
   A path that starts with a hop from src to src and goes on is dominated when it is popped: the
   path without that hop came before it.
   */
  lemma LoopDominated(adjacencies: Adjacencies, nodes: set<string>, src: string, popped: seq<Item>, item: Item,
                      rest: seq<Item>,
                      expanded: set<Item>, frontier: map<string, seq<FrontierEntry>>)
    requires Traced(adjacencies, nodes, src, item) && NonNegative(adjacencies) && forall x :: x in expanded ==>
        Traced(adjacencies, nodes, src, x)
    requires PlainSearch(adjacencies, src, [item] + rest, expanded, frontier) && forall x :: x in rest ==>
        !ItemLess(x, item)
    requires AllCovered(popped, expanded, |nodes|)
    requires Seeded(adjacencies, src, |adjacencies(src)|, popped + [item], rest)
    requires !Plain(item) && item.last != src && |item.nodes| < |nodes|
    ensures exists f :: f in Entries(frontier, item.last) && Dominates(f, EntryOf(item))
  {
    assert ([item] + rest)[0] == item;
    var e, adj := LoopParent(adjacencies, nodes, src, item, expanded);
    LoopCost(adjacencies, nodes, src, e);
    var seed := SeedItem(src, adj);
    SeedPrecedes(src, adj, e);
    hide Traced, Plain, Derived, ItemLess, Dominates;
    var j :| 0 <= j < |adjacencies(src)| && adjacencies(src)[j] == adj;
    assert Pending(popped + [item], rest, SeedItem(src, adjacencies(src)[j]));
    assert seed in popped && Covered(expanded, seed);
    var c :| c in expanded && c.last == seed.last && Dominates(EntryOf(c), EntryOf(seed));
    var f :| f in Entries(frontier, c.last) && Dominates(f, EntryOf(c));
    DominatesTransitive(f, EntryOf(c), EntryOf(seed));
    DominatesTransitive(f, EntryOf(seed), EntryOf(item));
  }

  lemma DominatesTransitive(a: FrontierEntry, b: FrontierEntry, c: FrontierEntry)
    requires Dominates(a, b) && Dominates(b, c)
    ensures Dominates(a, c)
  {
  }

  /** The first hop on its own precedes, and dominates, the same hop after the one from src to src. */
  lemma SeedPrecedes(src: string, adj: Adjacency, e: Item)
    requires e.nodes == [src, src] && e.cost >= 0
    ensures
      var seed, item := SeedItem(src, adj), Child(e, adj);
      ItemLess(seed, item) && seed != item && |seed.nodes| < |item.nodes| && Dominates(EntryOf(seed), EntryOf(item))
  {
    var item := Child(e, adj);
    assert item.nodes == [src, src, adj.to];
    assert item.nodes[0] in item.nodes && item.nodes[2] in item.nodes;
  }

  lemma NotSeed(adjacencies: Adjacencies, src: string, item: Item)
    requires !Plain(item) && item.last != src
    ensures forall adj :: adj in adjacencies(src) ==> item != SeedItem(src, adj)
  {
  }

  /** Such a path extends the hop from src to src itself. */
  lemma LoopParent(adjacencies: Adjacencies, nodes: set<string>, src: string, item: Item, expanded: set<Item>)
    returns (e: Item, adj: Adjacency)
    requires Traced(adjacencies, nodes, src, item) && forall x :: x in expanded ==>
        Traced(adjacencies, nodes, src, x) && (Plain(x) || x.last == src)
    requires Derived(adjacencies, src, expanded, item) && !Plain(item) && item.last != src
    ensures e in expanded && adj in adjacencies(src) && item == Child(e, adj) && e.nodes == [src, src] && e.last == src
  {
    NotSeed(adjacencies, src, item);
    TracedEnds(adjacencies, nodes, src, item);
    Repeats(item.nodes);
    e, adj :| e in expanded && adj in adjacencies(e.last) && adj.to !in e.nodes && item == Child(e, adj);
    TracedEnds(adjacencies, nodes, src, e);
    assert NoRepeats(e.nodes);
    assert e.nodes[0] == item.nodes[0] && e.nodes[1] == item.nodes[1];
    hide Traced, Derived;
    LoopOnly(src, e.nodes);
  }

  /** The only repetition there can be is at the start. */
  lemma Repeats(ns: seq<string>)
    requires NoRepeats(ns) && !Sorting.NoDuplicates(ns)
    ensures |ns| >= 2 && ns[0] == ns[1]
  {
    var i, j :| 0 <= i < j < |ns| && ns[i] == ns[j];
    assert (i, j) == (0, 1);
  }

  lemma LoopOnly(src: string, ns: seq<string>)
    requires NoRepeats(ns) && |ns| >= 2 && ns[0] == src && ns[1] == src
    ensures ns[|ns| - 1] == src ==> ns == [src, src]
    ensures !Sorting.NoDuplicates(ns)
  {
    var last := |ns| - 1;
    if last > 1 {
      assert (0, last) != (0, 1) && ns[0] != ns[last];
    }
  }

  lemma TracedEnds(adjacencies: Adjacencies, nodes: set<string>, src: string, x: Item)
    requires Traced(adjacencies, nodes, src, x)
    ensures |x.nodes| >= 2 && x.nodes[0] == src && x.nodes[|x.nodes| - 1] == x.last
    ensures Sorting.Members(x.nodes) <= nodes
  {
    var w: seq<Hop> :| Walk(adjacencies, nodes, src, w, x.last) && Records(src, w, x);
    WalkNodes(adjacencies, nodes, src, w, x.last);
  }

  lemma LoopCost(adjacencies: Adjacencies, nodes: set<string>, src: string, x: Item)
    requires Traced(adjacencies, nodes, src, x) && NonNegative(adjacencies)
    ensures x.cost >= 0
  {
    var w: seq<Hop> :| Walk(adjacencies, nodes, src, w, x.last) && Records(src, w, x);
    LengthNonNegative(adjacencies, nodes, src, w, x.last);
  }

  lemma {:induction false} LengthNonNegative(adjacencies: Adjacencies, nodes: set<string>, src: string, w: seq<Hop>,
                                             d: string)
    requires Walk(adjacencies, nodes, src, w, d) && NonNegative(adjacencies)
    ensures Length(w) >= 0
  {
    if w != [] {
      LengthNonNegative(adjacencies, nodes, src, w[..|w| - 1], w[|w| - 1].node);
    }
  }

  ghost predicate ChildOf(adjacencies: Adjacencies, item: Item, x: Item) {
    exists adj :: adj in adjacencies(item.last) && adj.to !in item.nodes && x == Child(item, adj)
  }

  lemma PlainPop(adjacencies: Adjacencies, src: string, q: seq<Item>, item: Item, rest: seq<Item>, expanded: set<Item>,
                 frontier: map<string, seq<FrontierEntry>>)
    requires PlainSearch(adjacencies, src, q, expanded, frontier) && forall x :: x in q <==> x == item || x in rest
    ensures PlainSearch(adjacencies, src, [item] + rest, expanded, frontier)
    ensures PlainSearch(adjacencies, src, rest, expanded, frontier)
  {
    hide Derived, FrontierCovers, Plain;
    assert forall x :: x in [item] + rest <==> x == item || x in rest;
  }

  lemma PlainExpand(adjacencies: Adjacencies, src: string, q0: seq<Item>, q: seq<Item>, item: Item, expanded: set<Item>,
                    frontier: map<string, seq<FrontierEntry>>, updated: seq<FrontierEntry>)
    requires PlainSearch(adjacencies, src, q0, expanded, frontier) && (Plain(item) || item.last == src)
    requires forall x :: x in q ==> x in q0 || ChildOf(adjacencies, item, x)
    requires forall e :: e in updated <==>
        e == EntryOf(item) || (e in Entries(frontier, item.last) && !Dominates(EntryOf(item), e))
    ensures PlainSearch(adjacencies, src, q, expanded + {item}, frontier[item.last := updated])
  {
    var expanded', frontier' := expanded + {item}, frontier[item.last := updated];
    assert item in expanded';
    forall x | x in expanded'
      ensures exists f :: f in Entries(frontier', x.last) && Dominates(f, EntryOf(x))
    {
      ExpandCovers(item, x, expanded, frontier, updated);
    }
    forall x | x in q
      ensures Derived(adjacencies, src, expanded', x)
    {
      if x in q0 {
        DerivedGrows(adjacencies, src, expanded, item, x);
      }
    }
    hide Plain, Derived, Dominates;
  }

  lemma ExpandCovers(item: Item, x: Item, expanded: set<Item>, frontier: map<string, seq<FrontierEntry>>,
                     updated: seq<FrontierEntry>)
    requires FrontierCovers(frontier, expanded) && x in expanded + {item}
    requires forall e :: e in updated <==>
        e == EntryOf(item) || (e in Entries(frontier, item.last) && !Dominates(EntryOf(item), e))
    ensures exists f :: f in Entries(frontier[item.last := updated], x.last) && Dominates(f, EntryOf(x))
  {
    if x == item {
      assert EntryOf(item) in updated && Dominates(EntryOf(item), EntryOf(x));
    } else {
      var f :| f in Entries(frontier, x.last) && Dominates(f, EntryOf(x));
      if x.last == item.last {
        assert f in updated || (Dominates(EntryOf(item), f) && Dominates(EntryOf(item), EntryOf(x))
          && EntryOf(item) in updated);
      }
    }
  }

  lemma DerivedGrows(adjacencies: Adjacencies, src: string, expanded: set<Item>, item: Item, x: Item)
    requires Derived(adjacencies, src, expanded, x)
    ensures Derived(adjacencies, src, expanded + {item}, x)
  {
    if !exists adj :: adj in adjacencies(src) && x == SeedItem(src, adj) {
      var e, adj :| e in expanded && adj in adjacencies(e.last) && adj.to !in e.nodes && x == Child(e, adj);
      assert e in expanded + {item};
    }
  }

  // ---------- the steps ----------

  method Seed(adjacencies: Adjacencies, nodes: set<string>, src: string) returns (q: seq<Item>)
    requires src in nodes && Closed(adjacencies, nodes)
    ensures AllTraced(adjacencies, nodes, src, q)
    ensures Seeded(adjacencies, src, |adjacencies(src)|, [], q) && PlainSearch(adjacencies, src, q, {}, map[])
  {
    q := [];
    for i := 0 to |adjacencies(src)|
      invariant AllTraced(adjacencies, nodes, src, q)
      invariant Seeded(adjacencies, src, i, [], q)
      invariant forall x :: x in q ==> exists adj :: adj in adjacencies(src) && x == SeedItem(src, adj)
    {
      hide Traced, Seeded;
      SeedTraced(adjacencies, nodes, src, adjacencies(src)[i]);
      SeedStep(adjacencies, src, i, q);
      q := q + [SeedItem(src, adjacencies(src)[i])];
    }
  }

  lemma SeedStep(adjacencies: Adjacencies, src: string, i: nat, q: seq<Item>)
    requires i < |adjacencies(src)| && Seeded(adjacencies, src, i, [], q)
    ensures Seeded(adjacencies, src, i + 1, [], q + [SeedItem(src, adjacencies(src)[i])])
  {
    var q' := q + [SeedItem(src, adjacencies(src)[i])];
    assert forall x :: x in q ==> x in q';
    assert q'[|q|] in q';
  }

  /** Taking the least item out of the queue. */
  lemma PopKeeps(adjacencies: Adjacencies, nodes: set<string>, src: string, popped: seq<Item>, q: seq<Item>,
                 expanded: set<Item>, item: Item, rest: seq<Item>)
    requires AllTraced(adjacencies, nodes, src, popped) && AllTraced(adjacencies, nodes, src, q) && PopOrder(popped, q)
    requires AllExtended(adjacencies, expanded, popped, q)
    requires Seeded(adjacencies, src, |adjacencies(src)|, popped, q)
    requires item in q && forall x :: x in q ==> !ItemLess(x, item)
    requires forall x :: x in q <==> x == item || x in rest
    ensures
      var popped' := popped + [item];
      && AllTraced(adjacencies, nodes, src, popped') && AllTraced(adjacencies, nodes, src, rest)
      && PopOrder(popped', rest)
      && AllExtended(adjacencies, expanded, popped', rest)
      && Seeded(adjacencies, src, |adjacencies(src)|, popped', rest)
  {
    hide Traced;
    var popped' := popped + [item];
    assert forall x :: x in popped' <==> x in popped || x == item;
    assert forall x :: Pending(popped, q, x) ==> Pending(popped', rest, x);
    forall x | x in expanded
      ensures Extended(adjacencies, x, |adjacencies(x.last)|, popped', rest)
    {
      assert Extended(adjacencies, x, |adjacencies(x.last)|, popped, q);
    }
  }

  /** Queues every extension of the item and stays within its weight. */
  method PushChildren(adjacencies: Adjacencies, nodes: set<string>, src: string, item: Item, q0: seq<Item>,
                      ghost popped: seq<Item>)
    returns (q: seq<Item>)
    requires NonNegative(adjacencies) && Closed(adjacencies, nodes)
    requires Traced(adjacencies, nodes, src, item) && AllTraced(adjacencies, nodes, src, q0)
    requires PopOrder(popped, q0) && NoneAfter(popped, item)
    requires |item.nodes| < |nodes|
    ensures AllTraced(adjacencies, nodes, src, q) && PopOrder(popped, q)
    ensures forall x :: x in q0 ==> x in q
    ensures Extended(adjacencies, item, |adjacencies(item.last)|, popped, q)
    ensures forall x :: x in q ==> x in q0 || ChildOf(adjacencies, item, x)
    ensures QueueWeight(adjacencies, |nodes|, q) < QueueWeight(adjacencies, |nodes|, q0) + ItemWeight(adjacencies,
        |nodes|, item)
  {
    hide AllTraced, PopOrder, QueueWeight, ItemWeight, Weights, Weight, Extended, Traced, NonNegative, Closed, Child,
        ChildOf, NoneAfter, ItemLess;
    var adjs := adjacencies(item.last);
    var visited := Sorting.Members(item.nodes);
    ghost var fuel := |nodes| - |item.nodes| - 1;
    q := q0;
    NothingPushed(adjacencies, item, fuel, popped, q);
    for i := 0 to |adjs|
      invariant AllTraced(adjacencies, nodes, src, q) && PopOrder(popped, q)
      invariant forall x :: x in q0 ==> x in q
      invariant Extended(adjacencies, item, i, popped, q)
      invariant forall x :: x in q ==> x in q0 || ChildOf(adjacencies, item, x)
      invariant QueueWeight(adjacencies, |nodes|, q) <= QueueWeight(adjacencies, |nodes|, q0) + Weights(adjacencies,
          adjs[..i], fuel)
    {
      WeightsStep(adjacencies, adjs, i, fuel);
      if adjs[i].to in visited {
        SkipExtended(adjacencies, item, i, popped, q);
        continue;
      }
      PushTraced(adjacencies, nodes, src, q, item, adjs[i]);
      PushOrder(adjacencies, popped, q, item, adjs[i]);
      PushWeight(adjacencies, |nodes|, q, item, adjs[i]);
      PushExtended(adjacencies, item, i, popped, q);
      IsChild(adjacencies, item, i);
      q := q + [Child(item, adjs[i])];
    }
    assert adjs[..|adjs|] == adjs;
    ItemWeightIs(adjacencies, |nodes|, item);
  }

  lemma IsChild(adjacencies: Adjacencies, item: Item, i: nat)
    requires i < |adjacencies(item.last)| && adjacencies(item.last)[i].to !in item.nodes
    ensures ChildOf(adjacencies, item, Child(item, adjacencies(item.last)[i]))
  {
  }

  lemma NothingPushed(adjacencies: Adjacencies, x: Item, fuel: nat, popped: seq<Item>, q: seq<Item>)
    ensures Extended(adjacencies, x, 0, popped, q) && Weights(adjacencies, adjacencies(x.last)[..0], fuel) == 0
  {
  }

  lemma ItemWeightIs(adjacencies: Adjacencies, maxHops: nat, x: Item)
    requires |x.nodes| < maxHops
    ensures ItemWeight(adjacencies, maxHops, x) == 1 + Weights(adjacencies, adjacencies(x.last),
        maxHops - |x.nodes| - 1)
  {
  }

  lemma WeightsStep(adjacencies: Adjacencies, adjs: seq<Adjacency>, i: nat, fuel: nat)
    requires i < |adjs|
    ensures Weights(adjacencies, adjs[..i + 1], fuel) == Weights(adjacencies, adjs[..i], fuel) + Weight(adjacencies,
        adjs[i].to, fuel)
  {
    assert adjs[..i + 1][..i] == adjs[..i];
  }

  lemma SkipExtended(adjacencies: Adjacencies, x: Item, i: nat, popped: seq<Item>, q: seq<Item>)
    requires i < |adjacencies(x.last)| && Extended(adjacencies, x, i, popped, q) && adjacencies(x.last)[i].to in x.nodes
    ensures Extended(adjacencies, x, i + 1, popped, q)
  {
  }

  lemma PushExtended(adjacencies: Adjacencies, x: Item, i: nat, popped: seq<Item>, q: seq<Item>)
    requires i < |adjacencies(x.last)| && Extended(adjacencies, x, i, popped, q)
    ensures Extended(adjacencies, x, i + 1, popped, q + [Child(x, adjacencies(x.last)[i])])
  {
    var q' := q + [Child(x, adjacencies(x.last)[i])];
    assert forall y :: y in q ==> y in q';
    assert q'[|q|] in q';
  }

  lemma PushTraced(adjacencies: Adjacencies, nodes: set<string>, src: string, q: seq<Item>, x: Item, adj: Adjacency)
    requires Traced(adjacencies, nodes, src, x) && AllTraced(adjacencies, nodes, src, q) && Closed(adjacencies, nodes)
    requires adj in adjacencies(x.last) && adj.to !in x.nodes
    ensures AllTraced(adjacencies, nodes, src, q + [Child(x, adj)])
  {
    ChildTraced(adjacencies, nodes, src, x, adj);
  }

  lemma PushOrder(adjacencies: Adjacencies, popped: seq<Item>, q: seq<Item>, item: Item, adj: Adjacency)
    requires NonNegative(adjacencies) && adj in adjacencies(item.last)
    requires PopOrder(popped, q) && NoneAfter(popped, item)
    ensures PopOrder(popped, q + [Child(item, adj)])
  {
    var child := Child(item, adj);
    assert ItemLess(item, child);
    hide ItemLess, Child;
    forall x | x in popped
      ensures !ItemLess(child, x)
    {
      if ItemLess(child, x) {
        ItemLessTransitive(item, child, x);
      }
    }
  }

  lemma PushWeight(adjacencies: Adjacencies, maxHops: nat, q: seq<Item>, item: Item, adj: Adjacency)
    requires |item.nodes| < maxHops
    ensures QueueWeight(adjacencies, maxHops, q + [Child(item, adj)]) ==
      QueueWeight(adjacencies, maxHops, q) + Weight(adjacencies, adj.to, maxHops - |item.nodes| - 1)
  {
    QueueWeightConcat(adjacencies, maxHops, q, [Child(item, adj)]);
    QueueWeightOne(adjacencies, maxHops, Child(item, adj));
  }

  /** Recording a popped item, unless its destination has its eight paths. */
  method Record(out0: map<string, seq<Path>>, found0: map<string, nat>, ghost popped: seq<Item>, item: Item)
    returns (out: map<string, seq<Path>>, found: map<string, nat>)
    requires RecordedOk(out0, found0, popped)
    ensures RecordedOk(out, found, popped + [item])
  {
    out, found := out0, found0;
    var dst := item.last;
    hide RecordedFor, PathOf;
    if Count(found, dst) < MAX_PATHS_PER_DESTINATION {
      out := out[dst := Recorded(out, dst) + [PathOf(item)]];
      found := found[dst := Count(found, dst) + 1];
    }
    RecordAll(out0, found0, out, found, popped, item);
  }

  lemma RecordAll(out0: map<string, seq<Path>>, found0: map<string, nat>, out: map<string, seq<Path>>,
                  found: map<string, nat>,
                  popped: seq<Item>, item: Item)
    requires RecordedOk(out0, found0, popped)
    requires forall d :: if d == item.last && Count(found0, d) < MAX_PATHS_PER_DESTINATION
      then Recorded(out, d) == Recorded(out0, d) + [PathOf(item)] && Count(found, d) == Count(found0, d) + 1
      else Recorded(out, d) == Recorded(out0, d) && Count(found, d) == Count(found0, d)
    ensures forall d :: RecordedFor(Recorded(out, d), Count(found, d), popped + [item], d)
  {
    hide RecordedFor, PathOf, Recorded, Count;
    forall d
      ensures RecordedFor(Recorded(out, d), Count(found, d), popped + [item], d)
    {
      RecordStep(Recorded(out0, d), Count(found0, d), popped, item, d);
    }
  }

  lemma RecordStep(paths: seq<Path>, count: nat, popped: seq<Item>, item: Item, d: string)
    requires RecordedFor(paths, count, popped, d)
    ensures
      if d == item.last && count < MAX_PATHS_PER_DESTINATION then
        RecordedFor(paths + [PathOf(item)], count + 1, popped + [item], d)
      else RecordedFor(paths, count, popped + [item], d)
  {
    assert (popped + [item])[..|popped|] == popped;
  }

  /** A path that something on the frontier dominates is left there. */
  lemma DominatedKeeps(popped: seq<Item>, item: Item, expanded: set<Item>, frontier: map<string, seq<FrontierEntry>>,
                       maxHops: nat)
    requires FrontierOk(frontier, expanded) && AllCovered(popped, expanded, maxHops)
    requires exists e :: e in Entries(frontier, item.last) && Dominates(e, EntryOf(item))
    ensures AllCovered(popped + [item], expanded, maxHops)
  {
    var e :| e in Entries(frontier, item.last) && Dominates(e, EntryOf(item));
    var x :| x in expanded && x.last == item.last && EntryOf(x) == e;
    assert Covered(expanded, item);
  }

  lemma LongKeeps(popped: seq<Item>, item: Item, expanded: set<Item>, maxHops: nat)
    requires AllCovered(popped, expanded, maxHops) && |item.nodes| >= maxHops
    ensures AllCovered(popped + [item], expanded, maxHops)
  {
  }

  /** A path that is extended covers itself and joins the frontier. */
  lemma ExpandKeeps(adjacencies: Adjacencies, popped: seq<Item>, q: seq<Item>, q': seq<Item>, item: Item,
                    expanded: set<Item>,
                    frontier: map<string, seq<FrontierEntry>>, updated: seq<FrontierEntry>, src: string, maxHops: nat)
    requires FrontierOk(frontier, expanded) && AllCovered(popped, expanded, maxHops)
    requires AllExtended(adjacencies, expanded, popped + [item], q)
    requires Seeded(adjacencies, src, |adjacencies(src)|, popped + [item], q)
    requires forall e :: e in updated ==> e == EntryOf(item) || e in Entries(frontier, item.last)
    requires forall x :: x in q ==> x in q'
    requires Extended(adjacencies, item, |adjacencies(item.last)|, popped + [item], q')
    ensures FrontierOk(frontier[item.last := updated], expanded + {item})
    ensures AllCovered(popped + [item], expanded + {item}, maxHops)
    ensures AllExtended(adjacencies, expanded + {item}, popped + [item], q')
    ensures Seeded(adjacencies, src, |adjacencies(src)|, popped + [item], q')
  {
    FrontierGrows(frontier, expanded, item, updated);
    CoverGrows(popped, expanded, item, maxHops);
    forall x | x in expanded
      ensures Extended(adjacencies, x, |adjacencies(x.last)|, popped + [item], q')
    {
      assert Extended(adjacencies, x, |adjacencies(x.last)|, popped + [item], q);
    }
  }

  lemma FrontierGrows(frontier: map<string, seq<FrontierEntry>>, expanded: set<Item>, item: Item,
                      updated: seq<FrontierEntry>)
    requires FrontierOk(frontier, expanded)
    requires forall e :: e in updated ==> e == EntryOf(item) || e in Entries(frontier, item.last)
    ensures FrontierOk(frontier[item.last := updated], expanded + {item})
  {
    var frontier' := frontier[item.last := updated];
    forall n, e | n in frontier' && e in frontier'[n]
      ensures exists x :: x in expanded + {item} && x.last == n && EntryOf(x) == e
    {
      if n == item.last && e == EntryOf(item) {
        assert item in expanded + {item};
      } else {
        var x :| x in expanded && x.last == n && EntryOf(x) == e;
        assert x in expanded + {item};
      }
    }
  }

  lemma CoverGrows(popped: seq<Item>, expanded: set<Item>, item: Item, maxHops: nat)
    requires AllCovered(popped, expanded, maxHops)
    ensures AllCovered(popped + [item], expanded + {item}, maxHops)
  {
    var expanded' := expanded + {item};
    assert item in expanded';
    assert Covered(expanded', item);
    forall x | x in popped && Covered(expanded, x)
      ensures Covered(expanded', x)
    {
      var e :| e in expanded && e.last == x.last && Dominates(EntryOf(e), EntryOf(x));
      assert e in expanded';
    }
  }

  // ---------- the search ----------

  /** Handles one popped item: record it, and extend it unless it is long or dominated. */
  method Handle(adjacencies: Adjacencies, nodes: set<string>, src: string, item: Item, q0: seq<Item>,
                ghost popped: seq<Item>,
                ghost expanded0: set<Item>, frontier0: map<string, seq<FrontierEntry>>)
    returns (q: seq<Item>, ghost expanded: set<Item>, frontier: map<string, seq<FrontierEntry>>)
    requires NonNegative(adjacencies) && Closed(adjacencies, nodes)
    requires AllTraced(adjacencies, nodes, src, popped + [item]) && AllTraced(adjacencies, nodes, src, q0)
    requires PopOrder(popped + [item], q0) && FrontierOk(frontier0, expanded0)
    requires AllCovered(popped, expanded0, |nodes|)
    requires AllExtended(adjacencies, expanded0, popped + [item], q0)
    requires Seeded(adjacencies, src, |adjacencies(src)|, popped + [item], q0)
    requires PlainSearch(adjacencies, src, [item] + q0, expanded0, frontier0)
    requires PlainSearch(adjacencies, src, q0, expanded0, frontier0)
    requires (forall x :: x in q0 ==> !ItemLess(x, item)) && forall x :: x in expanded0 ==>
        Traced(adjacencies, nodes, src, x)
    ensures Invariant(adjacencies, nodes, src, popped + [item], q, expanded, frontier)
    ensures PlainSearch(adjacencies, src, q, expanded, frontier) && forall x :: x in expanded ==>
        Traced(adjacencies, nodes, src, x)
    ensures QueueWeight(adjacencies, |nodes|, q) < QueueWeight(adjacencies, |nodes|, q0) + ItemWeight(adjacencies,
        |nodes|, item)
  {
    hide AllExtended, AllCovered, Seeded, FrontierOk, Extended, Traced, Covered, QueueWeight, PlainSearch, ItemLess,
        Plain, Dominates, ChildOf;
    q, expanded, frontier := q0, expanded0, frontier0;
    if |item.nodes| >= |nodes| {
      LongKeeps(popped, item, expanded, |nodes|);
      return;
    }
    var curr := EntryOf(item);
    var dominated := IsDominated(Entries(frontier, item.last), curr);
    if dominated {
      DominatedKeeps(popped, item, expanded, frontier, |nodes|);
      return;
    }
    var updated := Replace(Entries(frontier, item.last), curr);
    LastPopped(popped, item, q0);
    assert (popped + [item])[|popped|] == item;
    if !Plain(item) && item.last != src {
      LoopDominated(adjacencies, nodes, src, popped, item, q0, expanded, frontier);
    }
    q := PushChildren(adjacencies, nodes, src, item, q0, popped + [item]);
    ExpandKeeps(adjacencies, popped, q0, q, item, expanded, frontier, updated, src, |nodes|);
    PlainExpand(adjacencies, src, q0, q, item, expanded, frontier, updated);
    frontier := frontier[item.last := updated];
    expanded := expanded + {item};
  }

  lemma LastPopped(popped: seq<Item>, item: Item, q: seq<Item>)
    requires PopOrder(popped + [item], q)
    ensures NoneAfter(popped + [item], item)
  {
    hide ItemLess;
    var all := popped + [item];
    forall x | x in all
      ensures !ItemLess(item, x)
    {
      var i :| 0 <= i < |all| && all[i] == x;
      assert all[|popped|] == item;
      ItemIrreflexive(item);
    }
  }

  predicate PathLess(a: Path, b: Path) {
    if a.cost != b.cost then a.cost < b.cost else Text.Less(Text.Join(a.nodes, ","), Text.Join(b.nodes, ","))
  }

  /** The cheapest first, and by the joined names of the nodes among the equally cheap. */
  ghost predicate ByCostThenNames(ps: seq<Path>) {
    forall i, j :: 0 <= i < j < |ps| ==>
      || ps[i].cost < ps[j].cost
      || (ps[i].cost == ps[j].cost && !Text.Less(Text.Join(ps[j].nodes, ","), Text.Join(ps[i].nodes, ",")))
  }

  lemma SortedByCost(ps: seq<Path>)
    requires Sorting.Sorted(ps, PathLess)
    ensures ByCostThenNames(ps)
  {
    hide Text.Less, Text.Join;
  }

  lemma PathOrder()
    ensures Sorting.WeakOrder(PathLess)
  {
    forall a, b | PathLess(a, b)
      ensures !PathLess(b, a)
    {
      if a.cost == b.cost {
        Text.LessAsymmetric(Text.Join(a.nodes, ","), Text.Join(b.nodes, ","));
      }
    }
    forall a, b, c | !PathLess(b, a) && !PathLess(c, b)
      ensures !PathLess(c, a)
    {
      if PathLess(c, a) && a.cost == b.cost == c.cost {
        var ja, jb, jc := Text.Join(a.nodes, ","), Text.Join(b.nodes, ","), Text.Join(c.nodes, ",");
        Text.LessTotal(ja, jb);
        Text.LessTotal(jb, jc);
        if ja != jb {
          Text.LessTransitive(jc, ja, jb);
        }
      }
    }
  }

  /** The search is over: the queue is empty. */
  ghost predicate Explored(adjacencies: Adjacencies, nodes: set<string>, src: string, popped: seq<Item>) {
    exists expanded, frontier :: Invariant(adjacencies, nodes, src, popped, [], expanded, frontier)
      && PlainSearch(adjacencies, src, [], expanded, frontier)
  }

  /** Per destination the first eight popped, sorted. */
  ghost predicate Collected(out: map<string, seq<Path>>, popped: seq<Item>) {
    && (forall d :: Recorded(out, d) == Sorting.Sort(PathsOf(FirstFew(PoppedFor(popped, d))), PathLess))
    && (forall d :: d in out ==> out[d] != [])
  }

  method CandidatePaths(adjacencies: Adjacencies, nodes: set<string>, src: string)
    returns (out: map<string, seq<Path>>, ghost popped: seq<Item>)
    requires src in nodes && NonNegative(adjacencies) && Closed(adjacencies, nodes)
    ensures Explored(adjacencies, nodes, src, popped)
    ensures InOrder(popped)
    ensures Collected(out, popped)
    ensures forall d :: d in out ==> |out[d]| <= 8 && ByCostThenNames(out[d])
    ensures forall d, p :: d in out && p in out[d] ==> Genuine(adjacencies, nodes, src, d, p)
    ensures forall d, w :: w != [] && Walk(adjacencies, nodes, src, w, d) && Simple(src, w) ==>
        d in out && out[d][0].cost <= Length(w)
  {
    hide Invariant, RecordedOk, PlainSearch, Traced, ItemLess;
    var found: map<string, nat>, frontier: map<string, seq<FrontierEntry>>;
    out, found, frontier, popped := map[], map[], map[], [];
    ghost var expanded: set<Item> := {};
    var q := Seed(adjacencies, nodes, src);
    StartInvariant(adjacencies, nodes, src, q);
    while |q| > 0
      invariant Invariant(adjacencies, nodes, src, popped, q, expanded, frontier)
      invariant PlainSearch(adjacencies, src, q, expanded, frontier) && forall x :: x in expanded ==>
          Traced(adjacencies, nodes, src, x)
      invariant RecordedOk(out, found, popped)
      decreases QueueWeight(adjacencies, |nodes|, q)
    {
      hide AllTraced, PopOrder, FrontierOk, AllCovered, AllExtended, Seeded, QueueWeight, ItemWeight;
      var item, k, rest := Pop(q);
      InvariantParts(adjacencies, nodes, src, popped, q, expanded, frontier);
      PopKeeps(adjacencies, nodes, src, popped, q, expanded, item, rest);
      PopWeight(adjacencies, |nodes|, q, k);
      PlainPop(adjacencies, src, q, item, rest, expanded, frontier);
      out, found := Record(out, found, popped, item);
      q, expanded, frontier := Handle(adjacencies, nodes, src, item, rest, popped, expanded, frontier);
      popped := popped + [item];
    }
    assert Explored(adjacencies, nodes, src, popped);
    ghost var unsorted := out;
    out := map d | d in out :: Sorting.Sort(out[d], PathLess);
    Collect(unsorted, found, out, popped);
    Results(adjacencies, nodes, src, popped, out);
  }

  lemma StartInvariant(adjacencies: Adjacencies, nodes: set<string>, src: string, q: seq<Item>)
    requires AllTraced(adjacencies, nodes, src, q) && Seeded(adjacencies, src, |adjacencies(src)|, [], q)
    ensures Invariant(adjacencies, nodes, src, [], q, {}, map[])
    ensures RecordedOk(map[], map[], [])
  {
  }

  lemma InvariantParts(adjacencies: Adjacencies, nodes: set<string>, src: string, popped: seq<Item>, q: seq<Item>,
                       expanded: set<Item>, frontier: map<string, seq<FrontierEntry>>)
    requires Invariant(adjacencies, nodes, src, popped, q, expanded, frontier)
    ensures AllTraced(adjacencies, nodes, src, popped) && AllTraced(adjacencies, nodes, src, q) && PopOrder(popped, q)
    ensures FrontierOk(frontier, expanded) && AllCovered(popped, expanded, |nodes|)
    ensures AllExtended(adjacencies, expanded, popped, q)
    ensures Seeded(adjacencies, src, |adjacencies(src)|, popped, q)
  {
  }

  lemma Collect(unsorted: map<string, seq<Path>>, found: map<string, nat>, out: map<string, seq<Path>>,
                popped: seq<Item>)
    requires RecordedOk(unsorted, found, popped)
    requires out == map d | d in unsorted :: Sorting.Sort(unsorted[d], PathLess)
    ensures Collected(out, popped)
  {
    forall d
      ensures Recorded(out, d) == Sorting.Sort(PathsOf(FirstFew(PoppedFor(popped, d))), PathLess)
    {
      assert RecordedFor(Recorded(unsorted, d), Count(found, d), popped, d);
    }
  }

  // ---------- what the result promises ----------

  ghost predicate Simple(src: string, w: seq<Hop>) {
    Sorting.NoDuplicates(RouteOf(src, w).nodes)
  }

  /** No allowed adjacency leads from src to itself. */
  ghost predicate NoSelf(adjacencies: Adjacencies, src: string) {
    forall i :: 0 <= i < |adjacencies(src)| ==> adjacencies(src)[i].to != src
  }

  /** A path as the walk it stands for, with that walk's cost and condition. */
  ghost predicate Genuine(adjacencies: Adjacencies, nodes: set<string>, src: string, d: string, p: Path) {
    exists w ::
      && w != []
      && Walk(adjacencies, nodes, src, w, d)
      && p.cost == Length(w)
      && Route(p.nodes, p.links, p.areas) == RouteOf(src, w)
      && NoRepeats(p.nodes)
      && p.cond == And(PathCondition(p.nodes, p.links))
  }

  lemma {:induction false} PoppedForMembers(popped: seq<Item>, d: string)
    ensures forall x :: x in PoppedFor(popped, d) <==> x in popped && x.last == d
  {
    if popped != [] {
      PoppedForMembers(popped[..|popped| - 1], d);
      assert popped == popped[..|popped| - 1] + [popped[|popped| - 1]];
    }
  }

  /** The first item popped for a destination is its cheapest. */
  lemma {:induction false} PoppedForFirst(popped: seq<Item>, d: string)
    requires forall i, j :: 0 <= i < j < |popped| ==> popped[i].cost <= popped[j].cost
    ensures forall x :: x in popped && x.last == d ==>
        PoppedFor(popped, d) != [] && PoppedFor(popped, d)[0].cost <= x.cost
  {
    if popped != [] {
      var init := popped[..|popped| - 1];
      PoppedForFirst(init, d);
      PoppedForMembers(init, d);
      assert popped == init + [popped[|popped| - 1]];
      if PoppedFor(init, d) != [] {
        assert PoppedFor(init, d)[0] in PoppedFor(init, d);
        assert PoppedFor(popped, d)[0] == PoppedFor(init, d)[0];
      }
    }
  }

  lemma RecordedFromPopped(out: map<string, seq<Path>>, popped: seq<Item>, d: string, p: Path)
    requires Collected(out, popped) && p in Recorded(out, d)
    ensures exists x :: x in popped && x.last == d && p == PathOf(x)
  {
    var few := FirstFew(PoppedFor(popped, d));
    Sorting.SortMembers(PathsOf(few), PathLess);
    var i :| 0 <= i < |few| && PathsOf(few)[i] == p;
    assert few[i] in PoppedFor(popped, d);
    PoppedForMembers(popped, d);
  }

  lemma RecordedGenuine(adjacencies: Adjacencies, nodes: set<string>, src: string, popped: seq<Item>, x: Item)
    requires Traced(adjacencies, nodes, src, x)
    ensures Genuine(adjacencies, nodes, src, x.last, PathOf(x))
  {
  }

  /** The cheapest path popped for a destination comes first in the result. */
  lemma CheapestFirst(adjacencies: Adjacencies, nodes: set<string>, src: string, popped: seq<Item>,
                      out: map<string, seq<Path>>, x: Item)
    requires PopOrder(popped, []) && Collected(out, popped) && x in popped
    ensures x.last in out && out[x.last] != [] && out[x.last][0].cost <= x.cost
  {
    var d := x.last;
    var few := FirstFew(PoppedFor(popped, d));
    PoppedForFirst(popped, d);
    assert few[0] == PoppedFor(popped, d)[0];
    var paths := PathsOf(few);
    PathOrder();
    Sorting.SortSorts(paths, PathLess);
    Sorting.SortMembers(paths, PathLess);
    assert PathOf(few[0]) == paths[0] && paths[0] in paths;
    var j :| 0 <= j < |paths| && Sorting.Sort(paths, PathLess)[j] == paths[0];
    assert Recorded(out, d) == Sorting.Sort(paths, PathLess);
  }

  lemma {:induction false} MembersSize<T(!new)>(s: seq<T>)
    requires Sorting.NoDuplicates(s)
    ensures |Sorting.Members(s)| == |s|
  {
    if s != [] {
      var init, x := s[..|s| - 1], s[|s| - 1];
      MembersSize(init);
      assert s == init + [x];
      assert x !in Sorting.Members(init);
      assert Sorting.Members(s) == Sorting.Members(init) + {x};
    }
  }

  lemma {:induction false} FullSubset(a: set<string>, b: set<string>)
    requires a <= b && |a| >= |b|
    ensures a == b
  {
    if a != b {
      var x :| x in b && x !in a;
      Sorting.SubsetSize(a, b - {x});
    }
  }

  /** Unless an adjacency leads back to src at once, a traced item repeats no node. */
  lemma TracedSimple(adjacencies: Adjacencies, nodes: set<string>, src: string, x: Item)
    requires Traced(adjacencies, nodes, src, x) && NoSelf(adjacencies, src)
    ensures Sorting.NoDuplicates(x.nodes) && Sorting.Members(x.nodes) <= nodes
  {
    TracedEnds(adjacencies, nodes, src, x);
    FirstStep(adjacencies, nodes, src, x);
    assert NoRepeats(x.nodes);
    hide Traced;
    if !Sorting.NoDuplicates(x.nodes) {
      Repeats(x.nodes);
    }
  }

  lemma FirstStep(adjacencies: Adjacencies, nodes: set<string>, src: string, x: Item)
    requires Traced(adjacencies, nodes, src, x)
    ensures |x.nodes| >= 2 && exists adj :: adj in adjacencies(src) && adj.to == x.nodes[1]
  {
    var w: seq<Hop> :| Walk(adjacencies, nodes, src, w, x.last) && Records(src, w, x);
    WalkNodes(adjacencies, nodes, src, w, x.last);
    FirstHop(adjacencies, nodes, src, w, x.last);
    hide Walk;
    assert x.nodes[1] == w[0].adj.to;
  }

  lemma {:induction false} FirstHop(adjacencies: Adjacencies, nodes: set<string>, src: string, w: seq<Hop>, d: string)
    requires Walk(adjacencies, nodes, src, w, d) && w != []
    ensures w[0].node == src && w[0].adj in adjacencies(src)
  {
    if |w| > 1 {
      FirstHop(adjacencies, nodes, src, w[..|w| - 1], w[|w| - 1].node);
    }
  }

  /** A path without repeats that costs no more than the walk and visits only nodes of it. */
  ghost predicate NoWorse(src: string, w: seq<Hop>, d: string, x: Item) {
    Plain(x) && x.last == d && x.cost <= Length(w) && Sorting.Members(x.nodes) <= Sorting.Members(RouteOf(src, w).nodes)
  }

  /**
   Dominance loses nothing: for every simple walk some simple path to the same node was
   popped that costs no more and visits only nodes of the walk.
   */
  lemma {:induction false} DominanceComplete(adjacencies: Adjacencies, nodes: set<string>, src: string,
                                             popped: seq<Item>, w: seq<Hop>, d: string)
    requires Explored(adjacencies, nodes, src, popped) && NonNegative(adjacencies)
    requires w != [] && Walk(adjacencies, nodes, src, w, d) && Simple(src, w)
    ensures exists x :: x in popped && NoWorse(src, w, d, x)
  {
    var expanded, frontier :| Invariant(adjacencies, nodes, src, popped, [], expanded, frontier)
      && PlainSearch(adjacencies, src, [], expanded, frontier);
    InvariantParts(adjacencies, nodes, src, popped, [], expanded, frontier);
    PlainExpanded(adjacencies, src, expanded, frontier);
    hide Invariant, AllTraced, PopOrder, FrontierOk, AllCovered, AllExtended, Seeded, Walk, Explored, NoWorse,
        Simple, NonNegative, Child, PlainSearch, Plain;
    var before, h := w[..|w| - 1], w[|w| - 1];
    LastHop(adjacencies, nodes, src, w, d);
    if before == [] {
      SeedPopped(adjacencies, nodes, src, popped, w, d);
    } else {
      NotAtSource(adjacencies, nodes, src, before, h.node);
      DominanceComplete(adjacencies, nodes, src, popped, before, h.node);
      var x :| x in popped && NoWorse(src, before, h.node, x);
      var e := CoveringPath(adjacencies, nodes, src, popped, expanded, before, h, x);
      ChildPopped(adjacencies, popped, expanded, e, h.adj);
      ChildNoWorse(src, w, d, e);
      assert Child(e, h.adj) in popped && NoWorse(src, w, d, Child(e, h.adj));
    }
  }

  lemma PlainExpanded(adjacencies: Adjacencies, src: string, expanded: set<Item>,
                      frontier: map<string, seq<FrontierEntry>>)
    requires PlainSearch(adjacencies, src, [], expanded, frontier)
    ensures forall x :: x in expanded ==> Plain(x) || x.last == src
  {
  }

  /** A simple walk that goes anywhere does not end where it started. */
  lemma NotAtSource(adjacencies: Adjacencies, nodes: set<string>, src: string, w: seq<Hop>, d: string)
    requires w != [] && Walk(adjacencies, nodes, src, w, d) && Simple(src, w)
    ensures d != src
  {
    WalkNodes(adjacencies, nodes, src, w, d);
  }

  lemma LastHop(adjacencies: Adjacencies, nodes: set<string>, src: string, w: seq<Hop>, d: string)
    requires w != [] && Walk(adjacencies, nodes, src, w, d) && Simple(src, w)
    ensures
      var before, h := w[..|w| - 1], w[|w| - 1];
      && Walk(adjacencies, nodes, src, before, h.node) && Simple(src, before)
      && h.adj in adjacencies(h.node) && h.adj.to == d
      && d !in RouteOf(src, before).nodes && d in nodes
  {
    var before := w[..|w| - 1];
    assert RouteOf(src, w).nodes == RouteOf(src, before).nodes + [d];
    assert RouteOf(src, w).nodes[|w|] == d;
    assert forall i :: 0 <= i < |w| ==> RouteOf(src, w).nodes[i] == RouteOf(src, before).nodes[i];
  }

  lemma SeedPopped(adjacencies: Adjacencies, nodes: set<string>, src: string, popped: seq<Item>, w: seq<Hop>, d: string)
    requires |w| == 1 && Walk(adjacencies, nodes, src, w, d) && Simple(src, w)
    requires Seeded(adjacencies, src, |adjacencies(src)|, popped, [])
    ensures exists x :: x in popped && NoWorse(src, w, d, x)
  {
    var adj := w[0].adj;
    FirstHop(adjacencies, nodes, src, w, d);
    var j :| 0 <= j < |adjacencies(src)| && adjacencies(src)[j] == adj;
    assert Pending(popped, [], SeedItem(src, adj));
    assert w[..0] == [];
    assert Length(w) == Length(w[..0]) + adj.cost == adj.cost;
    assert RouteOf(src, w).nodes == [src] + [adj.to];
    assert SeedItem(src, adj) in popped && NoWorse(src, w, d, SeedItem(src, adj));
  }

  /** A path no worse than the walk that was extended; it is short enough to have been. */
  lemma CoveringPath(adjacencies: Adjacencies, nodes: set<string>, src: string, popped: seq<Item>, expanded: set<Item>,
                     before: seq<Hop>, h: Hop, x: Item) returns (e: Item)
    requires AllTraced(adjacencies, nodes, src, popped) && AllCovered(popped, expanded, |nodes|)
    requires (forall y :: y in expanded ==> Plain(y) || y.last == src) && h.node != src
    requires x in popped && NoWorse(src, before, h.node, x)
    requires h.adj.to in nodes && h.adj.to !in RouteOf(src, before).nodes
    ensures e in expanded && NoWorse(src, before, h.node, e) && e.last == h.node && h.adj.to !in e.nodes
  {
    assert h.adj.to !in Sorting.Members(x.nodes);
    if |x.nodes| >= |nodes| {
      TracedEnds(adjacencies, nodes, src, x);
      MembersSize(x.nodes);
      FullSubset(Sorting.Members(x.nodes), nodes);
    }
    e :| e in expanded && e.last == x.last && Dominates(EntryOf(e), EntryOf(x));
    assert h.adj.to !in Sorting.Members(e.nodes);
  }

  lemma ChildPopped(adjacencies: Adjacencies, popped: seq<Item>, expanded: set<Item>, e: Item, adj: Adjacency)
    requires AllExtended(adjacencies, expanded, popped, []) && e in expanded
    requires adj in adjacencies(e.last) && adj.to !in e.nodes
    ensures Child(e, adj) in popped
  {
    assert Extended(adjacencies, e, |adjacencies(e.last)|, popped, []);
    var j :| 0 <= j < |adjacencies(e.last)| && adjacencies(e.last)[j] == adj;
    assert Pending(popped, [], Child(e, adjacencies(e.last)[j]));
  }

  lemma ChildNoWorse(src: string, w: seq<Hop>, d: string, e: Item)
    requires w != [] && w[|w| - 1].adj.to == d && NoWorse(src, w[..|w| - 1], w[|w| - 1].node, e) && d !in e.nodes
    ensures NoWorse(src, w, d, Child(e, w[|w| - 1].adj))
  {
    var before := w[..|w| - 1];
    assert RouteOf(src, w).nodes == RouteOf(src, before).nodes + [d];
    forall n | n in Sorting.Members(Child(e, w[|w| - 1].adj).nodes)
      ensures n in Sorting.Members(RouteOf(src, w).nodes)
    {
      assert n in e.nodes ==> n in Sorting.Members(e.nodes);
    }
  }

  /** Everything the result promises, from the finished search. */
  lemma Results(adjacencies: Adjacencies, nodes: set<string>, src: string, popped: seq<Item>,
                out: map<string, seq<Path>>)
    requires Explored(adjacencies, nodes, src, popped) && Collected(out, popped) && NonNegative(adjacencies)
    ensures InOrder(popped)
    ensures forall d :: d in out ==> |out[d]| <= 8 && ByCostThenNames(out[d])
    ensures forall d, p :: d in out && p in out[d] ==> Genuine(adjacencies, nodes, src, d, p)
    ensures forall d, w :: w != [] && Walk(adjacencies, nodes, src, w, d) && Simple(src, w) ==>
        d in out && out[d][0].cost <= Length(w)
  {
    var expanded, frontier :| Invariant(adjacencies, nodes, src, popped, [], expanded, frontier);
    InvariantParts(adjacencies, nodes, src, popped, [], expanded, frontier);
    PoppedInOrder(popped, []);
    hide Invariant, FrontierOk, AllCovered, AllExtended, Seeded, Walk, Explored, Traced, Genuine, PopOrder, InOrder,
        ByCostThenNames, Text.Less;
    forall d | d in out
      ensures |out[d]| <= 8 && ByCostThenNames(out[d])
    {
      assert out[d] == Recorded(out, d);
      PathOrder();
      Sorting.SortSorts(PathsOf(FirstFew(PoppedFor(popped, d))), PathLess);
      SortedByCost(out[d]);
    }
    forall d, p | d in out && p in out[d]
      ensures Genuine(adjacencies, nodes, src, d, p)
    {
      assert p in Recorded(out, d);
      RecordedFromPopped(out, popped, d, p);
      var x :| x in popped && x.last == d && p == PathOf(x);
      RecordedGenuine(adjacencies, nodes, src, popped, x);
    }
    forall d, w | w != [] && Walk(adjacencies, nodes, src, w, d) && Simple(src, w)
      ensures d in out && out[d][0].cost <= Length(w)
    {
      DominanceComplete(adjacencies, nodes, src, popped, w, d);
      var x :| x in popped && NoWorse(src, w, d, x);
      CheapestFirst(adjacencies, nodes, src, popped, out, x);
    }
  }

  /** All recorded paths are simple exactly when src has no adjacency with itself. */
  lemma SimpleExactlyWithoutSelf(adjacencies: Adjacencies, nodes: set<string>, src: string, popped: seq<Item>,
                                 out: map<string, seq<Path>>)
    requires Explored(adjacencies, nodes, src, popped) && Collected(out, popped)
    ensures (forall d, p :: p in Recorded(out, d) ==> Sorting.NoDuplicates(p.nodes)) <==> NoSelf(adjacencies, src)
  {
    var expanded, frontier :| Invariant(adjacencies, nodes, src, popped, [], expanded, frontier);
    InvariantParts(adjacencies, nodes, src, popped, [], expanded, frontier);
    hide Invariant, FrontierOk, AllCovered, AllExtended, Explored, Traced;
    if NoSelf(adjacencies, src) {
      forall d, p | p in Recorded(out, d)
        ensures Sorting.NoDuplicates(p.nodes)
      {
        RecordedFromPopped(out, popped, d, p);
        var x :| x in popped && x.last == d && p == PathOf(x);
        TracedSimple(adjacencies, nodes, src, x);
      }
    } else {
      var i :| 0 <= i < |adjacencies(src)| && adjacencies(src)[i].to == src;
      assert Pending(popped, [], SeedItem(src, adjacencies(src)[i]));
      CheapestFirst(adjacencies, nodes, src, popped, out, SeedItem(src, adjacencies(src)[i]));
      var p := out[src][0];
      assert p in Recorded(out, src);
      RecordedFromPopped(out, popped, src, p);
      var x :| x in popped && x.last == src && p == PathOf(x);
      LoopRepeats(adjacencies, nodes, src, x);
    }
  }

  lemma LoopRepeats(adjacencies: Adjacencies, nodes: set<string>, src: string, x: Item)
    requires Traced(adjacencies, nodes, src, x) && x.last == src
    ensures !Sorting.NoDuplicates(x.nodes)
  {
    var w: seq<Hop> :| Walk(adjacencies, nodes, src, w, x.last) && Records(src, w, x);
    WalkNodes(adjacencies, nodes, src, w, x.last);
    assert x.nodes[0] == x.nodes[|w|];
  }

  /** One condition for every node and every link. */
  lemma PathConditionHas(ns: seq<string>, links: seq<string>, c: Cond)
    ensures c in PathCondition(ns, links) <==>
        (exists n :: n in ns && c == Lit(NodeVar(n))) || (exists l :: l in links && c == Lit(LinkVar(l)))
  {
    var cs := PathCondition(ns, links);
    if c in cs {
      var i :| 0 <= i < |cs| && cs[i] == c;
      assert if i < |ns| then c == Lit(NodeVar(ns[i])) && ns[i] in ns
        else c == Lit(LinkVar(links[i - |ns|])) && links[i - |ns|] in links;
    }
    if n :| n in ns && c == Lit(NodeVar(n)) {
      var i :| 0 <= i < |ns| && ns[i] == n;
      assert cs[i] == c;
    }
    if l :| l in links && c == Lit(LinkVar(l)) {
      var i :| 0 <= i < |links| && links[i] == l;
      assert cs[|ns| + i] == c;
    }
  }

  /** The recorded condition is true exactly when every node and link of the path is up. */
  lemma PathConditionExact(ns: seq<string>, links: seq<string>, ctx: Context)
    requires forall n :: n in ns || n in links ==> CleanName(n)
    ensures Eval(And(PathCondition(ns, links)), ctx) <==>
      (forall n :: n in ns ==> !ctx.NodeFailed(n)) && (forall l :: l in links ==> !ctx.LinkFailed(l))
  {
    var cs := PathCondition(ns, links);
    hide PathCondition;
    forall i | 0 <= i < |cs|
      ensures Clean(cs[i])
    {
      PathConditionHas(ns, links, cs[i]);
    }
    AndMeans(cs, ctx);
    hide And;
    forall n | n in ns
      ensures Lit(NodeVar(n)) in cs
    {
      PathConditionHas(ns, links, Lit(NodeVar(n)));
    }
    forall l | l in links
      ensures Lit(LinkVar(l)) in cs
    {
      PathConditionHas(ns, links, Lit(LinkVar(l)));
    }
    if (forall n :: n in ns ==> !ctx.NodeFailed(n)) && (forall l :: l in links ==> !ctx.LinkFailed(l)) {
      forall c | c in cs
        ensures Eval(c, ctx)
      {
        PathConditionHas(ns, links, c);
      }
    } else if n :| n in ns && ctx.NodeFailed(n) {
      assert !Eval(Lit(NodeVar(n)), ctx);
    } else {
      var l :| l in links && ctx.LinkFailed(l);
      assert !Eval(Lit(LinkVar(l)), ctx);
    }
  }
}
