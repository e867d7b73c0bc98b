/** Adjacencies and walks over them. */
module Graph {

  datatype Adjacency = Adjacency(from: string, to: string, link: string, area: string, cost: int)

  type Adjacencies = string -> seq<Adjacency>

  /** One step of a walk: an adjacency listed for the node it leaves. */
  datatype Hop = Hop(node: string, adj: Adjacency)

  ghost predicate Edge(adjacencies: Adjacencies, nodes: set<string>, h: Hop) {
    h.node in nodes && h.adj in adjacencies(h.node) && h.adj.to in nodes
  }

  /** A walk inside `nodes`. */
  ghost predicate Walk(adjacencies: Adjacencies, nodes: set<string>, src: string, w: seq<Hop>, dst: string) {
    if w == [] then src == dst && src in nodes
    else
      var h := w[|w| - 1];
      h.adj.to == dst && Edge(adjacencies, nodes, h) && Walk(adjacencies, nodes, src, w[..|w| - 1], h.node)
  }

  function Length(w: seq<Hop>): int {
    if w == [] then 0 else Length(w[..|w| - 1]) + w[|w| - 1].adj.cost
  }

  ghost predicate NonNegative(adjacencies: Adjacencies) {
    forall u, i :: 0 <= i < |adjacencies(u)| ==> adjacencies(u)[i].cost >= 0
  }

  ghost predicate Positive(adjacencies: Adjacencies) {
    forall u, i :: 0 <= i < |adjacencies(u)| ==> adjacencies(u)[i].cost > 0
  }

  datatype Route = Route(nodes: seq<string>, links: seq<string>, areas: seq<string>)

  /** A walk as the lists of nodes, links and areas it visits. */
  function RouteOf(src: string, w: seq<Hop>): (r: Route)
    ensures |r.nodes| == |w| + 1 && |r.links| == |w| && |r.areas| == |w|
    ensures forall i :: 0 <= i < |w| ==> r.links[i] == w[i].adj.link && r.nodes[i + 1] == w[i].adj.to
    ensures r.nodes[0] == src
  {
    if w == [] then Route([src], [], [])
    else
      var r, a := RouteOf(src, w[..|w| - 1]), w[|w| - 1].adj;
      Route(r.nodes + [a.to], r.links + [a.link], r.areas + [a.area])
  }

  lemma WalkNodes(adjacencies: Adjacencies, nodes: set<string>, src: string, w: seq<Hop>, dst: string)
    requires Walk(adjacencies, nodes, src, w, dst)
    ensures forall n :: n in RouteOf(src, w).nodes ==> n in nodes
    ensures RouteOf(src, w).nodes[|w|] == dst
  {
  }
}
