/** The topology index: nodes and links by name, links by their two endpoints. */
module Topology {
  import opened Failure
  import opened Wrappers
  import Sorting
  import Text

  datatype Pair = Pair(a: string, b: string)

  function NewPair(a: string, b: string): Pair {
    if Text.Less(b, a) then Pair(b, a) else Pair(a, b)
  }

  /** The order of the endpoints does not matter, and a pair tells its two nodes. */
  lemma PairExactly(a: string, b: string, c: string, d: string)
    ensures NewPair(a, b) == NewPair(c, d) <==> (a == c && b == d) || (a == d && b == c)
  {
    Text.LessTotal(a, b);
    Text.LessTotal(c, d);
    if Text.Less(a, b) {
      Text.LessAsymmetric(a, b);
    }
    if Text.Less(c, d) {
      Text.LessAsymmetric(c, d);
    }
  }

  datatype Index = Index(nodes: set<string>, linksByName: map<string, Link>, linksByPair: map<Pair, Link>)

  datatype IndexError =
    | DuplicateNode(name: string) | DuplicateLink(name: string) | UnknownNode(name: string)
    | DuplicateEndpoints(link: string)

  function LinkBetween(index: Index, a: string, b: string): Option<Link> {
    if NewPair(a, b) in index.linksByPair then Some(index.linksByPair[NewPair(a, b)]) else None
  }

  function InterfaceOn(link: Link, node: string): string {
    if node == link.a then link.aIntf else if node == link.b then link.bIntf else ""
  }

  /** Both maps hold the same links, under their own names and endpoints, all between known nodes. */
  ghost predicate Consistent(index: Index) {
    && (forall name :: name in index.linksByName ==>
      Filed(index, index.linksByName[name]) && index.linksByName[name].name == name)
    && (forall pair :: pair in index.linksByPair ==>
      Filed(index, index.linksByPair[pair]) && NewPair(index.linksByPair[pair].a, index.linksByPair[pair].b) == pair)
  }

  predicate Filed(index: Index, l: Link) {
    && l.a in index.nodes && l.b in index.nodes
    && l.name in index.linksByName && index.linksByName[l.name] == l
    && NewPair(l.a, l.b) in index.linksByPair && index.linksByPair[NewPair(l.a, l.b)] == l
  }

  /** The link has its two ends at these nodes. */
  predicate Joins(l: Link, a: string, b: string) {
    (l.a == a && l.b == b) || (l.a == b && l.b == a)
  }

  /** The link is attached to the node at the interface; of a link with both ends at one node the first end counts. */
  predicate EndAt(l: Link, node: string, iface: string) {
    (l.a == node && l.aIntf == iface) || (l.b == node && l.a != node && l.bIntf == iface)
  }

  predicate InTopology(index: Index, l: Link) {
    l.name in index.linksByName && index.linksByName[l.name] == l
  }

  /** Two nodes have the link found between them, and no other. */
  lemma LinkBetweenExactly(index: Index, a: string, b: string, l: Link)
    requires Consistent(index)
    ensures LinkBetween(index, a, b) == Some(l) <==> InTopology(index, l) && Joins(l, a, b)
  {
    PairExactly(l.a, l.b, a, b);
    if LinkBetween(index, a, b) == Some(l) {
      LinkBetweenIsTheirs(index, a, b);
    }
    if InTopology(index, l) && Joins(l, a, b) {
      assert Filed(index, index.linksByName[l.name]);
    }
  }

  /** The interface found at an end of a link is the one the link is attached to there. */
  lemma InterfaceOnExactly(l: Link, a: string, b: string, iface: string)
    requires Joins(l, a, b)
    ensures InterfaceOn(l, a) == iface <==> EndAt(l, a, iface)
  {
  }

  /** The link found between two nodes is theirs. */
  lemma LinkBetweenIsTheirs(index: Index, a: string, b: string)
    requires Consistent(index) && LinkBetween(index, a, b).Some?
    ensures
      var l := LinkBetween(index, a, b).value;
      && ((l.a == a && l.b == b) || (l.a == b && l.b == a))
      && a in index.nodes && b in index.nodes
      && l.name in index.linksByName && index.linksByName[l.name] == l
  {
    var l := LinkBetween(index, a, b).value;
    PairExactly(l.a, l.b, a, b);
  }

  /** The j-th link joins known nodes and repeats neither the name nor the endpoints of an earlier one. */
  ghost predicate Fits(nodes: seq<string>, links: seq<Link>, j: nat)
    requires j < |links|
  {
    && links[j].a in nodes && links[j].b in nodes
    && forall i :: 0 <= i < j ==>
      links[i].name != links[j].name && NewPair(links[i].a, links[i].b) != NewPair(links[j].a, links[j].b)
  }

  /** What the topology must be for the index to be built. */
  ghost predicate WellFormed(nodes: seq<string>, links: seq<Link>) {
    Sorting.NoDuplicates(nodes) && forall j :: 0 <= j < |links| ==> Fits(nodes, links, j)
  }

  ghost predicate Holds(index: Index, links: seq<Link>, n: nat)
    requires n <= |links|
  {
    && Consistent(index)
    && (forall name :: name in index.linksByName <==> exists i :: 0 <= i < n && links[i].name == name)
    && (forall pair :: pair in index.linksByPair <==> exists i :: 0 <= i < n && NewPair(links[i].a, links[i].b) == pair)
    && (forall i :: 0 <= i < n ==> Filed(index, links[i]))
  }

  /** What the error says is the case. */
  ghost predicate Blames(nodes: seq<string>, links: seq<Link>, e: IndexError) {
    match e
    case DuplicateNode(n) => exists i, j :: 0 <= i < j < |nodes| && nodes[i] == n == nodes[j]
    case DuplicateLink(n) => exists i, j :: 0 <= i < j < |links| && links[i].name == n == links[j].name
    case UnknownNode(n) => n !in nodes && exists j :: 0 <= j < |links| && n in [links[j].a, links[j].b]
    case DuplicateEndpoints(n) =>
      exists i, j :: 0 <= i < j < |links| && links[j].name == n && Joins(links[i], links[j].a, links[j].b)
  }

  lemma BlamesRightly(index: Index, nodes: seq<string>, links: seq<Link>, i: nat)
    requires i < |links| && Holds(index, links, i) && index.nodes == set n | n in nodes
    ensures links[i].name in index.linksByName ==> Blames(nodes, links, DuplicateLink(links[i].name))
    ensures links[i].a !in index.nodes ==> Blames(nodes, links, UnknownNode(links[i].a))
    ensures links[i].b !in index.nodes ==> Blames(nodes, links, UnknownNode(links[i].b))
  {
    hide NewPair, Consistent, Filed;
  }

  lemma BlamesEndpoints(index: Index, nodes: seq<string>, links: seq<Link>, i: nat)
    requires i < |links| && Holds(index, links, i)
    ensures NewPair(links[i].a, links[i].b) in index.linksByPair ==>
        Blames(nodes, links, DuplicateEndpoints(links[i].name))
  {
    hide NewPair, Consistent, Filed;
    var pair := NewPair(links[i].a, links[i].b);
    if pair in index.linksByPair {
      var j :| 0 <= j < i && NewPair(links[j].a, links[j].b) == pair;
      PairExactly(links[j].a, links[j].b, links[i].a, links[i].b);
    }
  }

  method IndexNodes(nodes: seq<string>) returns (r: Result<set<string>, IndexError>)
    ensures r.Ok? <==> Sorting.NoDuplicates(nodes)
    ensures r.Ok? ==> r.value == set n | n in nodes
    ensures forall links :: r.Err? ==> Blames(nodes, links, r.error)
  {
    var byName: set<string> := {};
    for i := 0 to |nodes|
      invariant byName == set n | n in nodes[..i]
      invariant Sorting.NoDuplicates(nodes[..i])
    {
      if nodes[i] in byName {
        var j :| 0 <= j < i && nodes[..i][j] == nodes[i];
        assert nodes[j] == nodes[i];
        return Err(DuplicateNode(nodes[i]));
      }
      assert nodes[..i + 1] == nodes[..i] + [nodes[i]];
      byName := byName + {nodes[i]};
    }
    assert nodes[..|nodes|] == nodes;
    return Ok(byName);
  }

  method IndexLinks(known: set<string>, nodes: seq<string>, links: seq<Link>) returns (r: Result<Index, IndexError>)
    requires known == set n | n in nodes
    ensures r.Ok? <==> forall j :: 0 <= j < |links| ==> Fits(nodes, links, j)
    ensures r.Ok? ==> r.value.nodes == known && Holds(r.value, links, |links|)
    ensures r.Err? ==> Blames(nodes, links, r.error)
  {
    var index := Index(known, map[], map[]);
    hide NewPair, Fits, Holds, Blames;
    NothingHeld(index, links);
    for i := 0 to |links|
      invariant index.nodes == known && Holds(index, links, i)
      invariant forall j :: 0 <= j < i ==> Fits(nodes, links, j)
    {
      var link := links[i];
      FitsExactly(index, nodes, links, i);
      BlamesRightly(index, nodes, links, i);
      BlamesEndpoints(index, nodes, links, i);
      if link.name in index.linksByName {
        return Err(DuplicateLink(link.name));
      }
      if link.a !in index.nodes {
        return Err(UnknownNode(link.a));
      }
      if link.b !in index.nodes {
        return Err(UnknownNode(link.b));
      }
      var pair := NewPair(link.a, link.b);
      if pair in index.linksByPair {
        return Err(DuplicateEndpoints(link.name));
      }
      FileLink(index, links, i);
      index := Index(index.nodes, index.linksByName[link.name := link], index.linksByPair[pair := link]);
    }
    return Ok(index);
  }

  /** BuildTopologyIndex succeeds exactly on well-formed topologies, and its index is consistent. */
  method BuildTopologyIndex(nodes: seq<string>, links: seq<Link>) returns (r: Result<Index, IndexError>)
    ensures r.Ok? <==> WellFormed(nodes, links)
    ensures r.Ok? ==> r.value.nodes == (set n | n in nodes) && Holds(r.value, links, |links|)
    ensures r.Err? ==> Blames(nodes, links, r.error)
  {
    var known := IndexNodes(nodes);
    if known.Err? {
      return Err(known.error);
    }
    hide Fits, Holds, Blames, Sorting.NoDuplicates;
    r := IndexLinks(known.value, nodes, links);
  }

  lemma NothingHeld(index: Index, links: seq<Link>)
    requires index.linksByName == map[] && index.linksByPair == map[]
    ensures Holds(index, links, 0)
  {
  }

  lemma FitsExactly(index: Index, nodes: seq<string>, links: seq<Link>, i: nat)
    requires i < |links| && Holds(index, links, i) && index.nodes == set n | n in nodes
    ensures Fits(nodes, links, i) <==>
      && links[i].name !in index.linksByName
      && links[i].a in index.nodes && links[i].b in index.nodes
      && NewPair(links[i].a, links[i].b) !in index.linksByPair
  {
    hide NewPair, Consistent, Filed;
  }

  lemma FileLink(index: Index, links: seq<Link>, i: nat)
    requires i < |links| && Holds(index, links, i)
    requires links[i].name !in index.linksByName && links[i].a in index.nodes && links[i].b in index.nodes
    requires NewPair(links[i].a, links[i].b) !in index.linksByPair
    ensures
      var l := links[i];
      Holds(Index(index.nodes, index.linksByName[l.name := l], index.linksByPair[NewPair(l.a, l.b) := l]), links, i + 1)
  {
    hide NewPair;
  }
}
