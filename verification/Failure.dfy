/** Failure sets and the context in which a condition is read. */
module Failure {

  datatype Link = Link(name: string, a: string, b: string, cost: int, aIntf: string, bIntf: string)

  datatype FailureSet = FailureSet(links: set<string>, nodes: set<string>)

  datatype Context = Context(failures: FailureSet, linksByName: map<string, Link>) {

    predicate NodeFailed(node: string) {
      node in failures.nodes
    }

    /** A link is down when it failed itself or when a known endpoint is down. */
    predicate LinkFailed(name: string) {
      if name in failures.links then true
      else if name !in linksByName then false
      else linksByName[name].a in failures.nodes || linksByName[name].b in failures.nodes
    }

    /** The solver's reading: link and node variables are independent booleans. */
    function Independent(): Context {
      Context(failures, map[])
    }
  }
}
