/** The notebook's `graph` cell: thirteen nodes, created as empty objects, and
    eighteen links given as pairs of node indices. */
module DemoGraph {

  /** A link between the nodes at positions `source` and `target` of the node array. */
  datatype Link = Link(source: nat, target: nat)

  const NodeCount: nat := 13

  const Links: seq<Link> := [
    Link(0, 1), Link(1, 2), Link(2, 0), Link(1, 3), Link(3, 2), Link(3, 4),
    Link(4, 5), Link(5, 6), Link(5, 7), Link(6, 7), Link(6, 8), Link(7, 8),
    Link(9, 4), Link(9, 11), Link(9, 10), Link(10, 11), Link(11, 12), Link(12, 10)
  ]

  /** Both ends of `l` name one of `n` nodes. */
  predicate LinkWithin(l: Link, n: nat) {
    l.source < n && l.target < n
  }

  /** Every link of `links` resolves to a node of a graph with `n` nodes. */
  predicate WellFormed(n: nat, links: seq<Link>) {
    forall k :: 0 <= k < |links| ==> LinkWithin(links[k], n)
  }

  /** The demo graph has 18 links and each of them resolves to one of its 13 nodes. */
  lemma DemoGraphWellFormed()
    ensures NodeCount == 13 && |Links| == 18
    ensures WellFormed(NodeCount, Links)
  {
  }

  /** Every node of the demo graph is the end of some link: no node floats alone. */
  lemma EveryNodeLinked(i: nat)
    requires i < NodeCount
    ensures exists k :: 0 <= k < |Links| && (Links[k].source == i || Links[k].target == i)
  {
    var linkOf: seq<nat> := [0, 1, 2, 4, 6, 7, 9, 11, 10, 12, 15, 16, 17];
    var k := linkOf[i];
    assert Links[k].source == i || Links[k].target == i;
  }
}
