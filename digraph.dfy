/** The directed graph of `customedDS/CustomDiGraph.py`, reduced to the two
    operations that build it: a dictionary from each node to its own data
    dictionary, and a dictionary from each source node to the list of its
    targets, both `CustomDict`s. */
module Digraphs {
  import opened Common
  import opened Buckets
  import opened CustomDicts

  /** The targets listed for `source`, or none. */
  function Adjacent(edges: map<DictKey, seq<DictKey>>, source: DictKey): seq<DictKey> {
    if source in edges then edges[source] else []
  }

  /** The edge lists after `add_edge(source, target)`: the target goes at
      the end of the source's list, which is created when missing. */
  function Linked(edges: map<DictKey, seq<DictKey>>, source: DictKey, target: DictKey): (r: map<DictKey, seq<DictKey>>)
    ensures r.Keys == edges.Keys + {source}
    ensures Adjacent(r, source) == Adjacent(edges, source) + [target]
    ensures forall k :: k != source ==> Adjacent(r, k) == Adjacent(edges, k)
  {
    edges[source := Adjacent(edges, source) + [target]]
  }

  /** Adding the same edge twice lists the target twice: the lists are not
      sets. */
  lemma LinkedTwice(edges: map<DictKey, seq<DictKey>>, source: DictKey, target: DictKey)
    ensures Adjacent(Linked(Linked(edges, source, target), source, target), source)
      == Adjacent(edges, source) + [target, target]
    ensures multiset(Adjacent(Linked(edges, source, target), source))[target]
      == multiset(Adjacent(edges, source))[target] + 1
  {
    assert Adjacent(edges, source) + [target] + [target] == Adjacent(edges, source) + [target, target];
  }

  /** A node's data dictionary, by its contents. */
  type NodeData = map<DictKey, Key>

  /** The nodes after making sure `node` is one: a new node gets an empty
      data dictionary, a node already present keeps its own. */
  function Included(nodes: map<DictKey, NodeData>, node: DictKey): (r: map<DictKey, NodeData>)
    ensures r.Keys == nodes.Keys + {node}
    ensures forall k :: k in nodes ==> r[k] == nodes[k]
    ensures node !in nodes ==> r[node] == map[]
  {
    if node in nodes then nodes else nodes[node := map[]]
  }

  /** Both ends of an edge are nodes afterwards, whatever order they are
      added in, and including an end twice changes nothing more. */
  lemma IncludedCommute(nodes: map<DictKey, NodeData>, a: DictKey, b: DictKey)
    ensures Included(Included(nodes, a), b) == Included(Included(nodes, b), a)
    ensures Included(Included(nodes, a), a) == Included(nodes, a)
  {
  }

  /** Every source with a list is a node, and so is every target. */
  ghost predicate Joined(nodes: map<DictKey, NodeData>, edges: map<DictKey, seq<DictKey>>) {
    edges.Keys <= nodes.Keys
    && forall s, i :: s in edges && 0 <= i < |edges[s]| ==> edges[s][i] in nodes
  }

  /** `add_edge` keeps every edge between nodes. */
  lemma LinkedJoined(nodes: map<DictKey, NodeData>, edges: map<DictKey, seq<DictKey>>, source: DictKey, target: DictKey)
    requires Joined(nodes, edges)
    ensures Joined(Included(Included(nodes, source), target), Linked(edges, source, target))
  {
    var nodes' := Included(Included(nodes, source), target);
    var edges' := Linked(edges, source, target);
    forall s, i | s in edges' && 0 <= i < |edges'[s]| ensures edges'[s][i] in nodes' {
      if s == source && i == |edges'[s]| - 1 {
        assert edges'[s][i] == target;
      } else if s == source {
        assert Adjacent(edges', s)[i] == Adjacent(edges, s)[i];
      } else {
        assert Adjacent(edges', s) == Adjacent(edges, s);
      }
    }
  }

  /** The graph as the two dictionaries it is made of, each modelled by
      the mapping a `CustomDict` represents. */
  class CustomDiGraph {
    var nodes: map<DictKey, NodeData>
    var edges: map<DictKey, seq<DictKey>>

    ghost predicate Closed()
      reads this
    {
      Joined(nodes, edges)
    }

    constructor()
      ensures nodes == map[] && edges == map[]
      ensures Closed()
    {
      nodes := map[];
      edges := map[];
    }

    /** `add_node`: the node maps to a new empty data dictionary, replacing
        any data it had. */
    method AddNode(node: DictKey)
      modifies this
      ensures nodes == old(nodes)[node := map[]]
      ensures edges == old(edges)
      ensures old(Closed()) ==> Closed()
    {
      nodes := nodes[node := map[]];
    }

    /** `add_edge`: both ends become nodes, keeping the data of ends that
        were already nodes, and the target is appended to the source's
        list; no other list changes. */
    method AddEdge(source: DictKey, target: DictKey)
      modifies this
      ensures nodes == Included(Included(old(nodes), source), target)
      ensures edges == Linked(old(edges), source, target)
      ensures old(Closed()) ==> Closed()
    {
      if source !in nodes {
        AddNode(source);
      }
      if target !in nodes {
        AddNode(target);
      }
      if source !in edges {
        edges := edges[source := []];
      }
      var targets := edges[source];
      assert targets == Adjacent(old(edges), source);
      assert edges[source := targets + [target]] == old(edges)[source := targets + [target]];
      edges := edges[source := targets + [target]];
      if old(Closed()) {
        LinkedJoined(old(nodes), old(edges), source, target);
      }
    }
  }
}
