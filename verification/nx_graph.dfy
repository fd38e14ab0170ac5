/**
 * The part of an undirected simple `networkx.Graph` that `create_network_graph`
 * uses: a node table mapping each node key to its attribute dictionary, and a
 * set of unordered edges. An edge is the set of its endpoints, so `{u, v}` and
 * `{v, u}` are one edge and a self-loop `u -- u` is the singleton `{u}`.
 */
module NxGraph {

  type Attrs = map<string, string>
  type Edge = set<string>

  datatype Graph = Graph(nodes: map<string, Attrs>, edges: set<Edge>)

  /** `nx.Graph()`. */
  const Empty: Graph := Graph(map[], {})

  /** The unordered edge between `u` and `v`. */
  function Link(u: string, v: string): Edge {
    {u, v}
  }

  /** Every edge has one or two endpoints, all of them nodes. */
  ghost predicate WellFormed(g: Graph) {
    forall e :: e in g.edges ==> 1 <= |e| <= 2 && e <= g.nodes.Keys
  }

  /**
   * `G.add_node(n, **attrs)`: a new node gets `attrs`; an existing node keeps
   * its other attributes and has the keys of `attrs` overwritten.
   */
  function AddNode(g: Graph, n: string, attrs: Attrs): (r: Graph)
    ensures r.nodes.Keys == g.nodes.Keys + {n}
    ensures r.edges == g.edges
    ensures n !in g.nodes ==> r.nodes[n] == attrs
    ensures n in g.nodes ==> r.nodes[n].Keys == g.nodes[n].Keys + attrs.Keys
    ensures forall k :: k in attrs ==> k in r.nodes[n] && r.nodes[n][k] == attrs[k]
    ensures n in g.nodes ==> forall k :: k in g.nodes[n] && k !in attrs ==> r.nodes[n][k] == g.nodes[n][k]
    ensures forall m :: m in g.nodes && m != n ==> r.nodes[m] == g.nodes[m]
    ensures WellFormed(g) ==> WellFormed(r)
  {
    var old_attrs := if n in g.nodes then g.nodes[n] else map[];
    g.(nodes := g.nodes[n := old_attrs + attrs])
  }

  /** `G.add_edge(u, v)`: missing endpoints are added with no attributes. */
  function AddEdge(g: Graph, u: string, v: string): (r: Graph)
    ensures r.nodes.Keys == g.nodes.Keys + {u, v}
    ensures forall m :: m in g.nodes ==> r.nodes[m] == g.nodes[m]
    ensures forall m :: (m == u || m == v) && m !in g.nodes ==> r.nodes[m] == map[]
    ensures r.edges == g.edges + {Link(u, v)}
    ensures WellFormed(g) ==> WellFormed(r)
  {
    Graph(Touch(Touch(g.nodes, u), v), g.edges + {Link(u, v)})
  }

  /** Adds `n` with no attributes unless it is already a node. */
  function Touch(nodes: map<string, Attrs>, n: string): (r: map<string, Attrs>)
    ensures r.Keys == nodes.Keys + {n}
    ensures forall m :: m in nodes ==> r[m] == nodes[m]
    ensures n !in nodes ==> r[n] == map[]
  {
    if n in nodes then nodes else nodes[n := map[]]
  }

  /** Set semantics: adding a node again with the same attributes changes nothing. */
  lemma AddNodeIdempotent(g: Graph, n: string, attrs: Attrs)
    ensures AddNode(AddNode(g, n, attrs), n, attrs) == AddNode(g, n, attrs)
  {
    var once := AddNode(g, n, attrs);
    var twice := AddNode(once, n, attrs);
    assert twice.nodes[n] == once.nodes[n];
    assert twice.nodes == once.nodes;
  }

  /** Set semantics: adding an edge again changes nothing. */
  lemma AddEdgeIdempotent(g: Graph, u: string, v: string)
    ensures AddEdge(AddEdge(g, u, v), u, v) == AddEdge(g, u, v)
  {
  }

  /** The graph is undirected: `add_edge(u, v)` and `add_edge(v, u)` agree. */
  lemma AddEdgeSymmetric(g: Graph, u: string, v: string)
    ensures AddEdge(g, u, v) == AddEdge(g, v, u)
  {
    assert Link(u, v) == Link(v, u);
    var a := Touch(Touch(g.nodes, u), v);
    var b := Touch(Touch(g.nodes, v), u);
    assert a.Keys == b.Keys;
    forall m | m in a ensures a[m] == b[m] {
      if m !in g.nodes {
        assert a[m] == map[] == b[m];
      }
    }
    assert a == b;
  }

  /** Re-adding a node whose attribute keys are all overwritten replaces its attributes outright. */
  lemma AddNodeReplaces(g: Graph, n: string, attrs: Attrs)
    requires n in g.nodes ==> g.nodes[n].Keys <= attrs.Keys
    ensures AddNode(g, n, attrs).nodes == g.nodes[n := attrs]
  {
    if n in g.nodes {
      assert g.nodes[n] + attrs == attrs;
    }
  }

  /** An edge between existing nodes leaves the node table alone. */
  lemma AddEdgeKeepsNodes(g: Graph, u: string, v: string)
    requires u in g.nodes && v in g.nodes
    ensures AddEdge(g, u, v).nodes == g.nodes
  {
  }
}
