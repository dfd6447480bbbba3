/** The part of a networkx undirected graph the core relies on: nodes in
    insertion order, a per-node type attribute, and insertion-ordered
    adjacency lists. networkx itself is not part of this model; these are
    the operations the core calls (add_nodes_from, add_edges_from,
    neighbors, compose), with the behaviour networkx documents. */
module Nx {
  import opened Types
  import opened GenericUtil

  datatype NxGraph = NxGraph(nodes: seq<Node>, typeAttr: map<Node, NodeType>, adj: map<Node, seq<Node>>)
  {
    /** networkx's own invariant: every node has an adjacency list, only
        nodes carry attributes, lists have no repeats, edges are undirected. */
    ghost predicate WF() {
      && Distinct(nodes)
      && adj.Keys == Elems(nodes)
      && typeAttr.Keys <= adj.Keys
      && (forall u | u in adj :: Distinct(adj[u]))
      && (forall u, v | u in adj && v in adj[u] :: v in adj && u in adj[v])
    }

    /** `v` is a neighbour of `u`. */
    predicate Adjacent(u: Node, v: Node) {
      u in adj && v in adj[u]
    }
  }

  const Empty: NxGraph := NxGraph([], map[], map[])

  /** A node's neighbours as a list, empty for an absent node. */
  function AdjOf(g: NxGraph, u: Node): seq<Node> {
    if u in g.adj then g.adj[u] else []
  }

  /** Creates `n` without attributes if it is absent (what add_edge does to
      an endpoint it has not seen). */
  function AddNode(g: NxGraph, n: Node): (r: NxGraph)
    ensures r.adj.Keys == g.adj.Keys + {n}
    ensures r.typeAttr == g.typeAttr
    ensures forall a, b :: r.Adjacent(a, b) <==> g.Adjacent(a, b)
  {
    if n in g.adj then g
    else
      var r := NxGraph(g.nodes + [n], g.typeAttr, g.adj[n := []]);
      assert Elems(r.nodes) == Elems(g.nodes) + {n};
      r
  }

  /** `add_node(n, node_type=t)`: creates `n` if absent, then sets its type,
      replacing any earlier one. */
  function AddTypedNode(g: NxGraph, n: Node, t: NodeType): (r: NxGraph)
    ensures r.adj.Keys == g.adj.Keys + {n}
    ensures r.typeAttr == g.typeAttr[n := t]
    ensures forall a, b :: r.Adjacent(a, b) <==> g.Adjacent(a, b)
  {
    var g1 := AddNode(g, n);
    g1.(typeAttr := g1.typeAttr[n := t])
  }

  /** `add_nodes_from(ns, node_type=t)`: every node of `ns` gets type `t`;
      other nodes keep theirs; no edge changes. */
  function AddNodesFrom(g: NxGraph, ns: seq<Node>, t: NodeType): (r: NxGraph)
    ensures r.adj.Keys == g.adj.Keys + Elems(ns)
    ensures forall n :: n in r.typeAttr <==> n in g.typeAttr || n in ns
    ensures forall n | n in r.typeAttr :: r.typeAttr[n] == if n in ns then t else g.typeAttr[n]
    ensures forall a, b :: r.Adjacent(a, b) <==> g.Adjacent(a, b)
    decreases |ns|
  {
    if ns == [] then g
    else
      assert Elems(ns) == {ns[0]} + Elems(ns[1..]) by {
        assert ns == [ns[0]] + ns[1..];
      }
      AddNodesFrom(AddTypedNode(g, ns[0], t), ns[1..], t)
  }

  /** `v` appended to the neighbour list of `u`, unless already there: the
      adjacency gains exactly the pair (u, v). */
  function Link(adj: map<Node, seq<Node>>, u: Node, v: Node): (r: map<Node, seq<Node>>)
    requires u in adj
    ensures r.Keys == adj.Keys
    ensures forall a, b :: (a in r && b in r[a]) <==> (a in adj && b in adj[a]) || (a == u && b == v)
  {
    adj[u := AppendNew(adj[u], v)]
  }

  /** Linking keeps adjacency lists free of repeats. */
  lemma {:induction false} LinkDistinct(adj: map<Node, seq<Node>>, u: Node, v: Node)
    requires u in adj
    requires forall w | w in adj :: Distinct(adj[w])
    ensures forall w | w in Link(adj, u, v) :: Distinct(Link(adj, u, v)[w])
  {
    AppendNewDistinct(adj[u], v);
  }

  /** `add_edge(u, v)`: creates missing endpoints untyped and records each
      endpoint as a neighbour of the other, once. */
  function AddEdge(g: NxGraph, u: Node, v: Node): (r: NxGraph)
    ensures r.adj.Keys == g.adj.Keys + {u, v}
    ensures r.typeAttr == g.typeAttr
    ensures forall a, b :: r.Adjacent(a, b) <==> g.Adjacent(a, b) || (a == u && b == v) || (a == v && b == u)
  {
    var g1 := AddNode(AddNode(g, u), v);
    g1.(adj := Link(Link(g1.adj, u, v), v, u))
  }

  /** Adding a node keeps networkx's invariant. */
  lemma {:induction false} AddNodeWF(g: NxGraph, n: Node)
    requires g.WF()
    ensures AddNode(g, n).WF()
  {
  }

  lemma {:induction false} AddTypedNodeWF(g: NxGraph, n: Node, t: NodeType)
    requires g.WF()
    ensures AddTypedNode(g, n, t).WF()
  {
    AddNodeWF(g, n);
  }

  lemma {:induction false} AddNodesFromWF(g: NxGraph, ns: seq<Node>, t: NodeType)
    requires g.WF()
    ensures AddNodesFrom(g, ns, t).WF()
    decreases |ns|
  {
    if ns != [] {
      AddTypedNodeWF(g, ns[0], t);
      AddNodesFromWF(AddTypedNode(g, ns[0], t), ns[1..], t);
    }
  }

  /** Adding an edge keeps networkx's invariant. */
  lemma {:induction false} AddEdgeWF(g: NxGraph, u: Node, v: Node)
    requires g.WF()
    ensures AddEdge(g, u, v).WF()
  {
    var g0 := AddNode(g, u);
    AddNodeWF(g, u);
    var g1 := AddNode(g0, v);
    AddNodeWF(g0, v);
    var adj1 := Link(g1.adj, u, v);
    LinkDistinct(g1.adj, u, v);
    LinkDistinct(adj1, v, u);
    var r := AddEdge(g, u, v);
    assert r.nodes == g1.nodes && r.adj == Link(adj1, v, u);
    forall a, b | a in r.adj && b in r.adj[a] ensures b in r.adj && a in r.adj[b] {
      assert r.Adjacent(a, b);
      assert r.Adjacent(b, a);
    }
  }

  /** The endpoints of the pairs. */
  function Endpoints(pairs: seq<(Node, Node)>): set<Node>
    decreases |pairs|
  {
    if pairs == [] then {}
    else {pairs[0].0, pairs[0].1} + Endpoints(pairs[1..])
  }

  /** A node is an endpoint iff it is one end of a listed pair. */
  lemma {:induction false} EndpointsMember(pairs: seq<(Node, Node)>, n: Node)
    ensures n in Endpoints(pairs) <==> exists p | p in pairs :: n == p.0 || n == p.1
    decreases |pairs|
  {
    if pairs != [] {
      EndpointsMember(pairs[1..], n);
      assert pairs == [pairs[0]] + pairs[1..];
    }
  }

  /** `add_edges_from(pairs)`: adds every pair, in order, as an undirected edge. */
  function AddEdgesFrom(g: NxGraph, pairs: seq<(Node, Node)>): NxGraph
    decreases |pairs|
  {
    if pairs == [] then g
    else AddEdgesFrom(AddEdge(g, pairs[0].0, pairs[0].1), pairs[1..])
  }

  /** Adding edges changes no type. */
  lemma {:induction false} AddEdgesFromTypes(g: NxGraph, pairs: seq<(Node, Node)>)
    ensures AddEdgesFrom(g, pairs).typeAttr == g.typeAttr
    decreases |pairs|
  {
    if pairs != [] {
      AddEdgesFromTypes(AddEdge(g, pairs[0].0, pairs[0].1), pairs[1..]);
    }
  }

  /** Adding edges creates exactly the endpoints as new nodes. */
  lemma {:induction false} AddEdgesFromNodes(g: NxGraph, pairs: seq<(Node, Node)>, a: Node)
    ensures a in AddEdgesFrom(g, pairs).adj <==> a in g.adj || a in Endpoints(pairs)
    decreases |pairs|
  {
    if pairs != [] {
      AddEdgesFromNodes(AddEdge(g, pairs[0].0, pairs[0].1), pairs[1..], a);
    }
  }

  /** After adding edges two nodes are adjacent iff they were or they are
      listed as a pair in either orientation. */
  lemma {:induction false} AddEdgesFromAdjacent(g: NxGraph, pairs: seq<(Node, Node)>, a: Node, b: Node)
    ensures AddEdgesFrom(g, pairs).Adjacent(a, b) <==> g.Adjacent(a, b) || (a, b) in pairs || (b, a) in pairs
    decreases |pairs|
  {
    if pairs != [] {
      var p := pairs[0];
      var g1 := AddEdge(g, p.0, p.1);
      AddEdgesFromAdjacent(g1, pairs[1..], a, b);
      assert g1.Adjacent(a, b) <==> g.Adjacent(a, b) || (a, b) == p || (b, a) == p;
      InCons(pairs, (a, b));
      InCons(pairs, (b, a));
    }
  }

  /** Adding the edges creates exactly the endpoints as new nodes, keeps the
      types, and makes two nodes adjacent iff they were or they are listed
      as a pair in either orientation. */
  lemma {:induction false} AddEdgesFromFacts(g: NxGraph, pairs: seq<(Node, Node)>, a: Node, b: Node)
    ensures AddEdgesFrom(g, pairs).typeAttr == g.typeAttr
    ensures a in AddEdgesFrom(g, pairs).adj <==> a in g.adj || a in Endpoints(pairs)
    ensures AddEdgesFrom(g, pairs).Adjacent(a, b) <==> g.Adjacent(a, b) || (a, b) in pairs || (b, a) in pairs
  {
    AddEdgesFromTypes(g, pairs);
    AddEdgesFromNodes(g, pairs, a);
    AddEdgesFromAdjacent(g, pairs, a, b);
  }

  lemma {:induction false} AddEdgesFromWF(g: NxGraph, pairs: seq<(Node, Node)>)
    requires g.WF()
    ensures AddEdgesFrom(g, pairs).WF()
    decreases |pairs|
  {
    if pairs != [] {
      AddEdgeWF(g, pairs[0].0, pairs[0].1);
      AddEdgesFromWF(AddEdge(g, pairs[0].0, pairs[0].1), pairs[1..]);
    }
  }

  /** `G.neighbors(n)`: the neighbour list, or NetworkXError for a node that
      is not in the graph. */
  function Neighbors(g: NxGraph, n: Node): (r: Result<seq<Node>>)
    ensures r.Ok? <==> n in g.adj
    ensures r.Err? ==> r.error == NetworkXError(n)
    ensures r.Ok? ==> forall m :: m in r.value <==> g.Adjacent(n, m)
  {
    if n in g.adj then Ok(g.adj[n]) else Err(NetworkXError(n))
  }

  /** `nx.compose(g, h)`: the union of the node and edge sets, the type
      attribute of `h` taking precedence. The neighbour order chosen here is
      `g`'s followed by the new ones of `h`. */
  function Compose(g: NxGraph, h: NxGraph): (r: NxGraph)
    ensures Elems(r.nodes) == Elems(g.nodes) + Elems(h.nodes)
    ensures r.adj.Keys == g.adj.Keys + h.adj.Keys
    ensures r.typeAttr == g.typeAttr + h.typeAttr
    ensures forall a, b :: r.Adjacent(a, b) <==> g.Adjacent(a, b) || h.Adjacent(a, b)
  {
    var r := NxGraph(AppendAllNew(g.nodes, h.nodes), g.typeAttr + h.typeAttr,
                     map u | u in g.adj.Keys + h.adj.Keys :: AppendAllNew(AdjOf(g, u), AdjOf(h, u)));
    forall a, b ensures r.Adjacent(a, b) <==> g.Adjacent(a, b) || h.Adjacent(a, b) {
      if a in r.adj {
        var l := AppendAllNew(AdjOf(g, a), AdjOf(h, a));
        assert r.adj[a] == l;
        assert b in l <==> b in Elems(l);
      }
    }
    r
  }

  /** A graph whose nodes, attributes and lists come from two graphs, and
      whose adjacency is the union of theirs, is a graph. */
  lemma {:induction false} UnionWF(g: NxGraph, h: NxGraph, r: NxGraph)
    requires g.WF() && h.WF()
    requires Distinct(r.nodes)
    requires Elems(r.nodes) == Elems(g.nodes) + Elems(h.nodes)
    requires r.adj.Keys == g.adj.Keys + h.adj.Keys
    requires r.typeAttr == g.typeAttr + h.typeAttr
    requires forall u | u in r.adj :: Distinct(r.adj[u])
    requires forall a, b :: r.Adjacent(a, b) <==> g.Adjacent(a, b) || h.Adjacent(a, b)
    ensures r.WF()
  {
    forall a, b | a in r.adj && b in r.adj[a] ensures b in r.adj && a in r.adj[b] {
      assert r.Adjacent(a, b);
      assert r.Adjacent(b, a);
    }
  }

  lemma {:induction false} ComposeListsDistinct(g: NxGraph, h: NxGraph)
    requires g.WF()
    ensures forall u | u in Compose(g, h).adj :: Distinct(Compose(g, h).adj[u])
  {
    forall u | u in Compose(g, h).adj ensures Distinct(Compose(g, h).adj[u]) {
      assert Compose(g, h).adj[u] == AppendAllNew(AdjOf(g, u), AdjOf(h, u));
      AppendAllNewDistinct(AdjOf(g, u), AdjOf(h, u));
    }
  }

  /** The composition of two graphs is a graph. */
  lemma {:induction false} ComposeWF(g: NxGraph, h: NxGraph)
    requires g.WF() && h.WF()
    ensures Compose(g, h).WF()
  {
    ComposeListsDistinct(g, h);
    AppendAllNewDistinct(g.nodes, h.nodes);
    UnionWF(g, h, Compose(g, h));
  }

  /** Merging each neighbour list of `g` with itself gives the lists back. */
  lemma {:induction false} SelfUnionAdj(g: NxGraph, adj: map<Node, seq<Node>>)
    requires adj.Keys == g.adj.Keys
    requires forall u | u in adj :: adj[u] == AppendAllNew(AdjOf(g, u), AdjOf(g, u))
    ensures adj == g.adj
  {
    forall u | u in g.adj ensures adj[u] == g.adj[u] {
      assert AdjOf(g, u) == g.adj[u];
      AppendAllNewPresent(g.adj[u], g.adj[u]);
    }
  }

  /** A graph built from `g` and itself the way `Compose` builds it is `g`. */
  lemma {:induction false} SelfUnion(g: NxGraph, r: NxGraph)
    requires r.nodes == AppendAllNew(g.nodes, g.nodes)
    requires r.typeAttr == g.typeAttr + g.typeAttr
    requires r.adj == g.adj
    ensures r == g
  {
    AppendAllNewPresent(g.nodes, g.nodes);
    assert r.typeAttr == g.typeAttr;
  }

  /** Composing a graph with itself gives it back. */
  lemma {:induction false} ComposeSelf(g: NxGraph)
    requires g.WF()
    ensures Compose(g, g) == g
  {
    var r := Compose(g, g);
    forall u | u in r.adj ensures r.adj[u] == AppendAllNew(AdjOf(g, u), AdjOf(g, u)) {
    }
    SelfUnionAdj(g, r.adj);
    SelfUnion(g, r);
  }
}
