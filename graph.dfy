/** The typed graph (graph.py): a networkx graph whose nodes all carry a
    node type, built from a declarative `{type: {node: [neighbours]}}`
    specification, with its node-to-type map and its sorted list of types. */
module TypedGraph {
  import opened Types
  import opened GenericUtil
  import opened Order
  import opened Nx

  /** `{node: [neighbours]}`, in dict order. */
  type OneToMany = seq<(Node, seq<Node>)>

  /** `TypedAdjacencies = Dict[NodeType, Dict[Node, List[Node]]]`, in dict order;
      the order decides the type of a node declared under two types. */
  type TypedAdjacencies = seq<(NodeType, OneToMany)>

  /** `one_to_many.keys()`. */
  function KeysOf(otm: OneToMany): seq<Node> {
    seq(|otm|, k requires 0 <= k < |otm| => otm[k].0)
  }

  /** `[(start, end) for end in many]`. */
  function Star(start: Node, many: seq<Node>): seq<(Node, Node)> {
    seq(|many|, k requires 0 <= k < |many| => (start, many[k]))
  }

  /** `[(start, end) for start, many in one_to_many.items() for end in many]`. */
  function PairsOf(otm: OneToMany): seq<(Node, Node)>
    decreases |otm|
  {
    if otm == [] then [] else Star(otm[0].0, otm[0].1) + PairsOf(otm[1..])
  }

  /** The pairs of a mapping are its (key, listed neighbour) pairs. */
  lemma {:induction false} PairsOfMember(otm: OneToMany, a: Node, b: Node)
    ensures (a, b) in PairsOf(otm) <==> exists k | 0 <= k < |otm| :: otm[k].0 == a && b in otm[k].1
    decreases |otm|
  {
    if otm != [] {
      PairsOfMember(otm[1..], a, b);
      if (a, b) in Star(otm[0].0, otm[0].1) {
        var j :| 0 <= j < |otm[0].1| && Star(otm[0].0, otm[0].1)[j] == (a, b);
        assert otm[0].1[j] == b;
      }
      if otm[0].0 == a && b in otm[0].1 {
        var j :| 0 <= j < |otm[0].1| && otm[0].1[j] == b;
        assert Star(otm[0].0, otm[0].1)[j] == (a, b);
      }
      forall k | 1 <= k < |otm| && otm[k].0 == a && b in otm[k].1
        ensures (a, b) in PairsOf(otm[1..])
      {
        assert otm[1..][k - 1] == otm[k];
      }
    }
  }

  /** `n` is declared as a key under some type. */
  ghost predicate Declared(tas: TypedAdjacencies, n: Node) {
    exists i | 0 <= i < |tas| :: n in KeysOf(tas[i].1)
  }

  /** `b` is listed as a neighbour of the key `a` under some type. */
  ghost predicate Listed(tas: TypedAdjacencies, a: Node, b: Node) {
    exists i, k | 0 <= i < |tas| && 0 <= k < |tas[i].1| :: tas[i].1[k].0 == a && b in tas[i].1[k].1
  }

  /** `i` is the last entry declaring `n`. */
  ghost predicate LastDeclaring(tas: TypedAdjacencies, n: Node, i: int) {
    0 <= i < |tas| && n in KeysOf(tas[i].1) && forall j | i < j < |tas| :: n !in KeysOf(tas[j].1)
  }

  /** The typing pass (graph.py line 41), as a function of the entries done so far. */
  function TypePass(g: NxGraph, tas: TypedAdjacencies): NxGraph
    decreases |tas|
  {
    if tas == [] then g
    else
      var last := tas[|tas| - 1];
      AddNodesFrom(TypePass(g, tas[..|tas| - 1]), KeysOf(last.1), last.0)
  }

  /** The edge pass (graph.py line 42), as a function of the entries done so far. */
  function EdgePass(g: NxGraph, tas: TypedAdjacencies): NxGraph
    decreases |tas|
  {
    if tas == [] then g
    else AddEdgesFrom(EdgePass(g, tas[..|tas| - 1]), PairsOf(tas[|tas| - 1].1))
  }

  /** What `read_typed_adjacency_list` builds: every node typed first, then every edge. */
  function ReadSpec(tas: TypedAdjacencies): NxGraph {
    EdgePass(TypePass(Empty, tas), tas)
  }

  /** `Graph.read_typed_adjacency_list(tas)`: a fresh graph, one
      `add_nodes_from` per type, then one `add_edges_from` per type. */
  method ReadTypedAdjacencyList(tas: TypedAdjacencies) returns (G: NxGraph)
    ensures G == ReadSpec(tas)
  {
    G := TypeNodes(Empty, tas);
    G := AddAllEdges(G, tas);
  }

  /** The typing loop: the keys of each entry added with the entry's type. */
  method TypeNodes(G0: NxGraph, tas: TypedAdjacencies) returns (G: NxGraph)
    ensures G == TypePass(G0, tas)
  {
    G := G0;
    for i := 0 to |tas|
      invariant G == TypePass(G0, tas[..i])
    {
      assert tas[..i + 1][..i] == tas[..i];
      G := AddNodesFrom(G, KeysOf(tas[i].1), tas[i].0);
    }
    assert tas[..|tas|] == tas;
  }

  /** The edge loop: the key-neighbour pairs of each entry added as edges. */
  method AddAllEdges(G0: NxGraph, tas: TypedAdjacencies) returns (G: NxGraph)
    ensures G == EdgePass(G0, tas)
  {
    G := G0;
    for i := 0 to |tas|
      invariant G == EdgePass(G0, tas[..i])
    {
      assert tas[..i + 1][..i] == tas[..i];
      G := AddEdgesFrom(G, PairsOf(tas[i].1));
    }
    assert tas[..|tas|] == tas;
  }

  /** Splitting off the last entry of the specification. */
  lemma {:induction false} DeclaredSplit(tas: TypedAdjacencies, n: Node)
    requires tas != []
    ensures Declared(tas, n) <==> Declared(tas[..|tas| - 1], n) || n in KeysOf(tas[|tas| - 1].1)
  {
    var p := tas[..|tas| - 1];
    if Declared(tas, n) {
      var i :| 0 <= i < |tas| && n in KeysOf(tas[i].1);
      if i < |p| {
        assert p[i] == tas[i];
      }
    }
    if Declared(p, n) {
      var i :| 0 <= i < |p| && n in KeysOf(p[i].1);
      assert p[i] == tas[i];
    }
  }

  /** The typing pass adds exactly the declared keys as nodes, and no edge. */
  lemma {:induction false} TypePassNodes(g: NxGraph, tas: TypedAdjacencies, n: Node)
    ensures n in TypePass(g, tas).adj <==> n in g.adj || Declared(tas, n)
    ensures forall a, b :: TypePass(g, tas).Adjacent(a, b) <==> g.Adjacent(a, b)
    decreases |tas|
  {
    if tas != [] {
      TypePassNodes(g, tas[..|tas| - 1], n);
      DeclaredSplit(tas, n);
    }
  }

  /** The typing pass types exactly the declared keys and keeps the type of
      every other node. */
  lemma {:induction false} TypePassTyped(g: NxGraph, tas: TypedAdjacencies, n: Node)
    ensures n in TypePass(g, tas).typeAttr <==> n in g.typeAttr || Declared(tas, n)
    ensures !Declared(tas, n) && n in g.typeAttr ==> TypePass(g, tas).typeAttr[n] == g.typeAttr[n]
    decreases |tas|
  {
    if tas != [] {
      TypePassTyped(g, tas[..|tas| - 1], n);
      DeclaredSplit(tas, n);
    }
  }

  /** A declared key gets the type of the last entry declaring it. */
  lemma {:induction false} TypePassLastType(g: NxGraph, tas: TypedAdjacencies, n: Node, i: int)
    requires LastDeclaring(tas, n, i)
    ensures n in TypePass(g, tas).typeAttr && TypePass(g, tas).typeAttr[n] == tas[i].0
    decreases |tas|
  {
    var p := tas[..|tas| - 1];
    if i < |p| {
      assert p[i] == tas[i];
      assert LastDeclaring(p, n, i);
      TypePassLastType(g, p, n, i);
    }
  }

  /** The edge pass adds exactly the listed endpoints as nodes and the listed
      pairs as edges, and changes no type. */
  lemma {:induction false} EdgePassFacts(g: NxGraph, tas: TypedAdjacencies, a: Node, b: Node)
    ensures var r := EdgePass(g, tas);
      && r.typeAttr == g.typeAttr
      && (a in r.adj <==> a in g.adj || exists c :: Listed(tas, a, c) || Listed(tas, c, a))
      && (r.Adjacent(a, b) <==> g.Adjacent(a, b) || Listed(tas, a, b) || Listed(tas, b, a))
    decreases |tas|
  {
    if tas != [] {
      var p := tas[..|tas| - 1];
      var last := tas[|tas| - 1];
      EdgePassFacts(g, p, a, b);
      var mid := EdgePass(g, p);
      var pairs := PairsOf(last.1);
      AddEdgesFromFacts(mid, pairs, a, b);
      PairsOfMember(last.1, a, b);
      PairsOfMember(last.1, b, a);
      ListedSplit(tas, a, b);
      ListedSplit(tas, b, a);
      forall c ensures Listed(tas, a, c) <==> Listed(p, a, c) || (a, c) in pairs {
        ListedSplit(tas, a, c);
        PairsOfMember(last.1, a, c);
      }
      forall c ensures Listed(tas, c, a) <==> Listed(p, c, a) || (c, a) in pairs {
        ListedSplit(tas, c, a);
        PairsOfMember(last.1, c, a);
      }
      EndpointsMember(pairs, a);
      EndpointsOfPairs(pairs, a);
    }
  }

  /** A node is an endpoint of a list of pairs iff it is paired with something. */
  lemma {:induction false} EndpointsOfPairs(pairs: seq<(Node, Node)>, a: Node)
    ensures (exists p | p in pairs :: a == p.0 || a == p.1) <==> exists c :: (a, c) in pairs || (c, a) in pairs
  {
    if exists p | p in pairs :: a == p.0 || a == p.1 {
      var p :| p in pairs && (a == p.0 || a == p.1);
      if a == p.0 {
        assert (a, p.1) in pairs;
      } else {
        assert (p.0, a) in pairs;
      }
    }
  }

  /** Splitting off the last entry of the specification. */
  lemma {:induction false} ListedSplit(tas: TypedAdjacencies, a: Node, b: Node)
    requires tas != []
    ensures var last := tas[|tas| - 1];
      Listed(tas, a, b) <==> Listed(tas[..|tas| - 1], a, b)
                             || exists k | 0 <= k < |last.1| :: last.1[k].0 == a && b in last.1[k].1
  {
    var p := tas[..|tas| - 1];
    if Listed(tas, a, b) {
      var i, k :| 0 <= i < |tas| && 0 <= k < |tas[i].1| && tas[i].1[k].0 == a && b in tas[i].1[k].1;
      if i < |p| {
        assert p[i] == tas[i];
      }
    }
    if Listed(p, a, b) {
      var i, k :| 0 <= i < |p| && 0 <= k < |p[i].1| && p[i].1[k].0 == a && b in p[i].1[k].1;
      assert p[i] == tas[i];
    }
  }

  /** Both passes keep networkx's invariant. */
  lemma {:induction false} TypePassWF(g: NxGraph, tas: TypedAdjacencies)
    requires g.WF()
    ensures TypePass(g, tas).WF()
    decreases |tas|
  {
    if tas != [] {
      var last := tas[|tas| - 1];
      TypePassWF(g, tas[..|tas| - 1]);
      AddNodesFromWF(TypePass(g, tas[..|tas| - 1]), KeysOf(last.1), last.0);
    }
  }

  lemma {:induction false} EdgePassWF(g: NxGraph, tas: TypedAdjacencies)
    requires g.WF()
    ensures EdgePass(g, tas).WF()
    decreases |tas|
  {
    if tas != [] {
      EdgePassWF(g, tas[..|tas| - 1]);
      AddEdgesFromWF(EdgePass(g, tas[..|tas| - 1]), PairsOf(tas[|tas| - 1].1));
    }
  }

  /** The graph read from a specification is a networkx graph whose nodes are
      the declared keys and the listed neighbours; a declared node has the
      type of the last entry declaring it; a listed neighbour that is never
      declared has no type; two nodes are adjacent iff one is listed as a
      neighbour of the other. */
  lemma {:induction false} ReadSpecFacts(tas: TypedAdjacencies, a: Node, b: Node)
    ensures ReadSpec(tas).WF()
    ensures a in ReadSpec(tas).adj <==> Declared(tas, a) || exists c :: Listed(tas, a, c) || Listed(tas, c, a)
    ensures a in ReadSpec(tas).typeAttr <==> Declared(tas, a)
    ensures forall i | LastDeclaring(tas, a, i) :: ReadSpec(tas).typeAttr[a] == tas[i].0
    ensures ReadSpec(tas).Adjacent(a, b) <==> Listed(tas, a, b) || Listed(tas, b, a)
  {
    TypePassWF(Empty, tas);
    EdgePassWF(TypePass(Empty, tas), tas);
    TypePassNodes(Empty, tas, a);
    TypePassTyped(Empty, tas, a);
    EdgePassFacts(TypePass(Empty, tas), tas, a, b);
    forall i | LastDeclaring(tas, a, i) ensures ReadSpec(tas).typeAttr[a] == tas[i].0 {
      TypePassLastType(Empty, tas, a, i);
    }
  }

  /** Every key of a mapping is declared. */
  lemma {:induction false} ListedKeyDeclared(tas: TypedAdjacencies, a: Node, b: Node)
    requires Listed(tas, a, b)
    ensures Declared(tas, a)
  {
    var i, k :| 0 <= i < |tas| && 0 <= k < |tas[i].1| && tas[i].1[k].0 == a && b in tas[i].1[k].1;
    assert KeysOf(tas[i].1)[k] == a;
  }

  /** `consistent`: every node of the graph has a type. */
  predicate Consistent(G: NxGraph) {
    Elems(G.nodes) == G.typeAttr.Keys
  }

  /** The graph read from a specification is consistent iff every listed
      neighbour is also declared as a key under some type. */
  lemma {:induction false} ReadSpecConsistent(tas: TypedAdjacencies)
    ensures Consistent(ReadSpec(tas)) <==> forall a, b | Listed(tas, a, b) :: Declared(tas, b)
  {
    var G := ReadSpec(tas);
    ReadSpecFacts(tas, "", "");
    if Consistent(G) {
      forall a, b | Listed(tas, a, b) ensures Declared(tas, b) {
        ReadSpecFacts(tas, b, a);
      }
    } else {
      var n :| n in Elems(G.nodes) && n !in G.typeAttr;
      ReadSpecFacts(tas, n, n);
      var c :| Listed(tas, n, c) || Listed(tas, c, n);
      if Listed(tas, n, c) {
        ListedKeyDeclared(tas, n, c);
      }
    }
  }

  /** The type of every typed node, in node order. */
  function TypeValues(nodes: seq<Node>, typeAttr: map<Node, NodeType>): seq<NodeType>
    decreases |nodes|
  {
    if nodes == [] then []
    else (if nodes[0] in typeAttr then [typeAttr[nodes[0]]] else []) + TypeValues(nodes[1..], typeAttr)
  }

  /** A type is listed iff some typed node of the list has it. */
  lemma {:induction false} TypeValuesMember(nodes: seq<Node>, typeAttr: map<Node, NodeType>, t: NodeType)
    ensures t in TypeValues(nodes, typeAttr) <==> exists n | n in nodes :: n in typeAttr && typeAttr[n] == t
    decreases |nodes|
  {
    if nodes != [] {
      TypeValuesMember(nodes[1..], typeAttr, t);
      assert nodes == [nodes[0]] + nodes[1..];
    }
  }

  /** `sorted(list(set(get_node_attributes(G, type_attr).values())))`. */
  function SortedTypes(G: NxGraph): seq<NodeType> {
    SortBy(Dedup(TypeValues(G.nodes, G.typeAttr)), StrLt)
  }

  /** Sorting distinct strings gives the only strictly ascending list of them. */
  lemma {:induction false} SortedDistinctFacts(d: seq<NodeType>, other: seq<NodeType>)
    requires Distinct(d)
    ensures StrictlySortedBy(SortBy(d, StrLt), StrLt)
    ensures Elems(SortBy(d, StrLt)) == Elems(d)
    ensures StrictlySortedBy(other, StrLt) && Elems(other) == Elems(d) ==> other == SortBy(d, StrLt)
  {
    var s := SortBy(d, StrLt);
    StrictOrderOfStrings();
    SortBySorted(d, StrLt);
    assert multiset(s) == multiset(d);
    assert Elems(s) == Elems(d) by {
      forall x ensures x in s <==> x in d {
        assert x in s <==> x in multiset(s);
        assert x in d <==> x in multiset(d);
      }
    }
    ElemsCard(d);
    ElemsCard(s);
    SortedDistinctIsStrict(s, StrLt);
    if StrictlySortedBy(other, StrLt) && Elems(other) == Elems(d) {
      StrictlySortedUnique(other, s, StrLt);
    }
  }

  /** The types list is strictly ascending, holds exactly the types present
      on nodes, and is the only strictly ascending list that does so. */
  lemma {:induction false} SortedTypesFacts(G: NxGraph, other: seq<NodeType>)
    requires G.WF()
    ensures StrictlySortedBy(SortedTypes(G), StrLt)
    ensures Elems(SortedTypes(G)) == G.typeAttr.Values
    ensures StrictlySortedBy(other, StrLt) && Elems(other) == G.typeAttr.Values ==> other == SortedTypes(G)
  {
    var tv := TypeValues(G.nodes, G.typeAttr);
    assert Elems(tv) == G.typeAttr.Values by {
      forall t ensures t in tv <==> t in G.typeAttr.Values {
        TypeValuesMember(G.nodes, G.typeAttr, t);
      }
    }
    SortedDistinctFacts(Dedup(tv), other);
  }

  /** The fields `_set_graph` assigns: `G`, `nodes_to_types` and `types`. */
  datatype GraphRec = GraphRec(G: NxGraph, nodesToTypes: map<Node, NodeType>, types: seq<NodeType>)

  /** What `_set_graph` establishes on a graph that passes `consistent`. */
  ghost predicate ValidGraph(r: GraphRec) {
    && r.G.WF()
    && Consistent(r.G)
    && r.nodesToTypes == r.G.typeAttr
    && r.types == SortedTypes(r.G)
  }

  /** A constructed `Graph` object. Its fields are only assigned while it is
      built (on a fresh object, or on a fresh deep copy in `extend_with`), so it
      is a value. */
  type Graph = r: GraphRec | ValidGraph(r) witness GraphRec(Empty, map[], [])

  /** Every neighbour of a node of a graph is itself a typed node of it. */
  lemma {:induction false} NeighbourTyped(g: Graph, n: Node, m: Node)
    requires g.G.Adjacent(n, m)
    ensures m in g.G.adj && m in g.nodesToTypes
  {
  }

  /** `_set_graph(G)`: checks consistency, raising AssertionError with the
      untyped nodes, then records the node-to-type map and the sorted types.
      This is also all of `Graph(G)` for a networkx graph `G`. */
  function SetGraph(G: NxGraph): (r: Result<Graph>)
    requires G.WF()
    ensures r.Ok? <==> Consistent(G)
    ensures r.Err? ==> r.error == AssertionError(Elems(G.nodes) - G.typeAttr.Keys) && r.error.untyped != {}
    ensures r.Ok? ==> r.value.G == G && r.value.nodesToTypes.Keys == Elems(G.nodes)
  {
    if !Consistent(G) then
      assert Elems(G.nodes) - G.typeAttr.Keys != {} by {
        var n :| n in Elems(G.nodes) && n !in G.typeAttr.Keys;
        assert n in Elems(G.nodes) - G.typeAttr.Keys;
      }
      Err(AssertionError(Elems(G.nodes) - G.typeAttr.Keys))
    else
      var rec: Graph := GraphRec(G, G.typeAttr, SortedTypes(G));
      Ok(rec)
  }

  /** `Graph(tas)` for a typed adjacency specification: read, then `_set_graph`. */
  method FromAdjacencies(tas: TypedAdjacencies) returns (r: Result<Graph>)
    ensures ReadSpec(tas).WF() && r == SetGraph(ReadSpec(tas))
    ensures r.Ok? <==> forall a, b | Listed(tas, a, b) :: Declared(tas, b)
  {
    var G := ReadTypedAdjacencyList(tas);
    ReadSpecFacts(tas, "", "");
    ReadSpecConsistent(tas);
    r := SetGraph(G);
  }

  /** The first node of the list without a type, if any. */
  function FirstUntyped(nodes: seq<Node>, types: map<Node, NodeType>): (r: int)
    ensures -1 <= r < |nodes|
    ensures r == -1 <==> forall n | n in nodes :: n in types
    ensures r >= 0 ==> nodes[r] !in types && forall k | 0 <= k < r :: nodes[k] in types
    decreases |nodes|
  {
    if nodes == [] then -1
    else if nodes[0] !in types then 0
    else
      var k := FirstUntyped(nodes[1..], types);
      if k == -1 then -1 else k + 1
  }

  /** The nodes grouped by their type in `types`; KeyError for the first node
      without one. */
  function GroupTyped(types: map<Node, NodeType>, nodes: seq<Node>): (r: Result<map<NodeType, seq<Node>>>)
    ensures r.Err? <==> exists n | n in nodes :: n !in types
    ensures r.Err? ==> r.error.KeyError? && r.error.key in nodes && r.error.key !in types
  {
    var k := FirstUntyped(nodes, types);
    if k >= 0 then Err(KeyError(nodes[k]))
    else Ok(GroupBy(types, nodes))
  }

  /** `group_nodes(nodes)`: the nodes grouped by their type in
      `nodes_to_types`; KeyError for the first node without one. */
  function GroupNodes(g: Graph, nodes: seq<Node>): (r: Result<map<NodeType, seq<Node>>>)
    ensures r.Err? <==> exists n | n in nodes :: n !in g.nodesToTypes
    ensures r.Err? ==> r.error.KeyError? && r.error.key in nodes && r.error.key !in g.nodesToTypes
  {
    GroupTyped(g.nodesToTypes, nodes)
  }

  /** The groups are keyed by exactly the types of the nodes. */
  lemma {:induction false} GroupTypedKeys(types: map<Node, NodeType>, nodes: seq<Node>, m: map<NodeType, seq<Node>>)
    requires GroupTyped(types, nodes) == Ok(m)
    ensures forall t :: t in m <==> exists n | n in nodes :: n in types && types[n] == t
  {
    assert FirstUntyped(nodes, types) == -1;
    GroupByKeys(types, nodes);
  }

  /** Each group holds only nodes of its own type. */
  lemma {:induction false} GroupTypedGroups(types: map<Node, NodeType>, nodes: seq<Node>, m: map<NodeType, seq<Node>>)
    requires GroupTyped(types, nodes) == Ok(m)
    ensures forall t, n | t in m && n in m[t] :: n in nodes && n in types && types[n] == t
  {
    assert FirstUntyped(nodes, types) == -1;
    GroupByKeys(types, nodes);
  }

  /** Each node lands in the group of its type as often as it occurs. */
  lemma {:induction false} GroupTypedCounts(types: map<Node, NodeType>, nodes: seq<Node>, m: map<NodeType, seq<Node>>, n: Node)
    requires GroupTyped(types, nodes) == Ok(m)
    requires n in nodes
    ensures n in types && types[n] in m
    ensures Count(m[types[n]], n) == Count(nodes, n)
  {
    assert FirstUntyped(nodes, types) == -1;
    GroupByCounts(types, nodes, n);
  }

  /** A successful `group_nodes` is keyed by exactly the types of the nodes. */
  lemma {:induction false} GroupNodesKeys(g: Graph, nodes: seq<Node>, m: map<NodeType, seq<Node>>)
    requires GroupNodes(g, nodes) == Ok(m)
    ensures forall t :: t in m <==> exists n | n in nodes :: n in g.nodesToTypes && g.nodesToTypes[n] == t
  {
    GroupTypedKeys(g.nodesToTypes, nodes, m);
  }

  /** Each group of a successful `group_nodes` holds only nodes of its type. */
  lemma {:induction false} GroupNodesGroups(g: Graph, nodes: seq<Node>, m: map<NodeType, seq<Node>>)
    requires GroupNodes(g, nodes) == Ok(m)
    ensures forall t, n | t in m && n in m[t] :: n in nodes && n in g.nodesToTypes && g.nodesToTypes[n] == t
  {
    GroupTypedGroups(g.nodesToTypes, nodes, m);
  }

  /** In a successful `group_nodes`, each node lands in the group of its type
      as often as it occurs. */
  lemma {:induction false} GroupNodesCounts(g: Graph, nodes: seq<Node>, m: map<NodeType, seq<Node>>, n: Node)
    requires GroupNodes(g, nodes) == Ok(m)
    requires n in nodes
    ensures n in g.nodesToTypes && g.nodesToTypes[n] in m
    ensures Count(m[g.nodesToTypes[n]], n) == Count(nodes, n)
  {
    GroupTypedCounts(g.nodesToTypes, nodes, m, n);
  }

  /** `extend_with(ext)`: a new graph, the composition of both, re-checked by
      `_set_graph`. It never fails: the nodes of both graphs are typed. Nodes
      and edges are the unions; a node typed in both takes the type from `ext`. */
  function ExtendWith(g: Graph, ext: Graph): (r: Result<Graph>)
    ensures r.Ok?
    ensures Elems(r.value.G.nodes) == Elems(g.G.nodes) + Elems(ext.G.nodes)
    ensures r.value.nodesToTypes == g.nodesToTypes + ext.nodesToTypes
    ensures forall a, b :: r.value.G.Adjacent(a, b) <==> g.G.Adjacent(a, b) || ext.G.Adjacent(a, b)
  {
    ComposeWF(g.G, ext.G);
    SetGraph(Compose(g.G, ext.G))
  }

  /** Extending a graph with itself gives the same graph. */
  lemma {:induction false} ExtendWithSelf(g: Graph)
    ensures ExtendWith(g, g) == Ok(g)
  {
    ComposeSelf(g.G);
  }
}
