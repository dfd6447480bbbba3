/** Graph helpers (Util/misc.py): the type-filtered neighbours of state
    nodes, the inversion of an adjacency dictionary, and a constant-valued
    dictionary. */
module Misc {
  import opened Types
  import opened GenericUtil
  import opened Nx
  import opened TypedGraph

  /** The node-type filter of the shown misc.py (`not node_type or type == node_type`):
      a falsy argument keeps every type, anything else keeps the types equal to it. */
  function OldTypeFilter(nodeType: PyArg): NodeType -> bool {
    t => nodeType.Falsy() || nodeType == PyStr(t)
  }

  /** The node-type filter the scanners call with a list of wanted and a list
      of unwanted types: an empty wanted list stands for every type. */
  function TypeListFilter(good: seq<NodeType>, bad: seq<NodeType>): NodeType -> bool {
    t => (good == [] || t in good) && t !in bad
  }

  /** Without a node type the old filter keeps everything; with a non-empty
      string it keeps exactly that type. */
  lemma {:induction false} OldTypeFilterMeaning(nodeType: PyArg, t: NodeType)
    ensures nodeType.Falsy() ==> OldTypeFilter(nodeType)(t)
    ensures nodeType.PyStr? && nodeType.s != "" ==> (OldTypeFilter(nodeType)(t) <==> t == nodeType.s)
    ensures nodeType.PyList? && nodeType.items != [] ==> !OldTypeFilter(nodeType)(t)
  {
  }

  /** The filter that keeps every node type. */
  const AnyType: NodeType -> bool := _ => true

  /** Empty lists keep everything; otherwise a type is kept iff it is wanted
      (or nothing is singled out as wanted) and it is not unwanted. */
  lemma {:induction false} TypeListFilterMeaning(good: seq<NodeType>, bad: seq<NodeType>, t: NodeType)
    ensures TypeListFilter([], [])(t)
    ensures TypeListFilter(good, bad)(t) <==> (good == [] || t in good) && t !in bad
  {
  }

  /** The nodes of `ns` whose type passes `keep`, in order. */
  function FilterByType(ns: seq<Node>, types: map<Node, NodeType>, keep: NodeType -> bool): (r: seq<Node>)
    requires forall m | m in ns :: m in types
    ensures forall m :: m in r <==> m in ns && keep(types[m])
    ensures |r| <= |ns|
    decreases |ns|
  {
    if ns == [] then []
    else (if keep(types[ns[0]]) then [ns[0]] else []) + FilterByType(ns[1..], types, keep)
  }

  /** Filtering keeps a list free of repeats. */
  lemma {:induction false} FilterByTypeDistinct(ns: seq<Node>, types: map<Node, NodeType>, keep: NodeType -> bool)
    requires forall m | m in ns :: m in types
    requires Distinct(ns)
    ensures Distinct(FilterByType(ns, types, keep))
    decreases |ns|
  {
    if ns != [] {
      assert Distinct(ns[1..]) by {
        forall i, j | 0 <= i < j < |ns[1..]| ensures ns[1..][i] != ns[1..][j] {
          assert ns[1..][i] == ns[i + 1] && ns[1..][j] == ns[j + 1];
        }
      }
      FilterByTypeDistinct(ns[1..], types, keep);
      var rest := FilterByType(ns[1..], types, keep);
      assert ns[0] !in ns[1..];
      var r := FilterByType(ns, types, keep);
      forall i, j | 0 <= i < j < |r| ensures r[i] != r[j] {
        if keep(types[ns[0]]) && i == 0 {
          assert r[j] == rest[j - 1];
          assert r[j] in ns[1..];
        } else if keep(types[ns[0]]) {
          assert r[i] == rest[i - 1] && r[j] == rest[j - 1];
        }
      }
    }
  }

  /** The neighbours of a node of the graph whose type passes `keep`, in
      neighbour order. */
  function FilteredNeighbours(g: Graph, n: Node, keep: NodeType -> bool): (r: seq<Node>)
    requires n in g.G.adj
    ensures forall m :: m in r <==> g.G.Adjacent(n, m) && m in g.nodesToTypes && keep(g.nodesToTypes[m])
  {
    assert forall m | m in g.G.adj[n] :: m in g.nodesToTypes by {
      forall m | m in g.G.adj[n] ensures m in g.nodesToTypes {
        NeighbourTyped(g, n, m);
      }
    }
    FilterByType(g.G.adj[n], g.nodesToTypes, keep)
  }

  /** The direct adjacency lookups of the model are `G.neighbors(n)`: it
      raises NetworkXError exactly where the model does, and otherwise the
      filtered neighbours are its list, filtered. */
  lemma {:induction false} FilteredNeighboursViaNeighbors(g: Graph, n: Node, keep: NodeType -> bool)
    ensures Neighbors(g.G, n).Ok? <==> n in g.G.adj
    ensures Neighbors(g.G, n).Err? ==> Neighbors(g.G, n).error == NetworkXError(n)
    ensures Neighbors(g.G, n).Ok? ==> forall m | m in Neighbors(g.G, n).value :: m in g.nodesToTypes
    ensures Neighbors(g.G, n).Ok? ==>
      FilteredNeighbours(g, n, keep) == FilterByType(Neighbors(g.G, n).value, g.nodesToTypes, keep)
  {
    if n in g.G.adj {
      forall m | m in g.G.adj[n] ensures m in g.nodesToTypes {
        NeighbourTyped(g, n, m);
      }
    }
  }

  /** The filtered neighbours have no repeats. */
  lemma {:induction false} FilteredNeighboursDistinct(g: Graph, n: Node, keep: NodeType -> bool)
    requires n in g.G.adj
    ensures Distinct(FilteredNeighbours(g, n, keep))
  {
    forall m | m in g.G.adj[n] ensures m in g.nodesToTypes {
      assert m in g.G.adj;
    }
    FilterByTypeDistinct(g.G.adj[n], g.nodesToTypes, keep);
  }

  /** Under a filter that keeps every type, the neighbours are exactly
      `G.neighbors(n)`, in order. */
  lemma {:induction false} FilteredNeighboursAll(g: Graph, n: Node, keep: NodeType -> bool)
    requires n in g.G.adj
    requires forall t :: keep(t)
    ensures FilteredNeighbours(g, n, keep) == g.G.adj[n]
  {
    forall m | m in g.G.adj[n] ensures m in g.nodesToTypes {
      assert m in g.G.adj;
    }
    FilterAll(g.G.adj[n], g.nodesToTypes, keep);
  }

  /** A plain `relevant_neighbours(Gr, state)` (no type given) and the
      scanners' filter with no wanted and no unwanted types both list
      exactly `G.neighbors(n)`, in order. */
  lemma {:induction false} FilteredNeighboursUnfiltered(g: Graph, n: Node)
    requires n in g.G.adj
    ensures FilteredNeighbours(g, n, OldTypeFilter(PyNone)) == g.G.adj[n]
    ensures FilteredNeighbours(g, n, TypeListFilter([], [])) == g.G.adj[n]
  {
    FilteredNeighboursAll(g, n, OldTypeFilter(PyNone));
    FilteredNeighboursAll(g, n, TypeListFilter([], []));
  }

  lemma {:induction false} FilterAll(ns: seq<Node>, types: map<Node, NodeType>, keep: NodeType -> bool)
    requires forall m | m in ns :: m in types
    requires forall t :: keep(t)
    ensures FilterByType(ns, types, keep) == ns
    decreases |ns|
  {
    if ns != [] {
      FilterAll(ns[1..], types, keep);
    }
  }

  /** The index of the first state node that is not in the graph. */
  function FirstAbsent(g: Graph, stateList: seq<Node>): (r: int)
    ensures -1 <= r < |stateList|
    ensures r == -1 <==> forall sn | sn in stateList :: sn in g.G.adj
    ensures r >= 0 ==> stateList[r] !in g.G.adj && forall j | 0 <= j < r :: stateList[j] in g.G.adj
    decreases |stateList|
  {
    if stateList == [] then -1
    else if stateList[0] !in g.G.adj then 0
    else
      var k := FirstAbsent(g, stateList[1..]);
      if k == -1 then -1 else k + 1
  }

  /** `relevant_neighbours(Gr, state_list, ...)`: for each state node in
      order, its neighbours whose type passes the filter; `neighbors` raises
      NetworkXError at the first state node that is not in the graph. */
  function RelevantNeighbours(g: Graph, stateList: seq<Node>, keep: NodeType -> bool): (r: Result<seq<seq<Node>>>)
    ensures r.Err? <==> FirstAbsent(g, stateList) >= 0
    ensures r.Err? ==> r.error == NetworkXError(stateList[FirstAbsent(g, stateList)])
    ensures r.Ok? ==> |r.value| == |stateList|
    ensures r.Ok? ==> forall i | 0 <= i < |stateList| ::
      stateList[i] in g.G.adj && r.value[i] == FilteredNeighbours(g, stateList[i], keep)
  {
    var k := FirstAbsent(g, stateList);
    if k >= 0 then Err(NetworkXError(stateList[k]))
    else Ok(seq(|stateList|, i requires 0 <= i < |stateList| && stateList[i] in g.G.adj =>
                FilteredNeighbours(g, stateList[i], keep)))
  }

  /** Each relevant neighbour list holds exactly the neighbours of its state
      node that pass the filter, each once. */
  lemma {:induction false} RelevantNeighboursMember(g: Graph, stateList: seq<Node>, keep: NodeType -> bool, i: int, m: Node)
    requires RelevantNeighbours(g, stateList, keep).Ok?
    requires 0 <= i < |stateList|
    ensures var rn := RelevantNeighbours(g, stateList, keep).value;
      && (m in rn[i] <==> g.G.Adjacent(stateList[i], m) && m in g.nodesToTypes && keep(g.nodesToTypes[m]))
      && Distinct(rn[i])
  {
    FilteredNeighboursDistinct(g, stateList[i], keep);
    if g.G.Adjacent(stateList[i], m) {
      NeighbourTyped(g, stateList[i], m);
    }
  }

  /** The error `relevant_neighbours` raises is the one `G.neighbors` raises
      for the first state node missing from the graph. */
  lemma {:induction false} RelevantNeighboursError(g: Graph, stateList: seq<Node>, keep: NodeType -> bool)
    requires RelevantNeighbours(g, stateList, keep).Err?
    ensures Neighbors(g.G, stateList[FirstAbsent(g, stateList)]).Err?
    ensures RelevantNeighbours(g, stateList, keep).error == Neighbors(g.G, stateList[FirstAbsent(g, stateList)]).error
  {
  }

  /** `adjacencies_lossy_reverse` after the entries `d` have been looked at:
      each listed target `t` collects the source, in order. */
  function AddSources(m: map<string, seq<string>>, v: string, to: seq<string>): map<string, seq<string>>
    decreases |to|
  {
    if to == [] then m
    else
      var m1 := AddSources(m, v, to[..|to| - 1]);
      var t := to[|to| - 1];
      m1[t := (if t in m1 then m1[t] else []) + [v]]
  }

  /** The reversed dictionary of the entries `d`, as the nested loops build it. */
  function ReverseSpec(d: OneToMany): map<string, seq<string>>
    decreases |d|
  {
    if d == [] then map[]
    else AddSources(ReverseSpec(d[..|d| - 1]), d[|d| - 1].0, d[|d| - 1].1)
  }

  /** `adjacencies_lossy_reverse(one_type_graph)`: for each entry `v: to` in
      dict order, and each `t` of `to` in order, appends `v` to `result[t]`. */
  method AdjacenciesLossyReverse(d: OneToMany) returns (rev: map<string, seq<string>>)
    ensures rev == ReverseSpec(d)
  {
    rev := map[];
    for i := 0 to |d|
      invariant rev == ReverseSpec(d[..i])
    {
      assert d[..i + 1][..i] == d[..i];
      var v, to := d[i].0, d[i].1;
      ghost var before := rev;
      for j := 0 to |to|
        invariant rev == AddSources(before, v, to[..j])
      {
        assert to[..j + 1][..j] == to[..j];
        var t := to[j];
        rev := rev[t := (if t in rev then rev[t] else []) + [v]];
      }
      assert to[..|to|] == to;
    }
    assert d[..|d|] == d;
  }

  /** `n` copies of `v`. */
  function Repeat(v: string, n: nat): (r: seq<string>)
    ensures |r| == n && forall k | 0 <= k < n :: r[k] == v
  {
    seq(n, _ => v)
  }

  /** The sources of `t`, in input order, each once per occurrence of `t` in
      its list: the reference definition of a reversed entry. */
  function SourcesOf(d: OneToMany, t: string): seq<string>
    decreases |d|
  {
    if d == [] then []
    else SourcesOf(d[..|d| - 1], t) + Repeat(d[|d| - 1].0, Count(d[|d| - 1].1, t))
  }

  /** Appending the sources of one entry adds its targets as keys. */
  lemma {:induction false} AddSourcesKeys(m: map<string, seq<string>>, v: string, to: seq<string>)
    ensures AddSources(m, v, to).Keys == m.Keys + Elems(to)
    decreases |to|
  {
    if to != [] {
      var p, x := to[..|to| - 1], to[|to| - 1];
      AddSourcesKeys(m, v, p);
      assert Elems(to) == Elems(p) + {x} by {
        assert to == p + [x];
      }
    }
  }

  /** Appending the sources of one entry lists the source once per
      occurrence of the target, after what the target had. */
  lemma {:induction false} AddSourcesValue(m: map<string, seq<string>>, v: string, to: seq<string>, t: string)
    ensures t in AddSources(m, v, to) ==>
      AddSources(m, v, to)[t] == (if t in m then m[t] else []) + Repeat(v, Count(to, t))
    decreases |to|
  {
    if to != [] {
      var p, x := to[..|to| - 1], to[|to| - 1];
      assert Count(to, t) == Count(p, t) + (if x == t then 1 else 0) by {
        assert to == p + [x];
        assert multiset(to) == multiset(p) + multiset{x};
      }
      AddSourcesValue(m, v, p, t);
      var before := if t in m then m[t] else [];
      if t == x {
        assert Repeat(v, Count(to, t)) == Repeat(v, Count(p, t)) + [v];
        if t !in AddSources(m, v, p) {
          AddSourcesKeys(m, v, p);
          assert Count(p, t) == 0;
        }
      }
    }
  }

  /** Appending the sources of one entry. */
  lemma {:induction false} AddSourcesFacts(m: map<string, seq<string>>, v: string, to: seq<string>, t: string)
    ensures t in AddSources(m, v, to) <==> t in m || t in to
    ensures AddSources(m, v, to).Keys == m.Keys + Elems(to)
    ensures t in AddSources(m, v, to) ==>
      AddSources(m, v, to)[t] == (if t in m then m[t] else []) + Repeat(v, Count(to, t))
  {
    AddSourcesKeys(m, v, to);
    AddSourcesValue(m, v, to, t);
  }

  /** A target is a key of the reversed dictionary iff some list holds it; its
      entry lists the sources in input order, once per occurrence. */
  lemma {:induction false} ReverseSpecFacts(d: OneToMany, t: string)
    ensures t in ReverseSpec(d) <==> exists i | 0 <= i < |d| :: t in d[i].1
    ensures t in ReverseSpec(d) ==> ReverseSpec(d)[t] == SourcesOf(d, t)
    decreases |d|
  {
    if d != [] {
      var p, last := d[..|d| - 1], d[|d| - 1];
      ReverseSpecFacts(p, t);
      AddSourcesFacts(ReverseSpec(p), last.0, last.1, t);
      if exists i | 0 <= i < |d| :: t in d[i].1 {
        var i :| 0 <= i < |d| && t in d[i].1;
        if i < |p| {
          assert p[i] == d[i];
        }
      }
      if exists i | 0 <= i < |p| :: t in p[i].1 {
        var i :| 0 <= i < |p| && t in p[i].1;
        assert p[i] == d[i];
      }
      if t in ReverseSpec(d) && t !in ReverseSpec(p) {
        assert SourcesOf(p, t) == [] by {
          NoSources(p, t);
        }
      }
    }
  }

  /** A target listed nowhere has no sources. */
  lemma {:induction false} NoSources(d: OneToMany, t: string)
    requires forall i | 0 <= i < |d| :: t !in d[i].1
    ensures SourcesOf(d, t) == []
    decreases |d|
  {
    if d != [] {
      var p := d[..|d| - 1];
      forall i | 0 <= i < |p| ensures t !in p[i].1 {
        assert p[i] == d[i];
      }
      NoSources(p, t);
      assert Count(d[|d| - 1].1, t) == 0;
    }
  }

  /** With distinct keys (a dict), `v` occurs in the reversed entry of `t`
      exactly as often as `t` occurs in the list of `v`. */
  lemma {:induction false} SourcesOfCount(d: OneToMany, t: string, i: int)
    requires Distinct(KeysOf(d))
    requires 0 <= i < |d|
    ensures Count(SourcesOf(d, t), d[i].0) == Count(d[i].1, t)
    decreases |d|
  {
    var p, last := d[..|d| - 1], d[|d| - 1];
    var v := d[i].0;
    var rep := Repeat(last.0, Count(last.1, t));
    assert multiset(SourcesOf(d, t)) == multiset(SourcesOf(p, t)) + multiset(rep);
    if i == |d| - 1 {
      assert multiset(rep)[v] == |rep| by {
        RepeatCount(last.0, Count(last.1, t));
      }
      assert Count(SourcesOf(p, t), v) == 0 by {
        forall j | 0 <= j < |p| ensures p[j].0 != v {
          assert KeysOf(d)[j] == p[j].0 && KeysOf(d)[i] == v;
        }
        NotASource(p, t, v);
      }
    } else {
      assert p[i] == d[i];
      assert Distinct(KeysOf(p)) by {
        forall a, b | 0 <= a < b < |KeysOf(p)| ensures KeysOf(p)[a] != KeysOf(p)[b] {
          assert KeysOf(p)[a] == KeysOf(d)[a] && KeysOf(p)[b] == KeysOf(d)[b];
        }
      }
      SourcesOfCount(p, t, i);
      assert last.0 != v by {
        assert KeysOf(d)[|d| - 1] == last.0 && KeysOf(d)[i] == v;
      }
      assert multiset(rep)[v] == 0;
    }
  }

  lemma {:induction false} RepeatCount(v: string, n: nat)
    ensures multiset(Repeat(v, n))[v] == n
  {
    if n > 0 {
      assert Repeat(v, n) == Repeat(v, n - 1) + [v];
      RepeatCount(v, n - 1);
    }
  }

  /** A key of no entry is nobody's source. */
  lemma {:induction false} NotASource(d: OneToMany, t: string, v: string)
    requires forall j | 0 <= j < |d| :: d[j].0 != v
    ensures Count(SourcesOf(d, t), v) == 0
    decreases |d|
  {
    if d != [] {
      var p := d[..|d| - 1];
      forall j | 0 <= j < |p| ensures p[j].0 != v {
        assert p[j] == d[j];
      }
      NotASource(p, t, v);
      var rep := Repeat(d[|d| - 1].0, Count(d[|d| - 1].1, t));
      assert multiset(SourcesOf(d, t)) == multiset(SourcesOf(p, t)) + multiset(rep);
      assert v !in rep;
    }
  }

  /** The docstring's example: `{A: [B, C], D: []} -> {B: [A], C: [A]}`; `D`,
      whose list is empty, is lost. */
  lemma {:induction false} ReverseDocExample()
    ensures ReverseSpec([("A", ["B", "C"]), ("D", [])]) == map["B" := ["A"], "C" := ["A"]]
  {
    var d := [("A", ["B", "C"]), ("D", [])];
    assert d[..1] == [("A", ["B", "C"])];
    assert d[..1][..0] == [];
    assert ["B", "C"][..1] == ["B"];
    assert ["B"][..0] == [];
    var m0: map<string, seq<string>> := map[];
    assert AddSources(m0, "A", ["B"][..0]) == m0;
    assert AddSources(m0, "A", ["B"]) == m0["B" := [] + ["A"]];
    assert "B" !in m0;
    var empty: seq<string> := [];
    assert empty + ["A"] == ["A"];
    assert m0["B" := empty + ["A"]] == map["B" := ["A"]];
    assert AddSources(m0, "A", ["B", "C"]) == map["B" := ["A"], "C" := ["A"]];
    assert ReverseSpec(d[..1]) == map["B" := ["A"], "C" := ["A"]];
  }

  /** `strs_as_keys(strs, unique_value)`: every string maps to the one shared value. */
  function StrsAsKeys(strs: seq<string>, uniqueValue: seq<string>): (r: map<string, seq<string>>)
    ensures r.Keys == Elems(strs)
    ensures forall t | t in r :: r[t] == uniqueValue
  {
    map t | t in strs :: uniqueValue
  }
}
