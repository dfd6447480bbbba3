/** Scanners (scanners.py): rank the candidate nodes around a state, either
    by a score function or by how many state nodes each candidate neighbours.
    The parts shared with the older scanners of steps.py are defined here
    once, over a node-type filter given as a predicate. */
module Scanners {
  import opened Types
  import opened GenericUtil
  import opened Order
  import opened Nx
  import opened TypedGraph
  import opened Misc
  import opened Scores
  import opened Counters

  /** A scored ranking: (node, score) pairs. */
  type ScanResult = seq<(Node, real)>

  /** `c` is a neighbour of some state node and its type passes `keep`:
      what `set(flatten(relevant_neighbours(...)))` holds. */
  ghost predicate Relevant(g: Graph, listState: seq<Node>, keep: NodeType -> bool, c: Node) {
    exists i | 0 <= i < |listState| ::
      g.G.Adjacent(listState[i], c) && c in g.nodesToTypes && keep(g.nodesToTypes[c])
  }

  /** The flattened relevant neighbours are exactly the relevant nodes, all in the graph. */
  lemma {:induction false} RelevantCandidates(g: Graph, listState: seq<Node>, keep: NodeType -> bool, c: Node)
    requires RelevantNeighbours(g, listState, keep).Ok?
    ensures c in Flatten(RelevantNeighbours(g, listState, keep).value) <==> Relevant(g, listState, keep, c)
    ensures Relevant(g, listState, keep, c) ==> c in g.G.adj
  {
    var rn := RelevantNeighbours(g, listState, keep).value;
    FlattenMember(rn, c);
    if c in Flatten(rn) {
      var i :| 0 <= i < |rn| && c in rn[i];
      RelevantNeighboursMember(g, listState, keep, i, c);
    }
    if Relevant(g, listState, keep, c) {
      var i :| 0 <= i < |listState| &&
        g.G.Adjacent(listState[i], c) && c in g.nodesToTypes && keep(g.nodesToTypes[c]);
      RelevantNeighboursMember(g, listState, keep, i, c);
      assert c in g.G.adj;
    }
  }

  /** The de-duplicated candidates are exactly the relevant nodes. */
  lemma {:induction false} RelevantCandidatesDedup(g: Graph, listState: seq<Node>, keep: NodeType -> bool, c: Node)
    requires RelevantNeighbours(g, listState, keep).Ok?
    ensures c in Dedup(Flatten(RelevantNeighbours(g, listState, keep).value)) <==> Relevant(g, listState, keep, c)
    ensures Relevant(g, listState, keep, c) ==> c in g.G.adj
  {
    var fl := Flatten(RelevantNeighbours(g, listState, keep).value);
    assert c in Dedup(fl) <==> c in Elems(Dedup(fl));
    assert c in fl <==> c in Elems(fl);
    RelevantCandidates(g, listState, keep, c);
  }

  /** The score of candidate `c` as the comprehension computes it: the score
      function applied to the state and the candidate's own neighbours that
      pass `keep` (`neighbors` raises for a node outside the graph). */
  function CandidateScore(score: Score, g: Graph, listState: seq<Node>, keep: NodeType -> bool): Node -> Result<real> {
    c => if c in g.G.adj then score(listState, FilteredNeighbours(g, c, keep)) else Err(NetworkXError(c))
  }

  /** A candidate's score raises the error `G.neighbors(c)` raises, and
      otherwise scores the list `G.neighbors(c)` gives, filtered. */
  lemma {:induction false} CandidateScoreNeighbors(score: Score, g: Graph, listState: seq<Node>, keep: NodeType -> bool, c: Node)
    ensures Neighbors(g.G, c).Err? ==> CandidateScore(score, g, listState, keep)(c) == Err(Neighbors(g.G, c).error)
    ensures Neighbors(g.G, c).Ok? ==>
      CandidateScore(score, g, listState, keep)(c) == score(listState, FilterByType(Neighbors(g.G, c).value, g.nodesToTypes, keep))
  {
    FilteredNeighboursViaNeighbors(g, c, keep);
  }

  /** The comprehension `[(n, s) for n in cands if (s := f(n)) > 0]`: the
      candidates with a positive score, in candidate order; the first score
      that raises aborts it. */
  function Scored(f: Node -> Result<real>, cands: seq<Node>): Result<ScanResult>
    decreases |cands|
  {
    if cands == [] then Ok([])
    else
      var s :- f(cands[0]);
      var rest :- Scored(f, cands[1..]);
      Ok(if s > 0.0 then [(cands[0], s)] + rest else rest)
  }

  /** Every entry of a successful comprehension is a candidate with its own
      positive score. */
  lemma {:induction false} ScoredEntries(f: Node -> Result<real>, cands: seq<Node>, ps: ScanResult)
    requires Scored(f, cands) == Ok(ps)
    ensures forall i | 0 <= i < |ps| :: ps[i].0 in cands && ps[i].1 > 0.0 && f(ps[i].0) == Ok(ps[i].1)
    decreases |cands|
  {
    if cands != [] {
      var c0, t := cands[0], cands[1..];
      var rest := Scored(f, t).value;
      ScoredEntries(f, t, rest);
      assert forall x | x in t :: x in cands;
      if f(c0).value > 0.0 {
        assert ps == [(c0, f(c0).value)] + rest;
        assert forall i | 0 < i < |ps| :: ps[i] == rest[i - 1];
      }
    }
  }

  /** A successful comprehension scores every candidate and lists each one
      whose score is positive. */
  lemma {:induction false} ScoredComplete(f: Node -> Result<real>, cands: seq<Node>, ps: ScanResult)
    requires Scored(f, cands) == Ok(ps)
    ensures forall c | c in cands :: f(c).Ok? && (f(c).value > 0.0 ==> (c, f(c).value) in ps)
    decreases |cands|
  {
    if cands != [] {
      var c0, t := cands[0], cands[1..];
      var rest := Scored(f, t).value;
      ScoredComplete(f, t, rest);
      assert forall x | x in cands :: x == c0 || x in t;
      assert forall e | e in rest :: e in ps;
    }
  }

  /** Over distinct candidates, no candidate is listed twice. */
  lemma {:induction false} ScoredDistinct(f: Node -> Result<real>, cands: seq<Node>, ps: ScanResult)
    requires Scored(f, cands) == Ok(ps)
    requires Distinct(cands)
    ensures Distinct(Firsts(ps))
    decreases |cands|
  {
    if cands != [] {
      var c0, t := cands[0], cands[1..];
      var rest := Scored(f, t).value;
      DistinctCons(cands);
      ScoredDistinct(f, t, rest);
      if f(c0).value > 0.0 {
        assert c0 !in Firsts(rest) by {
          ScoredEntries(f, t, rest);
          forall k | 0 <= k < |rest| ensures rest[k].0 != c0 {
            assert rest[k].0 in t;
          }
        }
        assert Firsts(ps) == [c0] + Firsts(rest);
        DistinctAppend([c0], Firsts(rest));
      }
    }
  }

  /** A successful comprehension holds exactly the candidates with a positive
      score, each with its score and, for distinct candidates, once. */
  lemma {:induction false} ScoredOk(f: Node -> Result<real>, cands: seq<Node>, ps: ScanResult)
    requires Scored(f, cands) == Ok(ps)
    ensures forall i | 0 <= i < |ps| :: ps[i].0 in cands && ps[i].1 > 0.0 && f(ps[i].0) == Ok(ps[i].1)
    ensures forall c | c in cands :: f(c).Ok? && (f(c).value > 0.0 ==> (c, f(c).value) in ps)
    ensures Distinct(cands) ==> Distinct(Firsts(ps))
  {
    ScoredEntries(f, cands, ps);
    ScoredComplete(f, cands, ps);
    if Distinct(cands) {
      ScoredDistinct(f, cands, ps);
    }
  }

  /** The comprehension raises only the error of some candidate's score. */
  lemma {:induction false} ScoredErr(f: Node -> Result<real>, cands: seq<Node>)
    requires Scored(f, cands).Err?
    ensures exists c | c in cands :: f(c) == Err(Scored(f, cands).error)
    decreases |cands|
  {
    var c0, t := cands[0], cands[1..];
    if f(c0).Ok? {
      ScoredErr(f, t);
      var c :| c in t && f(c) == Err(Scored(f, t).error);
      assert c in cands;
    }
  }

  /** The sorted comprehension over distinct candidates lists each candidate
      with a positive score once, with its score, and nothing else. */
  lemma {:induction false} Ranking(f: Node -> Result<real>, cands: seq<Node>, before: ((Node, real), (Node, real)) -> bool, res: ScanResult)
    requires Distinct(cands)
    requires Scored(f, cands).Ok? && res == SortBy(Scored(f, cands).value, before)
    ensures forall i | 0 <= i < |res| :: res[i].0 in cands && res[i].1 > 0.0 && f(res[i].0) == Ok(res[i].1)
    ensures forall c | c in cands :: f(c).Ok? && (f(c).value > 0.0 ==> (c, f(c).value) in res)
    ensures Distinct(Firsts(res))
    ensures StrictOrder(before) ==> SortedBy(res, before)
  {
    var ps := Scored(f, cands).value;
    ScoredOk(f, cands, ps);
    FirstsDistinct(ps);
    DistinctPermutation(ps, res);
    forall i | 0 <= i < |res| ensures res[i].0 in cands && res[i].1 > 0.0 && f(res[i].0) == Ok(res[i].1) {
      assert res[i] in Elems(ps);
    }
    forall c | c in cands && f(c).value > 0.0 ensures (c, f(c).value) in res {
      assert (c, f(c).value) in ps;
      assert (c, f(c).value) in multiset(ps);
    }
    forall i, j | 0 <= i < j < |res| ensures Firsts(res)[i] != Firsts(res)[j] {
      assert res[i] != res[j];
    }
    if StrictOrder(before) {
      SortBySorted(ps, before);
    }
  }

  /** The body shared by both versions of `by_score`: score the distinct
      relevant neighbours (as filtered by `keepNodes`) against their own
      neighbours (as filtered by `keepNeighbours`), keep the positive
      scores, and sort them by `before`. */
  function ScoreScan(score: Score, g: Graph, listState: seq<Node>, keepNodes: NodeType -> bool,
                     keepNeighbours: NodeType -> bool, before: ((Node, real), (Node, real)) -> bool): Result<ScanResult>
  {
    var rn :- RelevantNeighbours(g, listState, keepNodes);
    var ps :- Scored(CandidateScore(score, g, listState, keepNeighbours), Dedup(Flatten(rn)));
    Ok(SortBy(ps, before))
  }

  /** A successful scan lists each relevant node with a positive score once,
      with its score, and nothing else, sorted by `before`. */
  lemma {:induction false} ScoreScanOk(score: Score, g: Graph, listState: seq<Node>, keepNodes: NodeType -> bool,
                    keepNeighbours: NodeType -> bool, before: ((Node, real), (Node, real)) -> bool, res: ScanResult)
    requires ScoreScan(score, g, listState, keepNodes, keepNeighbours, before) == Ok(res)
    ensures var f := CandidateScore(score, g, listState, keepNeighbours);
      && (forall i | 0 <= i < |res| ::
            Relevant(g, listState, keepNodes, res[i].0) && res[i].1 > 0.0 && f(res[i].0) == Ok(res[i].1))
      && (forall c | Relevant(g, listState, keepNodes, c) ::
            c in g.G.adj && f(c).Ok? && (f(c).value > 0.0 ==> (c, f(c).value) in res))
    ensures Distinct(Firsts(res))
    ensures StrictOrder(before) ==> SortedBy(res, before)
  {
    var f := CandidateScore(score, g, listState, keepNeighbours);
    var cands := Dedup(Flatten(RelevantNeighbours(g, listState, keepNodes).value));
    Ranking(f, cands, before, res);
    forall c ensures c in cands <==> Relevant(g, listState, keepNodes, c)
      ensures Relevant(g, listState, keepNodes, c) ==> c in g.G.adj
    {
      RelevantCandidatesDedup(g, listState, keepNodes, c);
    }
  }

  /** The scan fails exactly when a state node is missing from the graph or
      the score of some relevant node raises. */
  lemma {:induction false} ScoreScanErr(score: Score, g: Graph, listState: seq<Node>, keepNodes: NodeType -> bool,
                     keepNeighbours: NodeType -> bool, before: ((Node, real), (Node, real)) -> bool)
    ensures ScoreScan(score, g, listState, keepNodes, keepNeighbours, before).Err? <==>
      || FirstAbsent(g, listState) >= 0
      || exists c | Relevant(g, listState, keepNodes, c) ::
           c in g.G.adj && CandidateScore(score, g, listState, keepNeighbours)(c).Err?
    ensures FirstAbsent(g, listState) >= 0 ==>
      ScoreScan(score, g, listState, keepNodes, keepNeighbours, before) ==
        Err(NetworkXError(listState[FirstAbsent(g, listState)]))
  {
    var r := ScoreScan(score, g, listState, keepNodes, keepNeighbours, before);
    if FirstAbsent(g, listState) < 0 {
      var f := CandidateScore(score, g, listState, keepNeighbours);
      var cands := Dedup(Flatten(RelevantNeighbours(g, listState, keepNodes).value));
      forall c ensures c in cands <==> Relevant(g, listState, keepNodes, c)
        ensures Relevant(g, listState, keepNodes, c) ==> c in g.G.adj
      {
        RelevantCandidatesDedup(g, listState, keepNodes, c);
      }
      if Scored(f, cands).Err? {
        ScoredErr(f, cands);
      } else {
        ScoredOk(f, cands, Scored(f, cands).value);
      }
    }
  }

  /** The order of the new `by_score`: higher score first, then the node
      name ascending (the sort key `(-score, name)`). */
  predicate ScoreBefore(x: (Node, real), y: (Node, real)) {
    x.1 > y.1 || (x.1 == y.1 && StrLt(x.0, y.0))
  }

  /** The sort key orders any two distinct pairs. */
  lemma {:induction false} ScoreBeforeTotal()
    ensures StrictTotalOrder(ScoreBefore)
  {
    StrictOrderOfStrings();
  }

  /** All four type-filter arguments of the scanner are Python lists. */
  predicate AllLists(nodeTypes: PyArg, notNodeTypes: PyArg, neighbourTypes: PyArg, notNeighbourTypes: PyArg) {
    nodeTypes.PyList? && notNodeTypes.PyList? && neighbourTypes.PyList? && notNeighbourTypes.PyList?
  }

  /** `scan_closure` of `by_score(score)`: raises TypeError unless the four
      filters are lists, then scores the relevant neighbours of the state
      (kept by `node_types`/`not_node_types`) against their own neighbours
      (kept by `neighbour_types`/`not_neighbour_types`), sorted by
      `ScoreBefore`. */
  function ByScore(score: Score, g: Graph, listState: seq<Node>, nodeTypes: PyArg, notNodeTypes: PyArg,
                   neighbourTypes: PyArg, notNeighbourTypes: PyArg): (r: Result<ScanResult>)
    ensures !AllLists(nodeTypes, notNodeTypes, neighbourTypes, notNeighbourTypes) ==> r == Err(TypeError)
  {
    if !AllLists(nodeTypes, notNodeTypes, neighbourTypes, notNeighbourTypes) then Err(TypeError)
    else ScoreScan(score, g, listState, TypeListFilter(nodeTypes.items, notNodeTypes.items),
                   TypeListFilter(neighbourTypes.items, notNeighbourTypes.items), ScoreBefore)
  }

  /** A successful `by_score` scan: every entry is a relevant neighbour of the
      state with its own positive score, every relevant neighbour with a
      positive score is listed, no node is listed twice, and the list is
      strictly ordered by score descending, then name ascending. */
  lemma {:induction false} ByScoreOk(score: Score, g: Graph, listState: seq<Node>, nodeTypes: PyArg, notNodeTypes: PyArg,
                  neighbourTypes: PyArg, notNeighbourTypes: PyArg, res: ScanResult)
    requires ByScore(score, g, listState, nodeTypes, notNodeTypes, neighbourTypes, notNeighbourTypes) == Ok(res)
    ensures AllLists(nodeTypes, notNodeTypes, neighbourTypes, notNeighbourTypes)
    ensures var keepNodes := TypeListFilter(nodeTypes.items, notNodeTypes.items);
      var f := CandidateScore(score, g, listState, TypeListFilter(neighbourTypes.items, notNeighbourTypes.items));
      && (forall i | 0 <= i < |res| ::
            Relevant(g, listState, keepNodes, res[i].0) && res[i].1 > 0.0 && f(res[i].0) == Ok(res[i].1))
      && (forall c | Relevant(g, listState, keepNodes, c) ::
            c in g.G.adj && f(c).Ok? && (f(c).value > 0.0 ==> (c, f(c).value) in res))
    ensures Distinct(Firsts(res))
    ensures StrictlySortedBy(res, ScoreBefore)
  {
    var keepNodes := TypeListFilter(nodeTypes.items, notNodeTypes.items);
    var keepNeighbours := TypeListFilter(neighbourTypes.items, notNeighbourTypes.items);
    ScoreBeforeTotal();
    ScoreScanOk(score, g, listState, keepNodes, keepNeighbours, ScoreBefore, res);
    FirstsDistinct(res);
    SortedDistinctIsStrict(res, ScoreBefore);
  }

  /** The score `by_score` gives a candidate in the graph is the score
      function applied to the state and the candidate's neighbours whose type
      passes the neighbour filters. */
  lemma {:induction false} CandidateScoreIn(score: Score, g: Graph, listState: seq<Node>, keep: NodeType -> bool, c: Node)
    requires c in g.G.adj
    ensures CandidateScore(score, g, listState, keep)(c) == score(listState, FilteredNeighbours(g, c, keep))
  {
  }

  /** The ranking is fully determined by the scored nodes: it is the only
      strictly ordered list of them, whatever order the set of candidates
      was iterated in. */
  lemma {:induction false} ByScoreUnique(score: Score, g: Graph, listState: seq<Node>, nodeTypes: PyArg, notNodeTypes: PyArg,
                      neighbourTypes: PyArg, notNeighbourTypes: PyArg, res: ScanResult, other: ScanResult)
    requires ByScore(score, g, listState, nodeTypes, notNodeTypes, neighbourTypes, notNeighbourTypes) == Ok(res)
    requires StrictlySortedBy(other, ScoreBefore) && Elems(other) == Elems(res)
    ensures other == res
  {
    ByScoreOk(score, g, listState, nodeTypes, notNodeTypes, neighbourTypes, notNeighbourTypes, res);
    ScoreBeforeTotal();
    StrictlySortedUnique(res, other, ScoreBefore);
  }

  /** With list filters, `by_score` raises exactly when a state node is not
      in the graph (NetworkXError, at the first such node) or the score of
      some relevant neighbour raises. */
  lemma {:induction false} ByScoreErr(score: Score, g: Graph, listState: seq<Node>, nodeTypes: PyArg, notNodeTypes: PyArg,
                   neighbourTypes: PyArg, notNeighbourTypes: PyArg)
    requires AllLists(nodeTypes, notNodeTypes, neighbourTypes, notNeighbourTypes)
    ensures var keepNodes := TypeListFilter(nodeTypes.items, notNodeTypes.items);
      var f := CandidateScore(score, g, listState, TypeListFilter(neighbourTypes.items, notNeighbourTypes.items));
      ByScore(score, g, listState, nodeTypes, notNodeTypes, neighbourTypes, notNeighbourTypes).Err? <==>
        || FirstAbsent(g, listState) >= 0
        || exists c | Relevant(g, listState, keepNodes, c) :: c in g.G.adj && f(c).Err?
    ensures FirstAbsent(g, listState) >= 0 ==>
      ByScore(score, g, listState, nodeTypes, notNodeTypes, neighbourTypes, notNeighbourTypes) ==
        Err(NetworkXError(listState[FirstAbsent(g, listState)]))
  {
    ScoreScanErr(score, g, listState, TypeListFilter(nodeTypes.items, notNodeTypes.items),
                 TypeListFilter(neighbourTypes.items, notNeighbourTypes.items), ScoreBefore);
  }

  /** The default score function of `by_score`. */
  const JaccardScore: Score := (a, b) => Jaccard(a, b)

  /** `by_score(score)`: the scanner as a controller calls it, with the one
      positional argument after the state taken as `node_types` and the
      other filters at their default `[]`. */
  function ByScoreScanner(score: Score): (Graph, seq<Node>, PyArg) -> Result<ScanResult> {
    (g: Graph, listState: seq<Node>, nodeTypes: PyArg) => ByScore(score, g, listState, nodeTypes, PyList([]), PyList([]), PyList([]))
  }

  /** With the default Jaccard score and list filters, `by_score` never
      divides by zero (a candidate exists only around a non-empty state), so
      it raises only for a state node missing from the graph. */
  lemma {:induction false} DefaultByScoreOnlyMissingNodes(g: Graph, listState: seq<Node>, nodeTypes: PyArg, notNodeTypes: PyArg,
                                       neighbourTypes: PyArg, notNeighbourTypes: PyArg)
    requires AllLists(nodeTypes, notNodeTypes, neighbourTypes, notNeighbourTypes)
    ensures ByScore(JaccardScore, g, listState, nodeTypes, notNodeTypes, neighbourTypes, notNeighbourTypes).Err? <==>
      FirstAbsent(g, listState) >= 0
  {
    ByScoreErr(JaccardScore, g, listState, nodeTypes, notNodeTypes, neighbourTypes, notNeighbourTypes);
    var keepNodes := TypeListFilter(nodeTypes.items, notNodeTypes.items);
    var keepNeighbours := TypeListFilter(neighbourTypes.items, notNeighbourTypes.items);
    var f := CandidateScore(JaccardScore, g, listState, keepNeighbours);
    forall c | Relevant(g, listState, keepNodes, c) && c in g.G.adj ensures f(c).Ok? {
      var i :| 0 <= i < |listState| && g.G.Adjacent(listState[i], c);
      CandidateScoreIn(JaccardScore, g, listState, keepNeighbours, c);
      var nb := FilteredNeighbours(g, c, keepNeighbours);
      assert JaccardScore(listState, nb) == Jaccard(listState, nb);
    }
  }

  /** Called with one argument that is not a list (such as None or a single
      type name), the scanner raises TypeError whatever the graph and state. */
  lemma {:induction false} ByScoreScannerNeedsList(score: Score, g: Graph, listState: seq<Node>, nodeType: PyArg)
    requires !nodeType.PyList?
    ensures ByScoreScanner(score)(g, listState, nodeType) == Err(TypeError)
  {
  }

  /** How many of the lists contain `n`. */
  function Hits(rn: seq<seq<Node>>, n: Node): nat
    decreases |rn|
  {
    if rn == [] then 0 else Hits(rn[..|rn| - 1], n) + (if n in rn[|rn| - 1] then 1 else 0)
  }

  /** `reduce(add, [Counter(ns) for ns in rn])` for a non-empty `rn`: the
      counters of the lists, added from the left. */
  function Tally(rn: seq<seq<Node>>): Counter
    requires rn != []
    decreases |rn|
  {
    if |rn| == 1 then CounterOf(rn[0])
    else Add(Tally(rn[..|rn| - 1]), CounterOf(rn[|rn| - 1]))
  }

  /** The tally is a proper counter. */
  lemma {:induction false} TallyProper(rn: seq<seq<Node>>)
    requires rn != []
    ensures Proper(Tally(rn))
    decreases |rn|
  {
    var x := rn[|rn| - 1];
    CounterOfFacts(x);
    if |rn| > 1 {
      var p := rn[..|rn| - 1];
      TallyProper(p);
      AddProper(Tally(p), CounterOf(x));
    }
  }

  /** Over lists without repeats, the tally counts for each node the lists
      that contain it. */
  lemma {:induction false} TallyGet(rn: seq<seq<Node>>, n: Node)
    requires rn != []
    requires forall i | 0 <= i < |rn| :: Distinct(rn[i])
    ensures Get(Tally(rn), n) == Hits(rn, n)
    decreases |rn|
  {
    var x := rn[|rn| - 1];
    assert Get(CounterOf(x), n) == (if n in x then 1 else 0) by {
      CounterOfFacts(x);
      DistinctCount(x, n);
    }
    if |rn| == 1 {
      assert rn[..0] == [];
    } else {
      var p := rn[..|rn| - 1];
      assert forall i | 0 <= i < |p| :: Distinct(p[i]) by {
        assert forall i | 0 <= i < |p| :: p[i] == rn[i];
      }
      TallyGet(p, n);
      assert Proper(Tally(p)) && Proper(CounterOf(x)) by {
        TallyProper(p);
        CounterOfFacts(x);
      }
      AddGet(Tally(p), CounterOf(x), n);
    }
  }

  /** Both facts together. */
  lemma {:induction false} TallyFacts(rn: seq<seq<Node>>, n: Node)
    requires rn != []
    requires forall i | 0 <= i < |rn| :: Distinct(rn[i])
    ensures Proper(Tally(rn))
    ensures Get(Tally(rn), n) == Hits(rn, n)
  {
    TallyProper(rn);
    TallyGet(rn, n);
  }

  /** The shared body of both versions of `neighbour_intersection`: count, for
      each node, the state nodes among whose relevant neighbours it is, and
      list the counts highest first. `reduce` without an initial value raises
      TypeError on an empty state. */
  function Intersection(g: Graph, listState: seq<Node>, keep: NodeType -> bool): (r: Result<Counter>)
    ensures r.Err? <==> listState == [] || FirstAbsent(g, listState) >= 0
    ensures FirstAbsent(g, listState) >= 0 ==> r == Err(NetworkXError(listState[FirstAbsent(g, listState)]))
    ensures listState == [] ==> r == Err(TypeError)
  {
    var rn :- RelevantNeighbours(g, listState, keep);
    if rn == [] then Err(TypeError) else Ok(MostCommon(Tally(rn)))
  }

  /** Over lists without repeats, the ranked tally gives each node that some
      list contains one entry holding the number of lists containing it, by
      count non-increasing. */
  lemma {:induction false} TallyRanking(rn: seq<seq<Node>>, res: Counter)
    requires rn != [] && res == MostCommon(Tally(rn))
    requires forall i | 0 <= i < |rn| :: Distinct(rn[i])
    ensures forall i | 0 <= i < |res| :: res[i].1 == Hits(rn, res[i].0) && res[i].1 > 0
    ensures forall n | Hits(rn, n) > 0 :: exists i | 0 <= i < |res| :: res[i].0 == n
    ensures forall i, j | 0 <= i < j < |res| :: res[i].1 >= res[j].1 && res[i].0 != res[j].0
  {
    var c := Tally(rn);
    TallyFacts(rn, "");
    MostCommonFacts(c);
    forall i | 0 <= i < |res| ensures res[i].1 == Hits(rn, res[i].0) && res[i].1 > 0 {
      TallyFacts(rn, res[i].0);
    }
    forall n | Hits(rn, n) > 0 ensures exists i | 0 <= i < |res| :: res[i].0 == n {
      TallyFacts(rn, n);
      MostCommonComplete(c, n);
    }
  }

  /** Each entry holds the number of state nodes whose relevant neighbours
      include it, every node with a positive number has an entry, no node has
      two, and the counts do not increase along the list. */
  lemma {:induction false} IntersectionOk(g: Graph, listState: seq<Node>, keep: NodeType -> bool, res: Counter)
    requires Intersection(g, listState, keep) == Ok(res)
    ensures RelevantNeighbours(g, listState, keep).Ok?
    ensures var rn := RelevantNeighbours(g, listState, keep).value;
      && (forall i | 0 <= i < |res| :: res[i].1 == Hits(rn, res[i].0) && res[i].1 > 0)
      && (forall n | Hits(rn, n) > 0 :: exists i | 0 <= i < |res| :: res[i].0 == n)
    ensures forall i, j | 0 <= i < j < |res| :: res[i].1 >= res[j].1 && res[i].0 != res[j].0
  {
    var rn := RelevantNeighbours(g, listState, keep).value;
    forall i | 0 <= i < |rn| ensures Distinct(rn[i]) {
      RelevantNeighboursMember(g, listState, keep, i, "");
    }
    TallyRanking(rn, res);
  }

  /** `neighbour_intersection(graph, list_state, node_types, not_node_types)`. */
  function NeighbourIntersection(g: Graph, listState: seq<Node>, nodeTypes: seq<NodeType>,
                                 notNodeTypes: seq<NodeType>): Result<Counter>
  {
    Intersection(g, listState, TypeListFilter(nodeTypes, notNodeTypes))
  }

  /** `neighbour_intersection` raises TypeError on an empty state and
      NetworkXError for a missing state node; otherwise each entry holds the
      number of state nodes among whose filtered neighbours it is, every such
      node has one entry, and the counts do not increase. */
  lemma {:induction false} NeighbourIntersectionFacts(g: Graph, listState: seq<Node>, nodeTypes: seq<NodeType>, notNodeTypes: seq<NodeType>)
    ensures listState == [] ==> NeighbourIntersection(g, listState, nodeTypes, notNodeTypes) == Err(TypeError)
    ensures FirstAbsent(g, listState) >= 0 ==>
      NeighbourIntersection(g, listState, nodeTypes, notNodeTypes) == Err(NetworkXError(listState[FirstAbsent(g, listState)]))
    ensures NeighbourIntersection(g, listState, nodeTypes, notNodeTypes).Ok? ==>
      var res := NeighbourIntersection(g, listState, nodeTypes, notNodeTypes).value;
      var rn := RelevantNeighbours(g, listState, TypeListFilter(nodeTypes, notNodeTypes)).value;
      && (forall i | 0 <= i < |res| :: res[i].1 == Hits(rn, res[i].0) && res[i].1 > 0)
      && (forall n | Hits(rn, n) > 0 :: exists i | 0 <= i < |res| :: res[i].0 == n)
      && (forall i, j | 0 <= i < j < |res| :: res[i].1 >= res[j].1 && res[i].0 != res[j].0)
  {
    var keep := TypeListFilter(nodeTypes, notNodeTypes);
    if Intersection(g, listState, keep).Ok? {
      IntersectionOk(g, listState, keep, Intersection(g, listState, keep).value);
    }
  }
}
