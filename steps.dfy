/** The older scanners (steps.py): one optional node type instead of the
    four filter lists, candidates scored against all of their neighbours,
    the presence score by default, and a sort by score alone. */
module Steps {
  import opened Types
  import opened GenericUtil
  import opened Order
  import opened TypedGraph
  import opened Misc
  import opened Scores
  import opened Counters
  import opened Scanners

  /** The order of `sorted(scores, key = snd, reverse = True)`: a higher
      score first; equal scores are not ordered either way. */
  predicate ScoreAbove(x: (Node, real), y: (Node, real)) {
    Snd(x) > Snd(y)
  }

  /** `step_closure` of the old `by_score(score)`: the distinct neighbours of
      the state whose type is `node_type` (any type when it is falsy), each
      scored against all of its neighbours, the positive scores sorted
      highest first. */
  function OldByScore(score: Score, g: Graph, state: seq<Node>, nodeType: PyArg): Result<ScanResult> {
    ScoreScan(score, g, state, OldTypeFilter(nodeType), AnyType, ScoreAbove)
  }

  /** A successful old scan lists every relevant neighbour with a positive
      score against its full neighbour list, once, with that score, and
      nothing else, by score non-increasing. */
  lemma {:induction false} OldByScoreOk(score: Score, g: Graph, state: seq<Node>, nodeType: PyArg, res: ScanResult)
    requires OldByScore(score, g, state, nodeType) == Ok(res)
    ensures forall i | 0 <= i < |res| ::
      && Relevant(g, state, OldTypeFilter(nodeType), res[i].0) && res[i].0 in g.G.adj && res[i].1 > 0.0
      && score(state, g.G.adj[res[i].0]) == Ok(res[i].1)
    ensures forall c | Relevant(g, state, OldTypeFilter(nodeType), c) ::
      && c in g.G.adj && score(state, g.G.adj[c]).Ok?
      && (score(state, g.G.adj[c]).value > 0.0 ==> (c, score(state, g.G.adj[c]).value) in res)
    ensures Distinct(Firsts(res))
    ensures forall i, j | 0 <= i < j < |res| :: res[i].1 >= res[j].1
  {
    var f := CandidateScore(score, g, state, AnyType);
    assert StrictOrder(ScoreAbove);
    ScoreScanOk(score, g, state, OldTypeFilter(nodeType), AnyType, ScoreAbove, res);
    forall c | c in g.G.adj ensures f(c) == score(state, g.G.adj[c]) {
      FilteredNeighboursAll(g, c, AnyType);
    }
  }

  /** The old scan raises exactly when a state node is not in the graph
      (NetworkXError, at the first such node) or the score of some relevant
      neighbour raises. */
  lemma {:induction false} OldByScoreErr(score: Score, g: Graph, state: seq<Node>, nodeType: PyArg)
    ensures OldByScore(score, g, state, nodeType).Err? <==>
      || FirstAbsent(g, state) >= 0
      || exists c | Relevant(g, state, OldTypeFilter(nodeType), c) ::
           c in g.G.adj && score(state, g.G.adj[c]).Err?
    ensures FirstAbsent(g, state) >= 0 ==>
      OldByScore(score, g, state, nodeType) == Err(NetworkXError(state[FirstAbsent(g, state)]))
  {
    var f := CandidateScore(score, g, state, AnyType);
    ScoreScanErr(score, g, state, OldTypeFilter(nodeType), AnyType, ScoreAbove);
    forall c | c in g.G.adj ensures f(c) == score(state, g.G.adj[c]) {
      FilteredNeighboursAll(g, c, AnyType);
    }
  }

  /** The default score function of the old `by_score`. */
  const PresenceScore: Score := (a, b) => Presence(a, b)

  /** The old `by_score(score)` as a controller calls it, with the node type
      as the one positional argument after the state. */
  function OldByScoreScanner(score: Score): (Graph, seq<Node>, PyArg) -> Result<ScanResult> {
    (g: Graph, state: seq<Node>, nodeType: PyArg) => OldByScore(score, g, state, nodeType)
  }

  /** With the default presence score the old scan never divides by zero: a
      candidate exists only around a non-empty state, so it raises only for
      a state node missing from the graph. */
  lemma {:induction false} OldDefaultOnlyMissingNodes(g: Graph, state: seq<Node>, nodeType: PyArg)
    ensures OldByScore(PresenceScore, g, state, nodeType).Err? <==> FirstAbsent(g, state) >= 0
  {
    OldByScoreErr(PresenceScore, g, state, nodeType);
  }

  /** The old `neighbour_intersection(Gr, state, node_type)`. */
  function OldNeighbourIntersection(g: Graph, state: seq<Node>, nodeType: PyArg): Result<Counter> {
    Intersection(g, state, OldTypeFilter(nodeType))
  }

  /** The old intersection raises TypeError on an empty state and
      NetworkXError for a missing state node; otherwise each entry holds the
      number of state nodes adjacent to it through the single-type filter,
      every such node has one entry, and the counts do not increase. */
  lemma {:induction false} OldNeighbourIntersectionFacts(g: Graph, state: seq<Node>, nodeType: PyArg)
    ensures state == [] ==> OldNeighbourIntersection(g, state, nodeType) == Err(TypeError)
    ensures FirstAbsent(g, state) >= 0 ==>
      OldNeighbourIntersection(g, state, nodeType) == Err(NetworkXError(state[FirstAbsent(g, state)]))
    ensures OldNeighbourIntersection(g, state, nodeType).Ok? ==>
      var res := OldNeighbourIntersection(g, state, nodeType).value;
      var rn := RelevantNeighbours(g, state, OldTypeFilter(nodeType)).value;
      && (forall i | 0 <= i < |res| :: res[i].1 == Hits(rn, res[i].0) && res[i].1 > 0)
      && (forall n | Hits(rn, n) > 0 :: exists i | 0 <= i < |res| :: res[i].0 == n)
      && (forall i, j | 0 <= i < j < |res| :: res[i].1 >= res[j].1 && res[i].0 != res[j].0)
  {
    if OldNeighbourIntersection(g, state, nodeType).Ok? {
      IntersectionOk(g, state, OldTypeFilter(nodeType), OldNeighbourIntersection(g, state, nodeType).value);
    }
  }
}
