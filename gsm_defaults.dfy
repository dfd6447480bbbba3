/** The default controller of gsm.py (`by_score()` with the Jaccard score,
    `list_accumulator`, `identity`) and what any controller built on
    `list_accumulator` does to its state. */
module GsmDefaults {
  import opened Types
  import opened GenericUtil
  import opened Order
  import opened TypedGraph
  import opened Misc
  import opened Scores
  import opened Scanners
  import opened Selectors
  import opened Updaters
  import opened Gsm

  /** The defaults of `GSM(graph, state)`: `by_score()` with the Jaccard
      score, `list_accumulator` and `identity`. */
  function DefaultOps(): Ops<seq<Node>, PyArg, ScanResult> {
    Ops(ByScoreScanner(JaccardScore), ListAccumulator<real>, Identity)
  }

  /** `GSM(graph, state)` with the default operations. */
  method DefaultGSM(graph: Graph, state: seq<Node>) returns (m: GSM<seq<Node>, PyArg, ScanResult>)
    ensures fresh(m) && m.graph == graph && m.state == state && m.Operations() == DefaultOps()
  {
    m := new GSM(graph, state, ByScoreScanner(JaccardScore), ListAccumulator<real>, Identity);
  }

  /** The operations with `list_accumulator` as the updater. */
  function AccOps<A, V>(scanner: (Graph, seq<Node>, A) -> Result<seq<(Node, V)>>,
                        selector: seq<Node> -> Result<seq<Node>>): Ops<seq<Node>, A, seq<(Node, V)>> {
    Ops(scanner, ListAccumulator<V>, selector)
  }

  /** With `list_accumulator`, a step appends the node of the first scan entry
      and keeps the graph; it raises (changing nothing) exactly when the
      scan raises or finds nothing, the latter as IndexError. */
  lemma {:induction false} AccumulatorStep<A, V>(scanner: (Graph, seq<Node>, A) -> Result<seq<(Node, V)>>,
                              selector: seq<Node> -> Result<seq<Node>>, state: seq<Node>, graph: Graph, arg: A)
    ensures var r := StepOf(AccOps(scanner, selector), state, graph, arg);
      var sc := ScanOf(AccOps(scanner, selector), state, graph, arg);
      && r.graph == graph
      && (r.outcome.Pass? <==> sc.Ok? && sc.value != [])
      && (r.outcome.Pass? ==> r.state == state + [sc.value[0].0])
      && (r.outcome.Fail? ==> r.state == state && r.outcome.error == if sc.Err? then sc.error else IndexError)
  {
    var sc := ScanOf(AccOps(scanner, selector), state, graph, arg);
    if sc.Ok? && sc.value != [] {
      var p := ListAccumulator<V>(state, graph, sc.value);
      assert p.value.0 == state + [sc.value[0].0];
    }
  }

  /** One `list_accumulator` step keeps the graph and appends one node or none. */
  lemma {:induction false} AccumulatorStepGrows<A, V>(scanner: (Graph, seq<Node>, A) -> Result<seq<(Node, V)>>,
                                                      selector: seq<Node> -> Result<seq<Node>>,
                                                      state: seq<Node>, graph: Graph, arg: A)
    ensures var r := StepOf(AccOps(scanner, selector), state, graph, arg);
      && r.graph == graph
      && (r.outcome.Pass? ==> |r.state| == |state| + 1 && r.state[..|state|] == state)
      && (r.outcome.Fail? ==> r.state == state)
  {
    AccumulatorStep(scanner, selector, state, graph, arg);
  }

  /** With `list_accumulator`, consecutive steps keep the graph, only ever
      append (at most one node per argument), and complete exactly when
      every argument added its node. */
  lemma {:induction false} AccumulatorConsecutive<A, V>(scanner: (Graph, seq<Node>, A) -> Result<seq<(Node, V)>>,
                                                        selector: seq<Node> -> Result<seq<Node>>,
                                                        state: seq<Node>, graph: Graph, args: seq<A>)
    ensures var r := ConsecutiveOf(AccOps(scanner, selector), state, graph, args);
      && r.graph == graph
      && |state| <= |r.state| <= |state| + |args|
      && r.state[..|state|] == state
      && (r.outcome.Pass? <==> |r.state| == |state| + |args|)
    decreases |args|
  {
    var ops := AccOps(scanner, selector);
    if args == [] {
      assert state[..|state|] == state;
    } else {
      var r1 := StepOf(ops, state, graph, args[0]);
      AccumulatorStepGrows(scanner, selector, state, graph, args[0]);
      if r1.outcome.Fail? {
        assert ConsecutiveOf(ops, state, graph, args) == r1;
        assert state[..|state|] == state;
      } else {
        var r := ConsecutiveOf(ops, r1.state, graph, args[1..]);
        assert ConsecutiveOf(ops, state, graph, args) == r;
        AccumulatorConsecutive(scanner, selector, r1.state, graph, args[1..]);
        assert r.state[..|state|] == r.state[..|r1.state|][..|state|];
      }
    }
  }

  /** The nodes of the first entries of the scan results, up to the first
      empty result. */
  function Tops<V>(srs: seq<seq<(Node, V)>>): (r: seq<Node>)
    ensures |r| <= |srs|
    ensures forall i | 0 <= i < |r| :: srs[i] != [] && r[i] == srs[i][0].0
    ensures |r| < |srs| ==> srs[|r|] == []
    decreases |srs|
  {
    if srs == [] || srs[0] == [] then [] else [srs[0][0].0] + Tops(srs[1..])
  }

  /** One `list_accumulator` update: the top node appended, or IndexError
      for an empty scan result, and the graph kept. */
  lemma {:induction false} AccumulatorUpdate<A, V>(scanner: (Graph, seq<Node>, A) -> Result<seq<(Node, V)>>,
                                selector: seq<Node> -> Result<seq<Node>>,
                                state: seq<Node>, graph: Graph, sr: seq<(Node, V)>)
    ensures Update(AccOps(scanner, selector), state, graph, sr) ==
      if sr == [] then Run(state, graph, Fail(IndexError)) else Run(state + [sr[0].0], graph, Pass)
  {
    if sr != [] {
      assert ListAccumulator<V>(state, graph, sr) == Ok((state + [sr[0].0], graph));
    }
  }

  /** With `list_accumulator`, the update loop appends the top node of each
      scan result in order and keeps the graph; it raises IndexError at the
      first empty result, keeping the nodes appended before it. */
  lemma {:induction false} AccumulatorFold<A, V>(scanner: (Graph, seq<Node>, A) -> Result<seq<(Node, V)>>,
                                                 selector: seq<Node> -> Result<seq<Node>>,
                                                 state: seq<Node>, graph: Graph, srs: seq<seq<(Node, V)>>)
    ensures var r := FoldUpdates(AccOps(scanner, selector), state, graph, srs);
      && r.state == state + Tops(srs)
      && r.graph == graph
      && r.outcome == if |Tops(srs)| == |srs| then Pass else Fail(IndexError)
    decreases |srs|
  {
    if srs == [] {
      assert state + [] == state;
    } else if srs[0] == [] {
      AccumulatorUpdate(scanner, selector, state, graph, srs[0]);
      assert state + [] == state;
    } else {
      AccumulatorFoldCons(scanner, selector, state, graph, srs);
      AccumulatorFold(scanner, selector, state + [srs[0][0].0], graph, srs[1..]);
      assert state + [srs[0][0].0] + Tops(srs[1..]) == state + Tops(srs);
    }
  }

  /** A non-empty first scan result is consumed by appending its top node. */
  lemma {:induction false} AccumulatorFoldCons<A, V>(scanner: (Graph, seq<Node>, A) -> Result<seq<(Node, V)>>,
                                  selector: seq<Node> -> Result<seq<Node>>,
                                  state: seq<Node>, graph: Graph, srs: seq<seq<(Node, V)>>)
    requires srs != [] && srs[0] != []
    ensures FoldUpdates(AccOps(scanner, selector), state, graph, srs) ==
      FoldUpdates(AccOps(scanner, selector), state + [srs[0][0].0], graph, srs[1..])
    ensures Tops(srs) == [srs[0][0].0] + Tops(srs[1..])
  {
    AccumulatorUpdate(scanner, selector, state, graph, srs[0]);
  }

  /** With `list_accumulator`, parallel steps keep the graph and append, in
      argument order, the top node of each argument's scan of the state and
      graph from before the call; they complete exactly when every scan
      succeeds with a non-empty result, and a raising scan changes nothing. */
  lemma {:induction false} AccumulatorParallel<A, V>(scanner: (Graph, seq<Node>, A) -> Result<seq<(Node, V)>>,
                                  selector: seq<Node> -> Result<seq<Node>>,
                                  state: seq<Node>, graph: Graph, args: seq<A>)
    ensures var ops := AccOps(scanner, selector);
      var r := ParallelOf(ops, state, graph, args);
      && r.graph == graph
      && |state| <= |r.state| <= |state| + |args|
      && r.state[..|state|] == state
      && (forall i | 0 <= i < |r.state| - |state| ::
            ScanOf(ops, state, graph, args[i]).Ok? && ScanOf(ops, state, graph, args[i]).value != [] &&
            r.state[|state| + i] == ScanOf(ops, state, graph, args[i]).value[0].0)
      && (r.outcome.Pass? <==> forall i | 0 <= i < |args| ::
            ScanOf(ops, state, graph, args[i]).Ok? && ScanOf(ops, state, graph, args[i]).value != [])
      && (r.outcome.Pass? <==> |r.state| == |state| + |args|)
  {
    var ops := AccOps(scanner, selector);
    ScansOfFacts(ops, state, graph, args);
    var scans := ScansOf(ops, state, graph, args);
    if scans.Ok? {
      var srs: seq<seq<(Node, V)>> := scans.value;
      AccumulatorFold(scanner, selector, state, graph, srs);
      var r := ParallelOf(ops, state, graph, args);
      assert r.state == state + Tops(srs);
      forall i | 0 <= i < |r.state| - |state|
        ensures r.state[|state| + i] == srs[i][0].0
      {
        assert r.state[|state| + i] == Tops(srs)[i];
      }
      if |Tops(srs)| < |srs| {
        assert ScanOf(ops, state, graph, args[|Tops(srs)|]).value == [];
      }
      assert r.state[..|state|] == state;
    } else {
      var i :| 0 <= i < |args| && ScanOf(ops, state, graph, args[i]).Err?;
    }
  }

  /** A step of the default controller with no node-type list (`step()`
      passes None, and a single type name is no list either) raises
      TypeError and changes nothing: `_scan` hands the argument to
      `by_score`'s `node_types`, which must be a list. */
  lemma {:induction false} DefaultStepNeedsList(state: seq<Node>, graph: Graph, arg: PyArg)
    requires !arg.PyList?
    ensures StepOf(DefaultOps(), state, graph, arg) == Run(state, graph, Fail(TypeError))
  {
    ByScoreScannerNeedsList(JaccardScore, graph, state, arg);
  }

  /** A default step with a list of node types scans with `by_score` over
      the whole state. */
  lemma {:induction false} DefaultScan(state: seq<Node>, graph: Graph, types: seq<NodeType>)
    ensures DefaultOps() == AccOps(ByScoreScanner(JaccardScore), Identity)
    ensures ScanOf(DefaultOps(), state, graph, PyList(types)) ==
      ByScore(JaccardScore, graph, state, PyList(types), PyList([]), PyList([]), PyList([]))
  {
  }

  /** The head of a ranking beats every other listed candidate. */
  lemma {:induction false} HeadBeatsListed(res: ScanResult, d: Node, v: real)
    requires StrictlySortedBy(res, ScoreBefore)
    requires (d, v) in res && res != [] && d != res[0].0
    ensures v < res[0].1 || (v == res[0].1 && StrLt(res[0].0, d))
  {
    var j :| 0 <= j < |res| && res[j] == (d, v);
    assert j != 0;
    assert ScoreBefore(res[0], res[j]);
  }

  /** A successful default step appends the best candidate: a relevant
      neighbour of the state with a positive Jaccard score that beats every
      other relevant neighbour, by a higher score or, on a tie, by the lower
      name. */
  lemma {:induction false} DefaultStepAppendsBest(state: seq<Node>, graph: Graph, types: seq<NodeType>)
    ensures var r := StepOf(DefaultOps(), state, graph, PyList(types));
      var keep := TypeListFilter(types, []);
      var f := CandidateScore(JaccardScore, graph, state, TypeListFilter([], []));
      r.outcome.Pass? ==>
        && r.graph == graph && |r.state| == |state| + 1 && r.state[..|state|] == state
        && Relevant(graph, state, keep, r.state[|state|])
        && f(r.state[|state|]).Ok? && f(r.state[|state|]).value > 0.0
        && forall d | Relevant(graph, state, keep, d) && d != r.state[|state|] ::
             && f(d).Ok?
             && (|| f(d).value < f(r.state[|state|]).value
                 || (f(d).value == f(r.state[|state|]).value && StrLt(r.state[|state|], d)))
  {
    var r := StepOf(DefaultOps(), state, graph, PyList(types));
    var keep := TypeListFilter(types, []);
    var f := CandidateScore(JaccardScore, graph, state, TypeListFilter([], []));
    DefaultScan(state, graph, types);
    AccumulatorStep(ByScoreScanner(JaccardScore), Identity, state, graph, PyList(types));
    if r.outcome.Pass? {
      var res := ByScore(JaccardScore, graph, state, PyList(types), PyList([]), PyList([]), PyList([])).value;
      ByScoreOk(JaccardScore, graph, state, PyList(types), PyList([]), PyList([]), PyList([]), res);
      var c := res[0].0;
      assert r.state == state + [c];
      assert r.state[|state|] == c && r.state[..|state|] == state;
      forall d | Relevant(graph, state, keep, d) && d != c
        ensures f(d).Ok? && (f(d).value < f(c).value || (f(d).value == f(c).value && StrLt(c, d)))
      {
        if f(d).value > 0.0 {
          HeadBeatsListed(res, d, f(d).value);
        }
      }
    }
  }

  /** A default step with a list of node types raises exactly when a state
      node is missing from the graph (NetworkXError for the first one) or no
      relevant neighbour scores above zero (IndexError from
      `list_accumulator`); either way it changes nothing. */
  lemma {:induction false} DefaultStepFails(state: seq<Node>, graph: Graph, types: seq<NodeType>)
    ensures var r := StepOf(DefaultOps(), state, graph, PyList(types));
      var keep := TypeListFilter(types, []);
      var f := CandidateScore(JaccardScore, graph, state, TypeListFilter([], []));
      && (r.outcome.Fail? <==>
            || FirstAbsent(graph, state) >= 0
            || forall d | Relevant(graph, state, keep, d) :: f(d).Ok? && f(d).value <= 0.0)
      && (r.outcome.Fail? ==> r.state == state && r.graph == graph)
      && (FirstAbsent(graph, state) >= 0 ==> r.outcome == Fail(NetworkXError(state[FirstAbsent(graph, state)])))
      && (r.outcome.Fail? && FirstAbsent(graph, state) < 0 ==> r.outcome == Fail(IndexError))
  {
    var r := StepOf(DefaultOps(), state, graph, PyList(types));
    var keep := TypeListFilter(types, []);
    var f := CandidateScore(JaccardScore, graph, state, TypeListFilter([], []));
    DefaultScan(state, graph, types);
    AccumulatorStep(ByScoreScanner(JaccardScore), Identity, state, graph, PyList(types));
    DefaultByScoreOnlyMissingNodes(graph, state, PyList(types), PyList([]), PyList([]), PyList([]));
    ByScoreErr(JaccardScore, graph, state, PyList(types), PyList([]), PyList([]), PyList([]));
    var sc := ByScore(JaccardScore, graph, state, PyList(types), PyList([]), PyList([]), PyList([]));
    if sc.Ok? {
      var res := sc.value;
      ByScoreOk(JaccardScore, graph, state, PyList(types), PyList([]), PyList([]), PyList([]), res);
      if res != [] {
        assert Relevant(graph, state, keep, res[0].0) && f(res[0].0) == Ok(res[0].1) && res[0].1 > 0.0;
      } else {
        assert forall d | Relevant(graph, state, keep, d) :: f(d).Ok? && f(d).value <= 0.0;
      }
    }
  }
}
