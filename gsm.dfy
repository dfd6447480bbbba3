/** The controller (gsm.py): a graph state machine holds a graph and a
    state, and repeats scan-then-update. The scanner, updater and selector
    are function-typed fields; a Python exception raised by one of them
    propagates out of the controller call as its `Outcome`, keeping the
    updates made before it. */
module Gsm {
  import opened Types
  import opened TypedGraph

  /** The three pluggable operations. */
  datatype Ops<!S, -A, !R> = Ops(
    scanner: (Graph, seq<Node>, A) -> Result<R>,
    updater: (S, Graph, R) -> Result<(S, Graph)>,
    selector: S -> Result<seq<Node>>)

  /** A controller's state and graph after a call, and how the call ended. */
  datatype Run<S> = Run(state: S, graph: Graph, outcome: Outcome)

  /** `_scan(node_type)`: the scanner applied to the graph and the selected
      state nodes. */
  function ScanOf<S, A, R>(ops: Ops<S, A, R>, state: S, graph: Graph, arg: A): Result<R> {
    var nodes :- ops.selector(state);
    ops.scanner(graph, nodes, arg)
  }

  /** One updater call; a raising updater leaves state and graph as they were. */
  function Update<S, A, R>(ops: Ops<S, A, R>, state: S, graph: Graph, sr: R): Run<S> {
    match ops.updater(state, graph, sr)
    case Err(e) => Run(state, graph, Fail(e))
    case Ok(p) => Run(p.0, p.1, Pass)
  }

  /** `step(node_type)`: scan, then update; nothing changes if either raises. */
  function StepOf<S, A, R>(ops: Ops<S, A, R>, state: S, graph: Graph, arg: A): Run<S> {
    match ScanOf(ops, state, graph, arg)
    case Err(e) => Run(state, graph, Fail(e))
    case Ok(sr) => Update(ops, state, graph, sr)
  }

  /** `consecutive_steps(node_types)`: one step per argument in order, each
      from the state the previous one left; the first raising step ends it. */
  function ConsecutiveOf<S, A, R>(ops: Ops<S, A, R>, state: S, graph: Graph, args: seq<A>): Run<S>
    decreases |args|
  {
    if args == [] then Run(state, graph, Pass)
    else
      var r := StepOf(ops, state, graph, args[0]);
      if r.outcome.Fail? then r else ConsecutiveOf(ops, r.state, r.graph, args[1..])
  }

  /** `[self._scan(nt) for nt in node_types]`: every scan from the same state
      and graph; the first raising scan ends the comprehension. */
  function ScansOf<S, A, R>(ops: Ops<S, A, R>, state: S, graph: Graph, args: seq<A>): Result<seq<R>>
    decreases |args|
  {
    if args == [] then Ok([])
    else
      var sr :- ScanOf(ops, state, graph, args[0]);
      var rest :- ScansOf(ops, state, graph, args[1..]);
      Ok([sr] + rest)
  }

  /** The update loop of `parallel_steps`: the scan results folded through the
      updater in order; the first raising update ends it. */
  function FoldUpdates<S, A, R>(ops: Ops<S, A, R>, state: S, graph: Graph, srs: seq<R>): Run<S>
    decreases |srs|
  {
    if srs == [] then Run(state, graph, Pass)
    else
      var r := Update(ops, state, graph, srs[0]);
      if r.outcome.Fail? then r else FoldUpdates(ops, r.state, r.graph, srs[1..])
  }

  /** `parallel_steps(node_types)`: all scans first, then all updates. */
  function ParallelOf<S, A, R>(ops: Ops<S, A, R>, state: S, graph: Graph, args: seq<A>): Run<S> {
    match ScansOf(ops, state, graph, args)
    case Err(e) => Run(state, graph, Fail(e))
    case Ok(srs) => FoldUpdates(ops, state, graph, srs)
  }

  /** `xs` put in front of a list result. */
  function Prepend<R>(xs: seq<R>, r: Result<seq<R>>): Result<seq<R>> {
    match r
    case Err(e) => Err(e)
    case Ok(ys) => Ok(xs + ys)
  }

  /** Nothing put in front changes nothing. */
  lemma {:induction false} PrependNil<R>(r: Result<seq<R>>)
    ensures Prepend([], r) == r
  {
    if r.Ok? {
      assert [] + r.value == r.value;
    }
  }

  /** Putting `xs` then `x` in front is putting `xs + [x]` in front. */
  lemma {:induction false} PrependSnoc<R>(xs: seq<R>, x: R, r: Result<seq<R>>)
    ensures Prepend(xs, Prepend([x], r)) == Prepend(xs + [x], r)
  {
    if r.Ok? {
      assert xs + ([x] + r.value) == xs + [x] + r.value;
    }
  }

  /** A graph state machine. */
  class GSM<S, A, R> {
    var graph: Graph
    var state: S
    const scanner: (Graph, seq<Node>, A) -> Result<R>
    const updater: (S, Graph, R) -> Result<(S, Graph)>
    const selector: S -> Result<seq<Node>>

    /** The operations the controller was built with. */
    function Operations(): Ops<S, A, R> {
      Ops(scanner, updater, selector)
    }

    /** `GSM(graph, state, node_scanner, state_updater, selector)`. */
    constructor(graph: Graph, state: S, scanner: (Graph, seq<Node>, A) -> Result<R>,
                updater: (S, Graph, R) -> Result<(S, Graph)>, selector: S -> Result<seq<Node>>)
      ensures this.graph == graph && this.state == state
      ensures Operations() == Ops(scanner, updater, selector)
    {
      this.graph := graph;
      this.state := state;
      this.scanner := scanner;
      this.updater := updater;
      this.selector := selector;
    }

    /** `_scan(node_type)`: the scan result; it changes nothing. */
    method Scan(arg: A) returns (r: Result<R>)
      ensures r == ScanOf(Operations(), state, graph, arg)
    {
      var nodes :- selector(state);
      r := scanner(graph, nodes, arg);
    }

    /** `step(node_type)`: state and graph become what the updater makes of
      the scan result; nothing changes if the scan or the update raises. */
    method Step(arg: A) returns (outcome: Outcome)
      modifies this
      ensures Run(state, graph, outcome) == StepOf(Operations(), old(state), old(graph), arg)
    {
      var sr := Scan(arg);
      if sr.Err? {
        return Fail(sr.error);
      }
      var p := updater(state, graph, sr.value);
      if p.Err? {
        return Fail(p.error);
      }
      state, graph := p.value.0, p.value.1;
      outcome := Pass;
    }

    /** `consecutive_steps(node_types)`: a step per argument, each seeing the
      previous update. */
    method ConsecutiveSteps(args: seq<A>) returns (outcome: Outcome)
      modifies this
      ensures Run(state, graph, outcome) == ConsecutiveOf(Operations(), old(state), old(graph), args)
    {
      var i := 0;
      while i < |args|
        invariant 0 <= i <= |args|
        invariant ConsecutiveOf(Operations(), old(state), old(graph), args) ==
                  ConsecutiveOf(Operations(), state, graph, args[i..])
      {
        assert args[i..][1..] == args[i + 1..];
        var o := Step(args[i]);
        if o.Fail? {
          return o;
        }
        i := i + 1;
      }
      outcome := Pass;
    }

    /** `[self._scan(nt) for nt in node_types]`: every scan against the
      current state and graph; it changes nothing. */
    method ScanAll(args: seq<A>) returns (r: Result<seq<R>>)
      ensures r == ScansOf(Operations(), state, graph, args)
    {
      var scans: seq<R> := [];
      var i := 0;
      assert args[i..] == args;
      PrependNil(ScansOf(Operations(), state, graph, args));
      while i < |args|
        invariant 0 <= i <= |args|
        invariant ScansOf(Operations(), state, graph, args) ==
                  Prepend(scans, ScansOf(Operations(), state, graph, args[i..]))
      {
        assert args[i..][1..] == args[i + 1..];
        var sc := Scan(args[i]);
        if sc.Err? {
          assert ScansOf(Operations(), state, graph, args[i..]) == Err(sc.error);
          return Err(sc.error);
        }
        var sr := sc.value;
        PrependSnoc(scans, sr, ScansOf(Operations(), state, graph, args[i + 1..]));
        scans := scans + [sr];
        i := i + 1;
      }
      assert args[i..] == [] && scans + [] == scans;
      r := Ok(scans);
    }

    /** `for sr in scan_results: self.state, self.graph = self.updater(...)`:
      the scan results folded into state and graph in order. */
    method UpdateAll(srs: seq<R>) returns (outcome: Outcome)
      modifies this
      ensures Run(state, graph, outcome) == FoldUpdates(Operations(), old(state), old(graph), srs)
    {
      var j := 0;
      while j < |srs|
        invariant 0 <= j <= |srs|
        invariant FoldUpdates(Operations(), old(state), old(graph), srs) ==
                  FoldUpdates(Operations(), state, graph, srs[j..])
      {
        assert srs[j..][1..] == srs[j + 1..];
        var p := updater(state, graph, srs[j]);
        if p.Err? {
          return Fail(p.error);
        }
        state, graph := p.value.0, p.value.1;
        j := j + 1;
      }
      outcome := Pass;
    }

    /** `parallel_steps(node_types)`: every scan against the state and graph
      from before the call, then the updates in order. */
    method ParallelSteps(args: seq<A>) returns (outcome: Outcome)
      modifies this
      ensures Run(state, graph, outcome) == ParallelOf(Operations(), old(state), old(graph), args)
    {
      var scans := ScanAll(args);
      if scans.Err? {
        return Fail(scans.error);
      }
      outcome := UpdateAll(scans.value);
    }

    /** `extend_with(ext)`: a new controller with the same state and
      operations whose graph is this graph extended with `ext`; this one is
      left as it is. */
    method ExtendWith(ext: Graph) returns (res: GSM<S, A, R>)
      ensures fresh(res)
      ensures res.graph == TypedGraph.ExtendWith(graph, ext).value
      ensures res.state == state && res.Operations() == Operations()
    {
      res := new GSM(TypedGraph.ExtendWith(graph, ext).value, state, scanner, updater, selector);
    }
  }

  /** The parallel scans are all taken against the same state and graph: they
      succeed exactly when every scan does, the i-th result is the scan of
      the i-th argument, and otherwise the error is that of the first scan
      that raises. */
  lemma {:induction false} ScansOfFacts<S, A, R>(ops: Ops<S, A, R>, state: S, graph: Graph, args: seq<A>)
    ensures ScansOf(ops, state, graph, args).Ok? <==>
      forall i | 0 <= i < |args| :: ScanOf(ops, state, graph, args[i]).Ok?
    ensures ScansOf(ops, state, graph, args).Ok? ==>
      && |ScansOf(ops, state, graph, args).value| == |args|
      && forall i | 0 <= i < |args| :: ScanOf(ops, state, graph, args[i]) == Ok(ScansOf(ops, state, graph, args).value[i])
    ensures ScansOf(ops, state, graph, args).Err? ==> exists i | 0 <= i < |args| ::
      && ScanOf(ops, state, graph, args[i]) == Err(ScansOf(ops, state, graph, args).error)
      && forall j | 0 <= j < i :: ScanOf(ops, state, graph, args[j]).Ok?
    decreases |args|
  {
    if args != [] {
      ScansOfFacts(ops, state, graph, args[1..]);
      var all := ScansOf(ops, state, graph, args);
      var rest := ScansOf(ops, state, graph, args[1..]);
      var first := ScanOf(ops, state, graph, args[0]);
      if first.Ok? && rest.Err? {
        var i :| 0 <= i < |args[1..]| && ScanOf(ops, state, graph, args[1..][i]) == Err(rest.error) &&
          forall j | 0 <= j < i :: ScanOf(ops, state, graph, args[1..][j]).Ok?;
        assert ScanOf(ops, state, graph, args[i + 1]) == Err(all.error);
        assert forall j | 0 <= j < i + 1 :: ScanOf(ops, state, graph, args[j]).Ok? by {
          forall j | 0 < j < i + 1 ensures ScanOf(ops, state, graph, args[j]).Ok? {
            assert args[j] == args[1..][j - 1];
          }
        }
      }
      if first.Ok? && rest.Ok? {
        forall i | 0 <= i < |args| ensures ScanOf(ops, state, graph, args[i]) == Ok(all.value[i]) {
          if i > 0 {
            assert args[i] == args[1..][i - 1];
          }
        }
      }
      if !(forall i | 0 <= i < |args| :: ScanOf(ops, state, graph, args[i]).Ok?) {
        var i :| 0 <= i < |args| && ScanOf(ops, state, graph, args[i]).Err?;
        if i > 0 {
          assert args[i] == args[1..][i - 1];
        }
      }
    }
  }

}
