/** Updaters (updaters.py): fold a scan result into the state. */
module Updaters {
  import opened Types
  import opened TypedGraph

  /** `list_accumulator(state, graph, step_result)`: appends the node of the
      first (best) scan entry to a list state and hands the graph back;
      `step_result[0]` raises IndexError on an empty scan result. The state
      only grows: the old state is a prefix of the new one. */
  function ListAccumulator<V>(state: seq<Node>, graph: Graph, stepResult: seq<(Node, V)>): (r: Result<(seq<Node>, Graph)>)
    ensures r.Err? <==> stepResult == []
    ensures r.Err? ==> r.error == IndexError
    ensures r.Ok? ==> var (state', graph') := r.value;
      && graph' == graph
      && |state'| == |state| + 1
      && state'[..|state|] == state
      && state'[|state|] == stepResult[0].0
  {
    if stepResult == [] then Err(IndexError)
    else Ok((state + [stepResult[0].0], graph))
  }
}
