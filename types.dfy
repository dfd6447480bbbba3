/** Type aliases shared by the graph state machine, the exceptions its
    operations raise, and the dynamically typed arguments of its scanners. */
module Types {

  /** A node identifier (types.py / graph.py: `Node = str`). */
  type Node = string

  /** A node classification tag (graph.py: `NodeType = str`). */
  type NodeType = string

  /** The Python exceptions that the modelled code can raise. */
  datatype Error =
    | AssertionError(untyped: set<Node>)  // Graph.consistent: the nodes that have no type
    | NetworkXError(node: Node)           // neighbours asked of a node that is not in the graph
    | KeyError(key: string)               // dictionary lookup of an absent key
    | TypeError                           // a non-list type filter, or reduce() of an empty list
    | ZeroDivisionError                   // a score ratio whose divisor is zero
    | IndexError                          // [0] or [-1] taken of an empty list

  /** A value, or the exception raised instead of returning it. */
  datatype Result<T> = Ok(value: T) | Err(error: Error)
  {
    predicate IsFailure() {
      Err?
    }

    function PropagateFailure<U>(): Result<U>
      requires Err?
    {
      Err(error)
    }

    function Extract(): T
      requires Ok?
    {
      value
    }
  }

  /** The outcome of a state-changing controller call: it returned, or it raised. */
  datatype Outcome = Pass | Fail(error: Error)

  /** A Python value passed where a list of node types is expected by the
      scanners (or a single node type by the older scanners): `None`, a
      string, or a list of strings. */
  datatype PyArg = PyNone | PyStr(s: string) | PyList(items: seq<NodeType>)
  {
    /** Python truthiness: `not arg` holds for None, "" and []. */
    predicate Falsy() {
      PyNone? || (PyStr? && s == "") || (PyList? && items == [])
    }
  }
}
