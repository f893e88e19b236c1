/** The search node the AD* updater works on, and the values it holds. */
module ADStarNodes {
  import opened ExtReals

  /** A directed edge between two states. */
  datatype Transition<S> = Transition(from: S, to: S)

  /** The priority of a node, kept as the four values it is built from: the
      node's g and v, the heuristic estimate and the inflation factor. */
  datatype Key = Key(g: ExtReal, v: ExtReal, h: ExtReal, epsilon: ExtReal)

  /** The fields of a node at one moment. */
  datatype NodeView<S> = NodeView(
    previousNode: Node?<S>,
    g: ExtReal,
    v: ExtReal,
    state: Transition<S>,
    key: Key)
  {
    /** A node is consistent when its cost-to-come equals its settled estimate. */
    predicate Consistent()
    {
      g == v
    }
  }

  /** A search node: cost-to-come g, settled estimate v, back-pointer to the
      parent in the best-path tree, the transition that reached it, and its
      cached priority. */
  class Node<S> {
    var previousNode: Node?<S>
    var g: ExtReal
    var v: ExtReal
    var state: Transition<S>
    var key: Key

    constructor (previousNode: Node?<S>, g: ExtReal, v: ExtReal, state: Transition<S>, key: Key)
      ensures View() == NodeView(previousNode, g, v, state, key)
    {
      this.previousNode := previousNode;
      this.g := g;
      this.v := v;
      this.state := state;
      this.key := key;
    }

    function View(): NodeView<S>
      reads this
    {
      NodeView(previousNode, g, v, state, key)
    }
  }
}
