/** The AD* node updater over double costs: relaxation of a node through one
    incoming transition, marking a node stale, and the (unsupported) repair
    of an inconsistent node. */
module NodeUpdater {
  import opened ExtReals
  import opened ADStarNodes

  datatype UpdaterError = UnsupportedOperation(message: string)

  datatype Outcome<T> = Success(value: T) | Failure(error: UpdaterError)

  /** The new fields of a node after one relaxation, and whether it happened. */
  datatype Relaxation<S> = Relaxation(node: NodeView<S>, improved: bool)

  /** The node reached from `parent` through `t` at cost `c`: the back-pointer,
      g, state and key are replaced and v is kept. */
  function Accepted<S>(parent: Node<S>, c: ExtReal, v: ExtReal, t: Transition<S>, h: ExtReal, epsilon: ExtReal): NodeView<S>
  {
    NodeView(parent, c, v, t, Key(c, v, h, epsilon))
  }

  /** One relaxation of `n` through `t` from a parent whose cost-to-come is
      `parentG`, with the edge cost, the estimate of the destination of `t`
      and the inflation factor read at the time of the call. */
  function Relax<S>(n: NodeView<S>, parent: Node<S>, parentG: ExtReal, t: Transition<S>,
                    edgeCost: ExtReal, h: ExtReal, epsilon: ExtReal): (r: Relaxation<S>)
    ensures r.improved <==> Lt(Add(parentG, edgeCost), n.g)
    ensures r.node.g == Min(n.g, Add(parentG, edgeCost))
    ensures r.node.v == n.v
    ensures !r.improved ==> r.node == n
  {
    var c := Add(parentG, edgeCost);
    if Lt(c, n.g) then Relaxation(Accepted(parent, c, n.v, t, h, epsilon), true)
    else Relaxation(n, false)
  }

  /** The fields of a node after it is marked stale. */
  function MaxV<S>(n: NodeView<S>): (r: NodeView<S>)
    ensures r.v == Inf
    ensures r.(v := n.v) == n
    ensures r.g.Fin? ==> !r.Consistent()
  {
    n.(v := Inf)
  }

  /** One call of the relaxation as the search driver makes it: a parent, that
      parent's cost-to-come at the time, and the transition into the node. */
  datatype Step<S> = Step(parent: Node<S>, parentG: ExtReal, transition: Transition<S>)

  function Candidate<S>(s: Step<S>, cost: Transition<S> -> ExtReal): ExtReal
  {
    Add(s.parentG, cost(s.transition))
  }

  function RelaxStep<S>(n: NodeView<S>, s: Step<S>, cost: Transition<S> -> ExtReal,
                        heuristic: S -> ExtReal, epsilon: ExtReal): Relaxation<S>
  {
    Relax(n, s.parent, s.parentG, s.transition, cost(s.transition), heuristic(s.transition.to), epsilon)
  }

  /** The node after a sequence of relaxations, one per step, in order. */
  function RelaxAll<S>(n: NodeView<S>, steps: seq<Step<S>>, cost: Transition<S> -> ExtReal,
                       heuristic: S -> ExtReal, epsilon: ExtReal): NodeView<S>
    decreases |steps|
  {
    if steps == [] then n
    else RelaxAll(RelaxStep(n, steps[0], cost, heuristic, epsilon).node, steps[1..], cost, heuristic, epsilon)
  }

  /** A relaxation that succeeded, repeated with the same arguments, fails and
      changes nothing. */
  lemma RelaxIdempotent<S>(n: NodeView<S>, parent: Node<S>, parentG: ExtReal, t: Transition<S>,
                           edgeCost: ExtReal, h: ExtReal, epsilon: ExtReal)
    ensures var r1 := Relax(n, parent, parentG, t, edgeCost, h, epsilon);
            var r2 := Relax(r1.node, parent, parentG, t, edgeCost, h, epsilon);
            !r2.improved && r2.node == r1.node
  {
  }

  /** After a successful relaxation the node is consistent exactly when the
      new cost equals its unchanged v; so a node whose g did not exceed its v
      beforehand (consistent, or v forced to infinity) becomes inconsistent. */
  lemma RelaxConsistency<S>(n: NodeView<S>, parent: Node<S>, parentG: ExtReal, t: Transition<S>,
                            edgeCost: ExtReal, h: ExtReal, epsilon: ExtReal)
    ensures var r := Relax(n, parent, parentG, t, edgeCost, h, epsilon);
            r.improved ==> (r.node.Consistent() <==> Add(parentG, edgeCost) == n.v)
    ensures var r := Relax(n, parent, parentG, t, edgeCost, h, epsilon);
            r.improved && Le(n.g, n.v) ==> !r.node.Consistent()
  {
  }

  /** A node whose v is below its g can become consistent through a
      relaxation: g = 5, v = 3, a parent at cost 0 and an edge of cost 3. */
  lemma RelaxCanRestoreConsistency(parent: Node<int>)
    ensures var n := NodeView(null, Fin(5.0), Fin(3.0), Transition(0, 0), Key(Fin(5.0), Fin(3.0), Fin(0.0), Fin(1.0)));
            var r := Relax(n, parent, Fin(0.0), Transition(0, 1), Fin(3.0), Fin(0.0), Fin(1.0));
            r.improved && r.node.Consistent()
  {
  }

  /** After any sequence of relaxations of one node, its g has not grown, its
      v is untouched, and its g is no larger than any candidate cost offered. */
  lemma {:induction false} RelaxAllIsMinimal<S>(n: NodeView<S>, steps: seq<Step<S>>, cost: Transition<S> -> ExtReal,
                                                 heuristic: S -> ExtReal, epsilon: ExtReal)
    ensures var m := RelaxAll(n, steps, cost, heuristic, epsilon);
            m.v == n.v && Le(m.g, n.g) &&
            forall i :: 0 <= i < |steps| ==> Le(m.g, Candidate(steps[i], cost))
    decreases |steps|
  {
    if steps != [] {
      var r := RelaxStep(n, steps[0], cost, heuristic, epsilon);
      RelaxAllIsMinimal(r.node, steps[1..], cost, heuristic, epsilon);
      var m := RelaxAll(n, steps, cost, heuristic, epsilon);
      assert m == RelaxAll(r.node, steps[1..], cost, heuristic, epsilon);
      LeTrans(m.g, r.node.g, n.g);
      LeTrans(m.g, r.node.g, Candidate(steps[0], cost));
      forall i | 1 <= i < |steps|
        ensures Le(m.g, Candidate(steps[i], cost))
      {
        assert steps[i] == steps[1..][i - 1];
      }
    }
  }

  /** After any sequence of relaxations of one node, either nothing changed, or
      its g went strictly down and the node is exactly as accepted from one of
      the steps: back-pointer, state and key all come from the step whose
      candidate cost the node now holds. */
  lemma {:induction false} RelaxAllWitness<S>(n: NodeView<S>, steps: seq<Step<S>>, cost: Transition<S> -> ExtReal,
                                               heuristic: S -> ExtReal, epsilon: ExtReal)
    ensures var m := RelaxAll(n, steps, cost, heuristic, epsilon);
            m == n ||
            (Lt(m.g, n.g) &&
             exists i :: 0 <= i < |steps| &&
               m == Accepted(steps[i].parent, Candidate(steps[i], cost), n.v, steps[i].transition,
                             heuristic(steps[i].transition.to), epsilon))
    decreases |steps|
  {
    if steps != [] {
      var r := RelaxStep(n, steps[0], cost, heuristic, epsilon);
      RelaxAllWitness(r.node, steps[1..], cost, heuristic, epsilon);
      var m := RelaxAll(n, steps, cost, heuristic, epsilon);
      assert m == RelaxAll(r.node, steps[1..], cost, heuristic, epsilon);
      if m == r.node {
        if r.improved {
          var s := steps[0];
          assert m == Accepted(s.parent, Candidate(s, cost), n.v, s.transition, heuristic(s.transition.to), epsilon);
        }
      } else {
        var j :| 0 <= j < |steps[1..]| &&
          m == Accepted(steps[1..][j].parent, Candidate(steps[1..][j], cost), r.node.v, steps[1..][j].transition,
                        heuristic(steps[1..][j].transition.to), epsilon);
        assert steps[1..][j] == steps[j + 1];
        LtLeTrans(m.g, r.node.g, n.g);
      }
    }
  }

  /** Once a node has been relaxed through a sequence of steps, repeating any
      of those steps relaxes nothing. */
  lemma RelaxAllSettles<S>(n: NodeView<S>, steps: seq<Step<S>>, cost: Transition<S> -> ExtReal,
                           heuristic: S -> ExtReal, epsilon: ExtReal, i: nat)
    requires i < |steps|
    ensures var m := RelaxAll(n, steps, cost, heuristic, epsilon);
            var r := RelaxStep(m, steps[i], cost, heuristic, epsilon);
            !r.improved && r.node == m
  {
    RelaxAllIsMinimal(n, steps, cost, heuristic, epsilon);
  }

  /** The updater over double costs: a cost function on transitions, a
      heuristic on states and the inflation factor used to build keys. */
  class DoubleADStarNodeUpdater<S(==)> {
    const costFunction: Transition<S> -> ExtReal
    const heuristicFunction: S -> ExtReal
    var epsilon: ExtReal

    constructor (costFunction: Transition<S> -> ExtReal, heuristicFunction: S -> ExtReal, epsilon: ExtReal)
      ensures this.costFunction == costFunction
      ensures this.heuristicFunction == heuristicFunction
      ensures this.epsilon == epsilon
    {
      this.costFunction := costFunction;
      this.heuristicFunction := heuristicFunction;
      this.epsilon := epsilon;
    }

    /** Relaxes `node` through `transition` from `parent`; true when the path
        through `parent` is strictly cheaper, and then the node now records it. */
    method UpdateConsistent(node: Node<S>, parent: Node<S>, transition: Transition<S>) returns (improved: bool)
      modifies node
      ensures var r := Relax(old(node.View()), parent, old(parent.g), transition,
                             costFunction(transition), heuristicFunction(transition.to), epsilon);
              node.View() == r.node && improved == r.improved
      ensures improved <==> Lt(Add(old(parent.g), costFunction(transition)), old(node.g))
      ensures improved ==> node.previousNode == parent && node.g == Add(old(parent.g), costFunction(transition)) &&
                           node.state == transition &&
                           node.key == Key(node.g, node.v, heuristicFunction(transition.to), epsilon)
      ensures !improved ==> unchanged(node)
      ensures Le(node.g, old(node.g)) && node.v == old(node.v)
      ensures parent != node ==> unchanged(parent)
    {
      var accumulatedCost := Add(parent.g, costFunction(transition));
      if Lt(accumulatedCost, node.g) {
        node.previousNode := parent;
        node.g := accumulatedCost;
        node.state := transition;
        node.key := Key(node.g, node.v, heuristicFunction(transition.to), epsilon);
        return true;
      }
      return false;
    }

    /** The repair of an inconsistent node from its predecessors has no
        successful outcome: every call fails as unsupported. */
    method UpdateInconsistent(node: Node<S>, predecessorsNodes: map<Transition<S>, Node<S>>) returns (r: Outcome<bool>)
      ensures r.Failure? && r.error.UnsupportedOperation?
    {
      return Failure(UnsupportedOperation("Not supported yet."));
    }

    /** Marks `node` stale by forcing its v to infinity. */
    method SetMaxV(node: Node<S>)
      modifies node
      ensures node.View() == MaxV(old(node.View()))
      ensures node.v == Inf
      ensures node.previousNode == old(node.previousNode) && node.g == old(node.g) &&
              node.state == old(node.state) && node.key == old(node.key)
    {
      node.v := Inf;
    }
  }

  /** The two-node scenario: A at cost 0, B unreached, edge A to B of cost 5. */
  method RelaxTwiceScenario()
  {
    var ab := Transition(0, 1);
    var a := new Node<int>(null, Fin(0.0), Fin(0.0), Transition(0, 0), Key(Fin(0.0), Fin(0.0), Fin(0.0), Fin(1.5)));
    var b := new Node<int>(null, Inf, Inf, Transition(1, 1), Key(Inf, Inf, Fin(0.0), Fin(1.5)));
    var updater := new DoubleADStarNodeUpdater<int>(t => if t == ab then Fin(5.0) else Inf, s => Fin(0.0), Fin(1.5));
    var first := updater.UpdateConsistent(b, a, ab);
    assert first && b.g == Fin(5.0) && b.previousNode == a && b.state == ab;
    var second := updater.UpdateConsistent(b, a, ab);
    assert !second && b.g == Fin(5.0);
  }

  /** Marking a consistent node with g = v = 3 stale makes it inconsistent. */
  method MarkStaleScenario()
  {
    var n := new Node<int>(null, Fin(3.0), Fin(3.0), Transition(0, 1), Key(Fin(3.0), Fin(3.0), Fin(0.0), Fin(1.0)));
    var updater := new DoubleADStarNodeUpdater<int>(t => Fin(1.0), s => Fin(0.0), Fin(1.0));
    updater.SetMaxV(n);
    assert n.v == Inf && n.g == Fin(3.0) && !n.View().Consistent();
  }
}
