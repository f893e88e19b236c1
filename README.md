# AD* node updater over double costs

This project models `DoubleADStarNodeUpdater`, the per-node update rule of the
Anytime Dynamic A* (AD*) search in the hipster pathfinding library, and proves
properties of it.

The updater holds a cost function on transitions, a heuristic on states and
an inflation factor epsilon. It offers three operations on a search node:

- `updateConsistent` relaxes the node through one incoming transition from a
  parent. It computes `parent.g + cost(transition)`. Only when that is strictly
  below the node's `g` does it rewrite the back-pointer, `g`, the transition
  and the key, and then it returns true. Otherwise it changes nothing and
  returns false.
- `setMaxV` marks the node stale by forcing its `v` to +infinity.
- `updateInconsistent` always fails as unsupported.

The files:

- `ExtReal.dfy` (module `ExtReals`) holds double values as `Fin(real) | Inf`,
  with the addition and the `<` comparison that the updater uses.
- `ADStarNode.dfy` (module `ADStarNodes`) holds the `Transition` value, the
  `Key` record and the `Node` class. The class has the five fields the updater
  reads and writes: `previousNode`, `g`, `v`, `state` and `key`. `NodeView` is
  a snapshot of those fields. A node is consistent when `g == v`.
- `NodeUpdater.dfy` (module `NodeUpdater`) holds the pieces below.
  - The class `DoubleADStarNodeUpdater` has the three operations as methods
    that update the node in place.
  - Its value-level specification has two functions. `Relax` is one
    relaxation and `MaxV` is the stale marking.
  - `RelaxAll` is a sequence of relaxations of one node, as the search driver
    would make them.
  - Lemmas about these functions cover the properties listed in the table.
  - Two client methods check two scenarios against the method contracts
    alone. One relaxes B from A at edge cost 5 twice. The other marks a node
    with `g = v = 3` stale.

A successful `updateConsistent` does not always leave the node inconsistent.
`v` is left unchanged, so the node is consistent afterwards exactly when the
new `g` equals the old `v` (`RelaxConsistency`). That cannot happen
when `g <= v` beforehand. It can happen when `v < g`: `RelaxCanRestoreConsistency`
shows such an input.

## Model

| member | source | states |
|---|---|---|
| `NodeUpdater.DoubleADStarNodeUpdater.constructor` | src/main/java/es/usc/citius/lab/hipster/node/DoubleADStarNodeUpdater.java:34-38 | the updater keeps exactly the cost function, heuristic and epsilon it is given |
| `NodeUpdater.DoubleADStarNodeUpdater.UpdateConsistent` | src/main/java/es/usc/citius/lab/hipster/node/DoubleADStarNodeUpdater.java:40-50 | returns true exactly when `parent.g + cost(transition)` is strictly below the old `node.g`. Then back-pointer = parent, `g` = that sum, state = transition, and key = (new g, v, heuristic of the destination, current epsilon). Otherwise the node is unchanged. `g` never grows, `v` is never written, `parent` is unchanged when it is another node, and the new node equals `Relax` of the old one |
| `NodeUpdater.DoubleADStarNodeUpdater.UpdateInconsistent` | src/main/java/es/usc/citius/lab/hipster/node/DoubleADStarNodeUpdater.java:52-54 | every call fails as an unsupported operation and changes nothing |
| `NodeUpdater.DoubleADStarNodeUpdater.SetMaxV` | src/main/java/es/usc/citius/lab/hipster/node/DoubleADStarNodeUpdater.java:56-58 | `v` becomes +infinity; back-pointer, `g`, state and key are unchanged |
| `NodeUpdater.Relax` | src/main/java/es/usc/citius/lab/hipster/node/DoubleADStarNodeUpdater.java:41-49 | reports a relaxation exactly when the candidate is strictly cheaper (strict guard). The new `g` is the minimum of the old `g` and the candidate, `v` is kept, and a failed relaxation leaves every field as it was |
| `NodeUpdater.MaxV` | src/main/java/es/usc/citius/lab/hipster/node/DoubleADStarNodeUpdater.java:56-58 | `v` is +infinity and every other field is kept, so a node with finite `g` is inconsistent afterwards |
| `NodeUpdater.RelaxIdempotent` | src/main/java/es/usc/citius/lab/hipster/node/DoubleADStarNodeUpdater.java:42-47 | repeating a relaxation with the same arguments reports false and changes nothing |
| `NodeUpdater.RelaxConsistency` | src/main/java/es/usc/citius/lab/hipster/node/DoubleADStarNodeUpdater.java:44-46 | after a successful relaxation the node is consistent exactly when the candidate equals the unchanged `v`, so a node with `g <= v` beforehand becomes inconsistent |
| `NodeUpdater.RelaxCanRestoreConsistency` | src/main/java/es/usc/citius/lab/hipster/node/DoubleADStarNodeUpdater.java:42-46 | a node with `g = 5`, `v = 3` relaxed to cost 3 is relaxed and then consistent |
| `NodeUpdater.RelaxAllIsMinimal` | src/main/java/es/usc/citius/lab/hipster/node/DoubleADStarNodeUpdater.java:41-46 | over any sequence of relaxations of one node, `g` never grows, `v` is untouched, and the final `g` is at most every candidate offered |
| `NodeUpdater.RelaxAllWitness` | src/main/java/es/usc/citius/lab/hipster/node/DoubleADStarNodeUpdater.java:41-47 | after any sequence of relaxations either the node is unchanged, or its `g` went strictly down and it holds exactly what one step accepted: that step's parent, candidate cost, transition and key |
| `NodeUpdater.RelaxAllSettles` | src/main/java/es/usc/citius/lab/hipster/node/DoubleADStarNodeUpdater.java:42 | after a sequence of relaxations, repeating any of its steps relaxes nothing |

## Left out

- hipster-jung/src/main/java/es/usc/citius/lab/hipster/jung/JungUtils.java is not part of this model. It builds a graph from a maze with floating-point Euclidean edge costs and delegates shortest paths to the JUNG graph library.
- Doubles, the inflation factor epsilon included, are modelled as reals with +infinity. NaN, negative infinity, rounding, overflow of a finite sum to infinity and boxed `Double` nulls are not modelled.
- The class `ADStarNode` is not part of this model. `Node` has only the five fields the updater touches, plus a constructor that sets all of them.
  - `getG` is modelled as reading `g`.
  - `setV` is modelled as a plain setter of `v`.
- `ADStarNode.Key` is not part of this model. A key is the record of its four constructor arguments, with no priority formula and no ordering. So no statement about the key's priority value (such as g + epsilon * h) can be made.
- The cost and heuristic strategies are function values given to the constructor. No non-negativity or admissibility is assumed, because none of the proved properties needs it.
- Epsilon is a mutable field as in the source. The file offers no operation that changes it, so none is modelled.
- UpdateInconsistent: the Java exception becomes a `Failure` result. The code implements no repair rule from predecessors, so none is modelled.
- The search driver with its OPEN, INCONS and CLOSED sets is not part of this model. `RelaxAll` stands for any sequence of `updateConsistent` calls it makes on one node.
