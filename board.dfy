/**
 * The board collaborator of the search, reduced to the two operations the
 * search calls: `Board::apply` (one move, or nothing when the move is
 * illegal) and the goal test `is_valid_plan(&[])`. The board itself is not
 * part of this model; a `Domain` carries both operations as functions over
 * an opaque state type `S`.
 */
module Board {
  import opened Wrappers

  /** The moves of the puzzle. */
  datatype Direction = Up | Right | Down | Left

  /** The fixed order in which the search tries the moves. */
  const Directions: seq<Direction> := [Up, Right, Down, Left]

  datatype Domain<!S> = Domain(apply: (S, Direction) -> Option<S>, isGoal: S -> bool)

  /** The state one move leads to, or None when the move is illegal. */
  function Successor<S>(dom: Domain<S>, s: S, d: Direction): Option<S>
  {
    dom.apply(s, d)
  }

  /** Plays a plan move by move from `s`; None as soon as one move is illegal. */
  function Run<S>(dom: Domain<S>, s: S, plan: seq<Direction>): Option<S>
    decreases |plan|
  {
    if plan == [] then Some(s)
    else match Successor(dom, s, plan[0])
      case None => None
      case Some(t) => Run(dom, t, plan[1..])
  }

  /** A plan is valid from `s` when every move is legal and it ends on a goal. */
  predicate IsValidPlan<S>(dom: Domain<S>, s: S, plan: seq<Direction>)
  {
    var e := Run(dom, s, plan);
    e.Some? && dom.isGoal(e.value)
  }

  ghost predicate Reachable<S>(dom: Domain<S>, init: S, t: S)
  {
    exists plan :: Run(dom, init, plan) == Some(t)
  }

  /** Some valid plan exists: the instance is solvable. */
  ghost predicate GoalReachable<S>(dom: Domain<S>, init: S)
  {
    exists plan :: IsValidPlan(dom, init, plan)
  }

  /** No legal move leads out of `states`. */
  ghost predicate Closed<S>(dom: Domain<S>, states: set<S>)
  {
    forall s, d :: s in states && Successor(dom, s, d).Some? ==> Successor(dom, s, d).value in states
  }

  /** The states of `space` reachable from `init`. */
  ghost function ReachableStates<S>(dom: Domain<S>, init: S, space: set<S>): set<S>
  {
    set t | t in space && Reachable(dom, init, t)
  }

  /** `Directions` lists every move. */
  lemma AllDirectionsListed()
    ensures forall d :: d in Directions
  {
    forall d: Direction
      ensures d in Directions
    {
      match d
      case Up => assert Directions[0] == Up;
      case Right => assert Directions[1] == Right;
      case Down => assert Directions[2] == Down;
      case Left => assert Directions[3] == Left;
    }
  }

  /** Playing one more move after a plan is one more `apply` on the state the plan reached. */
  lemma {:induction false} RunAppend<S>(dom: Domain<S>, s: S, plan: seq<Direction>, d: Direction)
    ensures Run(dom, s, plan + [d])
         == if Run(dom, s, plan).None? then None else Successor(dom, Run(dom, s, plan).value, d)
    decreases |plan|
  {
    if plan == [] {
      assert plan + [d] == [d];
    } else {
      assert (plan + [d])[1..] == plan[1..] + [d];
      match Successor(dom, s, plan[0])
      case None =>
      case Some(t) => RunAppend(dom, t, plan[1..], d);
    }
  }

  /** A successor of a reachable state is reachable. */
  lemma ReachableStep<S>(dom: Domain<S>, init: S, s: S, d: Direction)
    requires Reachable(dom, init, s) && Successor(dom, s, d).Some?
    ensures Reachable(dom, init, Successor(dom, s, d).value)
  {
    var plan :| Run(dom, init, plan) == Some(s);
    RunAppend(dom, init, plan, d);
  }

  /** A plan that starts inside a closed set never leaves it. */
  lemma {:induction false} ClosedHoldsRun<S>(dom: Domain<S>, states: set<S>, s: S, plan: seq<Direction>)
    requires s in states && Closed(dom, states)
    requires Run(dom, s, plan).Some?
    ensures Run(dom, s, plan).value in states
    decreases |plan|
  {
    if plan != [] {
      var t := Successor(dom, s, plan[0]).value;
      ClosedHoldsRun(dom, states, t, plan[1..]);
    }
  }

  /** A closed set containing `init` holds every reachable state. */
  lemma ClosedHoldsReachable<S>(dom: Domain<S>, states: set<S>, init: S, t: S)
    requires init in states && Closed(dom, states)
    requires Reachable(dom, init, t)
    ensures t in states
  {
    var plan :| Run(dom, init, plan) == Some(t);
    ClosedHoldsRun(dom, states, init, plan);
  }

  /** A reachable goal state makes the instance solvable. */
  lemma ReachedGoal<S>(dom: Domain<S>, init: S, t: S)
    requires Reachable(dom, init, t) && dom.isGoal(t)
    ensures GoalReachable(dom, init)
  {
    var plan :| Run(dom, init, plan) == Some(t);
    assert IsValidPlan(dom, init, plan);
  }
}
