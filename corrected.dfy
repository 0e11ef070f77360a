/**
 * `search` as its comments describe it: the cost map keeps the best cost
 * found for each state and the predecessor map its best parent, so a state's
 * entries are overwritten only by a strictly cheaper path, and the search
 * stops with the plan `backtrack_moves` builds as soon as it meets a goal.
 * Under these two changes the predecessor map stays a tree rooted at the
 * initial state, `backtrack_moves` always returns, and its plan is valid.
 */
module Corrected {
  import opened Wrappers
  import opened Board
  import opened Backtrack
  import opened Engine

  /** The guard of the corrected `for` loop: `t` has no cost yet or `c` beats it. */
  predicate Improves<S(==)>(costs: map<S, nat>, t: S, c: nat)
  {
    t !in costs || c < costs[t]
  }

  /** The cost and predecessor maps form a tree rooted at `init`: every state
      with a cost but the root has an entry, every entry is a legal move from a
      parent with a cost, and parents are strictly cheaper than children. */
  ghost predicate Tree<S>(dom: Domain<S>, init: S, costs: map<S, nat>, preds: map<S, (S, Direction)>)
  {
    && init in costs && costs[init] == 1 && init !in preds
    && (forall t :: t in costs ==> t == init || t in preds)
    && (forall t :: t in preds ==> t in costs && preds[t].0 in costs && costs[preds[t].0] < costs[t])
    && Consistent(dom, preds)
  }

  /** In a tree, the chain from any state with a cost ends, at the root. */
  lemma {:induction false} TreeChain<S>(dom: Domain<S>, init: S, costs: map<S, nat>, preds: map<S, (S, Direction)>, t: S)
    returns (k: nat)
    requires Tree(dom, init, costs, preds) && t in costs
    ensures EndsAfter(preds, t, k) && Ancestor(preds, t, k) == init
    decreases costs[t]
  {
    if t !in preds {
      k := 0;
    } else {
      var k' := TreeChain(dom, init, costs, preds, preds[t].0);
      k := k' + 1;
      AncestorOfParent(preds, t, k');
      forall i | 0 <= i < k
        ensures Ancestor(preds, t, i) in preds
      {
        if i > 0 {
          assert Ancestor(preds, t, i) == Ancestor(preds, preds[t].0, i - 1);
        }
      }
    }
  }

  /** In a tree, `backtrack_moves` returns a plan leading from the root to `t`. */
  lemma TreePlan<S>(dom: Domain<S>, init: S, costs: map<S, nat>, preds: map<S, (S, Direction)>, t: S)
    requires Tree(dom, init, costs, preds) && t in costs
    ensures var r := BacktrackMoves(t, preds); r.Some? && Run(dom, init, r.value) == Some(t)
  {
    var k := TreeChain(dom, init, costs, preds, t);
    BacktrackMovesValid(dom, t, preds, k);
  }

  /** Recording a strictly cheaper path to `t` through `state` keeps the tree. */
  lemma TreeUpdate<S>(dom: Domain<S>, init: S, costs: map<S, nat>, preds: map<S, (S, Direction)>, state: S, d: Direction, t: S)
    requires Tree(dom, init, costs, preds) && state in costs
    requires Successor(dom, state, d) == Some(t) && Improves(costs, t, costs[state] + 1)
    ensures Tree(dom, init, costs[t := costs[state] + 1], preds[t := (state, d)])
  {
  }

  /** The heap holds only states with a cost, every state with a cost is on
      the heap or in `done`, and every state with a cost is reachable. */
  ghost predicate Known<S>(dom: Domain<S>, init: S, space: set<S>, heap: multiset<S>, costs: map<S, nat>, done: set<S>)
  {
    && (forall s :: s in heap ==> s in costs)
    && (forall s :: s in costs ==> s in heap || s in done)
    && (forall s :: s in costs ==> s in ReachableStates(dom, init, space))
  }

  /** What holds after the corrected `for` loop tried the first `i` moves of
      `order` from `state` without meeting a goal: the maps are still a tree,
      `state` keeps its cost, and each successor tried so far has a cost. */
  ghost predicate Expanding<S>(
    dom: Domain<S>, init: S, space: set<S>, order: seq<Direction>, state: S, cost: nat,
    heap: multiset<S>, costs: map<S, nat>, preds: map<S, (S, Direction)>, expanded: set<S>, i: nat)
  {
    && i <= |order|
    && Tree(dom, init, costs, preds)
    && Known(dom, init, space, heap, costs, expanded + {state})
    && state in costs && costs[state] == cost
    && (forall j :: 0 <= j < i && Successor(dom, state, order[j]).Some? ==> Successor(dom, state, order[j]).value in costs)
  }

  /** One move of the corrected `for` loop keeps `Expanding`, whether or not it
      records the new state. */
  lemma CheaperStep<S>(
    dom: Domain<S>, init: S, space: set<S>, order: seq<Direction>, state: S, cost: nat,
    heap: multiset<S>, costs: map<S, nat>, preds: map<S, (S, Direction)>, expanded: set<S>, i: nat)
    requires Closed(dom, space)
    requires Expanding(dom, init, space, order, state, cost, heap, costs, preds, expanded, i) && i < |order|
    ensures var next := Successor(dom, state, order[i]);
      next.Some? && Improves(costs, next.value, cost + 1) ==>
        Expanding(dom, init, space, order, state, cost, heap + multiset{next.value},
                  costs[next.value := cost + 1], preds[next.value := (state, order[i])], expanded, i + 1)
    ensures var next := Successor(dom, state, order[i]);
      !(next.Some? && Improves(costs, next.value, cost + 1)) ==>
        Expanding(dom, init, space, order, state, cost, heap, costs, preds, expanded, i + 1)
  {
    var next := Successor(dom, state, order[i]);
    if next.Some? && Improves(costs, next.value, cost + 1) {
      var t := next.value;
      TreeUpdate(dom, init, costs, preds, state, order[i], t);
      assert Reachable(dom, init, state);
      ReachableStep(dom, init, state, order[i]);
    }
  }

  /** The corrected `for` loop: a move whose new state is strictly cheaper to
      reach through `state` records its cost and predecessor and pushes it;
      the loop stops at the first such state passing the goal test. */
  method ExpandCheaper<S(==)>(
    dom: Domain<S>, ghost init: S, ghost space: set<S>, order: seq<Direction>, state: S, cost: nat,
    heap: multiset<S>, pathCosts: map<S, nat>, predecessors: map<S, (S, Direction)>, ghost expanded: set<S>)
    returns (heap': multiset<S>, pathCosts': map<S, nat>, predecessors': map<S, (S, Direction)>, goal: Option<S>)
    requires Closed(dom, space)
    requires Expanding(dom, init, space, order, state, cost, heap, pathCosts, predecessors, expanded, 0)
    ensures Tree(dom, init, pathCosts', predecessors') && pathCosts.Keys <= pathCosts'.Keys
    ensures Known(dom, init, space, heap', pathCosts', expanded + {state})
    ensures goal.Some? ==> goal.value in pathCosts' && dom.isGoal(goal.value)
    ensures goal.None? ==> forall j :: 0 <= j < |order| && Successor(dom, state, order[j]).Some? ==>
      Successor(dom, state, order[j]).value in pathCosts'
  {
    heap', pathCosts', predecessors', goal := heap, pathCosts, predecessors, None;
    var i := 0;
    while i < |order|
      invariant Expanding(dom, init, space, order, state, cost, heap', pathCosts', predecessors', expanded, i)
      invariant pathCosts.Keys <= pathCosts'.Keys
    {
      var direction := order[i];
      CheaperStep(dom, init, space, order, state, cost, heap', pathCosts', predecessors', expanded, i);
      var next := dom.apply(state, direction);
      if next.Some? && Improves(pathCosts', next.value, cost + 1) {
        var newState := next.value;
        pathCosts' := pathCosts'[newState := cost + 1];
        predecessors' := predecessors'[newState := (state, direction)];
        heap' := heap' + multiset{newState};
        if CheckEndSearch(dom, newState) {
          goal := Some(newState);
          return;
        }
      }
      i := i + 1;
    }
  }

  /** What holds at the head of the corrected `while` loop. */
  ghost predicate CorrectedInvariant<S>(
    dom: Domain<S>, init: S, space: set<S>, heap: multiset<S>, costs: map<S, nat>,
    preds: map<S, (S, Direction)>, expanded: set<S>)
  {
    && Tree(dom, init, costs, preds)
    && Known(dom, init, space, heap, costs, expanded)
    && expanded <= ReachableStates(dom, init, space)
    && (forall s :: s in expanded ==> !dom.isGoal(s))
    && (forall s, d :: s in expanded && Successor(dom, s, d).Some? ==> Successor(dom, s, d).value in costs)
  }

  /** Popping a state and expanding it with a full scan keeps the invariant. */
  lemma ExpandedKeepsCorrected<S>(
    dom: Domain<S>, init: S, space: set<S>, order: seq<Direction>, state: S,
    heap: multiset<S>, costs: map<S, nat>, preds: map<S, (S, Direction)>, expanded: set<S>,
    heap': multiset<S>, costs': map<S, nat>, preds': map<S, (S, Direction)>)
    requires forall d :: d in order
    requires CorrectedInvariant(dom, init, space, heap, costs, preds, expanded)
    requires state in costs && !dom.isGoal(state)
    requires Tree(dom, init, costs', preds') && Known(dom, init, space, heap', costs', expanded + {state})
    requires forall j :: 0 <= j < |order| && Successor(dom, state, order[j]).Some? ==>
      Successor(dom, state, order[j]).value in costs'
    requires costs.Keys <= costs'.Keys
    ensures CorrectedInvariant(dom, init, space, heap', costs', preds', expanded + {state})
  {
    forall s, d | s in expanded + {state} && Successor(dom, s, d).Some?
      ensures Successor(dom, s, d).value in costs'
    {
      if s == state {
        assert d in order;
        var j :| 0 <= j < |order| && order[j] == d;
      }
    }
  }

  /** A corrected search whose heap runs empty expanded exactly the reachable
      states, none of which is a goal. */
  lemma ExhaustedCorrected<S>(
    dom: Domain<S>, init: S, space: set<S>, costs: map<S, nat>, preds: map<S, (S, Direction)>, expanded: set<S>)
    requires CorrectedInvariant(dom, init, space, multiset{}, costs, preds, expanded)
    ensures expanded == ReachableStates(dom, init, space) && !GoalReachable(dom, init)
  {
    assert Closed(dom, expanded);
    forall t | Reachable(dom, init, t)
      ensures t in expanded
    {
      ClosedHoldsReachable(dom, expanded, init, t);
    }
    if GoalReachable(dom, init) {
      var plan :| IsValidPlan(dom, init, plan);
      assert Reachable(dom, init, Run(dom, init, plan).value);
      assert false;
    }
  }

  /** Popping a state that was already expanded keeps the invariant. */
  lemma SkipKeepsCorrected<S>(
    dom: Domain<S>, init: S, space: set<S>, heap: multiset<S>, costs: map<S, nat>,
    preds: map<S, (S, Direction)>, expanded: set<S>, state: S)
    requires CorrectedInvariant(dom, init, space, heap, costs, preds, expanded)
    requires state in heap && state in expanded
    ensures CorrectedInvariant(dom, init, space, heap - multiset{state}, costs, preds, expanded)
  {
  }

  /** One iteration of the corrected `while` loop on a popped state that is
      neither expanded nor a goal: the corrected `for` loop, then either the
      plan to the goal it met or the state marked expanded. */
  method ExpandCorrected<S(==)>(
    dom: Domain<S>, ghost init: S, ghost space: set<S>, ghost popped: multiset<S>, state: S,
    heap: multiset<S>, pathCosts: map<S, nat>, predecessors: map<S, (S, Direction)>, expanded: set<S>)
    returns (heap': multiset<S>, pathCosts': map<S, nat>, predecessors': map<S, (S, Direction)>,
             expanded': set<S>, plan: Option<seq<Direction>>)
    requires Closed(dom, space)
    requires CorrectedInvariant(dom, init, space, popped, pathCosts, predecessors, expanded)
    requires state in popped && heap == popped - multiset{state}
    requires state !in expanded && !dom.isGoal(state)
    ensures plan.Some? ==> IsValidPlan(dom, init, plan.value) && expanded' == expanded
    ensures plan.None? ==> expanded' == expanded + {state} && |space - expanded'| < |space - expanded|
    ensures plan.None? ==> CorrectedInvariant(dom, init, space, heap', pathCosts', predecessors', expanded')
  {
    var cost := pathCosts[state];
    var goal;
    heap', pathCosts', predecessors', goal :=
      ExpandCheaper(dom, init, space, Directions, state, cost, heap, pathCosts, predecessors, expanded);
    if goal.Some? {
      TreePlan(dom, init, pathCosts', predecessors', goal.value);
      expanded', plan := expanded, BacktrackMoves(goal.value, predecessors');
    } else {
      AllDirectionsListed();
      ExpandedKeepsCorrected(dom, init, space, Directions, state, popped, pathCosts, predecessors, expanded,
                             heap', pathCosts', predecessors');
      expanded', plan := expanded + {state}, None;
      assert space - expanded' == (space - expanded) - {state};
    }
  }

  /** The corrected search returns a plan exactly when a goal is reachable,
      and every plan it returns is valid. */
  method SearchCorrected<S(==)>(dom: Domain<S>, init: S, ghost space: set<S>)
    returns (result: Option<seq<Direction>>, stats: Stats)
    requires init in space && Closed(dom, space)
    ensures CheckEndSearch(dom, init) ==> result == Some([]) && stats == Stats(0)
    ensures result.Some? ==> IsValidPlan(dom, init, result.value)
    ensures result.Some? <==> GoalReachable(dom, init)
    ensures stats.expanded <= |ReachableStates(dom, init, space)|
    ensures result.None? ==> stats.expanded == |ReachableStates(dom, init, space)|
  {
    if CheckEndSearch(dom, init) {
      return Some([]), Stats(0);
    }
    var heap: multiset<S> := multiset{init};
    var pathCosts: map<S, nat> := map[init := 1];
    var predecessors: map<S, (S, Direction)> := map[];
    var expanded: set<S> := {};
    result := None;
    assert Run(dom, init, []) == Some(init);
    while heap != multiset{}
      invariant CorrectedInvariant(dom, init, space, heap, pathCosts, predecessors, expanded)
      invariant result.None?
      decreases |space - expanded|, |heap|
    {
      var state :| state in heap;
      ghost var popped := heap;
      heap := heap - multiset{state};
      if state in expanded {
        SkipKeepsCorrected(dom, init, space, popped, pathCosts, predecessors, expanded, state);
        continue;
      }
      if CheckEndSearch(dom, state) {
        TreePlan(dom, init, pathCosts, predecessors, state);
        result := BacktrackMoves(state, predecessors);
        break;
      }
      heap, pathCosts, predecessors, expanded, result :=
        ExpandCorrected(dom, init, space, popped, state, heap, pathCosts, predecessors, expanded);
      if result.Some? {
        break;
      }
    }
    if result.None? {
      ExhaustedCorrected(dom, init, space, pathCosts, predecessors, expanded);
    } else {
      ReachedGoal(dom, init, Run(dom, init, result.value).value);
    }
    SubsetCount(expanded, ReachableStates(dom, init, space));
    stats := Stats(|expanded|);
  }
}
