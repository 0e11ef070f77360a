/**
 * The search engine of `search.rs`: `Stats`, `check_end_search` and `search`.
 *
 * `search` keeps four pieces of state while it runs: the frontier heap, the
 * cost map, the predecessor map and the expanded set. Every heap priority is
 * 1, so the heap is a multiset from which `pop` takes an arbitrary element.
 * The inner `for` loop over the four directions is `ExpandState`.
 */
module Engine {
  import opened Wrappers
  import opened Board
  import opened Backtrack

  /** What the search reports besides its result: the number of expanded states. */
  datatype Stats = Stats(expanded: nat)

  /** How a call of `search` ends: it returns its pair, or it never returns
      because `backtrack_moves_rec` follows a predecessor cycle forever. */
  datatype Outcome = Returned(result: Option<seq<Direction>>, stats: Stats) | BacktrackDiverges

  /** `check_end_search`: the empty plan is already valid from `state`. */
  function CheckEndSearch<S>(dom: Domain<S>, state: S): (done: bool)
    ensures done <==> IsValidPlan(dom, state, [])
  {
    dom.isGoal(state)
  }

  /** Moving `d` from `state` lands on a state that passes the goal test. */
  predicate ReachesGoal<S>(dom: Domain<S>, state: S, d: Direction)
  {
    var t := Successor(dom, state, d);
    t.Some? && CheckEndSearch(dom, t.value)
  }

  /** How many moves of `order` the scan of `state` tries, counting from index
      `i`: it stops right after the first move reaching a goal. */
  function ScanLength<S>(dom: Domain<S>, order: seq<Direction>, state: S, i: nat): (n: nat)
    requires i < |order|
    ensures i < n <= |order|
    ensures forall j :: i <= j < n - 1 ==> !ReachesGoal(dom, state, order[j])
    ensures n < |order| ==> ReachesGoal(dom, state, order[n - 1])
    decreases |order| - i
  {
    if i == |order| - 1 || ReachesGoal(dom, state, order[i]) then i + 1
    else ScanLength(dom, order, state, i + 1)
  }

  /** The number of moves of `order` tried when `state` is expanded. */
  function MovesTried<S>(dom: Domain<S>, order: seq<Direction>, state: S): (n: nat)
    requires order != []
    ensures 0 < n <= |order|
    ensures forall j :: 0 <= j < n - 1 ==> !ReachesGoal(dom, state, order[j])
    ensures n < |order| ==> ReachesGoal(dom, state, order[n - 1])
  {
    ScanLength(dom, order, state, 0)
  }

  /** The successor one move produces, as a bag of zero or one state. */
  ghost function MoveBag<S>(dom: Domain<S>, state: S, d: Direction): multiset<S>
  {
    match Successor(dom, state, d)
    case None => multiset{}
    case Some(t) => multiset{t}
  }

  /** The successors the first `n` moves of `order` produce, with repetitions:
      what a scan of `n` moves pushes on the heap. */
  ghost function SuccessorBag<S>(dom: Domain<S>, order: seq<Direction>, state: S, n: nat): multiset<S>
    requires n <= |order|
  {
    if n == 0 then multiset{}
    else SuccessorBag(dom, order, state, n - 1) + MoveBag(dom, state, order[n - 1])
  }

  /** A state is in the bag exactly when one of the first `n` moves produces it. */
  lemma {:induction false} SuccessorBagMembers<S>(dom: Domain<S>, order: seq<Direction>, state: S, n: nat, t: S)
    requires n <= |order|
    ensures t in SuccessorBag(dom, order, state, n)
        <==> exists i :: 0 <= i < n && Successor(dom, state, order[i]) == Some(t)
  {
    if n > 0 {
      SuccessorBagMembers(dom, order, state, n - 1, t);
      if Successor(dom, state, order[n - 1]) == Some(t) {
        assert 0 <= n - 1 < n && Successor(dom, state, order[n - 1]) == Some(t);
      }
    }
  }

  /** The index of the last of the first `n` moves that produces `t`: the move
      the scan leaves in the predecessor map for `t`. */
  ghost function LastMoveIndex<S>(dom: Domain<S>, order: seq<Direction>, state: S, n: nat, t: S): (i: nat)
    requires n <= |order|
    requires t in SuccessorBag(dom, order, state, n)
    ensures i < n && Successor(dom, state, order[i]) == Some(t)
    ensures forall j :: i < j < n ==> Successor(dom, state, order[j]) != Some(t)
  {
    if Successor(dom, state, order[n - 1]) == Some(t) then n - 1
    else LastMoveIndex(dom, order, state, n - 1, t)
  }

  /** The heap after the first `n` moves of `order` from `state` pushed their
      successors on `heap`. */
  ghost function PushSuccessors<S>(dom: Domain<S>, order: seq<Direction>, state: S, heap: multiset<S>, n: nat): multiset<S>
    requires n <= |order|
  {
    if n == 0 then heap
    else match Successor(dom, state, order[n - 1])
      case None => PushSuccessors(dom, order, state, heap, n - 1)
      case Some(t) => PushSuccessors(dom, order, state, heap, n - 1) + multiset{t}
  }

  /** The cost map after the first `n` moves of `order` from `state` each
      wrote `cost + 1` for their successor. */
  ghost function RecordCosts<S>(dom: Domain<S>, order: seq<Direction>, state: S, cost: nat, costs: map<S, nat>, n: nat): map<S, nat>
    requires n <= |order|
  {
    if n == 0 then costs
    else match Successor(dom, state, order[n - 1])
      case None => RecordCosts(dom, order, state, cost, costs, n - 1)
      case Some(t) => RecordCosts(dom, order, state, cost, costs, n - 1)[t := cost + 1]
  }

  /** The predecessor map after the first `n` moves of `order` from `state`
      each wrote `(state, move)` for their successor. */
  ghost function RecordPreds<S>(dom: Domain<S>, order: seq<Direction>, state: S, preds: map<S, (S, Direction)>, n: nat): map<S, (S, Direction)>
    requires n <= |order|
  {
    if n == 0 then preds
    else match Successor(dom, state, order[n - 1])
      case None => RecordPreds(dom, order, state, preds, n - 1)
      case Some(t) => RecordPreds(dom, order, state, preds, n - 1)[t := (state, order[n - 1])]
  }

  /** The scan pushes each successor once per move producing it. */
  lemma {:induction false} PushSuccessorsBag<S>(dom: Domain<S>, order: seq<Direction>, state: S, heap: multiset<S>, n: nat)
    requires n <= |order|
    ensures PushSuccessors(dom, order, state, heap, n) == heap + SuccessorBag(dom, order, state, n)
  {
    if n > 0 {
      PushSuccessorsBag(dom, order, state, heap, n - 1);
    }
  }

  /** The scan gives every successor cost `cost + 1` and leaves every other
      entry alone. */
  lemma {:induction false} RecordCostsEntry<S>(dom: Domain<S>, order: seq<Direction>, state: S, cost: nat, costs: map<S, nat>, n: nat, t: S)
    requires n <= |order|
    ensures var m := RecordCosts(dom, order, state, cost, costs, n);
      && (t in m <==> t in costs || t in SuccessorBag(dom, order, state, n))
      && (t in SuccessorBag(dom, order, state, n) ==> m[t] == cost + 1)
      && (t !in SuccessorBag(dom, order, state, n) && t in costs ==> m[t] == costs[t])
  {
    if n > 0 {
      RecordCostsEntry(dom, order, state, cost, costs, n - 1, t);
    }
  }

  /** The scan makes `state` the predecessor of every successor, through the
      last move producing it, and leaves every other entry alone. */
  lemma {:induction false} RecordPredsEntry<S>(dom: Domain<S>, order: seq<Direction>, state: S, preds: map<S, (S, Direction)>, n: nat, t: S)
    requires n <= |order|
    ensures var m := RecordPreds(dom, order, state, preds, n);
      && (t in m <==> t in preds || t in SuccessorBag(dom, order, state, n))
      && (t in SuccessorBag(dom, order, state, n) ==>
            m[t] == (state, order[LastMoveIndex(dom, order, state, n, t)]))
      && (t !in SuccessorBag(dom, order, state, n) && t in preds ==> m[t] == preds[t])
  {
    if n > 0 {
      RecordPredsEntry(dom, order, state, preds, n - 1, t);
    }
  }

  /** The bookkeeping of one expansion: heap, cost map, predecessor map and
      the goal state found, if any. */
  datatype Scanned<S> = Scanned(heap: multiset<S>, costs: map<S, nat>, preds: map<S, (S, Direction)>, goal: Option<S>)

  /** The rest of the scan from move `i` on, starting from `acc`. */
  ghost function ScanFrom<S>(dom: Domain<S>, order: seq<Direction>, state: S, cost: nat, acc: Scanned<S>, i: nat): Scanned<S>
    requires i <= |order|
    decreases |order| - i
  {
    if i == |order| then acc
    else match Successor(dom, state, order[i])
      case None => ScanFrom(dom, order, state, cost, acc, i + 1)
      case Some(t) =>
        var next := Scanned(acc.heap + multiset{t}, acc.costs[t := cost + 1], acc.preds[t := (state, order[i])], None);
        if CheckEndSearch(dom, t) then next.(goal := Some(t))
        else ScanFrom(dom, order, state, cost, next, i + 1)
  }

  /** The state a scan reaches after its first `n` moves, none of which found a goal. */
  ghost function ScannedAfter<S>(dom: Domain<S>, order: seq<Direction>, state: S, cost: nat, start: Scanned<S>, n: nat): Scanned<S>
    requires n <= |order|
  {
    Scanned(PushSuccessors(dom, order, state, start.heap, n), RecordCosts(dom, order, state, cost, start.costs, n),
            RecordPreds(dom, order, state, start.preds, n), None)
  }

  /** A scan resumed at move `i`, before the move that stops it, pushes and
      records the successors of the first `MovesTried` moves and finds a goal
      exactly when the last of them reaches one. */
  lemma {:induction false} ScanFromResult<S>(dom: Domain<S>, order: seq<Direction>, state: S, cost: nat, start: Scanned<S>, i: nat)
    requires order != [] && i < MovesTried(dom, order, state)
    ensures var n := MovesTried(dom, order, state);
      ScanFrom(dom, order, state, cost, ScannedAfter(dom, order, state, cost, start, i), i)
      == ScannedAfter(dom, order, state, cost, start, n).(goal :=
           if ReachesGoal(dom, state, order[n - 1]) then Successor(dom, state, order[n - 1]) else None)
    decreases |order| - i
  {
    var n := MovesTried(dom, order, state);
    if i + 1 < n {
      assert !ReachesGoal(dom, state, order[i]);
      ScanFromResult(dom, order, state, cost, start, i + 1);
    } else if i + 1 < |order| {
      assert ReachesGoal(dom, state, order[i]);
    }
  }

  /** The `for` loop of `search`, over the moves of `order` (`Directions` in
      `search`): every legal move records cost `cost + 1` and predecessor
      `(state, direction)` for the new state, overwriting earlier entries, and
      pushes the new state; the scan stops at the first new state passing the
      goal test, which is returned. */
  method ExpandState<S(==)>(
    dom: Domain<S>, order: seq<Direction>, state: S, cost: nat,
    heap: multiset<S>, pathCosts: map<S, nat>, predecessors: map<S, (S, Direction)>)
    returns (heap': multiset<S>, pathCosts': map<S, nat>, predecessors': map<S, (S, Direction)>, goal: Option<S>)
    requires order != []
    ensures var n := MovesTried(dom, order, state);
      && heap' == PushSuccessors(dom, order, state, heap, n)
      && pathCosts' == RecordCosts(dom, order, state, cost, pathCosts, n)
      && predecessors' == RecordPreds(dom, order, state, predecessors, n)
    ensures var last := order[MovesTried(dom, order, state) - 1];
      goal == if ReachesGoal(dom, state, last) then Successor(dom, state, last) else None
  {
    heap', pathCosts', predecessors', goal := heap, pathCosts, predecessors, None;
    ghost var start := Scanned(heap, pathCosts, predecessors, None);
    var i := 0;
    while i < |order|
      invariant i <= |order|
      invariant ScanFrom(dom, order, state, cost, Scanned(heap', pathCosts', predecessors', None), i)
             == ScanFrom(dom, order, state, cost, start, 0)
    {
      var direction := order[i];
      var next := dom.apply(state, direction);
      if next.Some? {
        var newState := next.value;
        pathCosts' := pathCosts'[newState := cost + 1];
        predecessors' := predecessors'[newState := (state, direction)];
        heap' := heap' + multiset{newState};
        if CheckEndSearch(dom, newState) {
          goal := Some(newState);
          break;
        }
      }
      i := i + 1;
    }
    assert Scanned(heap', pathCosts', predecessors', goal) == ScanFrom(dom, order, state, cost, start, 0);
    ScanFromResult(dom, order, state, cost, start, 0);
  }

  /** Every state on the heap lies in the state space, has a cost and is
      reachable from the initial state. */
  ghost predicate FrontierKnown<S>(dom: Domain<S>, init: S, space: set<S>, heap: multiset<S>, costs: map<S, nat>)
  {
    forall s :: s in heap ==> s in costs && s in ReachableStates(dom, init, space)
  }

  /** Expanding a reachable state of a closed space keeps the heap known. */
  lemma ExpansionKeepsFrontier<S>(
    dom: Domain<S>, order: seq<Direction>, init: S, space: set<S>, state: S, cost: nat,
    heap: multiset<S>, costs: map<S, nat>, n: nat)
    requires n <= |order| && Closed(dom, space) && state in space && Reachable(dom, init, state)
    requires FrontierKnown(dom, init, space, heap, costs)
    ensures FrontierKnown(dom, init, space, PushSuccessors(dom, order, state, heap, n),
                          RecordCosts(dom, order, state, cost, costs, n))
  {
    PushSuccessorsBag(dom, order, state, heap, n);
    forall s | s in PushSuccessors(dom, order, state, heap, n)
      ensures s in RecordCosts(dom, order, state, cost, costs, n) && s in ReachableStates(dom, init, space)
    {
      RecordCostsEntry(dom, order, state, cost, costs, n, s);
      if s !in heap {
        SuccessorBagMembers(dom, order, state, n, s);
        var i :| 0 <= i < n && Successor(dom, state, order[i]) == Some(s);
        ReachableStep(dom, init, state, order[i]);
      }
    }
  }

  /** A scan of every move of `order` pushes every successor reached by a move of `order`. */
  lemma FullScanCovers<S>(dom: Domain<S>, order: seq<Direction>, state: S, heap: multiset<S>, d: Direction)
    requires d in order && Successor(dom, state, d).Some?
    ensures Successor(dom, state, d).value in PushSuccessors(dom, order, state, heap, |order|)
  {
    var i :| 0 <= i < |order| && order[i] == d;
    SuccessorBagMembers(dom, order, state, |order|, Successor(dom, state, d).value);
    PushSuccessorsBag(dom, order, state, heap, |order|);
  }

  /** Every legal move out of an expanded state leads to a state on the heap
      or to an expanded state. */
  ghost predicate Covered<S>(dom: Domain<S>, heap: multiset<S>, expanded: set<S>)
  {
    forall s, d :: s in expanded && Successor(dom, s, d).Some? ==>
      Successor(dom, s, d).value in heap || Successor(dom, s, d).value in expanded
  }

  /** What holds of the state of `search` at the head of its `while` loop.
      Until a goal has been met (`found`), the expanded states and the heap
      cover every move out of the expanded ones; once one has, a goal state
      `pending` waits on the heap. */
  ghost predicate SearchInvariant<S>(
    dom: Domain<S>, init: S, space: set<S>, heap: multiset<S>, costs: map<S, nat>,
    expanded: set<S>, found: bool, pending: S)
  {
    && expanded <= ReachableStates(dom, init, space)
    && (forall s :: s in expanded ==> !dom.isGoal(s))
    && FrontierKnown(dom, init, space, heap, costs)
    && (!found ==> (init in heap || init in expanded) && Covered(dom, heap, expanded))
    && (found ==> pending in heap && dom.isGoal(pending))
  }

  lemma InitialInvariant<S>(dom: Domain<S>, init: S, space: set<S>)
    requires init in space
    ensures SearchInvariant(dom, init, space, multiset{init}, map[init := 1], {}, false, init)
  {
    assert Run(dom, init, []) == Some(init);
  }

  /** Popping a state that was already expanded keeps the invariant. */
  lemma SkipKeepsInvariant<S>(
    dom: Domain<S>, init: S, space: set<S>, heap: multiset<S>, costs: map<S, nat>,
    expanded: set<S>, found: bool, pending: S, state: S)
    requires SearchInvariant(dom, init, space, heap, costs, expanded, found, pending)
    requires state in heap && state in expanded
    ensures SearchInvariant(dom, init, space, heap - multiset{state}, costs, expanded, found, pending)
  {
  }

  /** Expanding a popped state that is neither expanded nor a goal keeps the
      invariant: its successors join the heap, and a goal among them becomes
      the pending goal. `order` holds every move. */
  lemma ExpandKeepsInvariant<S>(
    dom: Domain<S>, order: seq<Direction>, init: S, space: set<S>, heap: multiset<S>, costs: map<S, nat>,
    expanded: set<S>, found: bool, pending: S, state: S, cost: nat, goal: Option<S>)
    requires order != [] && (forall d :: d in order) && Closed(dom, space)
    requires SearchInvariant(dom, init, space, heap, costs, expanded, found, pending)
    requires state in heap && state !in expanded && !dom.isGoal(state)
    requires var last := order[MovesTried(dom, order, state) - 1];
      goal == if ReachesGoal(dom, state, last) then Successor(dom, state, last) else None
    ensures var n := MovesTried(dom, order, state);
      SearchInvariant(dom, init, space,
        PushSuccessors(dom, order, state, heap - multiset{state}, n),
        RecordCosts(dom, order, state, cost, costs, n),
        expanded + {state}, found || goal.Some?, if goal.Some? then goal.value else pending)
  {
    var n := MovesTried(dom, order, state);
    var rest := heap - multiset{state};
    var heap' := PushSuccessors(dom, order, state, rest, n);
    var pending' := if goal.Some? then goal.value else pending;
    var expanded' := expanded + {state};
    ExpansionKeepsFrontier(dom, order, init, space, state, cost, rest, costs, n);
    PushSuccessorsBag(dom, order, state, rest, n);
    if goal.Some? {
      assert goal.value in heap';
      assert Reachable(dom, init, pending');
    } else {
      assert n == |order|;
      if !found {
        forall s, d | s in expanded' && Successor(dom, s, d).Some?
          ensures Successor(dom, s, d).value in heap' || Successor(dom, s, d).value in expanded'
        {
          if s == state {
            FullScanCovers(dom, order, state, rest, d);
          }
        }
      } else {
        assert pending != state;
      }
    }
  }

  /** A search whose heap runs empty met no goal and expanded exactly the
      states reachable from the initial state. */
  lemma ExhaustedSearch<S>(
    dom: Domain<S>, init: S, space: set<S>, costs: map<S, nat>,
    expanded: set<S>, found: bool, pending: S)
    requires SearchInvariant(dom, init, space, multiset{}, costs, expanded, found, pending)
    ensures !found && expanded == ReachableStates(dom, init, space) && !GoalReachable(dom, init)
  {
    assert Closed(dom, expanded);
    forall t | Reachable(dom, init, t)
      ensures t in expanded
    {
      ClosedHoldsReachable(dom, expanded, init, t);
    }
    if GoalReachable(dom, init) {
      var plan :| IsValidPlan(dom, init, plan);
      assert Reachable(dom, init, Run(dom, init, plan).value);
      assert false;
    }
  }

  /** The part of an iteration of the `while` loop of `search` that expands a
      popped state which is neither expanded nor a goal: it looks up the
      state's cost, runs the `for` loop over the four directions, builds the
      plan with `backtrack_moves` when that loop meets a goal, and marks the
      state expanded. `popped` is the heap before the pop. `diverged` reports
      that `backtrack_moves` never returns. */
  method ExpandPopped<S(==)>(
    dom: Domain<S>, ghost init: S, ghost space: set<S>, ghost popped: multiset<S>, state: S,
    heap: multiset<S>, pathCosts: map<S, nat>, predecessors: map<S, (S, Direction)>,
    expanded: set<S>, result: Option<seq<Direction>>, ghost pending: S)
    returns (heap': multiset<S>, pathCosts': map<S, nat>, predecessors': map<S, (S, Direction)>,
             expanded': set<S>, result': Option<seq<Direction>>, diverged: bool, ghost pending': S)
    requires Closed(dom, space)
    requires SearchInvariant(dom, init, space, popped, pathCosts, expanded, result.Some?, pending)
    requires state in popped && heap == popped - multiset{state}
    requires state !in expanded && !dom.isGoal(state)
    ensures var n := MovesTried(dom, Directions, state);
      && heap' == PushSuccessors(dom, Directions, state, heap, n)
      && pathCosts' == RecordCosts(dom, Directions, state, pathCosts[state], pathCosts, n)
      && predecessors' == RecordPreds(dom, Directions, state, predecessors, n)
    ensures var last := Directions[MovesTried(dom, Directions, state) - 1];
      var g := if ReachesGoal(dom, state, last) then Successor(dom, state, last) else None;
      && (g.None? ==> result' == result && !diverged)
      && (g.Some? ==> (diverged <==> BacktrackMoves(g.value, predecessors').None?))
      && (g.Some? && !diverged ==> result' == BacktrackMoves(g.value, predecessors'))
    ensures expanded' == expanded + {state}
    ensures |space - expanded'| < |space - expanded|
    ensures !diverged ==> SearchInvariant(dom, init, space, heap', pathCosts', expanded', result'.Some?, pending')
    ensures diverged ==> GoalReachable(dom, init)
  {
    var cost := pathCosts[state];
    var goal;
    heap', pathCosts', predecessors', goal := ExpandState(dom, Directions, state, cost, heap, pathCosts, predecessors);
    AllDirectionsListed();
    ExpandKeepsInvariant(dom, Directions, init, space, popped, pathCosts, expanded, result.Some?, pending, state, cost, goal);
    result', diverged, pending' := result, false, pending;
    if goal.Some? {
      pending' := goal.value;
      var moves := BacktrackMoves(goal.value, predecessors');
      if moves.None? {
        ReachedGoal(dom, init, pending');
        diverged := true;
      } else {
        result' := Some(moves.value);
      }
    }
    expanded' := expanded + {state};
    assert space - expanded' == (space - expanded) - {state};
  }

  /** `search`, with the heap pop left open: any state on the heap may come
      out next. `space` is a finite set of states, closed under moves, that
      holds the initial state; it only bounds the run. */
  method Search<S(==)>(dom: Domain<S>, init: S, ghost space: set<S>) returns (outcome: Outcome)
    requires init in space && Closed(dom, space)
    ensures CheckEndSearch(dom, init) ==> outcome == Returned(Some([]), Stats(0))
    ensures outcome.Returned? ==> outcome.result == None || outcome.result == Some([])
    ensures outcome.Returned? ==> (outcome.result.Some? <==> GoalReachable(dom, init))
    ensures outcome.Returned? ==> outcome.stats.expanded <= |ReachableStates(dom, init, space)|
    ensures outcome.Returned? && outcome.result.None? ==> outcome.stats.expanded == |ReachableStates(dom, init, space)|
    ensures outcome.BacktrackDiverges? ==> GoalReachable(dom, init) && !CheckEndSearch(dom, init)
  {
    if CheckEndSearch(dom, init) {
      return Returned(Some([]), Stats(0));
    }
    var heap: multiset<S> := multiset{init};
    var pathCosts: map<S, nat> := map[init := 1];
    var predecessors: map<S, (S, Direction)> := map[];
    var expanded: set<S> := {};
    var result: Option<seq<Direction>> := None;
    ghost var pending := init;
    InitialInvariant(dom, init, space);
    while heap != multiset{}
      invariant SearchInvariant(dom, init, space, heap, pathCosts, expanded, result.Some?, pending)
      decreases |space - expanded|, |heap|
    {
      var state :| state in heap;
      ghost var popped := heap;
      heap := heap - multiset{state};
      if state in expanded {
        SkipKeepsInvariant(dom, init, space, popped, pathCosts, expanded, result.Some?, pending, state);
        continue;
      }
      if CheckEndSearch(dom, state) {
        ReachedGoal(dom, init, state);
        result := Some([]);
        break;
      }
      var diverged;
      heap, pathCosts, predecessors, expanded, result, diverged, pending :=
        ExpandPopped(dom, init, space, popped, state, heap, pathCosts, predecessors, expanded, result, pending);
      if diverged {
        return BacktrackDiverges;
      }
    }
    if result.None? {
      ExhaustedSearch(dom, init, space, pathCosts, expanded, false, pending);
    }
    SubsetCount(expanded, ReachableStates(dom, init, space));
    outcome := Returned(result, Stats(|expanded|));
  }
}
