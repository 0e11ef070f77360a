/**
 * Two small instances on which `search` as written goes wrong, and the
 * corrected search on the same instances.
 *
 * `Line(goal)` is a row of three cells 0, 1 and 2: `Up` moves one cell
 * towards 2, `Down` one cell towards 0, and `Right` and `Left` are illegal
 * everywhere. The goal test accepts the cell `goal` only.
 */
module Scenarios {
  import opened Wrappers
  import opened Board
  import opened Backtrack
  import opened Engine
  import opened Corrected

  function LineMove(s: int, d: Direction): Option<int>
  {
    match d
    case Up => if 0 <= s < 2 then Some(s + 1) else None
    case Down => if 0 < s <= 2 then Some(s - 1) else None
    case _ => None
  }

  function Line(goal: int): Domain<int>
  {
    Domain(LineMove, (s: int) => s == goal)
  }

  const Cells: set<int> := {0, 1, 2}

  lemma LineClosed(goal: int)
    ensures Closed(Line(goal), Cells)
  {
  }

  /** From cell 0, the plan `[Up, Up]` reaches the goal cell 2, and the empty
      plan does not. */
  lemma UpLinePlans()
    ensures IsValidPlan(Line(2), 0, [Up, Up])
    ensures GoalReachable(Line(2), 0)
    ensures !IsValidPlan(Line(2), 0, [])
  {
  }

  /** Searching from cell 0 for cell 2: `search` as written returns the empty
      plan, which is not a plan from cell 0 to the goal (or never returns). */
  method UpLineAsWritten() returns (outcome: Outcome)
    ensures outcome.Returned? ==> outcome.result == Some([]) && !IsValidPlan(Line(2), 0, outcome.result.value)
  {
    LineClosed(2);
    outcome := Search(Line(2), 0, Cells);
    UpLinePlans();
  }

  /** The chain 2, 1, 0 of the map built from cell 0 gives the plan `[Up, Up]`. */
  lemma UpLineBacktrack()
    ensures BacktrackMoves(2, map[1 := (0, Up), 2 := (1, Up)]) == Some([Up, Up])
  {
    var preds := map[1 := (0, Up), 2 := (1, Up)];
    assert BacktrackMovesRec(0, preds, [Up, Up], 0) == Some([Up, Up]);
    assert [Up] + [Up] == [Up, Up] && [] + [Up] == [Up];
    assert BacktrackMovesRec(1, preds, [Up], 1) == Some([Up, Up]);
    assert BacktrackMovesRec(2, preds, [], 2) == Some([Up, Up]);
    assert Reverse([Up, Up]) == [Up, Up];
  }

  /** The run of `search` as written from cell 0 towards cell 2, step by step.
      The heap holds one state at every pop, so the run is forced: cell 0 is
      expanded, then cell 1, whose `Up` move reaches the goal. `backtrack_moves`
      then returns `[Up, Up]`, but the goal cell 2 is left alone on the heap,
      so the next pop takes it and line 92 replaces that plan by the empty one. */
  method UpLineTrace() returns (heap: multiset<int>, plan: Option<seq<Direction>>)
    ensures heap == multiset{2} && plan == Some([Up, Up])
  {
    var dom := Line(2);
    var costs, preds, goal;
    assert Directions[0] == Up && Directions[1] == Right && Directions[2] == Down && Directions[3] == Left;
    heap, costs, preds, goal := ExpandState(dom, Directions, 0, 1, multiset{}, map[0 := 1], map[]);
    assert heap == multiset{1} && costs == map[0 := 1, 1 := 2] && preds == map[1 := (0, Up)] && goal == None;
    heap, costs, preds, goal := ExpandState(dom, Directions, 1, costs[1], heap - multiset{1}, costs, preds);
    assert preds == map[1 := (0, Up), 2 := (1, Up)] && goal == Some(2);
    UpLineBacktrack();
    plan := BacktrackMoves(goal.value, preds);
  }

  /** The corrected search on the same instance returns a valid plan. */
  method UpLineCorrected() returns (result: Option<seq<Direction>>)
    ensures result.Some? && IsValidPlan(Line(2), 0, result.value)
  {
    LineClosed(2);
    UpLinePlans();
    var stats;
    result, stats := SearchCorrected(Line(2), 0, Cells);
  }

  /** The predecessor map `search` as written holds when it meets the goal
      cell 0 from cell 2. The heap holds one state at every pop, so the run
      is forced: cell 2 is expanded, its `Down` move records 1 -> (2, Down);
      cell 1 is expanded, its `Up` move records 2 -> (1, Up) and its `Down`
      move reaches the goal, recording 0 -> (1, Down). */
  ghost function DownLinePreds(): map<int, (int, Direction)>
  {
    var dom := Line(0);
    var first := RecordPreds(dom, Directions, 2, map[], MovesTried(dom, Directions, 2));
    RecordPreds(dom, Directions, 1, first, MovesTried(dom, Directions, 1))
  }

  /** The entries that map holds. */
  lemma DownLinePredsValue()
    ensures DownLinePreds() == map[1 := (2, Down), 2 := (1, Up), 0 := (1, Down)]
  {
    var dom := Line(0);
    DownLineScans();
    var empty: map<int, (int, Direction)> := map[];
    assert Directions[0] == Up && Directions[1] == Right && Directions[2] == Down && Directions[3] == Left;
    assert RecordPreds(dom, Directions, 2, empty, 2) == empty;
    var first := RecordPreds(dom, Directions, 2, empty, 4);
    assert first == map[1 := (2, Down)];
    assert RecordPreds(dom, Directions, 1, first, 1) == first[2 := (1, Up)];
    assert RecordPreds(dom, Directions, 1, first, 2) == first[2 := (1, Up)];
  }

  /** On the map `map[1 := (2, Down), 2 := (1, Up), 0 := (1, Down)]` the chain
      from 0 never reaches a state without an entry. */
  lemma CyclicMapDiverges()
    ensures var preds := map[1 := (2, Down), 2 := (1, Up), 0 := (1, Down)];
      !ChainEnds(preds, 0) && BacktrackMoves(0, preds) == None
  {
    var preds := map[1 := (2, Down), 2 := (1, Up), 0 := (1, Down)];
    assert [] + [Down] == [Down] && [Down] + [Down] == [Down, Down] && [Down, Down] + [Up] == [Down, Down, Up];
    assert BacktrackMovesRec(1, preds, [Down, Down, Up], 0) == None;
    assert BacktrackMovesRec(2, preds, [Down, Down], 1) == None;
    assert BacktrackMovesRec(1, preds, [Down], 2) == None;
    assert BacktrackMovesRec(0, preds, [], 3) == None;
    assert |preds.Keys| == |{0, 1, 2}| == 3;
    assert BacktrackMoves(0, preds) == None;
    BacktrackMovesNone(0, preds);
  }

  /** On that map the chain from the goal runs 0, 1, 2, 1, 2, ... forever,
      so `backtrack_moves` never returns. */
  lemma DownLineCycle()
    ensures DownLinePreds() == map[1 := (2, Down), 2 := (1, Up), 0 := (1, Down)]
    ensures !ChainEnds(DownLinePreds(), 0)
    ensures BacktrackMoves(0, DownLinePreds()) == None
  {
    DownLinePredsValue();
    CyclicMapDiverges();
  }

  /** The two scans of the run from cell 2: the first tries all four moves and
      records cell 1 only; the second stops at its third move, `Down`, on the
      goal cell 0. */
  lemma DownLineScans()
    ensures var dom := Line(0);
      && MovesTried(dom, Directions, 2) == 4 && !ReachesGoal(dom, 2, Directions[3])
      && 1 in RecordCosts(dom, Directions, 2, 1, map[2 := 1], 4)
      && MovesTried(dom, Directions, 1) == 3 && ReachesGoal(dom, 1, Directions[2])
      && Successor(dom, 1, Directions[2]) == Some(0)
  {
    var dom := Line(0);
    assert Directions[0] == Up && Directions[1] == Right && Directions[2] == Down && Directions[3] == Left;
    assert MovesTried(dom, Directions, 2) == 4;
    assert RecordCosts(dom, Directions, 2, 1, map[2 := 1], 2) == map[2 := 1];
    assert MovesTried(dom, Directions, 1) == 3;
  }

  /** The same run driven through the `for` loop itself: expanding cell 2,
      then the one state left on the heap, cell 1, meets the goal cell 0 with
      the cyclic predecessor map. */
  method DownLineTrace() returns (predecessors: map<int, (int, Direction)>, goal: Option<int>)
    ensures predecessors == DownLinePreds() && goal == Some(0)
    ensures BacktrackMoves(0, predecessors) == None
  {
    var dom := Line(0);
    var heap, costs;
    DownLineScans();
    heap, costs, predecessors, goal := ExpandState(dom, Directions, 2, 1, multiset{}, map[2 := 1], map[]);
    heap, costs, predecessors, goal := ExpandState(dom, Directions, 1, costs[1], heap - multiset{1}, costs, predecessors);
    DownLineCycle();
  }

  /** The corrected search from cell 2 to cell 0 returns a valid plan. */
  method DownLineCorrected() returns (result: Option<seq<Direction>>)
    ensures result.Some? && IsValidPlan(Line(0), 2, result.value)
  {
    LineClosed(0);
    assert IsValidPlan(Line(0), 2, [Down, Down]);
    var stats;
    result, stats := SearchCorrected(Line(0), 2, Cells);
  }
}
