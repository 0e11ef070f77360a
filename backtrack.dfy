/**
 * Path reconstruction (`backtrack_moves`, `backtrack_moves_rec`): follow the
 * predecessor map from a state back to a key that has no entry, collecting
 * the recorded moves goal-to-start, then reverse them.
 *
 * The source recursion has no bound: when the predecessor chain cycles it
 * never returns. The model gives `backtrack_moves_rec` a fuel of one step per
 * map entry and returns None when the fuel runs out; `BacktrackMovesNone`
 * proves that this happens exactly when the chain never reaches a key without
 * an entry, i.e. exactly when the source recursion does not return.
 */
module Backtrack {
  import opened Wrappers
  import opened Board

  /** The state reached after following `i` predecessor entries from `s`
      (a state without an entry is its own ancestor). */
  function Ancestor<S(==)>(preds: map<S, (S, Direction)>, s: S, i: nat): S
    decreases i
  {
    if i == 0 || s !in preds then s else Ancestor(preds, preds[s].0, i - 1)
  }

  /** Following the chain from `s` meets a key without an entry after exactly `k` steps. */
  ghost predicate EndsAfter<S>(preds: map<S, (S, Direction)>, s: S, k: nat)
  {
    && (forall i :: 0 <= i < k ==> Ancestor(preds, s, i) in preds)
    && Ancestor(preds, s, k) !in preds
  }

  ghost predicate ChainEnds<S>(preds: map<S, (S, Direction)>, s: S)
  {
    exists k: nat :: EndsAfter(preds, s, k)
  }

  /** Every recorded entry is a legal move from the recorded parent. */
  ghost predicate Consistent<S>(dom: Domain<S>, preds: map<S, (S, Direction)>)
  {
    forall t :: t in preds ==> Successor(dom, preds[t].0, preds[t].1) == Some(t)
  }

  /** Reference definition: the moves recorded on the first `k` entries of the
      chain from `s`, built directly in start-to-goal order. */
  ghost function ChainMoves<S>(preds: map<S, (S, Direction)>, s: S, k: nat): (moves: seq<Direction>)
    requires forall i :: 0 <= i < k ==> Ancestor(preds, s, i) in preds
    ensures |moves| == k
    decreases k
  {
    if k == 0 then []
    else
      assert Ancestor(preds, s, 0) in preds;
      AncestorOfParent(preds, s, k - 1);
      ChainMoves(preds, preds[s].0, k - 1) + [preds[s].1]
  }

  function Reverse<T>(s: seq<T>): (r: seq<T>)
    ensures |r| == |s|
    ensures forall i :: 0 <= i < |s| ==> r[i] == s[|s| - 1 - i]
  {
    if s == [] then [] else Reverse(s[1..]) + [s[0]]
  }

  /** `backtrack_moves_rec`: pushes the recorded move of each entry onto `moves`
      while walking to the parent; `fuel` bounds the number of steps. */
  function BacktrackMovesRec<S(==)>(current: S, preds: map<S, (S, Direction)>, moves: seq<Direction>, fuel: nat)
    : (r: Option<seq<Direction>>)
    ensures r.Some? ==> |moves| <= |r.value| <= |moves| + fuel && r.value[..|moves|] == moves
    decreases fuel
  {
    if current !in preds then Some(moves)
    else if fuel == 0 then None
    else BacktrackMovesRec(preds[current].0, preds, moves + [preds[current].1], fuel - 1)
  }

  /** `backtrack_moves`: the goal-to-start accumulation, reversed. */
  function BacktrackMoves<S(==)>(state: S, preds: map<S, (S, Direction)>): (r: Option<seq<Direction>>)
    ensures state !in preds ==> r == Some([])
  {
    match BacktrackMovesRec(state, preds, [], |preds|)
    case None => None
    case Some(path) => Some(Reverse(path))
  }

  lemma AncestorOfParent<S>(preds: map<S, (S, Direction)>, s: S, i: nat)
    requires s in preds
    ensures forall j :: 0 <= j <= i ==> Ancestor(preds, s, j + 1) == Ancestor(preds, preds[s].0, j)
  {
  }

  /** Following `a` then `b` entries is following `a + b` entries. */
  lemma {:induction false} AncestorAdd<S>(preds: map<S, (S, Direction)>, s: S, a: nat, b: nat)
    ensures Ancestor(preds, s, a + b) == Ancestor(preds, Ancestor(preds, s, a), b)
    decreases a
  {
    if a > 0 && s in preds {
      AncestorAdd(preds, preds[s].0, a - 1, b);
    }
  }

  /** The states met before the end of a chain are pairwise distinct. */
  lemma ChainDistinct<S>(preds: map<S, (S, Direction)>, s: S, k: nat, i: nat, j: nat)
    requires EndsAfter(preds, s, k)
    requires i < j < k
    ensures Ancestor(preds, s, i) != Ancestor(preds, s, j)
  {
    var m := k - j;
    AncestorAdd(preds, s, j, m);
    AncestorAdd(preds, s, i, m);
    assert Ancestor(preds, s, i + m) in preds;
  }

  /** The first `n` states met walking back from `s`. */
  ghost function Visited<S>(preds: map<S, (S, Direction)>, s: S, n: nat): set<S>
  {
    if n == 0 then {} else Visited(preds, s, n - 1) + {Ancestor(preds, s, n - 1)}
  }

  lemma {:induction false} VisitedMembers<S>(preds: map<S, (S, Direction)>, s: S, n: nat, x: S)
    requires x in Visited(preds, s, n)
    ensures exists i :: 0 <= i < n && x == Ancestor(preds, s, i)
  {
    if x != Ancestor(preds, s, n - 1) {
      VisitedMembers(preds, s, n - 1, x);
    }
  }

  lemma {:induction false} VisitedCount<S>(preds: map<S, (S, Direction)>, s: S, n: nat)
    requires forall i, j :: 0 <= i < j < n ==> Ancestor(preds, s, i) != Ancestor(preds, s, j)
    ensures |Visited(preds, s, n)| == n
  {
    if n > 0 {
      VisitedCount(preds, s, n - 1);
      if Ancestor(preds, s, n - 1) in Visited(preds, s, n - 1) {
        VisitedMembers(preds, s, n - 1, Ancestor(preds, s, n - 1));
      }
    }
  }

  lemma {:induction false} SubsetCount<T>(a: set<T>, b: set<T>)
    requires a <= b
    ensures |a| <= |b|
    decreases |a|
  {
    if a != {} {
      var x :| x in a;
      SubsetCount(a - {x}, b - {x});
    }
  }

  /** A chain that ends does so within as many steps as the map has entries. */
  lemma EndsWithinEntries<S>(preds: map<S, (S, Direction)>, s: S, k: nat)
    requires EndsAfter(preds, s, k)
    ensures k <= |preds|
  {
    forall i, j | 0 <= i < j < k
      ensures Ancestor(preds, s, i) != Ancestor(preds, s, j)
    {
      ChainDistinct(preds, s, k, i, j);
    }
    VisitedCount(preds, s, k);
    forall x | x in Visited(preds, s, k)
      ensures x in preds.Keys
    {
      VisitedMembers(preds, s, k, x);
    }
    SubsetCount(Visited(preds, s, k), preds.Keys);
  }

  /** With every entry a legal move, the chain path leads from the chain's
      root to `s`. */
  lemma {:induction false} ChainMovesValid<S>(dom: Domain<S>, preds: map<S, (S, Direction)>, s: S, k: nat)
    requires Consistent(dom, preds)
    requires forall i :: 0 <= i < k ==> Ancestor(preds, s, i) in preds
    ensures Run(dom, Ancestor(preds, s, k), ChainMoves(preds, s, k)) == Some(s)
    decreases k
  {
    if k > 0 {
      assert Ancestor(preds, s, 0) in preds;
      AncestorOfParent(preds, s, k - 1);
      var parent := preds[s].0;
      ChainMovesValid(dom, preds, parent, k - 1);
      RunAppend(dom, Ancestor(preds, parent, k - 1), ChainMoves(preds, parent, k - 1), preds[s].1);
    }
  }

  lemma ReverseSnoc<T>(s: seq<T>, x: T)
    ensures Reverse(s + [x]) == [x] + Reverse(s)
  {
  }

  lemma ReverseReverse<T>(s: seq<T>)
    ensures Reverse(Reverse(s)) == s
  {
  }

  /** Along a chain that ends after `k` steps, the recursion appends the chain's
      moves in goal-to-start order. */
  lemma {:induction false} BacktrackMovesRecFollowsChain<S>(
    current: S, preds: map<S, (S, Direction)>, moves: seq<Direction>, fuel: nat, k: nat)
    requires EndsAfter(preds, current, k) && k <= fuel
    ensures BacktrackMovesRec(current, preds, moves, fuel) == Some(moves + Reverse(ChainMoves(preds, current, k)))
    decreases k
  {
    if k == 0 {
      assert moves + Reverse(ChainMoves(preds, current, k)) == moves;
    } else {
      assert Ancestor(preds, current, 0) in preds;
      AncestorOfParent(preds, current, k);
      var parent, d := preds[current].0, preds[current].1;
      assert EndsAfter(preds, parent, k - 1);
      BacktrackMovesRecFollowsChain(parent, preds, moves + [d], fuel - 1, k - 1);
      ReverseSnoc(ChainMoves(preds, parent, k - 1), d);
      assert moves + [d] + Reverse(ChainMoves(preds, parent, k - 1))
          == moves + Reverse(ChainMoves(preds, current, k));
    }
  }

  /** When the recursion returns, the chain ends after as many steps as moves it added. */
  lemma {:induction false} BacktrackMovesRecEnds<S>(current: S, preds: map<S, (S, Direction)>, moves: seq<Direction>, fuel: nat)
    requires BacktrackMovesRec(current, preds, moves, fuel).Some?
    ensures EndsAfter(preds, current, |BacktrackMovesRec(current, preds, moves, fuel).value| - |moves|)
    decreases fuel
  {
    if current in preds {
      var parent, d := preds[current].0, preds[current].1;
      BacktrackMovesRecEnds(parent, preds, moves + [d], fuel - 1);
      var k := |BacktrackMovesRec(current, preds, moves, fuel).value| - |moves|;
      AncestorOfParent(preds, current, k);
    }
  }

  /** If the chain from `state` ends after `k` steps, `backtrack_moves` returns
      the `k` recorded moves in start-to-goal order. */
  lemma BacktrackMovesFollowsChain<S>(state: S, preds: map<S, (S, Direction)>, k: nat)
    requires EndsAfter(preds, state, k)
    ensures BacktrackMoves(state, preds) == Some(ChainMoves(preds, state, k))
  {
    EndsWithinEntries(preds, state, k);
    BacktrackMovesRecFollowsChain(state, preds, [], |preds|, k);
    assert [] + Reverse(ChainMoves(preds, state, k)) == Reverse(ChainMoves(preds, state, k));
    ReverseReverse(ChainMoves(preds, state, k));
  }

  /** `backtrack_moves` has no result exactly when the chain never reaches a key
      without an entry, which is when the source recursion never returns. */
  lemma BacktrackMovesNone<S>(state: S, preds: map<S, (S, Direction)>)
    ensures BacktrackMoves(state, preds).None? <==> !ChainEnds(preds, state)
  {
    if BacktrackMovesRec(state, preds, [], |preds|).Some? {
      BacktrackMovesRecEnds(state, preds, [], |preds|);
    }
    if ChainEnds(preds, state) {
      var k: nat :| EndsAfter(preds, state, k);
      BacktrackMovesFollowsChain(state, preds, k);
    }
  }

  /** With every entry a legal move, a chain ending after `k` steps yields a
      plan leading from the chain's root to `state`. */
  lemma BacktrackMovesValid<S>(dom: Domain<S>, state: S, preds: map<S, (S, Direction)>, k: nat)
    requires Consistent(dom, preds) && EndsAfter(preds, state, k)
    ensures BacktrackMoves(state, preds).Some?
    ensures Run(dom, Ancestor(preds, state, k), BacktrackMoves(state, preds).value) == Some(state)
  {
    BacktrackMovesFollowsChain(state, preds, k);
    ChainMovesValid(dom, preds, state, k);
  }
}
