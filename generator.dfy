/**
 * The puzzle generator: a random solved grid, then clues removed in a
 * shuffled order while the puzzle keeps exactly one solution, then a
 * clue-count window and a hardness test that rejects puzzles the
 * single-candidate logic alone can finish.
 *
 * Math.random is the injected Rng, so every property below holds for every
 * sequence of random draws.
 */
module Generator {
  import opened Wrappers
  import opened Grid
  import opened Random
  import opened Seqs
  import opened Solver
  import opened SolutionCount
  import opened Logic

  datatype Generated = Generated(puzzle: seq<int>, solution: seq<int>)

  // ---------------------------------------------------------------------------
  // The empty grid has a solution
  // ---------------------------------------------------------------------------

  /** A fixed solved grid: row r is the row 1..9 shifted by 3 * (r % 3) + r / 3. */
  function Pattern(r: int, c: int): int
  {
    (Shift(r) + c) % 9 + 1
  }

  function PatternGrid(): (g: seq<int>)
    ensures ValidGrid(g) && Filled(g)
  {
    seq(81, i requires 0 <= i < 81 => Pattern(Row(i), Col(i)))
  }

  /** Cells whose shifted columns differ, by less than 9, get different digits. */
  lemma PatternDiffer(r1: int, c1: int, r2: int, c2: int)
    requires Shift(r1) + c1 != Shift(r2) + c2
    requires -9 < (Shift(r1) + c1) - (Shift(r2) + c2) < 9
    ensures Pattern(r1, c1) != Pattern(r2, c2)
  {
    var x, y := Shift(r1) + c1, Shift(r2) + c2;
    assert x % 9 != y % 9;
  }

  /** The shift of row r: 0, 3, 6, 1, 4, 7, 2, 5, 8, a different one per row. */
  function Shift(r: int): int
  {
    3 * (r % 3) + r / 3
  }

  lemma ShiftDiffer(r1: int, r2: int)
    requires 0 <= r1 < 9 && 0 <= r2 < 9 && r1 != r2
    ensures 0 <= Shift(r1) < 9 && 0 <= Shift(r2) < 9 && Shift(r1) != Shift(r2)
  {
    assert r1 == 3 * (r1 / 3) + r1 % 3 && r2 == 3 * (r2 / 3) + r2 % 3;
  }

  /** Two cells of one box, apart: their pattern sums differ by less than 9. */
  lemma BoxApart(r1: int, c1: int, r2: int, c2: int)
    requires 0 <= r1 < 9 && 0 <= c1 < 9 && 0 <= r2 < 9 && 0 <= c2 < 9 && (r1 != r2 || c1 != c2)
    requires r1 / 3 == r2 / 3 && c1 / 3 == c2 / 3
    ensures Shift(r1) + c1 != Shift(r2) + c2
    ensures -9 < (Shift(r1) + c1) - (Shift(r2) + c2) < 9
  {
    assert r1 == 3 * (r1 / 3) + r1 % 3 && r2 == 3 * (r2 / 3) + r2 % 3;
    assert c1 == 3 * (c1 / 3) + c1 % 3 && c2 == 3 * (c2 / 3) + c2 % 3;
    assert (Shift(r1) + c1) - (Shift(r2) + c2) == 3 * (r1 % 3 - r2 % 3) + (c1 % 3 - c2 % 3);
  }

  /** Cells in one box have the same box row and box column. */
  lemma SameBox(i: int, j: int)
    requires 0 <= i < 81 && 0 <= j < 81 && Box(i) == Box(j)
    ensures Row(i) / 3 == Row(j) / 3 && Col(i) / 3 == Col(j) / 3
  {
    IndexRoundTrip(i);
    IndexRoundTrip(j);
  }

  /** Peers get different digits in the pattern grid. */
  lemma PatternPeers(i: int, j: int)
    requires IsPeer(i, j)
    ensures Pattern(Row(i), Col(i)) != Pattern(Row(j), Col(j))
  {
    IndexRoundTrip(i);
    IndexRoundTrip(j);
    var r1, c1, r2, c2 := Row(i), Col(i), Row(j), Col(j);
    assert r1 != r2 || c1 != c2 by {
      assert i == CellIndex(r1, c1) && j == CellIndex(r2, c2);
    }
    if r1 == r2 {
      PatternDiffer(r1, c1, r2, c2);
    } else if c1 == c2 {
      ShiftDiffer(r1, r2);
      PatternDiffer(r1, c1, r2, c2);
    } else {
      SameBox(i, j);
      BoxApart(r1, c1, r2, c2);
      PatternDiffer(r1, c1, r2, c2);
    }
  }

  lemma PatternNoClash()
    ensures NoClash(PatternGrid())
  {
    var g := PatternGrid();
    forall i, j | 0 <= i < 81 && 0 <= j < 81 && IsPeer(i, j) && g[i] != 0
      ensures g[j] != g[i]
    {
      PatternPeers(i, j);
    }
  }

  /** Solving the empty grid cannot fail. */
  lemma EmptySolvable()
    ensures !Unsolvable(EmptyGrid())
  {
    PatternNoClash();
    assert IsCompletion(EmptyGrid(), PatternGrid());
  }

  /** generateSolvedGrid: a randomized solve of the empty grid, which always succeeds. */
  method GenerateSolvedGrid(rng: Rng) returns (solution: seq<int>)
    modifies rng
    ensures IsCompletion(EmptyGrid(), solution)
  {
    EmptySolvable();
    var r := Solve(EmptyGrid(), true, rng);
    solution := r.value;
  }

  // ---------------------------------------------------------------------------
  // Facts the removal loop relies on
  // ---------------------------------------------------------------------------

  /** A grid whose clues all agree with a clash-free grid is clash-free. */
  lemma SubgridNoClash(g: seq<int>, s: seq<int>)
    requires Extends(g, s) && NoClash(s)
    ensures NoClash(g)
  {
    forall i, j | 0 <= i < 81 && 0 <= j < 81 && IsPeer(i, j) && g[i] != 0
      ensures g[j] != g[i]
    {
      if g[j] != 0 {
        assert s[i] != s[j];
      }
    }
  }

  function Range(n: nat): (r: seq<int>)
    ensures |r| == n && forall i :: 0 <= i < n ==> r[i] == i
  {
    seq(n, i => i)
  }

  /** A shuffle of 0..80 lists every cell exactly once. */
  lemma ShuffledCells(order: seq<int>)
    requires multiset(order) == multiset(Range(81))
    ensures |order| == 81 && Distinct(order)
    ensures forall k :: 0 <= k < 81 ==> 0 <= order[k] < 81
    ensures forall c :: 0 <= c < 81 ==> c in order
  {
    assert Distinct(Range(81));
    forall c | 0 <= c < 81
      ensures c in order
    {
      assert Range(81)[c] == c;
      assert c in multiset(Range(81));
    }
    PermutationDistinct(Range(81), order);
    assert |order| == |multiset(order)| == 81;
    forall k | 0 <= k < 81
      ensures 0 <= order[k] < 81
    {
      assert order[k] in multiset(Range(81));
    }
  }

  // ---------------------------------------------------------------------------
  // The generator
  // ---------------------------------------------------------------------------

  /**
   * What tryGeneratePuzzle promises on success: the clues agree with the
   * solution, it is the puzzle's only solution, the clue count is in the
   * window, and the single-candidate logic does not finish the puzzle.
   */
  ghost predicate HardPuzzle(targetClues: int, p: Generated)
  {
    ValidGrid(p.puzzle) && IsCompletion(p.puzzle, p.solution) &&
    (forall t :: IsCompletion(p.puzzle, t) ==> t == p.solution) &&
    ClueCount(p.puzzle) <= targetClues + 2 &&
    (targetClues <= 81 ==> targetClues <= ClueCount(p.puzzle)) &&
    !LogicOnly(p.puzzle).solved
  }

  /** The removal loop's invariant: clues that agree with the solution, which is the only one. */
  ghost predicate Reduced(puzzle: seq<int>, solution: seq<int>)
  {
    ValidGrid(puzzle) && IsCompletion(puzzle, solution) && UniqueCompletion(puzzle)
  }

  /** Clearing the clue at c would leave the puzzle without a unique solution. */
  ghost predicate NeededClue(puzzle: seq<int>, c: int)
    requires 0 <= c < |puzzle|
  {
    !UniqueCompletion(puzzle[c := 0])
  }

  /** A puzzle with some clues cleared keeps every solution of the original. */
  lemma FewerCluesKeepSolution(q: seq<int>, p: seq<int>, s: seq<int>)
    requires Extends(q, p) && IsCompletion(p, s)
    ensures IsCompletion(q, s)
  {
  }

  /** A puzzle that is not uniquely solvable but has solution s has another one. */
  lemma AnotherSolution(p: seq<int>, s: seq<int>) returns (t: seq<int>)
    requires IsCompletion(p, s) && !UniqueCompletion(p)
    ensures IsCompletion(p, t) && t != s
  {
    assert !forall u :: IsCompletion(p, u) ==> u == s;
    t :| IsCompletion(p, t) && t != s;
  }

  /** Two different solutions rule out a unique one. */
  lemma TwoSolutions(q: seq<int>, a: seq<int>, b: seq<int>)
    requires IsCompletion(q, a) && IsCompletion(q, b) && a != b
    ensures !UniqueCompletion(q)
  {
    forall u | IsCompletion(q, u)
      ensures !forall t :: IsCompletion(q, t) ==> t == u
    {
      if u == a {
        assert IsCompletion(q, b);
      } else {
        assert IsCompletion(q, a);
      }
    }
  }

  /**
   * Clearing more clues never makes a needed clue removable: every solution of
   * the puzzle stays a solution, so two solutions without c stay two.
   */
  lemma NeededStaysNeeded(before: seq<int>, idx: int, c: int, solution: seq<int>)
    requires |before| == 81 && 0 <= idx < 81 && 0 <= c < 81 && c != idx
    requires IsCompletion(before, solution) && NeededClue(before, c)
    ensures NeededClue(before[idx := 0], c)
  {
    var p := before[c := 0];
    var q := before[idx := 0][c := 0];
    FewerCluesKeepSolution(p, before, solution);
    var other := AnotherSolution(p, solution);
    assert Extends(q, p);
    FewerCluesKeepSolution(q, p, solution);
    FewerCluesKeepSolution(q, p, other);
    TwoSolutions(q, solution, other);
  }

  /** One removal of tryGeneratePuzzle: clear the cell, and restore it unless exactly one solution remains. */
  method TryRemove(puzzle: array<int>, idx: int, ghost solution: seq<int>) returns (removed: bool)
    requires puzzle.Length == 81 && 0 <= idx < 81 && Reduced(puzzle[..], solution)
    modifies puzzle
    ensures Reduced(puzzle[..], solution)
    ensures removed ==> puzzle[..] == old(puzzle[..])[idx := 0]
    ensures !removed ==> puzzle[..] == old(puzzle[..])
    ensures removed <==> UniqueCompletion(old(puzzle[..])[idx := 0])
  {
    var backup := puzzle[idx];
    ghost var before := puzzle[..];
    puzzle[idx] := 0;
    assert puzzle[..] == before[idx := 0];
    SubgridNoClash(puzzle[..], solution);
    var count, _ := CountSolutions(puzzle[..], 2);
    if count != 1 {
      puzzle[idx] := backup;
      assert puzzle[..] == before;
      return false;
    }
    return true;
  }

  /** The removal loop of tryGeneratePuzzle, over the cells in the shuffled order. */
  method RemoveClues(puzzle: array<int>, order: seq<int>, ghost solution: seq<int>, targetClues: int)
    returns (clueCount: int)
    requires puzzle.Length == 81 && puzzle[..] == solution && Reduced(solution, solution) && Filled(solution)
    requires |order| == 81 && Distinct(order) && forall k :: 0 <= k < 81 ==> 0 <= order[k] < 81
    requires forall c :: 0 <= c < 81 ==> c in order
    modifies puzzle
    ensures Reduced(puzzle[..], solution)
    ensures clueCount == ClueCount(puzzle[..]) <= 81
    ensures targetClues <= 81 ==> targetClues <= clueCount
    ensures clueCount > targetClues ==>
      forall c :: 0 <= c < 81 && puzzle[c] != 0 ==> NeededClue(puzzle[..], c)
  {
    ZeroCountBound(solution);
    clueCount := 81;

    for k := 0 to 81
      invariant Reduced(puzzle[..], solution)
      invariant clueCount == ClueCount(puzzle[..]) <= 81
      invariant targetClues <= 81 ==> targetClues <= clueCount
      invariant forall m :: k <= m < 81 ==> puzzle[order[m]] != 0
      invariant forall m :: 0 <= m < k && puzzle[order[m]] != 0 ==> NeededClue(puzzle[..], order[m])
    {
      if clueCount <= targetClues {
        break;
      }
      var idx := order[k];
      ghost var before := puzzle[..];
      var removed := TryRemove(puzzle, idx, solution);
      if !removed {
        continue;
      }
      ZeroCountUpdate(before, idx, 0);
      clueCount := clueCount - 1;
      forall m | 0 <= m < k && puzzle[order[m]] != 0
        ensures NeededClue(puzzle[..], order[m])
      {
        NeededStaysNeeded(before, idx, order[m], solution);
      }
    }
    forall c | 0 <= c < 81 && puzzle[c] != 0 && clueCount > targetClues
      ensures NeededClue(puzzle[..], c)
    {
      assert c in order;
      var m :| 0 <= m < 81 && order[m] == c;
    }
  }

  /**
   * tryGeneratePuzzle. The ghost p is the puzzle left by the removal loop: a
   * grid with exactly one solution and at least targetClues clues, in which
   * every clue is needed unless the target was reached. It is
   * returned exactly when its clue count is within two of the target and the
   * single-candidate logic does not finish it.
   */
  method TryGeneratePuzzle(targetClues: int, rng: Rng) returns (r: Option<Generated>, ghost p: seq<int>)
    modifies rng
    ensures ValidGrid(p) && UniqueCompletion(p)
    ensures targetClues <= 81 ==> targetClues <= ClueCount(p)
    ensures ClueCount(p) > targetClues ==> forall c :: 0 <= c < 81 && p[c] != 0 ==> NeededClue(p, c)
    ensures r.None? <==> ClueCount(p) > targetClues + 2 || LogicOnly(p).solved
    ensures r.Some? ==> r.value.puzzle == p && HardPuzzle(targetClues, r.value)
  {
    var solution := GenerateSolvedGrid(rng);
    forall t | IsCompletion(solution, t)
      ensures t == solution
    {
      FilledCompletion(solution, t);
    }
    FilledCompletion(solution, solution);
    var puzzle := new int[81](i requires 0 <= i < 81 => solution[i]);
    assert puzzle[..] == solution;
    var indices := new int[81](i => i);
    assert indices[..] == Range(81);
    Shuffle(indices, rng);
    var order := indices[..];
    ShuffledCells(order);
    var clueCount := RemoveClues(puzzle, order, solution, targetClues);
    p := puzzle[..];

    if clueCount > targetClues + 2 {
      r := None;
      return;
    }
    var tooEasy, _ := LogicOnlySolve(puzzle[..]);
    if tooEasy {
      r := None;
      return;
    }
    r := Some(Generated(puzzle[..], solution));
  }

  /**
   * A puzzle tryGeneratePuzzle rejects: a reduction of a solved grid (one
   * solution, at least targetClues clues, every clue needed unless the target
   * was reached) that has too many clues or that the logic alone finishes.
   */
  ghost predicate Rejected(targetClues: int, q: seq<int>)
  {
    ValidGrid(q) && UniqueCompletion(q) &&
    (targetClues <= 81 ==> targetClues <= ClueCount(q)) &&
    (ClueCount(q) > targetClues ==> forall c :: 0 <= c < 81 && q[c] != 0 ==> NeededClue(q, c)) &&
    (ClueCount(q) > targetClues + 2 || LogicOnly(q).solved)
  }

  /**
   * generateHardPuzzle: up to maxAttempts tries (28 clues and 50 tries by
   * default in the source); None only when every try failed. The ghost
   * fails lists the puzzles the failed tries rejected, in order.
   */
  method GenerateHardPuzzle(targetClues: int, maxAttempts: int, rng: Rng)
    returns (r: Option<Generated>, ghost fails: seq<seq<int>>)
    modifies rng
    ensures forall q :: q in fails ==> Rejected(targetClues, q)
    ensures r.Some? ==> HardPuzzle(targetClues, r.value) && |fails| < maxAttempts
    ensures r.None? ==> |fails| == (if maxAttempts > 0 then maxAttempts else 0)
  {
    fails := [];
    var attempt := 0;
    while attempt < maxAttempts
      invariant attempt >= 0 && |fails| == attempt
      invariant maxAttempts > 0 ==> attempt <= maxAttempts
      invariant maxAttempts <= 0 ==> attempt == 0
      invariant forall q :: q in fails ==> Rejected(targetClues, q)
      decreases maxAttempts - attempt
    {
      var result, p := TryGeneratePuzzle(targetClues, rng);
      if result.Some? {
        return result, fails;
      }
      fails := fails + [p];
      attempt := attempt + 1;
    }
    return None, fails;
  }
}
