/**
 * The conflict validator: which cells share a digit with a peer, and whether
 * the player's grid is solved.
 *
 * A grid here is any 81 numbers; the validator does not rely on their being
 * in 0..9.
 */
module Validate {
  import opened Grid

  /** Cells a and b are peers holding the same non-zero number. */
  predicate Clash(g: seq<int>, a: int, b: int)
    requires |g| == 81
  {
    IsPeer(a, b) && g[a] != 0 && g[a] == g[b]
  }

  /** Cell i is flagged: it is non-empty and some peer holds the same number. */
  ghost predicate Conflict(g: seq<int>, i: int)
    requires |g| == 81
  {
    exists j :: 0 <= j < 81 && Clash(g, i, j)
  }

  /** The pairs (a, b), a < b, that the nested loops have visited before reaching (i, m). */
  predicate Visited(a: int, b: int, i: int, m: int)
  {
    a < i || (a == i && b < m)
  }

  /** Cell k has a clash with a peer j whose pair with k was already visited. */
  ghost predicate SeenClash(g: seq<int>, k: int, i: int, m: int)
    requires |g| == 81
  {
    exists j :: 0 <= j < 81 && Clash(g, k, j) &&
      ((k < j && Visited(k, j, i, m)) || (j < k && Visited(j, k, i, m)))
  }

  /** A flag set for the pair (i, m) keeps the flags of the pairs visited before it. */
  lemma SeenStep(g: seq<int>, k: int, i: int, m: int)
    requires |g| == 81 && 0 <= k < 81 && 0 <= i < m < 81
    ensures SeenClash(g, k, i, m + 1) <==>
      SeenClash(g, k, i, m) || ((k == i || k == m) && Clash(g, i, m))
  {
    if SeenClash(g, k, i, m + 1) && !SeenClash(g, k, i, m) {
      var j :| 0 <= j < 81 && Clash(g, k, j) &&
        ((k < j && Visited(k, j, i, m + 1)) || (j < k && Visited(j, k, i, m + 1)));
      if k < j {
        assert k == i && j == m;
      } else {
        assert j == i && k == m;
        assert g[i] == g[m];
      }
    }
    if (k == i || k == m) && Clash(g, i, m) {
      if k == i {
        assert Visited(k, m, i, m + 1);
      } else {
        assert Clash(g, m, i);
        assert Visited(i, k, i, m + 1);
      }
    }
  }

  /** Moving on from row i of the pair scan to row i + 1. */
  lemma SeenNext(g: seq<int>, k: int, i: int)
    requires |g| == 81 && 0 <= k < 81 && 0 <= i < 81
    ensures SeenClash(g, k, i, 81) <==> SeenClash(g, k, i + 1, i + 1)
  {
    if SeenClash(g, k, i + 1, i + 1) {
      var j :| 0 <= j < 81 && Clash(g, k, j) &&
        ((k < j && Visited(k, j, i + 1, i + 1)) || (j < k && Visited(j, k, i + 1, i + 1)));
      assert (k < j && Visited(k, j, i, 81)) || (j < k && Visited(j, k, i, 81));
    }
  }

  /** Starting row i of the pair scan visits no new pair. */
  lemma SeenStart(g: seq<int>, k: int, i: int)
    requires |g| == 81 && 0 <= k < 81 && 0 <= i < 81
    ensures SeenClash(g, k, i, i) <==> SeenClash(g, k, i, i + 1)
  {
    if SeenClash(g, k, i, i + 1) {
      var j :| 0 <= j < 81 && Clash(g, k, j) &&
        ((k < j && Visited(k, j, i, i + 1)) || (j < k && Visited(j, k, i, i + 1)));
      assert (k < j && Visited(k, j, i, i)) || (j < k && Visited(j, k, i, i));
    }
  }

  /** A pass that skips cell i because it is empty flags nothing new. */
  lemma SeenSkip(g: seq<int>, k: int, i: int)
    requires |g| == 81 && 0 <= k < 81 && 0 <= i < 81 && g[i] == 0
    ensures SeenClash(g, k, i, i + 1) <==> SeenClash(g, k, i, 81)
  {
    if SeenClash(g, k, i, 81) {
      var j :| 0 <= j < 81 && Clash(g, k, j) &&
        ((k < j && Visited(k, j, i, 81)) || (j < k && Visited(j, k, i, 81)));
      assert (k < j && Visited(k, j, i, i + 1)) || (j < k && Visited(j, k, i, i + 1));
    }
  }

  /** Once every pair is visited, the flags are exactly the conflicts. */
  lemma SeenAll(g: seq<int>, k: int)
    requires |g| == 81 && 0 <= k < 81
    ensures SeenClash(g, k, 81, 81) <==> Conflict(g, k)
  {
    if Conflict(g, k) {
      var j :| 0 <= j < 81 && Clash(g, k, j);
      assert (k < j && Visited(k, j, 81, 81)) || (j < k && Visited(j, k, 81, 81));
    }
  }

  /** The inner loop of getConflicts for cell i. */
  method FlagRow(grid: seq<int>, conflicts: array<bool>, i: int)
    requires |grid| == 81 && conflicts.Length == 81 && 0 <= i < 81 && grid[i] != 0
    requires forall k :: 0 <= k < 81 ==> (conflicts[k] <==> SeenClash(grid, k, i, i + 1))
    modifies conflicts
    ensures forall k :: 0 <= k < 81 ==> (conflicts[k] <==> SeenClash(grid, k, i, 81))
  {
    for j := i + 1 to 81
      invariant forall k :: 0 <= k < 81 ==> (conflicts[k] <==> SeenClash(grid, k, i, j))
    {
      forall k | 0 <= k < 81
        ensures SeenClash(grid, k, i, j + 1) <==>
          SeenClash(grid, k, i, j) || ((k == i || k == j) && Clash(grid, i, j))
      {
        SeenStep(grid, k, i, j);
      }
      if grid[j] == 0 {
        continue;
      }
      if grid[i] != grid[j] {
        continue;
      }
      if Row(i) == Row(j) || Col(i) == Col(j) || Box(i) == Box(j) {
        assert Clash(grid, i, j);
        conflicts[i] := true;
        conflicts[j] := true;
      } else {
        assert !Clash(grid, i, j);
      }
    }
  }

  /** getConflicts: one flag per cell, set exactly on the cells in conflict. */
  method GetConflicts(grid: seq<int>) returns (flags: seq<bool>)
    requires |grid| == 81
    ensures |flags| == 81
    ensures forall i :: 0 <= i < 81 ==> (flags[i] <==> Conflict(grid, i))
  {
    var conflicts := new bool[81](_ => false);
    for i := 0 to 81
      invariant forall k :: 0 <= k < 81 ==> (conflicts[k] <==> SeenClash(grid, k, i, i))
    {
      forall k | 0 <= k < 81
        ensures SeenClash(grid, k, i, i) <==> SeenClash(grid, k, i, i + 1)
        ensures SeenClash(grid, k, i, 81) <==> SeenClash(grid, k, i + 1, i + 1)
      {
        SeenStart(grid, k, i);
        SeenNext(grid, k, i);
      }
      if grid[i] == 0 {
        forall k | 0 <= k < 81
          ensures SeenClash(grid, k, i, i + 1) <==> SeenClash(grid, k, i, 81)
        {
          SeenSkip(grid, k, i);
        }
        continue;
      }
      FlagRow(grid, conflicts, i);
    }
    forall k | 0 <= k < 81
      ensures SeenClash(grid, k, 81, 81) <==> Conflict(grid, k)
    {
      SeenAll(grid, k);
    }
    flags := conflicts[..];
  }

  /** Empty cells are never flagged, and both cells of a clashing pair are. */
  lemma ConflictPair(g: seq<int>, i: int, j: int)
    requires |g| == 81 && 0 <= i < 81 && 0 <= j < 81
    ensures g[i] == 0 ==> !Conflict(g, i)
    ensures Clash(g, i, j) ==> Conflict(g, i) && Conflict(g, j)
  {
    if Clash(g, i, j) {
      assert Clash(g, j, i);
    }
  }

  /** No cell is flagged exactly when no two peers hold the same digit. */
  lemma NoConflictIsNoClash(g: seq<int>)
    requires |g| == 81
    ensures (forall i :: 0 <= i < 81 ==> !Conflict(g, i)) <==> NoClash(g)
  {
    if NoClash(g) {
      forall i | 0 <= i < 81
        ensures !Conflict(g, i)
      {
        forall j | 0 <= j < 81
          ensures !Clash(g, i, j)
        {
        }
      }
    }
    if forall i :: 0 <= i < 81 ==> !Conflict(g, i) {
      forall i, j | 0 <= i < 81 && 0 <= j < 81 && IsPeer(i, j) && g[i] != 0
        ensures g[j] != g[i]
      {
        assert !Conflict(g, i);
        assert !Clash(g, i, j);
      }
    }
  }

  /** Two 5s side by side in the first row of an empty grid: exactly those two cells are flagged. */
  lemma TwoFivesFlagged()
    ensures var g := EmptyGrid()[0 := 5][1 := 5];
      forall i :: 0 <= i < 81 ==> (Conflict(g, i) <==> i == 0 || i == 1)
  {
    var g := EmptyGrid()[0 := 5][1 := 5];
    assert Clash(g, 0, 1) && Clash(g, 1, 0);
    forall i | 0 <= i < 81
      ensures Conflict(g, i) <==> i == 0 || i == 1
    {
      if i >= 2 {
        assert g[i] == 0;
      }
    }
  }

  // ---------------------------------------------------------------------------
  // isSolved
  // ---------------------------------------------------------------------------

  /** The grid the player sees: a clue where there is one, else the player's entry. */
  function Merge(given: seq<int>, value: seq<int>): (merged: seq<int>)
    requires |given| == |value|
    ensures |merged| == |given|
    ensures |given| == 81 ==> Extends(given, merged)
    ensures forall i :: 0 <= i < |given| && given[i] == 0 ==> merged[i] == value[i]
  {
    seq(|given|, i requires 0 <= i < |given| => if given[i] != 0 then given[i] else value[i])
  }

  /** Before the player writes anything, the merged grid is the puzzle itself. */
  lemma MergeNoEntries(given: seq<int>)
    ensures Merge(given, seq(|given|, _ => 0)) == given
  {
  }

  /** The merged grid is full exactly when the player has an entry in every cell without a clue. */
  lemma MergeFilled(given: seq<int>, value: seq<int>)
    requires |given| == |value|
    ensures Filled(Merge(given, value)) <==> forall i :: 0 <= i < |given| && given[i] == 0 ==> value[i] != 0
  {
  }

  /** Solved: the merged grid is full and no two peers in it hold the same digit. */
  ghost predicate Solved(given: seq<int>, value: seq<int>)
    requires |given| == 81 && |value| == 81
  {
    Filled(Merge(given, value)) && NoClash(Merge(given, value))
  }

  /** The player's grid is solved exactly when the merged grid is a solution of the puzzle. */
  lemma SolvedIsCompletion(given: seq<int>, value: seq<int>)
    requires ValidGrid(given) && ValidGrid(value)
    ensures Solved(given, value) <==> IsCompletion(given, Merge(given, value))
  {
  }

  /** isSolved: no empty merged cell and no conflict flag. */
  method IsSolved(given: seq<int>, value: seq<int>) returns (solved: bool)
    requires |given| == 81 && |value| == 81
    ensures solved <==> Solved(given, value)
  {
    var merged := Merge(given, value);
    if exists i :: 0 <= i < 81 && merged[i] == 0 {
      return false;
    }
    var flags := GetConflicts(merged);
    NoConflictIsNoClash(merged);
    solved := !(exists i :: 0 <= i < 81 && flags[i]);
  }
}
