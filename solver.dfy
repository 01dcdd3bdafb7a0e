/**
 * Backtracking solver with the minimum-remaining-values rule.
 *
 * The search works in place on an 81-cell array: it picks the empty cell with
 * the fewest candidates (the first such cell, scanning in index order, and
 * stopping early at a cell with a single candidate), tries each candidate
 * digit in turn, recurses, and clears the cell again when a digit fails. An
 * empty cell with no candidates, met before the scan stops, ends the branch.
 *
 * The search only checks each digit it writes against that cell's peers; it
 * never checks the clues it was given against each other. A full grid is
 * accepted as solved whatever it holds, so "the result is collision-free" is
 * only promised when the input was.
 */
module Solver {
  import opened Wrappers
  import opened Grid
  import opened Candidates
  import opened Random

  /** Outcome of one minimum-remaining-values scan of the grid. */
  datatype Choice =
    | Complete                      // no empty cell is left
    | DeadEnd(at: int)              // the empty cell `at` has no candidate
    | Branch(idx: int, mask: Mask)  // branch on cell idx, whose candidates are mask

  /** The candidate counts of the cells 0..n-1, in cell order. */
  ghost function CountsBelow(g: seq<int>, n: int): (t: seq<int>)
    requires ValidGrid(g) && 0 <= n <= 81
    ensures |t| == n
  {
    if n == 0 then [] else CountsBelow(g, n - 1) + [CandidateCount(g, n - 1)]
  }

  lemma {:induction false} CountsBelowAt(g: seq<int>, n: int, j: int)
    requires ValidGrid(g) && 0 <= j < n <= 81
    ensures CountsBelow(g, n)[j] == CandidateCount(g, j)
  {
    var prev := CountsBelow(g, n - 1);
    assert CountsBelow(g, n) == prev + [CandidateCount(g, n - 1)];
    if j < n - 1 {
      CountsBelowAt(g, n - 1, j);
      assert CountsBelow(g, n)[j] == prev[j];
    }
  }

  /** The candidate count of every cell, indexed by cell. */
  ghost function Counts(g: seq<int>): (t: seq<int>)
    requires ValidGrid(g)
    ensures |t| == 81
  {
    CountsBelow(g, BoardSize())
  }

  /** Entry j of Counts(g) is the candidate count of cell j. */
  lemma CountsAt(g: seq<int>, j: int)
    requires ValidGrid(g) && 0 <= j < 81
    ensures Counts(g)[j] == CandidateCount(g, j)
  {
    CountsBelowAt(g, 81, j);
  }

  /** The candidate masks of the cells 0..n-1, in cell order. */
  ghost function MasksBelow(g: seq<int>, n: int): (t: seq<Mask>)
    requires ValidGrid(g) && 0 <= n <= 81
    ensures |t| == n
  {
    if n == 0 then [] else MasksBelow(g, n - 1) + [CandidateMask(g, n - 1)]
  }

  lemma {:induction false} MasksBelowAt(g: seq<int>, n: int, j: int)
    requires ValidGrid(g) && 0 <= j < n <= 81
    ensures MasksBelow(g, n)[j] == CandidateMask(g, j)
  {
    var prev := MasksBelow(g, n - 1);
    assert MasksBelow(g, n) == prev + [CandidateMask(g, n - 1)];
    if j < n - 1 {
      MasksBelowAt(g, n - 1, j);
      assert MasksBelow(g, n)[j] == prev[j];
    }
  }

  /** getCandidates and bitCount for one cell of the scan. */
  method CellCount(g: seq<int>, i: int) returns (cands: Mask, count: nat)
    requires ValidGrid(g) && 0 <= i < 81
    ensures cands == MasksBelow(g, 81)[i] && count == Counts(g)[i] && count <= 9
  {
    cands := GetCandidates(g, i);
    count := BitCount(cands);
    CandidateCountSpec(g, i);
    CountsBelowAt(g, 81, i);
    MasksBelowAt(g, 81, i);
  }

  /**
   * The scan at the top of solveInPlace and of search: the first empty cell
   * whose candidate count is strictly smaller than every count seen before it,
   * stopping at the first cell with one candidate and giving up at the first
   * cell with none.
   */
  method SelectCell(g: seq<int>) returns (c: Choice)
    requires ValidGrid(g)
    ensures c.Complete? ==> Filled(g)
    ensures c.DeadEnd? ==>
      0 <= c.at < 81 && g[c.at] == 0 && Counts(g)[c.at] == 0 &&
      forall j :: 0 <= j < c.at && g[j] == 0 ==> Counts(g)[j] >= 2
    ensures c.Branch? ==>
      0 <= c.idx < 81 && g[c.idx] == 0 && c.mask == CandidateMask(g, c.idx) &&
      Counts(g)[c.idx] >= 1 &&
      (forall j :: 0 <= j < c.idx && g[j] == 0 ==> Counts(g)[j] > Counts(g)[c.idx]) &&
      (Counts(g)[c.idx] > 1 ==>
        forall j :: c.idx < j < 81 && g[j] == 0 ==> Counts(g)[j] >= Counts(g)[c.idx])
  {
    ghost var cnt := Counts(g);
    ghost var masks := MasksBelow(g, 81);
    var minCount := 10;
    var minIdx := -1;
    var minCandidates: Mask := 0;
    var i := 0;
    while i < 81
      invariant 0 <= i <= 81
      invariant minIdx == -1 ==> minCount == 10 && forall j :: 0 <= j < i ==> g[j] != 0
      invariant minIdx != -1 ==>
        0 <= minIdx < i && g[minIdx] == 0 && 2 <= minCount <= 9 &&
        minCount == cnt[minIdx] && minCandidates == masks[minIdx] &&
        (forall j :: 0 <= j < minIdx && g[j] == 0 ==> cnt[j] > minCount) &&
        (forall j :: minIdx < j < i && g[j] == 0 ==> cnt[j] >= minCount)
    {
      if g[i] == 0 {
        var cands, count := CellCount(g, i);
        if count == 0 {
          return DeadEnd(i);
        }
        if count < minCount {
          minCount := count;
          minIdx := i;
          minCandidates := cands;
          if count == 1 {
            break;
          }
        }
      }
      i := i + 1;
    }
    if minIdx == -1 {
      return Complete;
    }
    MasksBelowAt(g, 81, minIdx);
    return Branch(minIdx, minCandidates);
  }

  /** g has no solution at all. */
  ghost predicate Unsolvable(g: seq<int>)
  {
    forall s :: !IsCompletion(g, s)
  }

  /** None of the first k digits of ds, written into cell idx of g, leaves a solvable grid. */
  ghost predicate NoneSolvable(g: seq<int>, idx: int, ds: seq<int>, k: int)
    requires 0 <= idx < |g| && 0 <= k <= |ds|
  {
    forall m :: 0 <= m < k ==> Unsolvable(g[idx := ds[m]])
  }

  lemma NoneSolvableStep(g: seq<int>, idx: int, ds: seq<int>, k: int)
    requires 0 <= idx < |g| && 0 <= k < |ds|
    requires NoneSolvable(g, idx, ds, k) && Unsolvable(g[idx := ds[k]])
    ensures NoneSolvable(g, idx, ds, k + 1)
  {
  }

  /** A cell that is empty in g holds one of its candidates in every solution, so it has one. */
  lemma CompletionNeedsCandidate(g: seq<int>, at: int, s: seq<int>)
    requires ValidGrid(g) && 0 <= at < 81 && g[at] == 0
    ensures IsCompletion(g, s) ==> CandidateCount(g, at) > 0
  {
    if IsCompletion(g, s) {
      CompletionUsesCandidate(g, s, at);
      ZeroHasNone(s[at]);
      PopCountZero(CandidateMask(g, at));
    }
  }

  /** A solution of g that puts d in the empty cell idx is a solution of g with d written there. */
  lemma CompletionOfPlaced(g: seq<int>, idx: int, s: seq<int>)
    requires |g| == 81 && 0 <= idx < 81 && g[idx] == 0
    ensures IsCompletion(g, s) ==> IsCompletion(g[idx := s[idx]], s)
  {
  }

  /** Keeping the clues of g[idx := d] means keeping the clues of g, and d at idx. */
  lemma ExtendsPlaced(g: seq<int>, idx: int, d: int, h: seq<int>)
    requires |g| == 81 && 0 <= idx < 81 && g[idx] == 0 && d != 0
    ensures Extends(g[idx := d], h) ==> Extends(g, h) && h[idx] == d
  {
  }

  /**
   * If none of the candidate digits of the empty cell idx leads to a solution,
   * then g has no solution: every solution writes one of them there.
   */
  lemma BranchExhausted(g: seq<int>, idx: int, order: seq<int>, s: seq<int>)
    requires ValidGrid(g) && 0 <= idx < 81 && g[idx] == 0
    requires multiset(order) == multiset(Digits(CandidateMask(g, idx)))
    ensures IsCompletion(g, s) ==>
      exists m :: 0 <= m < |order| && order[m] == s[idx] && IsCompletion(g[idx := order[m]], s)
  {
    if IsCompletion(g, s) {
      CompletionUsesCandidate(g, s, idx);
      DigitsSpec(CandidateMask(g, idx));
      assert s[idx] in multiset(order);
      var m :| 0 <= m < |order| && order[m] == s[idx];
      CompletionOfPlaced(g, idx, s);
    }
  }

  /**
   * solveInPlace. On success the grid is full and keeps every clue of the
   * input (and is collision-free if the input was); on failure the grid is
   * exactly as on entry and the input has no solution at all. The recursion
   * depth is bounded by the number of empty cells.
   */
  method SolveInPlace(grid: array<int>, randomize: bool, rng: Rng) returns (ok: bool)
    requires ValidGrid(grid[..])
    modifies grid, rng
    decreases ZeroCount(grid[..]), 1
    ensures ValidGrid(grid[..])
    ensures ok ==> Filled(grid[..]) && Extends(old(grid[..]), grid[..])
    ensures ok && NoClash(old(grid[..])) ==> NoClash(grid[..])
    ensures !ok ==> grid[..] == old(grid[..])
    ensures !ok ==> Unsolvable(old(grid[..]))
    ensures Filled(old(grid[..])) ==> ok && grid[..] == old(grid[..])
  {
    ghost var g0 := grid[..];
    var choice := SelectCell(grid[..]);
    match choice {
      case Complete =>
        return true;
      case DeadEnd(at) =>
        CountsAt(g0, at);
        forall s
          ensures !IsCompletion(g0, s)
        {
          CompletionNeedsCandidate(g0, at, s);
        }
        return false;
      case Branch(idx, mask) =>
        var digits := BitsToDigits(mask);
        var order := new int[|digits|](k requires 0 <= k < |digits| => digits[k]);
        assert order[..] == digits;
        if randomize {
          Shuffle(order, rng);
        }
        DigitsSpec(mask);
        ghost var tries := order[..];
        var k := 0;
        while k < order.Length
          invariant 0 <= k <= order.Length
          invariant grid[..] == g0 && order[..] == tries
          invariant multiset(tries) == multiset(Digits(mask))
          invariant NoneSolvable(g0, idx, tries, k)
        {
          var d := order[k];
          assert d in multiset(tries);
          var found := TryDigit(grid, idx, d, randomize, rng);
          if found {
            return true;
          }
          NoneSolvableStep(g0, idx, tries, k);
          k := k + 1;
        }
        forall s
          ensures !IsCompletion(g0, s)
        {
          BranchExhausted(g0, idx, tries, s);
        }
        return false;
    }
  }

  /**
   * One turn of solveInPlace's digit loop: write candidate d into the empty
   * cell idx, recurse, and clear the cell again if the recursion fails.
   */
  method TryDigit(grid: array<int>, idx: int, d: int, randomize: bool, rng: Rng) returns (found: bool)
    requires ValidGrid(grid[..]) && 0 <= idx < 81 && grid[idx] == 0
    requires d in Digits(CandidateMask(grid[..], idx))
    modifies grid, rng
    decreases ZeroCount(grid[..]), 0
    ensures ValidGrid(grid[..])
    ensures found ==> Filled(grid[..]) && Extends(old(grid[..]), grid[..])
    ensures found && NoClash(old(grid[..])) ==> NoClash(grid[..])
    ensures !found ==> grid[..] == old(grid[..])
    ensures !found ==> Unsolvable(old(grid[..])[idx := d])
  {
    ghost var g0 := grid[..];
    DigitsSpec(CandidateMask(g0, idx));
    PlaceCandidate(g0, idx, d);
    ZeroCountUpdate(g0, idx, d);
    grid[idx] := d;
    assert grid[..] == g0[idx := d];
    found := SolveInPlace(grid, randomize, rng);
    if found {
      ExtendsPlaced(g0, idx, d, grid[..]);
      return;
    }
    grid[idx] := 0;
    assert grid[..] == g0;
  }

  /** solve: run the search on a copy of the grid; null when it fails. */
  method Solve(grid: seq<int>, randomize: bool, rng: Rng) returns (r: Option<seq<int>>)
    requires ValidGrid(grid)
    modifies rng
    ensures r.Some? ==> ValidGrid(r.value) && Filled(r.value) && Extends(grid, r.value)
    ensures r.Some? && NoClash(grid) ==> IsCompletion(grid, r.value)
    ensures r.None? ==> Unsolvable(grid)
    ensures NoClash(grid) ==> (r.None? <==> Unsolvable(grid))
    ensures Filled(grid) ==> r == Some(grid)
  {
    var g := new int[81](i requires 0 <= i < 81 => grid[i]);
    assert g[..] == grid;
    var ok := SolveInPlace(g, randomize, rng);
    if ok {
      assert NoClash(grid) ==> IsCompletion(grid, g[..]);
      r := Some(g[..]);
    } else {
      r := None;
    }
  }
}
