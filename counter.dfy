/**
 * countSolutions: the same minimum-remaining-values search as the solver,
 * without shuffling, that counts the full grids it reaches and stops as soon
 * as the count reaches the limit. The search and its counter live in a
 * closure in the source; here they are a class whose Search method updates
 * the grid and the counter in place, with a ghost record of the grids found.
 */
module SolutionCount {
  import opened Grid
  import opened Candidates
  import opened Seqs
  import opened Solver

  /** The count at which the search stops: the first solution already reaches a limit below 1. */
  function Cap(limit: int): (c: int)
    ensures c >= 1 && (limit >= 1 ==> c == limit)
  {
    if limit >= 1 then limit else 1
  }

  /** Every grid in sols is a full grid keeping g's clues, collision-free when g is. */
  ghost predicate SoundFor(g: seq<int>, sols: seq<seq<int>>)
  {
    forall e :: e in sols ==> ValidGrid(e) && Filled(e) && Extends(g, e) && (NoClash(g) ==> NoClash(e))
  }

  /** Every solution of g is in sols. */
  ghost predicate Covers(g: seq<int>, sols: seq<seq<int>>)
  {
    forall s :: IsCompletion(g, s) ==> s in sols
  }

  /** Every solution of g that puts one of ds in cell idx is in sols. */
  ghost predicate CoversWith(g: seq<int>, idx: int, ds: seq<int>, sols: seq<seq<int>>)
    requires 0 <= idx < 81
  {
    forall s :: IsCompletion(g, s) && s[idx] in ds ==> s in sols
  }

  /** Every grid in sols holds one of ds in cell idx. */
  ghost predicate DigitsAt(idx: int, ds: seq<int>, sols: seq<seq<int>>)
    requires 0 <= idx < 81
  {
    forall e :: e in sols ==> |e| == 81 && e[idx] in ds
  }

  /** No grid in sols keeps all of g's clues. */
  ghost predicate Apart(g: seq<int>, sols: seq<seq<int>>)
  {
    forall e :: e in sols ==> !Extends(g, e)
  }

  /** A full grid has exactly one extension: itself. */
  lemma FilledCompletion(g: seq<int>, s: seq<int>)
    requires ValidGrid(g) && Filled(g) && NoClash(g)
    ensures IsCompletion(g, g)
    ensures IsCompletion(g, s) ==> s == g
  {
  }

  lemma DistinctSnoc(s: seq<seq<int>>, x: seq<int>)
    requires Distinct(s) && x !in s
    ensures Distinct(s + [x])
  {
    var t := s + [x];
    forall p, q | 0 <= p < q < |t|
      ensures t[p] != t[q]
    {
      if q == |s| {
        assert t[p] == s[p];
      } else {
        assert t[p] == s[p] && t[q] == s[q];
      }
    }
  }

  lemma SplitAt<T>(s: seq<T>, n: int)
    requires 0 <= n <= |s|
    ensures s == s[..n] + s[n..]
  {
  }

  /** A sequence that grew from f0 + before by appending keeps f0 in front and before after it. */
  lemma Regroup<T>(f0: seq<T>, before: seq<T>, after: seq<T>)
    requires |f0 + before| <= |after| && after[..|f0 + before|] == f0 + before
    ensures after[..|f0|] == f0
    ensures after[|f0|..] == before + after[|f0 + before|..]
  {
    var m := |f0 + before|;
    assert after == after[..m] + after[m..];
  }

  /** Before trying digit ds[k], nothing found so far keeps the clues of the grid with ds[k] written in. */
  lemma ApartStep(g: seq<int>, idx: int, ds: seq<int>, k: int, f0: seq<seq<int>>, before: seq<seq<int>>)
    requires |g| == 81 && 0 <= idx < 81 && g[idx] == 0 && 0 <= k < |ds| && ds[k] != 0
    requires StrictlyIncreasing(ds)
    requires Apart(g, f0) && DigitsAt(idx, ds[..k], before)
    ensures Apart(g[idx := ds[k]], f0 + before)
  {
    var h := g[idx := ds[k]];
    forall e | e in f0 + before
      ensures !Extends(h, e)
    {
      if e in f0 {
        assert Extends(h, e) ==> Extends(g, e);
      } else {
        assert e in before;
        var m :| 0 <= m < k && ds[m] == e[idx];
        assert h[idx] == ds[k] != ds[m];
      }
    }
  }

  /** The grids found under digit ds[k] are sound for g and hold ds[k] at idx. */
  lemma SoundStep(g: seq<int>, idx: int, ds: seq<int>, k: int, before: seq<seq<int>>, newer: seq<seq<int>>)
    requires |g| == 81 && 0 <= idx < 81 && g[idx] == 0 && 0 <= k < |ds| && ds[k] != 0
    requires SoundFor(g, before) && DigitsAt(idx, ds[..k], before)
    requires SoundFor(g[idx := ds[k]], newer)
    requires NoClash(g) ==> NoClash(g[idx := ds[k]])
    ensures SoundFor(g, before + newer) && DigitsAt(idx, ds[..k + 1], before + newer)
  {
    var h := g[idx := ds[k]];
    forall e | e in before + newer
      ensures ValidGrid(e) && Filled(e) && Extends(g, e) && (NoClash(g) ==> NoClash(e))
      ensures |e| == 81 && e[idx] in ds[..k + 1]
    {
      if e in before {
        assert e[idx] in ds[..k];
        var m :| 0 <= m < k && ds[..k][m] == e[idx];
        assert ds[..k + 1][m] == e[idx];
      } else {
        assert e in newer;
        assert Extends(h, e);
        assert ds[..k + 1][k] == e[idx];
      }
    }
  }

  /** After digit ds[k] is exhausted, every solution with one of ds[..k + 1] at idx has been found. */
  lemma CoverStep(g: seq<int>, idx: int, ds: seq<int>, k: int, before: seq<seq<int>>, newer: seq<seq<int>>)
    requires |g| == 81 && 0 <= idx < 81 && g[idx] == 0 && 0 <= k < |ds|
    requires CoversWith(g, idx, ds[..k], before)
    requires Covers(g[idx := ds[k]], newer)
    ensures CoversWith(g, idx, ds[..k + 1], before + newer)
  {
    forall s | IsCompletion(g, s) && s[idx] in ds[..k + 1]
      ensures s in before + newer
    {
      var m :| 0 <= m < k + 1 && ds[..k + 1][m] == s[idx];
      if m < k {
        assert ds[..k][m] == s[idx];
      } else {
        assert IsCompletion(g[idx := ds[k]], s);
      }
    }
  }

  /** Once every candidate digit is tried, every solution has been found. */
  lemma CoverDone(g: seq<int>, idx: int, ds: seq<int>, sols: seq<seq<int>>)
    requires ValidGrid(g) && 0 <= idx < 81 && g[idx] == 0
    requires ds == Digits(CandidateMask(g, idx))
    requires CoversWith(g, idx, ds, sols)
    ensures Covers(g, sols)
  {
    forall s | IsCompletion(g, s)
      ensures s in sols
    {
      CompletionUsesCandidate(g, s, idx);
      DigitsSpec(CandidateMask(g, idx));
    }
  }

  /** A grid with a dead-end cell has no solution to find. */
  lemma CoverDeadEnd(g: seq<int>, at: int)
    requires ValidGrid(g) && 0 <= at < 81 && g[at] == 0 && Counts(g)[at] == 0
    ensures Covers(g, [])
  {
    CountsAt(g, at);
    forall s
      ensures !IsCompletion(g, s)
    {
      CompletionNeedsCandidate(g, at, s);
    }
  }

  /** The state of one countSolutions call: its working grid, its limit and its count. */
  class SolutionCounter {
    const g: array<int>
    const limit: int
    var count: nat
    /** The full grids reached so far, in the order the search reached them. */
    ghost var found: seq<seq<int>>

    ghost predicate Valid()
      reads this
    {
      count == |found| && count <= Cap(limit)
    }

    constructor (grid: seq<int>, limit: int)
      requires |grid| == 81
      ensures g[..] == grid && this.limit == limit && count == 0 && found == [] && fresh(g)
      ensures Valid()
    {
      g := new int[81](i requires 0 <= i < 81 => grid[i]);
      this.limit := limit;
      count := 0;
      found := [];
      new;
      assert g[..] == grid;
    }

    /**
     * search(): true when the count has reached the limit (the grid is then
     * left as it is); false otherwise, with the grid restored and every
     * solution of it counted. The grids counted are distinct full grids
     * keeping the clues, none counted before.
     */
    method Search() returns (stop: bool)
      requires Valid() && ValidGrid(g[..]) && count < Cap(limit)
      requires Distinct(found) && Apart(g[..], found)
      modifies this, g
      decreases ZeroCount(g[..]), 2
      ensures Valid() && Distinct(found)
      ensures |old(found)| <= |found| && found[..|old(found)|] == old(found)
      ensures SoundFor(old(g[..]), found[|old(found)|..])
      ensures stop <==> count == Cap(limit)
      ensures !stop ==> g[..] == old(g[..]) && Covers(old(g[..]), found[|old(found)|..])
      ensures Filled(old(g[..])) ==> g[..] == old(g[..]) && found == old(found) + [old(g[..])]
    {
      ghost var g0 := g[..];
      ghost var n0 := |found|;
      var choice := SelectCell(g[..]);
      match choice {
        case Complete =>
          stop := Record();
        case DeadEnd(at) =>
          CoverDeadEnd(g0, at);
          assert found[n0..] == [];
          return false;
        case Branch(idx, mask) =>
          stop := SearchDigits(idx, mask);
      }
    }

    /** The full-grid case of search: count the grid, and stop once the count reaches the limit. */
    method Record() returns (stop: bool)
      requires Valid() && ValidGrid(g[..]) && Filled(g[..]) && count < Cap(limit)
      requires Distinct(found) && Apart(g[..], found)
      modifies this
      ensures Valid() && Distinct(found)
      ensures found == old(found) + [g[..]] && count == old(count) + 1
      ensures stop <==> count == Cap(limit)
      ensures SoundFor(g[..], [g[..]])
      ensures Covers(g[..], [g[..]])
    {
      ghost var g0 := g[..];
      assert Extends(g0, g0);
      DistinctSnoc(found, g0);
      count := count + 1;
      found := found + [g[..]];
      forall s
        ensures IsCompletion(g0, s) ==> s in [g0]
      {
        if NoClash(g0) {
          FilledCompletion(g0, s);
        }
      }
      return count >= limit;
    }

    /** The digit loop of search: try the candidates of the empty cell idx in increasing order. */
    method SearchDigits(idx: int, mask: Mask) returns (stop: bool)
      requires Valid() && ValidGrid(g[..]) && count < Cap(limit)
      requires 0 <= idx < 81 && g[idx] == 0 && mask == CandidateMask(g[..], idx)
      requires Distinct(found) && Apart(g[..], found)
      modifies this, g
      decreases ZeroCount(g[..]), 1
      ensures Valid() && Distinct(found)
      ensures |old(found)| <= |found| && found[..|old(found)|] == old(found)
      ensures SoundFor(old(g[..]), found[|old(found)|..])
      ensures stop <==> count == Cap(limit)
      ensures !stop ==> g[..] == old(g[..]) && Covers(old(g[..]), found[|old(found)|..])
    {
      ghost var g0 := g[..];
      ghost var f0 := found;
      ghost var n0 := |found|;
      var digits := BitsToDigits(mask);
      DigitsSpec(mask);
      assert found[n0..] == [];
      var k := 0;
      while k < |digits|
        invariant 0 <= k <= |digits|
        invariant g[..] == g0
        invariant Valid() && Distinct(found) && count < Cap(limit)
        invariant n0 <= |found| && found[..n0] == f0
        invariant SoundFor(g0, found[n0..]) && DigitsAt(idx, digits[..k], found[n0..])
        invariant CoversWith(g0, idx, digits[..k], found[n0..])
      {
        var d := digits[k];
        ghost var before := found[n0..];
        ghost var mid := |found|;
        SplitAt(found, n0);
        ApartStep(g0, idx, digits, k, f0, before);
        PlaceCandidate(g0, idx, d);
        stop := SearchDigit(idx, d);
        ghost var newer := found[mid..];
        Regroup(f0, before, found);
        SoundStep(g0, idx, digits, k, before, newer);
        if stop {
          return;
        }
        CoverStep(g0, idx, digits, k, before, newer);
        k := k + 1;
      }
      assert digits[..k] == digits;
      CoverDone(g0, idx, digits, found[n0..]);
      return false;
    }

    /** One turn of search's digit loop: write d into the empty cell idx and search on. */
    method SearchDigit(idx: int, d: int) returns (stop: bool)
      requires Valid() && ValidGrid(g[..]) && count < Cap(limit)
      requires 0 <= idx < 81 && g[idx] == 0 && d in Digits(CandidateMask(g[..], idx))
      requires Distinct(found) && Apart(g[..][idx := d], found)
      modifies this, g
      decreases ZeroCount(g[..]), 0
      ensures Valid() && Distinct(found)
      ensures |old(found)| <= |found| && found[..|old(found)|] == old(found)
      ensures SoundFor(old(g[..])[idx := d], found[|old(found)|..])
      ensures stop <==> count == Cap(limit)
      ensures !stop ==> g[..] == old(g[..]) && Covers(old(g[..])[idx := d], found[|old(found)|..])
    {
      ghost var g0 := g[..];
      DigitsSpec(CandidateMask(g0, idx));
      PlaceCandidate(g0, idx, d);
      ZeroCountUpdate(g0, idx, d);
      g[idx] := d;
      assert g[..] == g0[idx := d];
      stop := Search();
      if !stop {
        g[idx] := 0;
        assert g[..] == g0;
      }
    }
  }

  /** g has exactly one solution. */
  ghost predicate UniqueCompletion(g: seq<int>)
  {
    exists s :: IsCompletion(g, s) && forall t :: IsCompletion(g, t) ==> t == s
  }

  /**
   * countSolutions(grid, limit): the number of solutions of grid, counted up
   * to the limit. Below the cap the count is exact; for a puzzle whose clues
   * do not collide, a count of 1 with a limit of at least 2 means exactly one
   * solution, and a count of 0 means none.
   */
  method CountSolutions(grid: seq<int>, limit: int) returns (r: nat, ghost sols: seq<seq<int>>)
    requires ValidGrid(grid)
    ensures r == |sols| <= Cap(limit)
    ensures Distinct(sols) && SoundFor(grid, sols)
    ensures r < Cap(limit) ==> Covers(grid, sols)
    ensures NoClash(grid) ==> (r == 0 <==> Unsolvable(grid))
    ensures NoClash(grid) && limit >= 2 ==> (r == 1 <==> UniqueCompletion(grid))
    ensures Filled(grid) ==> r == 1 && sols == [grid]
  {
    var counter := new SolutionCounter(grid, limit);
    var _ := counter.Search();
    r := counter.count;
    sols := counter.found;
    assert sols[0..] == sols;
    if NoClash(grid) {
      CountMeaning(grid, limit, r, sols);
    }
  }

  /** What a count below the cap, over sound and distinct grids, says about the solutions. */
  lemma CountMeaning(grid: seq<int>, limit: int, r: nat, sols: seq<seq<int>>)
    requires NoClash(grid) && r == |sols| <= Cap(limit)
    requires Distinct(sols) && SoundFor(grid, sols)
    requires r < Cap(limit) ==> Covers(grid, sols)
    ensures r == 0 <==> Unsolvable(grid)
    ensures limit >= 2 ==> (r == 1 <==> UniqueCompletion(grid))
  {
    forall e | e in sols
      ensures IsCompletion(grid, e)
    {
    }
    if r == 0 {
      forall s
        ensures !IsCompletion(grid, s)
      {
        assert s !in sols;
      }
    } else {
      assert IsCompletion(grid, sols[0]);
    }
    if limit >= 2 {
      if r == 1 {
        forall t | IsCompletion(grid, t)
          ensures t == sols[0]
        {
          assert t in sols;
        }
      }
      if r >= 2 {
        var a, b := sols[0], sols[1];
        assert a in sols && b in sols && a != b;
        forall s | IsCompletion(grid, s)
          ensures exists t :: IsCompletion(grid, t) && t != s
        {
          if s == a {
            assert IsCompletion(grid, b);
          } else {
            assert IsCompletion(grid, a);
          }
        }
      }
    }
  }
}
