/**
 * The logic-only solver: naked singles and hidden singles, repeated until a
 * whole pass places nothing. It reports whether the grid ended up full and
 * how many cells it filled. The generator uses it to reject puzzles that can
 * be finished without guessing.
 *
 * The passes are defined as functions (NakedBelow, HiddenBelow, Pass,
 * Propagate) that follow the loops cell by cell, and the method
 * LogicOnlySolve is proved to compute exactly LogicOnly. The lemmas then
 * show what the deductions are worth. Each one fills an empty cell with one
 * of its candidates. Every solution of the input is a solution of the result.
 * The solver stops only when no naked single is left.
 */
module Logic {
  import opened Grid
  import opened Candidates
  import opened Seqs

  // ---------------------------------------------------------------------------
  // Units
  // ---------------------------------------------------------------------------

  /** Cells of unit u: rows for 0..8, columns for 9..17, boxes for 18 and up. */
  function UnitCells(u: int): seq<int>
  {
    if u < 9 then RowCells(u)
    else if u < 18 then ColCells(u - 9)
    else BoxCells(u - 18)
  }

  /** Any two distinct positions of a list of 9 increasing cells sharing a row, column or box hold peers. */
  lemma PairwisePeers(cells: seq<int>)
    requires |cells| == 9 && StrictlyIncreasing(cells) && InBoard(cells)
    requires (forall k :: 0 <= k < 9 ==> Row(cells[k]) == Row(cells[0])) ||
             (forall k :: 0 <= k < 9 ==> Col(cells[k]) == Col(cells[0])) ||
             (forall k :: 0 <= k < 9 ==> Box(cells[k]) == Box(cells[0]))
    ensures forall p, q :: 0 <= p < 9 && 0 <= q < 9 && p != q ==> IsPeer(cells[p], cells[q])
  {
    forall p, q | 0 <= p < 9 && 0 <= q < 9 && p != q
      ensures IsPeer(cells[p], cells[q])
    {
      if p < q {
        assert cells[p] < cells[q];
      } else {
        assert cells[q] < cells[p];
      }
    }
  }

  lemma RowUnit(x: int)
    requires 0 <= x < 9
    ensures |RowCells(x)| == 9 && InBoard(RowCells(x)) && StrictlyIncreasing(RowCells(x))
    ensures forall p, q :: 0 <= p < 9 && 0 <= q < 9 && p != q ==> IsPeer(RowCells(x)[p], RowCells(x)[q])
  {
    RowCellsSpec(x);
    PairwisePeers(RowCells(x));
  }

  lemma ColUnit(x: int)
    requires 0 <= x < 9
    ensures |ColCells(x)| == 9 && InBoard(ColCells(x)) && StrictlyIncreasing(ColCells(x))
    ensures forall p, q :: 0 <= p < 9 && 0 <= q < 9 && p != q ==> IsPeer(ColCells(x)[p], ColCells(x)[q])
  {
    ColCellsSpec(x);
    PairwisePeers(ColCells(x));
  }

  lemma BoxUnit(x: int)
    requires 0 <= x < 9
    ensures |BoxCells(x)| == 9 && InBoard(BoxCells(x)) && StrictlyIncreasing(BoxCells(x))
    ensures forall p, q :: 0 <= p < 9 && 0 <= q < 9 && p != q ==> IsPeer(BoxCells(x)[p], BoxCells(x)[q])
  {
    BoxCellsSpec(x);
    PairwisePeers(BoxCells(x));
  }

  /** Every unit lists 9 distinct cells of the board, any two of which are peers. */
  lemma UnitCellsSpec(u: int)
    requires 0 <= u < 27
    ensures |UnitCells(u)| == 9 && InBoard(UnitCells(u)) && StrictlyIncreasing(UnitCells(u))
    ensures forall p, q :: 0 <= p < 9 && 0 <= q < 9 && p != q ==> IsPeer(UnitCells(u)[p], UnitCells(u)[q])
  {
    if u < 9 {
      RowUnit(u);
    } else if u < 18 {
      ColUnit(u - 9);
    } else {
      BoxUnit(u - 18);
    }
  }

  /** Builds unit u's cell list with the source's loops. */
  method GetUnitCells(u: int) returns (cells: seq<int>)
    ensures cells == UnitCells(u)
  {
    cells := [];
    if u < 9 {
      for c := 0 to 9
        invariant cells == RowCells(u)[..c]
      {
        cells := cells + [u * 9 + c];
      }
    } else if u < 18 {
      var c := u - 9;
      for r := 0 to 9
        invariant cells == ColCells(c)[..r]
      {
        cells := cells + [r * 9 + c];
      }
    } else {
      cells := GetBoxCells(u - 18);
    }
  }

  // ---------------------------------------------------------------------------
  // Deduction: a step that every solution agrees with
  // ---------------------------------------------------------------------------

  /**
   * h is g with filled more cells written in: h keeps g's clues, stays free
   * of collisions when g was, and every solution of g is a solution of h.
   */
  ghost predicate Deduced(g: seq<int>, h: seq<int>, filled: nat)
  {
    ValidGrid(g) && ValidGrid(h) && Extends(g, h) &&
    ZeroCount(g) == ZeroCount(h) + filled &&
    (NoClash(g) ==> NoClash(h)) &&
    forall s :: IsCompletion(g, s) ==> IsCompletion(h, s)
  }

  lemma DeducedNothing(g: seq<int>)
    requires ValidGrid(g)
    ensures Deduced(g, g, 0)
  {
  }

  lemma DeducedTrans(g: seq<int>, h: seq<int>, k: seq<int>, a: nat, b: nat)
    requires Deduced(g, h, a) && Deduced(h, k, b)
    ensures Deduced(g, k, a + b)
  {
  }

  /** Writing into an empty cell a candidate that every solution also has there is a deduction. */
  lemma DeducedPlace(g: seq<int>, i: int, d: int)
    requires ValidGrid(g) && 0 <= i < 81 && g[i] == 0 && d >= 0
    requires Has(CandidateMask(g, i), d)
    requires forall s :: IsCompletion(g, s) ==> s[i] == d
    ensures Deduced(g, g[i := d], 1)
  {
    PlaceCandidate(g, i, d);
    ZeroCountUpdate(g, i, d);
    forall s | IsCompletion(g, s)
      ensures IsCompletion(g[i := d], s)
    {
      assert s[i] == d;
    }
  }

  // ---------------------------------------------------------------------------
  // Naked singles
  // ---------------------------------------------------------------------------

  datatype Sweep = Sweep(grid: seq<int>, filled: nat)

  /** Empty cell c could take digit d: no peer holds it. */
  ghost predicate Possible(g: seq<int>, c: int, d: int)
    requires ValidGrid(g) && 0 <= c < 81
  {
    g[c] == 0 && 1 <= d <= 9 && Allowed(g, c, d)
  }

  /** The mask test of the scan decides Possible. */
  lemma PossibleMask(g: seq<int>, c: int, d: int)
    requires ValidGrid(g) && 0 <= c < 81 && 1 <= d <= 9
    ensures Possible(g, c, d) <==> g[c] == 0 && Has(CandidateMask(g, c), d)
  {
    CandidateMaskSpec(g, c);
  }

  /** An empty cell that exactly one digit can take. */
  ghost predicate NakedSingle(g: seq<int>, i: int)
    requires ValidGrid(g) && 0 <= i < 81
  {
    g[i] == 0 && exists d :: Possible(g, i, d) && forall e :: Possible(g, i, e) ==> e == d
  }

  /** The digit of a naked single. */
  ghost function OnlyCandidate(g: seq<int>, i: int): (d: int)
    requires ValidGrid(g) && 0 <= i < 81 && NakedSingle(g, i)
    ensures Possible(g, i, d)
  {
    var d :| Possible(g, i, d) && forall e :: Possible(g, i, e) ==> e == d;
    d
  }

  /**
   * The source's test for a naked single: an empty cell whose candidate mask
   * counts one bit; its only digit is then the first that bitsToDigits lists.
   */
  lemma NakedSingleMask(g: seq<int>, i: int)
    requires ValidGrid(g) && 0 <= i < 81 && g[i] == 0
    ensures NakedSingle(g, i) <==> CandidateCount(g, i) == 1
    ensures NakedSingle(g, i) ==> |Digits(CandidateMask(g, i))| == 1 && Digits(CandidateMask(g, i))[0] == OnlyCandidate(g, i)
  {
    var m := CandidateMask(g, i);
    CandidateMaskSpec(g, i);
    CandidateCountSpec(g, i);
    DigitsSpec(m);
    var ds := Digits(m);
    assert |ds| >= 2 ==> ds[0] < ds[1];
    if |ds| == 1 {
      var d := ds[0];
      assert Possible(g, i, d);
      forall e | Possible(g, i, e)
        ensures e == d
      {
        assert e in ds;
      }
      assert NakedSingle(g, i);
    }
    if NakedSingle(g, i) {
      var d := OnlyCandidate(g, i);
      assert d in ds;
      forall k | 0 <= k < |ds|
        ensures ds[k] == d
      {
        assert Possible(g, i, ds[k]);
      }
      assert |ds| < 2;
    }
  }

  /** The digit of a naked single is the one every solution puts there. */
  lemma NakedSingleForced(g: seq<int>, i: int)
    requires ValidGrid(g) && 0 <= i < 81 && NakedSingle(g, i)
    ensures 1 <= OnlyCandidate(g, i) <= 9 && Has(CandidateMask(g, i), OnlyCandidate(g, i))
    ensures forall s :: IsCompletion(g, s) ==> s[i] == OnlyCandidate(g, i)
  {
    var d := OnlyCandidate(g, i);
    PossibleMask(g, i, d);
    forall s | IsCompletion(g, s)
      ensures s[i] == d
    {
      CompletionUsesCandidate(g, s, i);
      PossibleMask(g, i, s[i]);
    }
  }

  /** The naked-single sweep over cells 0..n-1, each cell seeing the writes before it. */
  ghost function NakedBelow(g: seq<int>, n: int): (r: Sweep)
    requires ValidGrid(g) && 0 <= n <= 81
    ensures ValidGrid(r.grid)
  {
    if n == 0 then Sweep(g, 0)
    else
      var r := NakedBelow(g, n - 1);
      var i := n - 1;
      if NakedSingle(r.grid, i) then
        NakedSingleForced(r.grid, i);
        Sweep(r.grid[i := OnlyCandidate(r.grid, i)], r.filled + 1)
      else r
  }

  /** The naked sweep only makes deductions, and filled counts them. */
  lemma {:induction false} NakedBelowDeduced(g: seq<int>, n: int)
    requires ValidGrid(g) && 0 <= n <= 81
    ensures Deduced(g, NakedBelow(g, n).grid, NakedBelow(g, n).filled)
  {
    if n == 0 {
      DeducedNothing(g);
    } else {
      var r := NakedBelow(g, n - 1);
      NakedBelowDeduced(g, n - 1);
      var i := n - 1;
      if NakedSingle(r.grid, i) {
        NakedSingleForced(r.grid, i);
        var d := OnlyCandidate(r.grid, i);
        DeducedPlace(r.grid, i, d);
        DeducedTrans(g, r.grid, r.grid[i := d], r.filled, 1);
      }
    }
  }

  /** A sweep that fills nothing leaves the grid alone, and no cell it passed is a naked single. */
  lemma {:induction false} NakedBelowIdle(g: seq<int>, n: int)
    requires ValidGrid(g) && 0 <= n <= 81 && NakedBelow(g, n).filled == 0
    ensures NakedBelow(g, n).grid == g
    ensures forall i :: 0 <= i < n ==> !NakedSingle(g, i)
  {
    if n > 0 {
      var r := NakedBelow(g, n - 1);
      var single := NakedSingle(r.grid, n - 1);
      assert NakedBelow(g, n).filled == r.filled + (if single then 1 else 0);
      assert NakedBelow(g, n) == r;
      NakedBelowIdle(g, n - 1);
      assert !NakedSingle(g, n - 1);
      forall i | 0 <= i < n
        ensures !NakedSingle(g, i)
      {
        if i < n - 1 {
          assert !NakedSingle(g, i);
        }
      }
    }
  }

  /** The naked-single for loop, updating the pass's running state. */
  method NakedSweep(g0: seq<int>, filled0: nat, changed0: bool) returns (g: seq<int>, filled: nat, changed: bool)
    requires ValidGrid(g0)
    ensures g == NakedBelow(g0, BoardSize()).grid
    ensures filled == filled0 + NakedBelow(g0, BoardSize()).filled
    ensures changed == (changed0 || NakedBelow(g0, BoardSize()).filled > 0)
  {
    g, filled, changed := g0, filled0, changed0;
    for i := 0 to 81
      invariant g == NakedBelow(g0, i).grid
      invariant filled == filled0 + NakedBelow(g0, i).filled
      invariant changed == (changed0 || NakedBelow(g0, i).filled > 0)
    {
      if g[i] == 0 {
        var cands := GetCandidates(g, i);
        var count := BitCount(cands);
        NakedSingleMask(g, i);
        if count == 1 {
          var digits := BitsToDigits(cands);
          g := g[i := digits[0]];
          filled := filled + 1;
          changed := true;
        }
      }
    }
  }

  // ---------------------------------------------------------------------------
  // Hidden singles
  // ---------------------------------------------------------------------------

  /** What the scan of one unit for one digit reports. */
  datatype Scan = Scan(placed: bool, count: nat, idx: int)

  /**
   * The scan of cells[k..] for digit d, having seen count possible cells so
   * far, the last at idx. It stops at the first cell already holding d.
   */
  ghost function ScanFrom(g: seq<int>, cells: seq<int>, d: int, k: int, count: nat, idx: int): Scan
    requires ValidGrid(g) && InBoard(cells) && 0 <= k <= |cells|
    decreases |cells| - k
  {
    if k == |cells| then Scan(false, count, idx)
    else if g[cells[k]] == d then Scan(true, count, idx)
    else if Possible(g, cells[k], d) then ScanFrom(g, cells, d, k + 1, count + 1, cells[k])
    else ScanFrom(g, cells, d, k + 1, count, idx)
  }

  /** idx names a possible cell exactly when count is positive; -1 otherwise. */
  ghost predicate Tally(g: seq<int>, d: int, count: nat, idx: int)
    requires ValidGrid(g)
  {
    if count == 0 then idx == -1 else 0 <= idx < 81 && Possible(g, idx, d)
  }

  /**
   * What a scan establishes: when no cell holds d, no cell of cells[k..]
   * holds it; and a count of 1 means every possible cell met is idx.
   */
  lemma {:induction false} ScanFromSpec(g: seq<int>, cells: seq<int>, d: int, k: int, count: nat, idx: int)
    requires ValidGrid(g) && InBoard(cells) && 0 <= k <= |cells| && Tally(g, d, count, idx)
    ensures var r := ScanFrom(g, cells, d, k, count, idx);
      Tally(g, d, r.count, r.idx) && r.count >= count && (r.count == count ==> r.idx == idx)
    ensures var r := ScanFrom(g, cells, d, k, count, idx);
      !r.placed ==> forall j :: k <= j < |cells| ==> g[cells[j]] != d
    ensures var r := ScanFrom(g, cells, d, k, count, idx);
      !r.placed && r.count == 1 ==> forall j :: k <= j < |cells| && Possible(g, cells[j], d) ==> cells[j] == r.idx
    decreases |cells| - k
  {
    if k < |cells| && g[cells[k]] != d {
      var r := ScanFrom(g, cells, d, k, count, idx);
      var c := cells[k];
      if Possible(g, c, d) {
        assert r == ScanFrom(g, cells, d, k + 1, count + 1, c);
        ScanFromSpec(g, cells, d, k + 1, count + 1, c);
        forall j | k <= j < |cells| && !r.placed && r.count == 1 && Possible(g, cells[j], d)
          ensures cells[j] == r.idx
        {
          if j == k {
            assert r.count == count + 1 && r.idx == c;
          }
        }
      } else {
        assert r == ScanFrom(g, cells, d, k + 1, count, idx);
        ScanFromSpec(g, cells, d, k + 1, count, idx);
        forall j | k <= j < |cells| && !r.placed && r.count == 1 && Possible(g, cells[j], d)
          ensures cells[j] == r.idx
        {
          assert j != k;
        }
      }
      forall j | k <= j < |cells| && !r.placed
        ensures g[cells[j]] != d
      {
      }
    }
  }

  /** The scan loop of one unit for one digit, with its early break. */
  method ScanUnit(g: seq<int>, cells: seq<int>, d: int) returns (placed: bool, possibleIdx: int, possibleCount: nat)
    requires ValidGrid(g) && InBoard(cells) && 1 <= d <= 9
    ensures Scan(placed, possibleCount, possibleIdx) == ScanFrom(g, cells, d, 0, 0, -1)
  {
    placed, possibleIdx, possibleCount := false, -1, 0;
    var k := 0;
    while k < |cells|
      invariant 0 <= k <= |cells| && !placed
      invariant ScanFrom(g, cells, d, k, possibleCount, possibleIdx) == ScanFrom(g, cells, d, 0, 0, -1)
    {
      var idx := cells[k];
      if g[idx] == d {
        placed := true;
        break;
      }
      if g[idx] == 0 {
        var cands := GetCandidates(g, idx);
        PossibleMask(g, idx, d);
        if Has(cands, d) {
          possibleCount := possibleCount + 1;
          possibleIdx := idx;
        }
      }
      k := k + 1;
    }
  }

  /** Pigeonhole: n distinct values drawn from 1..n take every value in 1..n. */
  lemma DistinctCover(vals: seq<int>, n: int, x: int)
    requires |vals| == n && Distinct(vals)
    requires forall k :: 0 <= k < n ==> 1 <= vals[k] <= n
    requires 1 <= x <= n
    ensures x in vals
  {
    if x !in vals {
      var w := seq(n, k requires 0 <= k < n => if vals[k] > x then vals[k] - 1 else vals[k]);
      assert Distinct(w) by {
        forall p, q | 0 <= p < q < n
          ensures w[p] != w[q]
        {
          assert vals[p] != x && vals[q] != x;
        }
      }
      DistinctBound(w, n - 1);
    }
  }

  /** n distinct values from 1..n are at most n values. */
  lemma {:induction false} DistinctBound(vals: seq<int>, n: int)
    requires n >= 0 && Distinct(vals)
    requires forall k :: 0 <= k < |vals| ==> 1 <= vals[k] <= n
    ensures |vals| <= n
  {
    if |vals| == 0 {
    } else if n in vals {
      var p :| 0 <= p < |vals| && vals[p] == n;
      var rest := vals[..p] + vals[p + 1..];
      assert forall k :: 0 <= k < |rest| ==> rest[k] == (if k < p then vals[k] else vals[k + 1]);
      assert Distinct(rest) by {
        forall a, b | 0 <= a < b < |rest|
          ensures rest[a] != rest[b]
        {
          var a' := if a < p then a else a + 1;
          var b' := if b < p then b else b + 1;
          assert a' < b' && rest[a] == vals[a'] && rest[b] == vals[b'];
        }
      }
      forall k | 0 <= k < |rest|
        ensures 1 <= rest[k] <= n - 1
      {
        var k' := if k < p then k else k + 1;
        assert rest[k] == vals[k'] && k' != p;
      }
      DistinctBound(rest, n - 1);
    } else {
      forall k | 0 <= k < |vals|
        ensures vals[k] <= n - 1
      {
        assert vals[k] != n;
      }
      DistinctBound(vals, n - 1);
    }
  }

  /** A solved grid holds every digit somewhere in every unit. */
  lemma UnitHoldsDigit(s: seq<int>, u: int, d: int)
    requires ValidGrid(s) && Filled(s) && NoClash(s) && 0 <= u < 27 && 1 <= d <= 9
    ensures exists j :: 0 <= j < 9 && s[UnitCells(u)[j]] == d
  {
    var cells := UnitCells(u);
    UnitCellsSpec(u);
    var vals := seq(9, k requires 0 <= k < 9 => s[cells[k]]);
    assert Distinct(vals) by {
      forall p, q | 0 <= p < q < 9
        ensures vals[p] != vals[q]
      {
        assert IsPeer(cells[p], cells[q]);
      }
    }
    DistinctCover(vals, 9, d);
    var j :| 0 <= j < 9 && vals[j] == d;
    assert s[cells[j]] == d;
  }

  /** The hidden-single rule for digit d in unit u. */
  ghost function HiddenStep(g: seq<int>, u: int, d: int): (r: Sweep)
    requires ValidGrid(g) && 0 <= u < 27 && 1 <= d <= 9
    ensures ValidGrid(r.grid)
  {
    UnitCellsSpec(u);
    var r := ScanFrom(g, UnitCells(u), d, 0, 0, -1);
    if !r.placed && r.count == 1 && r.idx != -1 then
      ScanFromSpec(g, UnitCells(u), d, 0, 0, -1);
      Sweep(g[r.idx := d], 1)
    else Sweep(g, 0)
  }

  /** A hidden single is a deduction: every solution puts d in the one cell of the unit that can take it. */
  lemma HiddenStepDeduced(g: seq<int>, u: int, d: int)
    requires ValidGrid(g) && 0 <= u < 27 && 1 <= d <= 9
    ensures Deduced(g, HiddenStep(g, u, d).grid, HiddenStep(g, u, d).filled)
  {
    var cells := UnitCells(u);
    UnitCellsSpec(u);
    var r := ScanFrom(g, cells, d, 0, 0, -1);
    ScanFromSpec(g, cells, d, 0, 0, -1);
    if !r.placed && r.count == 1 && r.idx != -1 {
      forall s | IsCompletion(g, s)
        ensures s[r.idx] == d
      {
        UnitHoldsDigit(s, u, d);
        var j :| 0 <= j < 9 && s[cells[j]] == d;
        assert g[cells[j]] != d;
        assert g[cells[j]] == 0;
        CompletionUsesCandidate(g, s, cells[j]);
        PossibleMask(g, cells[j], d);
      }
      PossibleMask(g, r.idx, d);
      DeducedPlace(g, r.idx, d);
    } else {
      DeducedNothing(g);
    }
  }

  /** The hidden-single rule in unit u for the digits 1..e-1, in increasing order. */
  ghost function HiddenDigits(g: seq<int>, u: int, e: int): (r: Sweep)
    requires ValidGrid(g) && 0 <= u < 27 && 1 <= e <= 10
    ensures ValidGrid(r.grid)
  {
    if e == 1 then Sweep(g, 0)
    else
      var r := HiddenDigits(g, u, e - 1);
      var step := HiddenStep(r.grid, u, e - 1);
      Sweep(step.grid, r.filled + step.filled)
  }

  /** The number of units, written as a function so that HiddenUnits is not unrolled at every use. */
  function UnitCount(): int
  {
    27
  }

  /** The hidden-single pass over units 0..n-1, each unit over the digits 1..9. */
  ghost function HiddenUnits(g: seq<int>, n: int): (r: Sweep)
    requires ValidGrid(g) && 0 <= n <= 27
    ensures ValidGrid(r.grid)
  {
    if n == 0 then Sweep(g, 0)
    else
      var r := HiddenUnits(g, n - 1);
      var step := HiddenDigits(r.grid, n - 1, DigitEnd());
      Sweep(step.grid, r.filled + step.filled)
  }

  lemma {:induction false} HiddenDigitsDeduced(g: seq<int>, u: int, e: int)
    requires ValidGrid(g) && 0 <= u < 27 && 1 <= e <= 10
    ensures Deduced(g, HiddenDigits(g, u, e).grid, HiddenDigits(g, u, e).filled)
  {
    if e == 1 {
      DeducedNothing(g);
    } else {
      var r := HiddenDigits(g, u, e - 1);
      HiddenDigitsDeduced(g, u, e - 1);
      var step := HiddenStep(r.grid, u, e - 1);
      HiddenStepDeduced(r.grid, u, e - 1);
      DeducedTrans(g, r.grid, step.grid, r.filled, step.filled);
    }
  }

  lemma {:induction false} HiddenUnitsDeduced(g: seq<int>, n: int)
    requires ValidGrid(g) && 0 <= n <= 27
    ensures Deduced(g, HiddenUnits(g, n).grid, HiddenUnits(g, n).filled)
  {
    if n == 0 {
      DeducedNothing(g);
    } else {
      var r := HiddenUnits(g, n - 1);
      HiddenUnitsDeduced(g, n - 1);
      var step := HiddenDigits(r.grid, n - 1, DigitEnd());
      HiddenDigitsDeduced(r.grid, n - 1, DigitEnd());
      DeducedTrans(g, r.grid, step.grid, r.filled, step.filled);
    }
  }

  /** The digit loop of one unit, updating the pass's running state. */
  method HiddenUnit(g0: seq<int>, u: int, filled0: nat, changed0: bool) returns (g: seq<int>, filled: nat, changed: bool)
    requires ValidGrid(g0) && 0 <= u < 27
    ensures g == HiddenDigits(g0, u, DigitEnd()).grid
    ensures filled == filled0 + HiddenDigits(g0, u, DigitEnd()).filled
    ensures changed == (changed0 || HiddenDigits(g0, u, DigitEnd()).filled > 0)
  {
    g, filled, changed := g0, filled0, changed0;
    var cells := GetUnitCells(u);
    UnitCellsSpec(u);
    for d := 1 to 10
      invariant g == HiddenDigits(g0, u, d).grid
      invariant filled == filled0 + HiddenDigits(g0, u, d).filled
      invariant changed == (changed0 || HiddenDigits(g0, u, d).filled > 0)
    {
      var placed, possibleIdx, possibleCount := ScanUnit(g, cells, d);
      if !placed && possibleCount == 1 && possibleIdx != -1 {
        ScanFromSpec(g, cells, d, 0, 0, -1);
        g := g[possibleIdx := d];
        filled := filled + 1;
        changed := true;
      }
    }
  }

  /** The hidden-single loops over all units, updating the pass's running state. */
  method HiddenSweep(g0: seq<int>, filled0: nat, changed0: bool) returns (g: seq<int>, filled: nat, changed: bool)
    requires ValidGrid(g0)
    ensures g == HiddenUnits(g0, UnitCount()).grid
    ensures filled == filled0 + HiddenUnits(g0, UnitCount()).filled
    ensures changed == (changed0 || HiddenUnits(g0, UnitCount()).filled > 0)
  {
    g, filled, changed := g0, filled0, changed0;
    for unit := 0 to 27
      invariant g == HiddenUnits(g0, unit).grid
      invariant filled == filled0 + HiddenUnits(g0, unit).filled
      invariant changed == (changed0 || HiddenUnits(g0, unit).filled > 0)
    {
      g, filled, changed := HiddenUnit(g, unit, filled, changed);
    }
  }

  // ---------------------------------------------------------------------------
  // The while (changed) loop
  // ---------------------------------------------------------------------------

  /** One pass of the loop body: the naked sweep, then the hidden sweep on its result. */
  ghost function Pass(g: seq<int>): (r: Sweep)
    requires ValidGrid(g)
    ensures ValidGrid(r.grid)
  {
    var a := NakedBelow(g, BoardSize());
    var b := HiddenUnits(a.grid, UnitCount());
    Sweep(b.grid, a.filled + b.filled)
  }

  lemma PassDeduced(g: seq<int>)
    requires ValidGrid(g)
    ensures Deduced(g, Pass(g).grid, Pass(g).filled)
  {
    var a := NakedBelow(g, BoardSize());
    NakedBelowDeduced(g, BoardSize());
    HiddenUnitsDeduced(a.grid, UnitCount());
    DeducedTrans(g, a.grid, Pass(g).grid, a.filled, HiddenUnits(a.grid, UnitCount()).filled);
  }

  lemma {:induction false} HiddenDigitsIdle(g: seq<int>, u: int, e: int)
    requires ValidGrid(g) && 0 <= u < 27 && 1 <= e <= 10 && HiddenDigits(g, u, e).filled == 0
    ensures HiddenDigits(g, u, e).grid == g
  {
    if e > 1 {
      HiddenDigitsIdle(g, u, e - 1);
    }
  }

  lemma {:induction false} HiddenUnitsIdle(g: seq<int>, n: int)
    requires ValidGrid(g) && 0 <= n <= 27 && HiddenUnits(g, n).filled == 0
    ensures HiddenUnits(g, n).grid == g
  {
    if n > 0 {
      HiddenUnitsIdle(g, n - 1);
      HiddenDigitsIdle(g, n - 1, DigitEnd());
    }
  }

  /** A pass that places nothing leaves the grid as it was. */
  lemma PassIdle(g: seq<int>)
    requires ValidGrid(g) && Pass(g).filled == 0
    ensures Pass(g).grid == g
  {
    NakedBelowIdle(g, BoardSize());
    HiddenUnitsIdle(g, UnitCount());
  }

  /**
   * The loop run from grid g with total cells already filled: passes are
   * repeated while one of them places something. Each such pass empties at
   * least one cell fewer, so the loop ends.
   */
  ghost function Propagate(g: seq<int>, total: nat): (r: Sweep)
    requires ValidGrid(g)
    decreases ZeroCount(g)
  {
    var p := Pass(g);
    if p.filled == 0 then Sweep(g, total)
    else
      PassDeduced(g);
      Propagate(p.grid, total + p.filled)
  }

  /** The loop's result is a deduction from its start, at which a further pass would place nothing. */
  lemma {:induction false} PropagateSpec(g: seq<int>, total: nat)
    requires ValidGrid(g)
    ensures Propagate(g, total).filled >= total
    ensures Deduced(g, Propagate(g, total).grid, Propagate(g, total).filled - total)
    ensures Pass(Propagate(g, total).grid).filled == 0
    decreases ZeroCount(g)
  {
    var p := Pass(g);
    PassDeduced(g);
    if p.filled > 0 {
      PropagateSpec(p.grid, total + p.filled);
      var r := Propagate(p.grid, total + p.filled);
      DeducedTrans(g, p.grid, r.grid, p.filled, r.filled - total - p.filled);
    }
  }

  datatype LogicResult = LogicResult(solved: bool, filled: nat)

  /** The grid logicOnlySolve ends with. */
  ghost function LogicGrid(g: seq<int>): seq<int>
    requires ValidGrid(g)
  {
    Propagate(g, 0).grid
  }

  /** What logicOnlySolve returns: whether its final grid is full, and how many cells it filled. */
  ghost function LogicOnly(g: seq<int>): LogicResult
    requires ValidGrid(g)
  {
    LogicResult(Filled(LogicGrid(g)), Propagate(g, 0).filled)
  }

  /**
   * The logic-only solver fills only empty cells and keeps every clue;
   * filled is the number of cells it filled, at most the number of empty
   * cells; solved holds exactly when it filled them all; it never creates a
   * collision; every solution of the input is a solution of its grid; and
   * it stops only where no naked single is left.
   */
  lemma LogicOnlySpec(g: seq<int>)
    requires ValidGrid(g)
    ensures ValidGrid(LogicGrid(g)) && Extends(g, LogicGrid(g))
    ensures LogicOnly(g).filled == ZeroCount(g) - ZeroCount(LogicGrid(g)) <= ZeroCount(g)
    ensures LogicOnly(g).solved <==> LogicOnly(g).filled == ZeroCount(g)
    ensures NoClash(g) ==> NoClash(LogicGrid(g))
    ensures forall s :: IsCompletion(g, s) ==> IsCompletion(LogicGrid(g), s)
    ensures forall i :: 0 <= i < 81 ==> !NakedSingle(LogicGrid(g), i)
  {
    PropagateSpec(g, 0);
    var h := LogicGrid(g);
    ZeroCountBound(h);
    var a := NakedBelow(h, BoardSize());
    assert a.filled == 0;
    NakedBelowIdle(h, BoardSize());
  }

  /** A consistent puzzle that logic alone solves has exactly one solution: the solver's grid. */
  lemma LogicSolvedUnique(g: seq<int>)
    requires ValidGrid(g) && NoClash(g) && LogicOnly(g).solved
    ensures IsCompletion(g, LogicGrid(g))
    ensures forall s :: IsCompletion(g, s) ==> s == LogicGrid(g)
  {
    LogicOnlySpec(g);
    var h := LogicGrid(g);
    forall s | IsCompletion(g, s)
      ensures s == h
    {
      assert Extends(h, s);
    }
  }

  /** logicOnlySolve: the passes on a copy of the grid, repeated while one of them changes something. */
  method LogicOnlySolve(grid: seq<int>) returns (solved: bool, filled: nat)
    requires ValidGrid(grid)
    ensures LogicResult(solved, filled) == LogicOnly(grid)
  {
    var g := grid;
    var changed := true;
    filled := 0;
    while changed
      invariant ValidGrid(g)
      invariant changed ==> Propagate(g, filled) == Propagate(grid, 0)
      invariant !changed ==> Sweep(g, filled) == Propagate(grid, 0)
      decreases ZeroCount(g) + (if changed then 1 else 0)
    {
      changed := false;
      ghost var g0, f0 := g, filled;
      PassDeduced(g0);
      g, filled, changed := NakedSweep(g, filled, changed);
      g, filled, changed := HiddenSweep(g, filled, changed);
      if !changed {
        PassIdle(g0);
      }
    }
    solved := Filled(g);
  }
}
