/**
 * Grid and unit model of the Sudoku engine.
 *
 * A grid is a flat sequence of 81 integers; 0 is an empty cell and 1..9 a
 * placed digit. Cell i lies in row i / 9, column i % 9 and box
 * 3 * (row / 3) + column / 3. Two distinct cells that share a row, a column
 * or a box are peers. There are 27 units: 9 rows, 9 columns and 9 boxes.
 */
module Grid {

  /** A grid as the engine uses it: 81 cells, each 0 (empty) or a digit 1..9. */
  predicate ValidGrid(g: seq<int>)
  {
    |g| == 81 && forall i :: 0 <= i < 81 ==> 0 <= g[i] <= 9
  }

  // ---------------------------------------------------------------------------
  // Index arithmetic
  // ---------------------------------------------------------------------------

  /** Row of cell i (floor division; the source only uses non-negative indices). */
  function Row(i: int): int
    requires 0 <= i
  {
    i / 9
  }

  function Col(i: int): int
    requires 0 <= i
  {
    i % 9
  }

  function Box(i: int): int
    requires 0 <= i
  {
    3 * (Row(i) / 3) + Col(i) / 3
  }

  function CellIndex(r: int, c: int): int
  {
    r * 9 + c
  }

  /** Row, column and box of a cell are all in 0..8, and the cell is recovered from its row and column. */
  lemma IndexRoundTrip(i: int)
    requires 0 <= i < 81
    ensures 0 <= Row(i) < 9 && 0 <= Col(i) < 9 && 0 <= Box(i) < 9
    ensures CellIndex(Row(i), Col(i)) == i
  {
  }

  /** Conversely, a row and a column in 0..8 name a cell whose row and column they are. */
  lemma CellIndexRoundTrip(r: int, c: int)
    requires 0 <= r < 9 && 0 <= c < 9
    ensures 0 <= CellIndex(r, c) < 81
    ensures Row(CellIndex(r, c)) == r && Col(CellIndex(r, c)) == c
  {
  }

  // ---------------------------------------------------------------------------
  // Peers
  // ---------------------------------------------------------------------------

  /** j is a peer of i: another cell of the board sharing i's row, column or box. */
  predicate IsPeer(i: int, j: int)
  {
    0 <= i < 81 && 0 <= j < 81 && i != j &&
    (Row(j) == Row(i) || Col(j) == Col(i) || Box(j) == Box(i))
  }

  /** The peers of i among the cells 0..n-1, in increasing order (the order the scan adds them). */
  function PeersBelow(i: int, n: int): seq<int>
    requires 0 <= n <= 81
  {
    if n == 0 then [] else PeersBelow(i, n - 1) + (if IsPeer(i, n - 1) then [n - 1] else [])
  }

  /**
   * The number of cells, written as a function rather than the literal 81 so
   * that the verifier does not unroll PeersBelow all the way at every use.
   */
  function BoardSize(): int
  {
    81
  }

  /** The peer list of cell i as the source returns it (and caches it). */
  function PeerSeq(i: int): seq<int>
  {
    PeersBelow(i, BoardSize())
  }

  predicate StrictlyIncreasing(s: seq<int>)
  {
    forall a, b :: 0 <= a < b < |s| ==> s[a] < s[b]
  }

  lemma {:induction false} PeersBelowSpec(i: int, n: int)
    requires 0 <= n <= 81
    ensures forall j :: j in PeersBelow(i, n) <==> 0 <= j < n && IsPeer(i, j)
    ensures forall k :: 0 <= k < |PeersBelow(i, n)| ==> PeersBelow(i, n)[k] < n
    ensures StrictlyIncreasing(PeersBelow(i, n))
  {
    if n > 0 {
      PeersBelowSpec(i, n - 1);
    }
  }

  /**
   * The peer list of i holds exactly the cells sharing a unit with i, never i
   * itself, in increasing order and so without duplicates.
   */
  lemma PeerSeqSpec(i: int)
    ensures forall j :: j in PeerSeq(i) <==> IsPeer(i, j)
    ensures i !in PeerSeq(i)
    ensures StrictlyIncreasing(PeerSeq(i))
    ensures forall k :: 0 <= k < |PeerSeq(i)| ==> 0 <= PeerSeq(i)[k] < 81
  {
    PeersBelowSpec(i, BoardSize());
    forall k | 0 <= k < |PeerSeq(i)|
      ensures 0 <= PeerSeq(i)[k] < 81
    {
      assert PeerSeq(i)[k] in PeerSeq(i);
    }
  }

  /** The peer relation is symmetric. */
  lemma PeerSymmetric(i: int, j: int)
    ensures j in PeerSeq(i) <==> i in PeerSeq(j)
  {
    PeerSeqSpec(i);
    PeerSeqSpec(j);
  }

  /**
   * Computes the peers of cell i by scanning all 81 cells. Every call returns
   * the same list, so the cache the source keeps can never hand out a
   * different one.
   */
  method Peers(i: int) returns (ps: seq<int>)
    requires 0 <= i < 81
    ensures ps == PeerSeq(i)
  {
    var r, c, b := Row(i), Col(i), Box(i);
    ps := [];
    var j := 0;
    while j < 81
      invariant 0 <= j <= 81
      invariant ps == PeersBelow(i, j)
    {
      if j != i && (Row(j) == r || Col(j) == c || Box(j) == b) {
        ps := ps + [j];
      }
      j := j + 1;
    }
  }

  // ---------------------------------------------------------------------------
  // Units
  // ---------------------------------------------------------------------------

  function RowCells(r: int): seq<int>
  {
    seq(9, c => r * 9 + c)
  }

  function ColCells(c: int): seq<int>
  {
    seq(9, r => r * 9 + c)
  }

  /** The box cells in the order of the nested row/column loops. */
  function BoxCells(b: int): seq<int>
    requires 0 <= b
  {
    seq(9, k requires 0 <= k < 9 => ((b / 3) * 3 + k / 3) * 9 + (b % 3) * 3 + k % 3)
  }

  /** Row r's list has 9 distinct cells, exactly the cells of row r. */
  lemma RowCellsSpec(r: int)
    requires 0 <= r < 9
    ensures |RowCells(r)| == 9 && StrictlyIncreasing(RowCells(r))
    ensures forall k :: 0 <= k < 9 ==> 0 <= RowCells(r)[k] < 81 && Row(RowCells(r)[k]) == r
    ensures forall i :: 0 <= i < 81 && Row(i) == r ==> i in RowCells(r)
  {
    forall i | 0 <= i < 81 && Row(i) == r
      ensures i in RowCells(r)
    {
      assert RowCells(r)[Col(i)] == i;
    }
  }

  /** Column c's list has 9 distinct cells, exactly the cells of column c. */
  lemma ColCellsSpec(c: int)
    requires 0 <= c < 9
    ensures |ColCells(c)| == 9 && StrictlyIncreasing(ColCells(c))
    ensures forall k :: 0 <= k < 9 ==> 0 <= ColCells(c)[k] < 81 && Col(ColCells(c)[k]) == c
    ensures forall i :: 0 <= i < 81 && Col(i) == c ==> i in ColCells(c)
  {
    forall i | 0 <= i < 81 && Col(i) == c
      ensures i in ColCells(c)
    {
      assert ColCells(c)[Row(i)] == i;
    }
  }

  /** The k-th cell of box b sits in the box's k / 3-th row and k % 3-th column. */
  lemma BoxCellAt(b: int, k: int)
    requires 0 <= b < 9 && 0 <= k < 9
    ensures 0 <= BoxCells(b)[k] < 81
    ensures Row(BoxCells(b)[k]) == (b / 3) * 3 + k / 3
    ensures Col(BoxCells(b)[k]) == (b % 3) * 3 + k % 3
  {
    CellIndexRoundTrip((b / 3) * 3 + k / 3, (b % 3) * 3 + k % 3);
  }

  lemma BoxCellsIncreasing(b: int)
    requires 0 <= b < 9
    ensures StrictlyIncreasing(BoxCells(b))
  {
    forall k1, k2 | 0 <= k1 < k2 < 9
      ensures BoxCells(b)[k1] < BoxCells(b)[k2]
    {
      BoxCellAt(b, k1);
      BoxCellAt(b, k2);
    }
  }

  lemma BoxCellsCover(b: int, i: int)
    requires 0 <= b < 9 && 0 <= i < 81 && Box(i) == b
    ensures i in BoxCells(b)
  {
    var r, c := Row(i), Col(i);
    IndexRoundTrip(i);
    assert r / 3 == b / 3 && c / 3 == b % 3;
    var k := (r % 3) * 3 + c % 3;
    assert k / 3 == r % 3 && k % 3 == c % 3;
    BoxCellAt(b, k);
    assert BoxCells(b)[k] == CellIndex(r, c);
  }

  /** Box b's list has 9 distinct cells, exactly the cells of box b. */
  lemma BoxCellsSpec(b: int)
    requires 0 <= b < 9
    ensures |BoxCells(b)| == 9 && StrictlyIncreasing(BoxCells(b))
    ensures forall k :: 0 <= k < 9 ==> 0 <= BoxCells(b)[k] < 81 && Box(BoxCells(b)[k]) == b
    ensures forall i :: 0 <= i < 81 && Box(i) == b ==> i in BoxCells(b)
  {
    forall k | 0 <= k < 9
      ensures 0 <= BoxCells(b)[k] < 81 && Box(BoxCells(b)[k]) == b
    {
      BoxCellAt(b, k);
    }
    BoxCellsIncreasing(b);
    forall i | 0 <= i < 81 && Box(i) == b
      ensures i in BoxCells(b)
    {
      BoxCellsCover(b, i);
    }
  }

  /** Builds box b's cell list with the source's nested loops. */
  method GetBoxCells(b: int) returns (cells: seq<int>)
    requires 0 <= b
    ensures cells == BoxCells(b)
  {
    var startRow := (b / 3) * 3;
    var startCol := (b % 3) * 3;
    cells := [];
    var r := startRow;
    while r < startRow + 3
      invariant startRow <= r <= startRow + 3
      invariant cells == BoxCells(b)[..(r - startRow) * 3]
    {
      var c := startCol;
      while c < startCol + 3
        invariant startCol <= c <= startCol + 3
        invariant cells == BoxCells(b)[..(r - startRow) * 3 + (c - startCol)]
      {
        cells := cells + [r * 9 + c];
        c := c + 1;
      }
      r := r + 1;
    }
  }

  // ---------------------------------------------------------------------------
  // Whole-grid notions shared by the solver, the counter and the validator
  // ---------------------------------------------------------------------------

  /** No empty cell is left. */
  predicate Filled(g: seq<int>)
  {
    forall i :: 0 <= i < |g| ==> g[i] != 0
  }

  /** Number of empty cells. */
  function ZeroCount(g: seq<int>): nat
  {
    if g == [] then 0 else ZeroCount(g[..|g| - 1]) + (if g[|g| - 1] == 0 then 1 else 0)
  }

  /** Number of clues (non-empty cells). */
  function ClueCount(g: seq<int>): int
  {
    |g| - ZeroCount(g)
  }

  /** h keeps every clue of g: the non-empty cells of g hold the same digit in h. */
  predicate Extends(g: seq<int>, h: seq<int>)
  {
    |g| == 81 && |h| == 81 && forall i :: 0 <= i < 81 && g[i] != 0 ==> h[i] == g[i]
  }

  /** No two peers hold the same digit. */
  predicate NoClash(g: seq<int>)
  {
    |g| == 81 && forall i, j :: 0 <= i < 81 && 0 <= j < 81 && IsPeer(i, j) && g[i] != 0 ==> g[j] != g[i]
  }

  /** s is a solution of the puzzle g: a full, collision-free grid keeping g's clues. */
  predicate IsCompletion(g: seq<int>, s: seq<int>)
  {
    ValidGrid(s) && Filled(s) && Extends(g, s) && NoClash(s)
  }

  lemma {:induction false} ZeroCountBound(g: seq<int>)
    ensures ZeroCount(g) <= |g|
    ensures ZeroCount(g) == 0 <==> Filled(g)
  {
    if g != [] {
      ZeroCountBound(g[..|g| - 1]);
      if ZeroCount(g) == 0 {
        forall i | 0 <= i < |g| ensures g[i] != 0 {
          if i < |g| - 1 { assert g[..|g| - 1][i] == g[i]; }
        }
      }
      if Filled(g) {
        var p := g[..|g| - 1];
        assert Filled(p) by {
          forall i | 0 <= i < |p| ensures p[i] != 0 { assert p[i] == g[i]; }
        }
      }
    }
  }

  /** Overwriting one cell changes the empty-cell count only by what that cell gains or loses. */
  lemma {:induction false} ZeroCountUpdate(g: seq<int>, i: int, v: int)
    requires 0 <= i < |g|
    ensures ZeroCount(g[i := v]) == ZeroCount(g) - (if g[i] == 0 then 1 else 0) + (if v == 0 then 1 else 0)
  {
    var n := |g| - 1;
    if i < n {
      assert g[i := v][..n] == g[..n][i := v];
      ZeroCountUpdate(g[..n], i, v);
    } else {
      assert g[i := v][..n] == g[..n];
    }
  }

  /** The all-empty grid. */
  function EmptyGrid(): (g: seq<int>)
    ensures ValidGrid(g) && NoClash(g)
  {
    seq(81, _ => 0)
  }
}
