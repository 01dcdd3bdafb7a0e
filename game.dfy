/**
 * The game-state rules of the React hook: the digit tally shown on the
 * number pad, and the updates made by entering a digit, erasing, filling in
 * the solution, moving the selection, switching note mode, and undo/redo.
 *
 * The hook keeps the game state and the undo history in two pieces of React
 * state; here they are the fields of one object, and each update is a method
 * that changes them in place. The timer, persistence and the asynchronous
 * scheduling of React are not part of this model.
 */
module Game {
  import opened Grid
  import opened Candidates
  import opened Validate
  import opened History

  // ---------------------------------------------------------------------------
  // computeDigitCounts
  // ---------------------------------------------------------------------------

  /** How many entries of s equal d. */
  function Occurrences(s: seq<int>, d: int): nat
  {
    if s == [] then 0 else Occurrences(s[..|s| - 1], d) + (if s[|s| - 1] == d then 1 else 0)
  }

  /** The tally the number pad shows: entry d counts the cells holding d, for d in 1..9; entry 0 is 0. */
  function DigitCounts(s: seq<int>): (c: seq<nat>)
    ensures |c| == 10 && c[0] == 0
  {
    seq(10, d requires 0 <= d < 10 => if d == 0 then 0 else Occurrences(s, d))
  }

  /** The sum of a tally. */
  function Sum(c: seq<nat>): nat
  {
    if c == [] then 0 else Sum(c[..|c| - 1]) + c[|c| - 1]
  }

  /** computeDigitCounts: one pass over the merged grid, counting each non-empty cell under its digit. */
  method ComputeDigitCounts(given: seq<int>, value: seq<int>) returns (counts: seq<nat>)
    requires |given| == 81 && |value| == 81
    requires forall i :: 0 <= i < 81 ==> 0 <= Merge(given, value)[i] <= 9
    ensures counts == DigitCounts(Merge(given, value))
  {
    ghost var merged := Merge(given, value);
    var tally := new nat[10](_ => 0);
    for i := 0 to 81
      invariant tally[..] == DigitCounts(merged[..i])
    {
      var v := if given[i] != 0 then given[i] else value[i];
      assert merged[..i + 1] == merged[..i] + [v];
      DigitCountsStep(merged[..i], v);
      if v != 0 {
        tally[v] := tally[v] + 1;
      }
    }
    assert merged[..81] == merged;
    counts := tally[..];
  }

  /** One more cell adds one to the entry of its digit and changes nothing else. */
  lemma DigitCountsStep(s: seq<int>, v: int)
    requires 0 <= v <= 9
    ensures DigitCounts(s + [v]) == if v == 0 then DigitCounts(s) else DigitCounts(s)[v := DigitCounts(s)[v] + 1]
  {
    assert (s + [v])[..|s|] == s;
  }

  /** Adding one to an entry adds one to the sum. */
  lemma {:induction false} SumIncrement(c: seq<nat>, k: int)
    requires 0 <= k < |c|
    ensures Sum(c[k := c[k] + 1]) == Sum(c) + 1
  {
    var n := |c| - 1;
    if k < n {
      assert c[k := c[k] + 1][..n] == c[..n][k := c[..n][k] + 1];
      SumIncrement(c[..n], k);
    } else {
      assert c[k := c[k] + 1][..n] == c[..n];
    }
  }

  /** The tally adds up to the number of non-empty cells, which is at most the number of cells. */
  lemma {:induction false} DigitCountsTotal(s: seq<int>)
    requires forall i :: 0 <= i < |s| ==> 0 <= s[i] <= 9
    ensures Sum(DigitCounts(s)) == ClueCount(s) <= |s|
  {
    ZeroCountBound(s);
    if s == [] {
      assert Sum(DigitCounts(s)) == 0 by {
        var c := DigitCounts(s);
        assert forall d :: 0 <= d < 10 ==> c[d] == 0;
        ZeroSum(c, 10);
        assert c[..10] == c;
      }
    } else {
      var p := s[..|s| - 1];
      var v := s[|s| - 1];
      assert s == p + [v];
      DigitCountsTotal(p);
      DigitCountsStep(p, v);
      if v != 0 {
        SumIncrement(DigitCounts(p), v);
      }
    }
  }

  /** A tally of zeros sums to zero. */
  lemma {:induction false} ZeroSum(c: seq<nat>, n: int)
    requires 0 <= n <= |c| && forall d :: 0 <= d < |c| ==> c[d] == 0
    ensures Sum(c[..n]) == 0
  {
    if n > 0 {
      assert c[..n][..n - 1] == c[..n - 1];
      ZeroSum(c, n - 1);
    }
    if n == |c| {
      assert c[..n] == c;
    }
  }

  // ---------------------------------------------------------------------------
  // The game state
  // ---------------------------------------------------------------------------

  /** Toggling the same note twice restores the notes of the cell. */
  lemma ToggleTwice(m: Mask, d: nat)
    ensures ToggleBit(ToggleBit(m, d), d) == m
  {
    ToggleBitHas(m, d, d);
  }

  class GameState {
    var given: seq<int>       // the clues; 0 where the player may write
    var value: seq<int>       // the player's entries; 0 where empty
    var notes: seq<nat>       // pencil marks per cell, a bit per digit
    var selected: int
    var noteMode: bool
    var solved: bool
    var solution: seq<int>
    var history: HistoryState

    /** A snapshot of the right shape that never writes over a clue. */
    ghost predicate Fits(s: Snapshot)
      reads this
    {
      |given| == 81 && |s.value| == 81 && |s.notes| == 81 &&
      forall i :: 0 <= i < 81 && given[i] != 0 ==> s.value[i] == 0
    }

    /**
     * The state invariant: grids of 81 cells, a cell selected, the present
     * history entry holds the current entries, and no recorded snapshot
     * writes over a clue.
     */
    ghost predicate Valid()
      reads this
    {
      |given| == 81 && |solution| == 81 && 0 <= selected < 81 &&
      Fits(Snapshot(value, notes)) &&
      history.present.value == value &&
      forall k :: 0 <= k < |Timeline(history)| ==> Fits(Timeline(history)[k])
    }

    /** A new game on puzzle given with its solution: nothing entered, no notes, no history. */
    constructor (given: seq<int>, solution: seq<int>)
      requires |given| == 81 && |solution| == 81
      ensures Valid()
      ensures this.given == given && this.solution == solution
      ensures value == seq(81, _ => 0) && notes == seq(81, _ => 0)
      ensures selected == 40 && !noteMode && !solved
      ensures history == CreateInitialHistory(value, notes)
    {
      this.given := given;
      this.solution := solution;
      value := seq(81, _ => 0);
      notes := seq(81, _ => 0);
      selected := 40;
      noteMode := false;
      solved := false;
      history := CreateInitialHistory(seq(81, _ => 0), seq(81, _ => 0));
    }

    /** Records the new entries and notes, after the present history entry. */
    method Commit(newValue: seq<int>, newNotes: seq<nat>)
      requires Valid() && Fits(Snapshot(newValue, newNotes))
      modifies this
      ensures Valid()
      ensures value == newValue && notes == newNotes && history == PushHistory(old(history), newValue, newNotes)
      ensures given == old(given) && solution == old(solution) && selected == old(selected)
      ensures noteMode == old(noteMode) && solved == old(solved)
    {
      ghost var t := Timeline(history);
      history := PushHistory(history, newValue, newNotes);
      value, notes := newValue, newNotes;
      assert Timeline(history) == t[..Cursor(old(history)) + 1] + [Snapshot(newValue, newNotes)];
    }

    /**
     * enterDigit: ignored once solved or on a clue. In note mode it flips the
     * digit's note and clears the entry; otherwise it writes the digit, or
     * clears it if the cell already held it, clears the cell's notes and
     * recomputes solved. Every accepted edit adds one history entry.
     */
    method EnterDigit(digit: int)
      requires Valid() && 1 <= digit <= 9
      modifies this
      ensures Valid()
      ensures given == old(given) && solution == old(solution) && selected == old(selected) && noteMode == old(noteMode)
      ensures old(solved) || old(given[selected]) != 0 ==>
        value == old(value) && notes == old(notes) && solved == old(solved) && history == old(history)
      ensures !old(solved) && old(given[selected]) == 0 ==> history == PushHistory(old(history), value, notes)
      ensures !old(solved) && old(given[selected]) == 0 && noteMode ==>
        value == old(value)[selected := 0] &&
        notes == old(notes)[selected := ToggleBit(old(notes[selected]), digit)] &&
        solved == old(solved)
      ensures !old(solved) && old(given[selected]) == 0 && !noteMode ==>
        value == old(value)[selected := if old(value[selected]) == digit then 0 else digit] &&
        notes == old(notes)[selected := 0] &&
        solved == Solved(given, value)
    {
      if solved {
        return;
      }
      var idx := selected;
      if given[idx] != 0 {
        return;
      }
      if noteMode {
        var newNotes := notes[idx := ToggleBit(notes[idx], digit)];
        var newValue := value[idx := 0];
        Commit(newValue, newNotes);
      } else {
        var newValue := value[idx := if value[idx] == digit then 0 else digit];
        var newNotes := notes[idx := 0];
        var nowSolved := IsSolved(given, newValue);
        Commit(newValue, newNotes);
        solved := nowSolved;
      }
    }

    /** erase: ignored once solved or on a clue; otherwise clears the cell's entry and notes. */
    method Erase()
      requires Valid()
      modifies this
      ensures Valid()
      ensures given == old(given) && solution == old(solution) && selected == old(selected)
      ensures noteMode == old(noteMode) && solved == old(solved)
      ensures old(solved) || old(given[selected]) != 0 ==>
        value == old(value) && notes == old(notes) && history == old(history)
      ensures !old(solved) && old(given[selected]) == 0 ==>
        value == old(value)[selected := 0] && notes == old(notes)[selected := 0] &&
        history == PushHistory(old(history), value, notes)
    {
      if solved {
        return;
      }
      var idx := selected;
      if given[idx] != 0 {
        return;
      }
      Commit(value[idx := 0], notes[idx := 0]);
    }

    /**
     * fillSolution: the solution on every non-clue cell, 0 on the clues, all
     * notes cleared and solved set. The history entry it records keeps the
     * notes as they were before.
     */
    method FillSolution()
      requires Valid()
      modifies this
      ensures Valid()
      ensures given == old(given) && solution == old(solution) && selected == old(selected) && noteMode == old(noteMode)
      ensures forall i :: 0 <= i < 81 ==> value[i] == (if given[i] != 0 then 0 else solution[i])
      ensures notes == seq(81, _ => 0) && solved
      ensures history == PushHistory(old(history), value, old(notes))
      ensures IsCompletion(given, solution) ==> Solved(given, value)
    {
      var clues, sol := given, solution;
      var newValue := seq(81, i requires 0 <= i < 81 => if clues[i] != 0 then 0 else sol[i]);
      Commit(newValue, notes);
      notes := seq(81, _ => 0);
      solved := true;
      if IsCompletion(given, solution) {
        assert Merge(given, value) == solution;
      }
    }

    /** selectCell. */
    method SelectCell(index: int)
      requires Valid() && 0 <= index < 81
      modifies this
      ensures Valid() && selected == index
      ensures given == old(given) && value == old(value) && notes == old(notes) && solution == old(solution)
      ensures noteMode == old(noteMode) && solved == old(solved) && history == old(history)
    {
      selected := index;
    }

    /** toggleNotes. */
    method ToggleNotes()
      requires Valid()
      modifies this
      ensures Valid() && noteMode == !old(noteMode)
      ensures given == old(given) && value == old(value) && notes == old(notes) && solution == old(solution)
      ensures selected == old(selected) && solved == old(solved) && history == old(history)
    {
      noteMode := !noteMode;
    }

    /** undo: with nothing to undo nothing changes; otherwise the previous snapshot comes back and solved is recomputed. */
    method Undo()
      requires Valid()
      modifies this
      ensures Valid()
      ensures given == old(given) && solution == old(solution) && selected == old(selected) && noteMode == old(noteMode)
      ensures History.Undo(old(history)).None? ==>
        value == old(value) && notes == old(notes) && solved == old(solved) && history == old(history)
      ensures History.Undo(old(history)).Some? ==>
        history == History.Undo(old(history)).value.history &&
        value == history.present.value && notes == history.present.notes && solved == Solved(given, value)
    {
      var result := History.Undo(history);
      if result.None? {
        return;
      }
      ghost var moved := result.value.history;
      assert Fits(Timeline(history)[Cursor(moved)]) && Timeline(history)[Cursor(moved)] == moved.present;
      var nowSolved := IsSolved(given, result.value.value);
      history := result.value.history;
      value, notes := result.value.value, result.value.notes;
      solved := nowSolved;
    }

    /** redo: with nothing to redo nothing changes; otherwise the next snapshot comes back and solved is recomputed. */
    method Redo()
      requires Valid()
      modifies this
      ensures Valid()
      ensures given == old(given) && solution == old(solution) && selected == old(selected) && noteMode == old(noteMode)
      ensures History.Redo(old(history)).None? ==>
        value == old(value) && notes == old(notes) && solved == old(solved) && history == old(history)
      ensures History.Redo(old(history)).Some? ==>
        history == History.Redo(old(history)).value.history &&
        value == history.present.value && notes == history.present.notes && solved == Solved(given, value)
    {
      var result := History.Redo(history);
      if result.None? {
        return;
      }
      ghost var moved := result.value.history;
      assert Fits(Timeline(history)[Cursor(moved)]) && Timeline(history)[Cursor(moved)] == moved.present;
      var nowSolved := IsSolved(given, result.value.value);
      history := result.value.history;
      value, notes := result.value.value, result.value.notes;
      solved := nowSolved;
    }
  }
}
