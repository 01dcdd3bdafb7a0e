/**
 * Undo/redo history: a zipper of snapshots. past holds the older snapshots
 * (the most recent last), present the current one, and future the snapshots
 * that redo brings back (the next one first). None of these operations
 * changes its argument; each builds a new history.
 *
 * Read as one timeline, past + [present] + future, with a cursor at
 * |past|: undo and redo move the cursor by one and leave the timeline
 * alone, and push cuts the timeline after the cursor and appends.
 */
module History {
  import opened Wrappers

  /** The part of a game state that history records. */
  datatype Snapshot = Snapshot(value: seq<int>, notes: seq<nat>)

  datatype HistoryState = HistoryState(past: seq<Snapshot>, present: Snapshot, future: seq<Snapshot>)

  /** What undo and redo return: the new history and copies of the present snapshot's grids. */
  datatype Moved = Moved(history: HistoryState, value: seq<int>, notes: seq<nat>)

  /** All snapshots in order, oldest first. */
  function Timeline(h: HistoryState): seq<Snapshot>
  {
    h.past + [h.present] + h.future
  }

  /** Position of the present snapshot in the timeline. */
  function Cursor(h: HistoryState): nat
  {
    |h.past|
  }

  /** The history a new game starts with: just the given snapshot, nothing to undo or redo. */
  function CreateInitialHistory(value: seq<int>, notes: seq<nat>): (h: HistoryState)
    ensures Timeline(h) == [Snapshot(value, notes)] && Cursor(h) == 0
  {
    HistoryState([], Snapshot(value, notes), [])
  }

  /** Record a new present: the old present becomes the latest past entry and redo is no longer possible. */
  function PushHistory(h: HistoryState, value: seq<int>, notes: seq<nat>): (r: HistoryState)
    ensures Timeline(r) == Timeline(h)[..Cursor(h) + 1] + [Snapshot(value, notes)]
    ensures Cursor(r) == Cursor(h) + 1 && r.future == []
  {
    assert Timeline(h)[..Cursor(h) + 1] == h.past + [h.present];
    HistoryState(h.past + [h.present], Snapshot(value, notes), [])
  }

  /** Step back to the latest past snapshot; the present moves to the front of future. */
  function Undo(h: HistoryState): (r: Option<Moved>)
    ensures r.None? <==> h.past == []
    ensures r.Some? ==>
      Timeline(r.value.history) == Timeline(h) && Cursor(r.value.history) == Cursor(h) - 1 &&
      r.value.value == r.value.history.present.value && r.value.notes == r.value.history.present.notes
  {
    if |h.past| == 0 then None
    else
      var prev := h.past[|h.past| - 1];
      var past := h.past[..|h.past| - 1];
      assert h.past == past + [prev];
      Some(Moved(HistoryState(past, prev, [h.present] + h.future), prev.value, prev.notes))
  }

  /** Step forward to the first future snapshot; the present moves to the end of past. */
  function Redo(h: HistoryState): (r: Option<Moved>)
    ensures r.None? <==> h.future == []
    ensures r.Some? ==>
      Timeline(r.value.history) == Timeline(h) && Cursor(r.value.history) == Cursor(h) + 1 &&
      r.value.value == r.value.history.present.value && r.value.notes == r.value.history.present.notes
  {
    if |h.future| == 0 then None
    else
      var next := h.future[0];
      assert h.future == [next] + h.future[1..];
      Some(Moved(HistoryState(h.past + [h.present], next, h.future[1..]), next.value, next.notes))
  }

  /** A history is determined by its timeline and its cursor. */
  lemma TimelineDetermines(h: HistoryState, k: HistoryState)
    requires Timeline(h) == Timeline(k) && Cursor(h) == Cursor(k)
    ensures h == k
  {
    var n := Cursor(h);
    assert h.past == Timeline(h)[..n] && k.past == Timeline(k)[..n];
    assert h.present == Timeline(h)[n] && k.present == Timeline(k)[n];
    assert h.future == Timeline(h)[n + 1..] && k.future == Timeline(k)[n + 1..];
  }

  /** Redo undoes an undo. */
  lemma RedoAfterUndo(h: HistoryState)
    requires Undo(h).Some?
    ensures Redo(Undo(h).value.history).Some?
    ensures Redo(Undo(h).value.history).value.history == h
  {
    var u := Undo(h).value.history;
    assert u.future != [];
    TimelineDetermines(Redo(u).value.history, h);
  }

  /** Undo undoes a redo. */
  lemma UndoAfterRedo(h: HistoryState)
    requires Redo(h).Some?
    ensures Undo(Redo(h).value.history).Some?
    ensures Undo(Redo(h).value.history).value.history == h
  {
    var r := Redo(h).value.history;
    assert r.past != [];
    TimelineDetermines(Undo(r).value.history, h);
  }

  /** Undo right after a push goes back to the snapshot that was present, with the pushed one ready to redo. */
  lemma UndoAfterPush(h: HistoryState, value: seq<int>, notes: seq<nat>)
    ensures Undo(PushHistory(h, value, notes)) ==
      Some(Moved(HistoryState(h.past, h.present, [Snapshot(value, notes)]), h.present.value, h.present.notes))
  {
    var p := PushHistory(h, value, notes);
    var m := Undo(p).value;
    TimelineDetermines(m.history, HistoryState(h.past, h.present, [Snapshot(value, notes)]));
  }

  /** Undo and redo keep the number of snapshots, |past| + |future| + 1. */
  lemma MovesKeepSize(h: HistoryState)
    ensures Undo(h).Some? ==> |Undo(h).value.history.past| + |Undo(h).value.history.future| == |h.past| + |h.future|
    ensures Redo(h).Some? ==> |Redo(h).value.history.past| + |Redo(h).value.history.future| == |h.past| + |h.future|
  {
    if Undo(h).Some? {
      assert |Timeline(Undo(h).value.history)| == |Timeline(h)|;
    }
    if Redo(h).Some? {
      assert |Timeline(Redo(h).value.history)| == |Timeline(h)|;
    }
  }
}
