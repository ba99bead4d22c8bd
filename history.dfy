/** What the slice promises about its undo/redo history: undo and redo move a
    cursor along a fixed timeline of snapshots, each edit records the state it
    replaces and discards the redo branch, and the fetch reducers leave the
    history alone. */
module History {
  import opened Types
  import opened Seqs
  import opened Slice
  import opened Pairing

  /** Undo moves the cursor one step back along the timeline (and stops at
      its start); nothing else changes. Since `current` is the timeline entry
      at the cursor, this determines the whole new state. */
  lemma UndoWalksTimeline(s: WorkflowState)
    ensures Timeline(Reduce(s, Undo)) == Timeline(s)
    ensures |Reduce(s, Undo).past| == if |s.past| > 0 then |s.past| - 1 else 0
    ensures Reduce(s, Undo).actionFetchState == s.actionFetchState
    ensures Reduce(s, Undo).triggerFetchState == s.triggerFetchState
  {
    if |s.past| > 0 {
      var r := Reduce(s, Undo);
      ReversedSnoc(s.future, s.current);
      assert s.past == r.past + [r.current];
    }
  }

  /** Redo moves the cursor one step forward (and stops at the end). */
  lemma RedoWalksTimeline(s: WorkflowState)
    ensures Timeline(Reduce(s, Redo)) == Timeline(s)
    ensures |Reduce(s, Redo).past| == if |s.future| > 0 then |s.past| + 1 else |s.past|
    ensures Reduce(s, Redo).actionFetchState == s.actionFetchState
    ensures Reduce(s, Redo).triggerFetchState == s.triggerFetchState
  {
    if |s.future| > 0 {
      var r := Reduce(s, Redo);
      ReversedSnoc(r.future, r.current);
      assert s.future == r.future + [r.current];
    }
  }

  /** Two states with the same timeline, cursor and fetch states are equal. */
  lemma TimelineDetermines(s: WorkflowState, r: WorkflowState)
    requires Timeline(s) == Timeline(r) && |s.past| == |r.past|
    requires s.actionFetchState == r.actionFetchState && s.triggerFetchState == r.triggerFetchState
    ensures s == r
  {
    var n := |s.past|;
    assert s.past == Timeline(s)[..n] && r.past == Timeline(r)[..n];
    assert Reversed(s.future) == Timeline(s)[n + 1..] && Reversed(r.future) == Timeline(r)[n + 1..];
    ReversedInjective(s.future, r.future);
  }

  lemma {:induction false} ReversedInjective<T>(a: seq<T>, b: seq<T>)
    requires Reversed(a) == Reversed(b)
    ensures a == b
  {
    if a != [] && b != [] {
      assert Reversed(a)[0] == a[|a| - 1] && Reversed(b)[0] == b[|b| - 1];
      assert Reversed(a)[1..] == Reversed(a[..|a| - 1]);
      assert Reversed(b)[1..] == Reversed(b[..|b| - 1]);
      ReversedInjective(a[..|a| - 1], b[..|b| - 1]);
      assert a == a[..|a| - 1] + [a[|a| - 1]] && b == b[..|b| - 1] + [b[|b| - 1]];
    }
  }

  /** Undo followed by redo restores the state exactly. */
  lemma UndoThenRedo(s: WorkflowState)
    requires |s.past| > 0
    ensures Reduce(Reduce(s, Undo), Redo) == s
  {
    UndoWalksTimeline(s);
    RedoWalksTimeline(Reduce(s, Undo));
    TimelineDetermines(Reduce(Reduce(s, Undo), Redo), s);
  }

  /** Redo followed by undo restores the state exactly. */
  lemma RedoThenUndo(s: WorkflowState)
    requires |s.future| > 0
    ensures Reduce(Reduce(s, Redo), Undo) == s
  {
    RedoWalksTimeline(s);
    UndoWalksTimeline(Reduce(s, Redo));
    TimelineDetermines(Reduce(Reduce(s, Redo), Undo), s);
  }

  /** Every edit, whatever its payload (unknown ids included), pushes the
      state it replaces onto `past`, empties `future`, and keeps the fetch
      states: the timeline is cut at the cursor and the new state appended. */
  lemma EditRecordsHistory(s: WorkflowState, cmd: Command)
    requires cmd.IsEdit()
    ensures Reduce(s, cmd).past == s.past + [s.current]
    ensures |Reduce(s, cmd).past| == |s.past| + 1
    ensures Reduce(s, cmd).future == []
    ensures Timeline(Reduce(s, cmd)) == s.past + [s.current, Reduce(s, cmd).current]
    ensures Reduce(s, cmd).actionFetchState == s.actionFetchState
    ensures Reduce(s, cmd).triggerFetchState == s.triggerFetchState
  {
  }

  /** Undo after an edit restores the state before it, except that the
      edited state now waits on `future`; redo then brings it back. After an
      edit, redo has nothing to replay. */
  lemma UndoRevertsEdit(s: WorkflowState, cmd: Command)
    requires cmd.IsEdit()
    ensures Reduce(Reduce(s, cmd), Undo) == s.(future := [Reduce(s, cmd).current])
    ensures Reduce(Reduce(Reduce(s, cmd), Undo), Redo) == Reduce(s, cmd)
    ensures Reduce(Reduce(s, cmd), Redo) == Reduce(s, cmd)
  {
    var r := Reduce(s, cmd);
    assert r.past[..|r.past| - 1] == s.past;
  }

  /** An edit after any number of undos discards the whole redo branch. */
  lemma {:induction false} EditAfterUndosDiscardsRedo(s: WorkflowState, undos: nat, cmd: Command)
    requires cmd.IsEdit()
    ensures Reduce(Run(s, seq(undos, _ => Undo) + [cmd]), Redo) == Run(s, seq(undos, _ => Undo) + [cmd])
  {
    RunAppend(s, seq(undos, _ => Undo), [cmd]);
  }

  lemma {:induction false} RunAppend(s: WorkflowState, a: seq<Command>, b: seq<Command>)
    ensures Run(s, a + b) == Run(Run(s, a), b)
    decreases |a|
  {
    if a != [] {
      assert (a + b)[0] == a[0] && (a + b)[1..] == a[1..] + b;
      RunAppend(Reduce(s, a[0]), a[1..], b);
    } else {
      assert a + b == b;
    }
  }

  /** The fetch reducers never touch the history: a load replaces a map
      without recording an undoable step, the other map is untouched, and
      the flag moves to waiting, failure or success. */
  lemma FetchKeepsHistory(s: WorkflowState, cmd: Command)
    requires !cmd.IsEdit() && !cmd.Undo? && !cmd.Redo?
    ensures Reduce(s, cmd).past == s.past && Reduce(s, cmd).future == s.future
    ensures cmd.SetActionsStart? ==> Reduce(s, cmd) == s.(actionFetchState := APICallState.Waiting)
    ensures cmd.SetActionsFailure? ==> Reduce(s, cmd) == s.(actionFetchState := APICallState.Failure)
    ensures cmd.SetTriggersStart? ==> Reduce(s, cmd) == s.(triggerFetchState := APICallState.Waiting)
    ensures cmd.SetTriggersFailure? ==> Reduce(s, cmd) == s.(triggerFetchState := APICallState.Failure)
    ensures cmd.SetActionsSuccess? ==>
              Reduce(s, cmd).actionFetchState == APICallState.Success &&
              Reduce(s, cmd).triggerFetchState == s.triggerFetchState &&
              Reduce(s, cmd).current.triggerMap == s.current.triggerMap
    ensures cmd.SetTriggersSuccess? ==>
              Reduce(s, cmd).triggerFetchState == APICallState.Success &&
              Reduce(s, cmd).actionFetchState == s.actionFetchState &&
              Reduce(s, cmd).current.actionMap == s.current.actionMap
  {
  }

  /** A short editing session: add a1 and t1, connect them, undo twice,
      redo twice. */
  lemma ConnectUndoRedoScenario()
    ensures
      var a1, t1 := Action("a1", "A1", None), Trigger("t1", "T1", None);
      var s3 := Run(InitialState(), [AddAction(a1), AddTrigger(t1), AddConnection(Connection("a1", "t1"))]);
      var u1 := Reduce(s3, Undo);
      var u2 := Reduce(u1, Undo);
      && ActionPointsTo(s3.current, "a1", "t1") && TriggerPointsTo(s3.current, "t1", "a1")
      && u1.current == Base(map["a1" := a1], map["t1" := t1])
      && u2.current == Base(map["a1" := a1], map[])
      && Reduce(Reduce(u2, Redo), Redo) == s3
  {
    var a1, t1 := Action("a1", "A1", None), Trigger("t1", "T1", None);
    var c0, c1, c2 := Base(map[], map[]), Base(map["a1" := a1], map[]), Base(map["a1" := a1], map["t1" := t1]);
    var c3 := Base(map["a1" := a1.(triggerId := Some("t1"))], map["t1" := t1.(actionId := Some("a1"))]);
    var s0 := InitialState();
    var s1 := Recorded(s0, c1);
    var s2 := Recorded(s1, c2);
    var s3 := Recorded(s2, c3);
    assert WithAction(c0, a1) == c1;
    assert WithTrigger(c1, t1) == c2;
    ScenarioConnect(a1, t1);
    RunThree(s0, AddAction(a1), AddTrigger(t1), AddConnection(Connection("a1", "t1")));
    assert Undone(s3).current == c2 && Undone(Undone(s3)).current == c1;
    UndoThenRedo(Reduce(s3, Undo));
    UndoThenRedo(s3);
  }

  /** The connect step of the session. */
  lemma ScenarioConnect(a1: Action, t1: Trigger)
    requires a1 == Action("a1", "A1", None) && t1 == Trigger("t1", "T1", None)
    ensures Connect(Base(map["a1" := a1], map["t1" := t1]), "a1", "t1") ==
            Base(map["a1" := a1.(triggerId := Some("t1"))], map["t1" := t1.(actionId := Some("a1"))])
  {
    var c2 := Base(map["a1" := a1], map["t1" := t1]);
    assert CutFormerAction(CutFormerTrigger(c2, "a1"), "t1") == c2;
  }

  /** Running three commands. */
  lemma RunThree(s: WorkflowState, x: Command, y: Command, z: Command)
    ensures Run(s, [x, y, z]) == Reduce(Reduce(Reduce(s, x), y), z)
  {
    var s1 := Reduce(s, x);
    var s2 := Reduce(s1, y);
    assert Run(s2, [z]) == Reduce(s2, z) by { assert [z][1..] == []; }
    assert Run(s1, [y, z]) == Run(s2, [z]) by { assert [y, z][1..] == [z]; }
    assert Run(s, [x, y, z]) == Run(s1, [y, z]) by { assert [x, y, z][1..] == [y, z]; }
  }
}
