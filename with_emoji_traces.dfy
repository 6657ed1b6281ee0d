/** Sequences of events delivered to the emoji controller, and what holds of
    them: bounds on the undo stack, exhaustion of undo, caret moves that never
    push, undo of a substitution, and an invariant tying the host to what the
    caller was last told. */
module WithEmojiTraces {
  import opened Js
  import opened WithEmoji

  /** One event handler invocation, or a re-render with a new `value` prop. */
  datatype Event =
    | Focus
    | Change(target: Snapshot)
    | Select(target: Snapshot)
    | KeyDown(key: JsString, ctrlKey: bool, metaKey: bool)
    | Rerender(value: Optional<JsString>)

  function Step(c: Config, st: State, e: Event): State
  {
    match e
    case Focus => AfterFocus(st)
    case Change(t) => AfterChange(c, st, t)
    case Select(t) => AfterSelect(st, t)
    case KeyDown(k, ctrl, meta) => AfterKeyDown(c, st, k, ctrl, meta)
    case Rerender(v) => AfterRerender(st, v)
  }

  /** The handlers run one after another, each to completion. */
  function Run(c: Config, st: State, events: seq<Event>): State
    decreases |events|
  {
    if events == [] then st else Run(c, Step(c, st, events[0]), events[1..])
  }

  /** Ctrl+Z. */
  const Undo := KeyDown(LowerZ, true, false)

  predicate IsUndo(e: Event)
  {
    e.KeyDown? && IsUndoShortcut(e.key, e.ctrlKey, e.metaKey)
  }

  /** Events that move the caret or the focus without editing. */
  predicate IsCaretMove(e: Event)
  {
    e.Focus? || e.Select?
  }

  function CountChanges(events: seq<Event>): nat
  {
    if events == [] then 0 else (if events[0].Change? then 1 else 0) + CountChanges(events[1..])
  }

  function CountUndos(events: seq<Event>): nat
  {
    if events == [] then 0 else (if IsUndo(events[0]) then 1 else 0) + CountUndos(events[1..])
  }

  /** Running two event sequences one after the other is running their concatenation. */
  lemma {:induction false} RunAppend(c: Config, st: State, a: seq<Event>, b: seq<Event>)
    ensures Run(c, st, a + b) == Run(c, Run(c, st, a), b)
    decreases |a|
  {
    if a != [] {
      assert (a + b)[0] == a[0];
      assert (a + b)[1..] == a[1..] + b;
      RunAppend(c, Step(c, st, a[0]), a[1..], b);
    } else {
      assert a + b == b;
    }
  }

  /** Only changes push (at most two entries each) and only the undo
      shortcut pops (at most one entry each). */
  lemma {:induction false} RunStackBounds(c: Config, st: State, events: seq<Event>)
    ensures |st.undoStack| - CountUndos(events) <= |Run(c, st, events).undoStack|
    ensures |Run(c, st, events).undoStack| <= |st.undoStack| + 2 * CountChanges(events)
    decreases |events|
  {
    if events != [] {
      var e := events[0];
      if e.Change? {
        ChangeFrame(c, st, e.target);
        ChangeCheckpointFirst(c, st, e.target);
      }
      RunStackBounds(c, Step(c, st, e), events[1..]);
    }
  }

  /** Caret moves and focus changes, however many, leave the undo stack, the
      host and the reports alone. */
  lemma {:induction false} CaretMovesKeepStack(c: Config, st: State, moves: seq<Event>)
    requires forall i :: 0 <= i < |moves| ==> IsCaretMove(moves[i])
    ensures Run(c, st, moves).undoStack == st.undoStack
    ensures Run(c, st, moves).inputElement == st.inputElement
    ensures Run(c, st, moves).notifications == st.notifications
    ensures Run(c, st, moves).value == st.value
    decreases |moves|
  {
    if moves != [] {
      CaretMovesKeepStack(c, Step(c, st, moves[0]), moves[1..]);
    }
  }

  /** Once a focus has happened, further caret moves and focuses keep the
      checkpoint flag set. */
  lemma {:induction false} FocusKeepsFlagSet(c: Config, st: State, moves: seq<Event>)
    requires forall i :: 0 <= i < |moves| ==> IsCaretMove(moves[i])
    requires Focus in moves || st.placeCheckpointOnChange
    ensures Run(c, st, moves).placeCheckpointOnChange
    decreases |moves|
  {
    if moves != [] {
      var st' := Step(c, st, moves[0]);
      assert moves[0] == Focus || Focus in moves[1..] || st'.placeCheckpointOnChange;
      if !st'.placeCheckpointOnChange {
        assert moves[0] != Focus;
        assert Focus in moves[1..];
      }
      FocusKeepsFlagSet(c, st', moves[1..]);
    }
  }

  /** Moving the caret between edits costs no checkpoint of its own: after
      any number of caret moves, an edit that substitutes nothing pushes at
      most one entry, and exactly one when the moves leave the flag set,
      which any focus among them guarantees. */
  lemma CaretMovesThenEditPushOnce(c: Config, st: State, moves: seq<Event>, target: Snapshot)
    requires forall i :: 0 <= i < |moves| ==> IsCaretMove(moves[i])
    requires TextBoxValue(c, st.value, target).value == target.value
    ensures |Run(c, st, moves + [Change(target)]).undoStack| <= |st.undoStack| + 1
    ensures Run(c, st, moves).placeCheckpointOnChange ==>
      |Run(c, st, moves + [Change(target)]).undoStack| == |st.undoStack| + 1
    ensures Focus in moves ==>
      |Run(c, st, moves + [Change(target)]).undoStack| == |st.undoStack| + 1
  {
    RunAppend(c, st, moves, [Change(target)]);
    CaretMovesKeepStack(c, st, moves);
    var mid := Run(c, st, moves);
    if Focus in moves {
      FocusKeepsFlagSet(c, st, moves);
    }
    assert [Change(target)][1..] == [];
    ChangeSubstitution(c, mid, target);
  }

  /** `handleChange` never refreshes the previous state, so a caret move
      right after an edit is compared with the state from before that edit:
      it opens no checkpoint, and the next edit joins the same undo step. */
  lemma CaretMoveAfterEditOpensNoCheckpoint(c: Config, st: State, first: Snapshot, moved: Snapshot, second: Snapshot)
    requires !st.placeCheckpointOnChange
    requires st.prevInputState.Defined? && st.prevInputState.val.value != first.value
    requires moved.value == first.value
    requires TextBoxValue(c, st.value, first).value == first.value
    requires TextBoxValue(c, st.value, second).value == second.value
    ensures Run(c, st, [Change(first), Select(moved), Change(second)]).undoStack == st.undoStack
    ensures !Run(c, st, [Change(first), Select(moved), Change(second)]).placeCheckpointOnChange
  {
    var events := [Change(first), Select(moved), Change(second)];
    var s1 := AfterChange(c, st, first);
    ChangeSubstitution(c, st, first);
    ChangeFrame(c, st, first);
    var s2 := AfterSelect(s1, moved);
    assert !s2.placeCheckpointOnChange;
    ChangeSubstitution(c, s2, second);
    var rest := [Select(moved), Change(second)];
    assert events[1..] == rest;
    assert rest[1..] == [Change(second)];
    assert [Change(second)][1..] == [];
    assert Run(c, st, events) == Run(c, s1, rest);
    assert Run(c, s1, rest) == Run(c, s2, [Change(second)]);
    assert Run(c, s2, [Change(second)]) == AfterChange(c, s2, second);
  }

  function UndoPresses(n: nat): seq<Event>
  {
    seq(n, _ => Undo)
  }

  /** Pressing undo more often than there are entries empties the stack and
      ends on the empty snapshot, in the previous state and in the host. */
  lemma {:induction false} RepeatedUndoExhausts(c: Config, st: State, n: nat)
    requires n > |st.undoStack|
    ensures Run(c, st, UndoPresses(n)).undoStack == []
    ensures Run(c, st, UndoPresses(n)).prevInputState == Defined(EmptySnapshot)
    ensures Run(c, st, UndoPresses(n)).inputElement ==
      (if st.inputElement.Defined? then Defined(EmptySnapshot) else Undefined)
    decreases n
  {
    var presses := UndoPresses(n);
    assert presses[0] == Undo && presses[1..] == UndoPresses(n - 1);
    var st' := Step(c, st, Undo);
    if n > 1 {
      RepeatedUndoExhausts(c, st', n - 1);
    } else {
      assert UndoPresses(n - 1) == [];
    }
  }

  /** Undo right after a substitution restores the raw, pre-substitution
      triple (value and bounds as the change event reported them) and keeps
      the flag set. */
  lemma UndoRevertsSubstitution(c: Config, st: State, target: Snapshot)
    requires TextBoxValue(c, st.value, target).value != target.value
    ensures Run(c, st, [Change(target), Undo]).prevInputState == Defined(target)
    ensures Run(c, st, [Change(target), Undo]).inputElement ==
      (if st.inputElement.Defined? then Defined(target) else Undefined)
    ensures Run(c, st, [Change(target), Undo]).undoStack ==
      st.undoStack + (if st.placeCheckpointOnChange then [st.prevInputState] else [])
    ensures Run(c, st, [Change(target), Undo]).placeCheckpointOnChange
  {
    ChangeSubstitution(c, st, target);
    ChangeFrame(c, st, target);
    var changed := AfterChange(c, st, target);
    assert [Change(target), Undo][1..] == [Undo];
    assert [Undo][1..] == [];
    assert Run(c, st, [Change(target), Undo]) == Run(c, changed, [Undo]);
    assert Run(c, changed, [Undo]) == AfterUndo(c, changed);
  }

  /** When the substituting edit opened a checkpoint, a second undo goes back
      to the state before the edit (the empty snapshot if there was none) and
      leaves the stack as it was before the edit. */
  lemma SecondUndoReturnsToCheckpoint(c: Config, st: State, target: Snapshot)
    requires st.placeCheckpointOnChange
    requires TextBoxValue(c, st.value, target).value != target.value
    ensures Run(c, st, [Change(target), Undo, Undo]).prevInputState == Defined(Restored(st.prevInputState))
    ensures Run(c, st, [Change(target), Undo, Undo]).undoStack == st.undoStack
    ensures Run(c, st, [Change(target), Undo, Undo]).inputElement ==
      (if st.inputElement.Defined? then Defined(Restored(st.prevInputState)) else Undefined)
  {
    RunAppend(c, st, [Change(target), Undo], [Undo]);
    assert [Change(target), Undo] + [Undo] == [Change(target), Undo, Undo];
    UndoRevertsSubstitution(c, st, target);
    var mid := Run(c, st, [Change(target), Undo]);
    assert [Undo][1..] == [];
    assert Run(c, mid, [Undo]) == AfterUndo(c, mid);
  }

  /** The invariant the controller keeps between events: whenever an element
      is attached and something has been reported, the last reported value is
      the host's value; with no callback nothing is ever reported. */
  predicate HostAgreesWithCaller(c: Config, st: State)
  {
    && (!c.onChangeProvided ==> st.notifications == [])
    && (st.inputElement.Defined? && st.notifications != [] ==>
          st.notifications[|st.notifications| - 1] == st.inputElement.val.value)
  }

  lemma MountAgrees(c: Config, value: Optional<JsString>, inputElement: Optional<Snapshot>)
    ensures HostAgreesWithCaller(c, Mount(value, inputElement))
  {
  }

  lemma StepPreservesAgreement(c: Config, st: State, e: Event)
    requires HostAgreesWithCaller(c, st)
    ensures HostAgreesWithCaller(c, Step(c, st, e))
  {
  }

  /** Every run keeps the host and the caller in agreement, and never
      attaches or detaches the element. */
  lemma {:induction false} RunPreservesAgreement(c: Config, st: State, events: seq<Event>)
    requires HostAgreesWithCaller(c, st)
    ensures HostAgreesWithCaller(c, Run(c, st, events))
    ensures Run(c, st, events).inputElement.Defined? == st.inputElement.Defined?
    decreases |events|
  {
    if events != [] {
      StepPreservesAgreement(c, st, events[0]);
      if events[0].Change? {
        ChangeFrame(c, st, events[0].target);
      }
      RunPreservesAgreement(c, Step(c, st, events[0]), events[1..]);
    }
  }

  // ---------------------------------------------------------------------------
  // A worked example: typing ")" after "hi :" with a replacer that turns
  // "hi :)" into "hi 🙂". The emoji is two UTF-16 code units, so both
  // strings are five code units long and the caret stays at 5.

  const HiColon: JsString := [104, 105, 32, 58]
  const HiSmileyText: JsString := [104, 105, 32, 58, 41]
  const HiEmoji: JsString := [104, 105, 32, 0xD83D, 0xDE42]

  lemma SmileyExample(c: Config, st: State)
    requires c.replaceEmoticon(Snapshot(HiSmileyText, Num(5), Num(5))) == Snapshot(HiEmoji, Num(5), Num(5))
    requires st.value == Defined(HiColon)
    requires st.inputElement.Defined?
    ensures Run(c, st, [Change(Snapshot(HiSmileyText, Num(5), Num(5)))]).inputElement ==
      Defined(Snapshot(HiEmoji, Num(5), Num(5)))
    ensures Run(c, st, [Change(Snapshot(HiSmileyText, Num(5), Num(5))), Undo]).inputElement ==
      Defined(Snapshot(HiSmileyText, Num(5), Num(5)))
  {
    var t := Snapshot(HiSmileyText, Num(5), Num(5));
    assert TextBoxValue(c, st.value, t) == Snapshot(HiEmoji, Num(5), Num(5));
    ChangeFrame(c, st, t);
    assert [Change(t)][1..] == [];
    UndoRevertsSubstitution(c, st, t);
  }
}
