/** The emoticon-to-emoji edit controller of `withEmoji.tsx` (`WithEmojiController`).

    The controller keeps a checkpoint-pending flag, the previous input state,
    an undo stack and a reference to the host text field, and reacts to four
    events: change, focus, select and key down. Each handler is a method of
    the class `WithEmojiController`; what it does to the whole state is
    specified by a pure function `After…` on the datatype `State`, and the
    lemmas below state the properties of those functions. */
module WithEmoji {
  import opened Js

  /** The controller's own `{ selectionEnd, selectionStart, value }` record:
      a string value and two `number | null` selection bounds. It also stands
      for the host field's triple. */
  datatype Snapshot = Snapshot(value: JsString, selectionStart: NullableNumber, selectionEnd: NullableNumber)

  /** The state undo falls back to when there is nothing to restore. */
  const EmptySnapshot := Snapshot([], Num(0), Num(0))

  /** The keys `'z'` and `'Z'`. */
  const LowerZ: JsString := [122]
  const UpperZ: JsString := [90]

  /** What the controller is built with and does not change: whether the
      caller passed an `onChange` callback, and the emoticon replacer supplied
      by `useReplaceEmoticon` (not part of this model; any function will do). */
  datatype Config = Config(onChangeProvided: bool, replaceEmoticon: Snapshot -> Snapshot)

  /** Everything the controller changes: the controlled `value` prop, the
      checkpoint-pending flag, the previous input state, the undo stack
      (entries may be undefined), the host field (undefined when no element is
      attached) and the values passed to `onChange`, in call order. */
  datatype State = State(
    value: Optional<JsString>,
    placeCheckpointOnChange: bool,
    prevInputState: Optional<Snapshot>,
    undoStack: seq<Optional<Snapshot>>,
    inputElement: Optional<Snapshot>,
    notifications: seq<JsString>)

  // ---------------------------------------------------------------------------
  // Specification functions, one per step of `withEmoji.tsx`

  /** `onChangeRef.current?.(v)`: the value is reported only when there is a callback. */
  function AfterNotify(c: Config, st: State, v: JsString): State
  {
    if c.onChangeProvided then st.(notifications := st.notifications + [v]) else st
  }

  /** `rememberInputState`: copies the host triple into the previous state
      when an element is attached. */
  function AfterRemember(st: State): State
  {
    if st.inputElement.Defined? then st.(prevInputState := st.inputElement) else st
  }

  /** `setSelectionRangeAndValue`: writes the triple into the host, if any, and
      reports the value. */
  function AfterWrite(c: Config, st: State, s: Snapshot): State
  {
    var written := if st.inputElement.Defined? then Defined(s) else Undefined;
    AfterNotify(c, st.(inputElement := written), s.value)
  }

  /** `value || ''` for the controlled prop. */
  function ValueOrEmpty(value: Optional<JsString>): JsString
  {
    match value
    case Undefined => []
    case Defined(v) => v
  }

  /** The single-keystroke test: the new value is one code unit longer than
      the controlled prop. It does not look at the previous input state nor at
      whether the selection is collapsed. */
  predicate IsSingleInsertion(value: Optional<JsString>, nextValue: JsString)
  {
    |nextValue| == |ValueOrEmpty(value)| + 1
  }

  /** The triple `setTextBoxValue` returns. */
  function TextBoxValue(c: Config, value: Optional<JsString>, next: Snapshot): Snapshot
  {
    if IsSingleInsertion(value, next.value) then
      c.replaceEmoticon(Snapshot(next.value, Num(OrZero(next.selectionStart)), Num(OrZero(next.selectionEnd))))
    else
      next
  }

  /** The state after `setTextBoxValue`: the result is written to the host and
      then reported a second time. */
  function AfterSetTextBoxValue(c: Config, st: State, next: Snapshot): State
  {
    var r := TextBoxValue(c, st.value, next);
    AfterNotify(c, AfterWrite(c, st, r), r.value)
  }

  /** The first step of `handleChange`: with the flag set, push a copy of the
      previous state (undefined if there is none) and clear the flag. */
  function AfterCheckpoint(st: State): State
  {
    if st.placeCheckpointOnChange then
      st.(undoStack := st.undoStack + [st.prevInputState], placeCheckpointOnChange := false)
    else
      st
  }

  /** `handleChange` for a change event whose target holds `target`. */
  function AfterChange(c: Config, st: State, target: Snapshot): State
  {
    var next := TextBoxValue(c, st.value, target);
    var st' := AfterSetTextBoxValue(c, AfterCheckpoint(st), target);
    if next.value != target.value then
      AfterWrite(c, st'.(undoStack := st'.undoStack + [Defined(target)], placeCheckpointOnChange := true), next)
    else
      st'
  }

  /** `handleFocus`. */
  function AfterFocus(st: State): State
  {
    AfterRemember(st).(placeCheckpointOnChange := true)
  }

  /** Ctrl or Meta together with `'z'` or `'Z'`. */
  predicate IsUndoShortcut(key: JsString, ctrlKey: bool, metaKey: bool)
  {
    (ctrlKey || metaKey) && (key == UpperZ || key == LowerZ)
  }

  /** What `pop()` returns: the last entry, or undefined on an empty stack. */
  function Popped(stack: seq<Optional<Snapshot>>): Optional<Snapshot>
  {
    if stack == [] then Undefined else stack[|stack| - 1]
  }

  /** What undo restores for a popped entry. */
  function Restored(popped: Optional<Snapshot>): Snapshot
  {
    match popped
    case Defined(s) => s
    case Undefined => EmptySnapshot
  }

  /** The undo branch of `handleKeyDown`. */
  function AfterUndo(c: Config, st: State): State
  {
    var restored := Restored(Popped(st.undoStack));
    var stack := if st.undoStack == [] then [] else st.undoStack[..|st.undoStack| - 1];
    AfterWrite(c, st.(undoStack := stack, prevInputState := Defined(restored)), restored)
  }

  /** `handleKeyDown`. */
  function AfterKeyDown(c: Config, st: State, key: JsString, ctrlKey: bool, metaKey: bool): State
  {
    if IsUndoShortcut(key, ctrlKey, metaKey) then AfterUndo(c, st) else st
  }

  /** `handleSelect` for a select event whose target holds `target`. */
  function AfterSelect(st: State, target: Snapshot): State
  {
    var caretOnly := st.prevInputState.Defined? && target.value == st.prevInputState.val.value;
    st.(placeCheckpointOnChange := if caretOnly then true else st.placeCheckpointOnChange,
        prevInputState := Defined(target))
  }

  /** A re-render with a new controlled `value` prop. */
  function AfterRerender(st: State, value: Optional<JsString>): State
  {
    st.(value := value)
  }

  /** Mounting: the initial refs, then the effect that calls `rememberInputState`. */
  function Mount(value: Optional<JsString>, inputElement: Optional<Snapshot>): State
  {
    AfterRemember(State(value, false, Undefined, [], inputElement, []))
  }

  // ---------------------------------------------------------------------------
  // The controller

  class WithEmojiController {
    const config: Config
    var value: Optional<JsString>
    var placeCheckpointOnChange: bool
    var prevInputState: Optional<Snapshot>
    var undoStack: seq<Optional<Snapshot>>
    var inputElement: Optional<Snapshot>
    var notifications: seq<JsString>

    /** The whole mutable state as a value. */
    function Model(): State
      reads this
    {
      State(value, placeCheckpointOnChange, prevInputState, undoStack, inputElement, notifications)
    }

    /** Mounts the controller on `inputElement` (undefined when no element is attached). */
    constructor (config: Config, value: Optional<JsString>, inputElement: Optional<Snapshot>)
      ensures this.config == config
      ensures Model() == Mount(value, inputElement)
    {
      this.config := config;
      this.value := value;
      placeCheckpointOnChange := false;
      prevInputState := Undefined;
      undoStack := [];
      this.inputElement := inputElement;
      notifications := [];
      new;
      RememberInputState();
    }

    method RememberInputState()
      modifies this
      ensures Model() == AfterRemember(old(Model()))
    {
      if inputElement.Defined? {
        var current := inputElement.val;
        prevInputState := Defined(Snapshot(current.value, current.selectionStart, current.selectionEnd));
      }
    }

    method Notify(v: JsString)
      modifies this
      ensures Model() == AfterNotify(config, old(Model()), v)
    {
      if config.onChangeProvided {
        notifications := notifications + [v];
      }
    }

    method SetSelectionRangeAndValue(s: Snapshot)
      modifies this
      ensures Model() == AfterWrite(config, old(Model()), s)
    {
      if inputElement.Defined? {
        // The value goes in before the selection bounds.
        inputElement := Defined(inputElement.val.(value := s.value));
        inputElement := Defined(inputElement.val.(selectionStart := s.selectionStart));
        inputElement := Defined(inputElement.val.(selectionEnd := s.selectionEnd));
      }
      Notify(s.value);
    }

    method SetTextBoxValue(next: Snapshot) returns (r: Snapshot)
      modifies this
      ensures r == TextBoxValue(config, old(value), next)
      ensures Model() == AfterSetTextBoxValue(config, old(Model()), next)
    {
      r := next;
      if IsSingleInsertion(value, next.value) {
        r := config.replaceEmoticon(Snapshot(next.value, Num(OrZero(next.selectionStart)), Num(OrZero(next.selectionEnd))));
      }
      SetSelectionRangeAndValue(r);
      Notify(r.value);
    }

    method HandleChange(target: Snapshot)
      modifies this
      ensures Model() == AfterChange(config, old(Model()), target)
    {
      if placeCheckpointOnChange {
        // A copy of the previous state, or undefined when there is none.
        undoStack := undoStack + [prevInputState];
        placeCheckpointOnChange := false;
      }
      var nextInputState := SetTextBoxValue(target);
      if nextInputState.value != target.value {
        undoStack := undoStack + [Defined(target)];
        placeCheckpointOnChange := true;
        SetSelectionRangeAndValue(nextInputState);
      }
    }

    method HandleFocus()
      modifies this
      ensures Model() == AfterFocus(old(Model()))
    {
      RememberInputState();
      placeCheckpointOnChange := true;
    }

    method HandleKeyDown(key: JsString, ctrlKey: bool, metaKey: bool)
      modifies this
      ensures Model() == AfterKeyDown(config, old(Model()), key, ctrlKey, metaKey)
    {
      if IsUndoShortcut(key, ctrlKey, metaKey) {
        var popped: Optional<Snapshot> := Undefined;
        if |undoStack| > 0 {
          popped := undoStack[|undoStack| - 1];
          undoStack := undoStack[..|undoStack| - 1];
        }
        if popped.Defined? {
          prevInputState := popped;
        } else {
          prevInputState := Defined(EmptySnapshot);
        }
        SetSelectionRangeAndValue(prevInputState.val);
      }
    }

    method HandleSelect(target: Snapshot)
      modifies this
      ensures Model() == AfterSelect(old(Model()), target)
    {
      if prevInputState.Defined? && target.value == prevInputState.val.value {
        // The caret moved: the next change places a checkpoint.
        placeCheckpointOnChange := true;
      }
      prevInputState := Defined(target);
    }

    method Rerender(value: Optional<JsString>)
      modifies this
      ensures Model() == AfterRerender(old(Model()), value)
    {
      this.value := value;
    }
  }

  // ---------------------------------------------------------------------------
  // Properties of the handlers

  /** `setSelectionRangeAndValue` writes the host only when an element is
      attached, always reports the value (when there is a callback), and
      changes nothing else. */
  lemma WriteEffect(c: Config, st: State, s: Snapshot)
    ensures AfterWrite(c, st, s).inputElement == (if st.inputElement.Defined? then Defined(s) else Undefined)
    ensures AfterWrite(c, st, s).notifications == st.notifications + (if c.onChangeProvided then [s.value] else [])
    ensures AfterWrite(c, st, s).(inputElement := st.inputElement, notifications := st.notifications) == st
  {
  }

  /** `setTextBoxValue` hands back its input unchanged, null bounds included,
      unless the new value is exactly one code unit longer than the controlled
      prop; only then does it consult the replacer, and the replacer never
      sees a null bound: a null bound reaches it as 0, a number as itself. */
  lemma TextBoxValueCases(c: Config, value: Optional<JsString>, next: Snapshot)
    ensures |next.value| != |ValueOrEmpty(value)| + 1 ==> TextBoxValue(c, value, next) == next
    ensures |next.value| == |ValueOrEmpty(value)| + 1 ==>
      var start := if next.selectionStart.Null? then 0 else next.selectionStart.n;
      var end := if next.selectionEnd.Null? then 0 else next.selectionEnd.n;
      TextBoxValue(c, value, next) == c.replaceEmoticon(Snapshot(next.value, Num(start), Num(end)))
  {
  }

  /** A paste (two or more code units more than the controlled prop) never
      substitutes, and neither does a deletion. */
  lemma NoSubstitutionUnlessSingleInsertion(c: Config, value: Optional<JsString>, next: Snapshot)
    requires TextBoxValue(c, value, next) != next
    ensures |next.value| == |ValueOrEmpty(value)| + 1
  {
  }

  /** With the flag set, `handleChange` first pushes exactly one entry, the
      previous state (undefined when there is none), and everything pushed
      goes on top of the old stack. Without the flag and without a
      substitution, the stack is left as it was. */
  lemma ChangeCheckpointFirst(c: Config, st: State, target: Snapshot)
    ensures |st.undoStack| <= |AfterChange(c, st, target).undoStack|
    ensures AfterChange(c, st, target).undoStack[..|st.undoStack|] == st.undoStack
    ensures st.placeCheckpointOnChange ==>
      |AfterChange(c, st, target).undoStack| > |st.undoStack| &&
      AfterChange(c, st, target).undoStack[|st.undoStack|] == st.prevInputState
    ensures !st.placeCheckpointOnChange && TextBoxValue(c, st.value, target).value == target.value ==>
      AfterChange(c, st, target).undoStack == st.undoStack
  {
  }

  /** After `handleChange` the flag is set exactly when substitution changed
      the value; in that case the raw, pre-substitution triple is on top of
      the stack. The stack is exactly the old one, plus the checkpoint when
      the flag was set, plus the raw triple when the value was substituted. */
  lemma ChangeSubstitution(c: Config, st: State, target: Snapshot)
    ensures AfterChange(c, st, target).placeCheckpointOnChange <==> TextBoxValue(c, st.value, target).value != target.value
    ensures TextBoxValue(c, st.value, target).value != target.value ==>
      AfterChange(c, st, target).undoStack[|AfterChange(c, st, target).undoStack| - 1] == Defined(target)
    ensures AfterChange(c, st, target).undoStack ==
      st.undoStack
      + (if st.placeCheckpointOnChange then [st.prevInputState] else [])
      + (if TextBoxValue(c, st.value, target).value != target.value then [Defined(target)] else [])
  {
  }

  /** `handleChange` grows the stack by at most two, never touches the
      previous input state or the controlled prop, leaves the host holding
      the substituted triple, and reports that value two or three times. */
  lemma ChangeFrame(c: Config, st: State, target: Snapshot)
    ensures |AfterChange(c, st, target).undoStack| <= |st.undoStack| + 2
    ensures AfterChange(c, st, target).prevInputState == st.prevInputState
    ensures AfterChange(c, st, target).value == st.value
    ensures AfterChange(c, st, target).inputElement ==
      (if st.inputElement.Defined? then Defined(TextBoxValue(c, st.value, target)) else Undefined)
    ensures
      var v := TextBoxValue(c, st.value, target).value;
      AfterChange(c, st, target).notifications ==
        st.notifications + (if !c.onChangeProvided then [] else if v != target.value then [v, v, v] else [v, v])
  {
  }

  /** The undo shortcut pops once and pushes nothing, restores the popped
      snapshot (or the empty one when the stack was empty or the entry
      undefined) as both the previous state and the host's triple, and
      leaves the flag alone. */
  lemma UndoEffect(c: Config, st: State, key: JsString, ctrlKey: bool, metaKey: bool)
    requires IsUndoShortcut(key, ctrlKey, metaKey)
    ensures
      var r := AfterKeyDown(c, st, key, ctrlKey, metaKey);
      var restored := if st.undoStack != [] && st.undoStack[|st.undoStack| - 1].Defined?
                      then st.undoStack[|st.undoStack| - 1].val else Snapshot([], Num(0), Num(0));
      && r.undoStack == (if st.undoStack == [] then [] else st.undoStack[..|st.undoStack| - 1])
      && r.prevInputState == Defined(restored)
      && r.inputElement == (if st.inputElement.Defined? then Defined(restored) else Undefined)
      && r.notifications == st.notifications + (if c.onChangeProvided then [restored.value] else [])
      && r.placeCheckpointOnChange == st.placeCheckpointOnChange
      && r.value == st.value
  {
  }

  /** The undo shortcut is Ctrl or Meta with `'z'` or `'Z'`, and no other
      key changes anything. */
  lemma OtherKeysChangeNothing(c: Config, st: State, key: JsString, ctrlKey: bool, metaKey: bool)
    ensures IsUndoShortcut(key, ctrlKey, metaKey) <==> (ctrlKey || metaKey) && (key == [122] || key == [90])
    ensures !IsUndoShortcut(key, ctrlKey, metaKey) ==> AfterKeyDown(c, st, key, ctrlKey, metaKey) == st
  {
  }

  /** `handleSelect` sets the flag exactly when the observed value equals the
      previous state's value (never when there is no previous state) and
      otherwise leaves it; it always records the observed triple and touches
      nothing else. */
  lemma SelectEffect(st: State, target: Snapshot)
    ensures AfterSelect(st, target).placeCheckpointOnChange <==>
      st.placeCheckpointOnChange || (st.prevInputState.Defined? && st.prevInputState.val.value == target.value)
    ensures st.prevInputState.Undefined? ==> AfterSelect(st, target).placeCheckpointOnChange == st.placeCheckpointOnChange
    ensures AfterSelect(st, target).prevInputState == Defined(target)
    ensures AfterSelect(st, target).(placeCheckpointOnChange := st.placeCheckpointOnChange, prevInputState := st.prevInputState) == st
  {
  }

  /** `handleFocus` always sets the flag, refreshes the previous state from
      the host only when an element is attached, and touches nothing else. */
  lemma FocusEffect(st: State)
    ensures AfterFocus(st).placeCheckpointOnChange
    ensures AfterFocus(st).prevInputState == (if st.inputElement.Defined? then st.inputElement else st.prevInputState)
    ensures AfterFocus(st).(placeCheckpointOnChange := st.placeCheckpointOnChange, prevInputState := st.prevInputState) == st
  {
  }

  /** Two focuses in a row do what one does. */
  lemma FocusIdempotent(st: State)
    ensures AfterFocus(AfterFocus(st)) == AfterFocus(st)
  {
  }

  /** Mounting starts with an empty stack, no pending checkpoint and nothing
      reported, and takes the host's triple as the previous state. */
  lemma MountEffect(value: Optional<JsString>, inputElement: Optional<Snapshot>)
    ensures Mount(value, inputElement).undoStack == []
    ensures !Mount(value, inputElement).placeCheckpointOnChange
    ensures Mount(value, inputElement).prevInputState == inputElement
    ensures Mount(value, inputElement).notifications == []
  {
  }
}
