# Emoticon-to-emoji edit controller, in Dafny

This project models the edit controller behind `withEmoji`, which wraps a
text input or text area. When a keystroke completes an emoticon it swaps
in the emoji, and it keeps its own undo stack of edit checkpoints, separate
from the browser's native undo. It also models the immutable
`SelectionAndValue` snapshot class.

- `js.dfy` (module `Js`) holds the JavaScript values the source works with.
  A string is a sequence of UTF-16 code units, so its length is `.length`.
  `T | undefined` is `Optional<T>` and `number | null` is `NullableNumber`.
  `x || 0` is `OrZero`.
- `selection_and_value.dfy` (module `SelectionAndValue`) models the snapshot
  class as an immutable datatype. Its fields follow the order the
  constructor assigns them. `New` is the constructor and `Value`,
  `SelectionStart` and `SelectionEnd` are the getters.
- `with_emoji.dfy` (module `WithEmoji`) holds the controller. The class
  `WithEmojiController` has one field per ref: `placeCheckpointOnChange`,
  `prevInputState`, `undoStack`, the host element `inputElement`, and a log
  `notifications` of the values passed to `onChange`. It has one method per
  handler or helper. Each method's contract says the new state, `Model()`,
  equals a pure function `After…` of the old state. The lemmas in the same
  module state what each handler does.
- `with_emoji_traces.dfy` (module `WithEmojiTraces`) runs handlers one after
  another (`Run`). It proves facts that involve several events:
  - bounds on the undo stack;
  - undo exhaustion;
  - caret moves never push a checkpoint;
  - undo reverses a substitution as one step;
  - an invariant that ties the host's value to the last value reported to
    the caller.

The emoticon replacer returned by `useReplaceEmoticon` is not part of this
model. It is the parameter `Config.replaceEmoticon`, and any
snapshot-to-snapshot function can fill it. Whether the caller passed
`onChange` is `Config.onChangeProvided`.

Five behaviours of the code are easy to misread; the model follows the code
each time:

- The single-keystroke test compares the new length with the controlled
  `value` prop plus one (`withEmoji.tsx:89`). It does not compare with the
  previous snapshot, and it does not check that the selection is collapsed.
- `handleChange` never updates the previous input state. After an edit, the
  previous state can therefore differ from the host's value (`ChangeFrame`).
  The invariant that does hold in this model is `HostAgreesWithCaller`: the
  host's value equals the last value reported to `onChange`.
- Because the previous state is not refreshed by an edit, a caret move right
  after an edit is compared with the state from before that edit. It then
  sets no checkpoint flag, and the next edit joins the same undo step
  (`CaretMoveAfterEditOpensNoCheckpoint`). One checkpoint per edit across
  caret moves is guaranteed only when the flag is set after the moves, for
  example by a focus (`CaretMovesThenEditPushOnce`).
- `onChange` is called two or three times per change, always with the same
  value.
- The single-keystroke test looks only at the net change in length against
  the controlled prop. A one-code-unit paste passes it and can be
  substituted. Typing over a selection never does, provided the prop is the
  value last reported, as the demo page `App.tsx` wires it. With no prop, or
  a caller that does not feed the reported value back, any edit that ends
  one code unit longer than the prop reaches the replacer, deletions and
  overwrites included.

## Model

| member | source | states |
|---|---|---|
| `Js.OrZero` | src/app/ui/withEmoji.tsx:95-96 | coalescing a nullable number with 0 by logical or turns null into 0 and keeps every integer, 0 included |
| `SelectionAndValue.New` | src/app/ui/private/SelectionAndValue.ts:2-26 | the `value`, `selectionStart` and `selectionEnd` getters return exactly the constructor's first, second and third arguments, although the fields are assigned end, start, value; each argument may be undefined and both bounds may be null |
| `SelectionAndValue.NewFromGetters` | src/app/ui/private/SelectionAndValue.ts:12-26 | an instance holds nothing but what its three getters show (the fields are private and have no setters) |
| `SelectionAndValue.NewInjective` | src/app/ui/private/SelectionAndValue.ts:2-9 | two constructions are equal exactly when all three arguments are equal |
| `WithEmoji.WithEmojiController.constructor` | src/app/ui/withEmoji.tsx:44-50 | mounting starts with the flag false, no previous state and an empty stack, then runs `rememberInputState` as the mount effect of line 189 does |
| `WithEmoji.WithEmojiController.RememberInputState` | src/app/ui/withEmoji.tsx:52-64 | the previous state becomes the host's triple when an element is attached; otherwise nothing changes |
| `WithEmoji.WithEmojiController.Notify` | src/app/ui/withEmoji.tsx:78 | the value is appended to the log only when an `onChange` callback exists |
| `WithEmoji.WithEmojiController.SetSelectionRangeAndValue` | src/app/ui/withEmoji.tsx:68-81 | the host gets the value, then the selection bounds, only when an element is attached; the value is always reported |
| `WithEmoji.WithEmojiController.SetTextBoxValue` | src/app/ui/withEmoji.tsx:83-116 | returns `TextBoxValue` of the event's triple, writes it to the host and reports its value twice |
| `WithEmoji.WithEmojiController.HandleChange` | src/app/ui/withEmoji.tsx:118-146 | the new state is `AfterChange` of the old one: an optional checkpoint, the text box update, and on substitution a second checkpoint, the flag set and a further write |
| `WithEmoji.WithEmojiController.HandleFocus` | src/app/ui/withEmoji.tsx:148-152 | the new state is `AfterFocus`: the input state is remembered and the flag is set |
| `WithEmoji.WithEmojiController.HandleKeyDown` | src/app/ui/withEmoji.tsx:154-173 | the new state is `AfterKeyDown`: undo on Ctrl/Meta+z/Z, otherwise nothing |
| `WithEmoji.WithEmojiController.HandleSelect` | src/app/ui/withEmoji.tsx:175-185 | the new state is `AfterSelect`: the flag is set on a caret-only move, and the observed triple is always recorded |
| `WithEmoji.WithEmojiController.Rerender` | src/app/ui/withEmoji.tsx:44 | a re-render replaces the controlled `value` prop that the single-keystroke test reads, and nothing else |
| `WithEmoji.WriteEffect` | src/app/ui/withEmoji.tsx:68-81 | `setSelectionRangeAndValue` writes the host only when it exists, reports the value whenever a callback exists, and changes nothing else |
| `WithEmoji.TextBoxValueCases` | src/app/ui/withEmoji.tsx:89-113 | `setTextBoxValue` returns its input unchanged, null bounds included, unless the length is the controlled length plus one; only then is the replacer applied, to bounds where null became 0 and numbers stay as they are |
| `WithEmoji.NoSubstitutionUnlessSingleInsertion` | src/app/ui/withEmoji.tsx:85-99 | a substitution implies the new value is exactly one code unit longer than the controlled prop; any other net change is never substituted (which, provided the prop is the value last reported, as `App.tsx` wires it, rules out most pastes, deletions and typing over a selection) |
| `WithEmoji.ChangeCheckpointFirst` | src/app/ui/withEmoji.tsx:120-132 | the old stack stays a prefix; with the flag set, the first entry pushed is the previous state, or undefined when there is none; without the flag and without substitution the stack is unchanged |
| `WithEmoji.ChangeSubstitution` | src/app/ui/withEmoji.tsx:134-143 | the flag ends true exactly when substitution changed the value, and then the raw pre-substitution triple is on top; the stack is the old one plus the checkpoint (if the flag was set) plus the raw triple (if substituted) |
| `WithEmoji.ChangeFrame` | src/app/ui/withEmoji.tsx:118-146 | `handleChange` grows the stack by at most 2, never changes the previous state or the prop, leaves the substituted triple in the host, and reports that value twice, or three times after a substitution |
| `WithEmoji.UndoEffect` | src/app/ui/withEmoji.tsx:158-170 | undo pops once and pushes nothing; the popped snapshot, or `("", 0, 0)` when the stack is empty or the entry is undefined, becomes both the previous state and the host's triple; the flag is untouched |
| `WithEmoji.OtherKeysChangeNothing` | src/app/ui/withEmoji.tsx:154-173 | the undo shortcut is exactly Ctrl or Meta with `z` or `Z`; any other key leaves the whole state unchanged |
| `WithEmoji.SelectEffect` | src/app/ui/withEmoji.tsx:175-185 | the flag becomes true iff the observed value equals the previous state's value (never when there is none) and otherwise stays; the previous state becomes the observed triple; nothing else changes |
| `WithEmoji.FocusEffect` | src/app/ui/withEmoji.tsx:148-152 | focus always sets the flag, refreshes the previous state only when an element is attached, and never touches the stack, host or log |
| `WithEmoji.FocusIdempotent` | src/app/ui/withEmoji.tsx:52-64 | two focuses in a row give the same state as one |
| `WithEmoji.MountEffect` | src/app/ui/withEmoji.tsx:47-50 | after mounting (including the effect at line 189) the stack is empty, the flag is false, nothing has been reported and the previous state is the host's triple |
| `WithEmojiTraces.RunStackBounds` | src/app/ui/withEmoji.tsx:118-173 | over any sequence of events, only changes push, at most two entries each, and only the undo shortcut pops, at most one entry each |
| `WithEmojiTraces.CaretMovesKeepStack` | src/app/ui/withEmoji.tsx:148-185 | any number of focus and select events leaves the stack, the host, the log and the prop unchanged |
| `WithEmojiTraces.FocusKeepsFlagSet` | src/app/ui/withEmoji.tsx:148-185 | after a focus, or with the flag already set, any further focus and select events leave the checkpoint flag set |
| `WithEmojiTraces.CaretMovesThenEditPushOnce` | src/app/ui/withEmoji.tsx:118-185 | after any caret moves, an edit with no substitution pushes at most one checkpoint, and exactly one when the moves leave the flag set, which any focus among them guarantees |
| `WithEmojiTraces.CaretMoveAfterEditOpensNoCheckpoint` | src/app/ui/withEmoji.tsx:118-185 | with the flag clear, an edit, then a select whose value is the edited value, then a second edit push nothing and leave the flag clear, because the select is compared with the stale pre-edit state |
| `WithEmojiTraces.RepeatedUndoExhausts` | src/app/ui/withEmoji.tsx:158-170 | pressing undo more times than the stack has entries empties it and ends on `("", 0, 0)` in the previous state and, when attached, in the host |
| `WithEmojiTraces.UndoRevertsSubstitution` | src/app/ui/withEmoji.tsx:136-170 | undo right after a substitution restores the raw triple the change event reported, keeps the flag set, and leaves the stack as before plus the opening checkpoint |
| `WithEmojiTraces.SecondUndoReturnsToCheckpoint` | src/app/ui/withEmoji.tsx:118-170 | when the substituting edit opened a checkpoint, a second undo restores the pre-edit state (or the empty one if none existed) as the previous state and, when attached, in the host, and leaves the stack as before the edit |
| `WithEmojiTraces.MountAgrees` | src/app/ui/withEmoji.tsx:189 | the host and caller agreement invariant holds after mounting |
| `WithEmojiTraces.StepPreservesAgreement` | src/app/ui/withEmoji.tsx:68-185 | every handler keeps the invariant: with an element attached, the last value reported to `onChange` is the host's value |
| `WithEmojiTraces.RunPreservesAgreement` | src/app/ui/withEmoji.tsx:68-81 | every sequence of events keeps that invariant and never attaches or detaches the element |
| `WithEmojiTraces.SmileyExample` | src/app/ui/withEmoji.tsx:83-170 | with prop `"hi :"` and a replacer that turns `"hi :)"` into `"hi 🙂"`, typing `)` leaves `"hi 🙂"` with caret 5 (the emoji is two code units), and one undo restores `"hi :)"` with caret 5 |

## Left out

- React machinery is not modelled: `useCallback`, `useRef`, `useRefFrom`,
  `useEffect`, `React.createElement`, and the `withEmoji` wrapper with its
  `displayName`. The mount effect is the constructor's call to
  `RememberInputState`, and a re-render is `Rerender`.
- `useReplaceEmoticon` and its emoticon table are not part of this model.
  The replacer is an arbitrary, total, pure function that stays fixed for
  the controller's lifetime.
- DOM events and elements are in-memory values. `event.preventDefault()` is
  dropped. The event's `currentTarget` triple is a handler parameter,
  independent of the host record. The user's own typing into the element is
  not modelled.
- The user's caret moves do not update the host record either. In a browser
  the select event's target is the element itself, so a later focus
  remembers the moved selection. In this model, a focus after a select
  remembers the last selection the controller wrote instead. The next edit
  pushes that older selection as its checkpoint, and undo restores it.
- Host DOM semantics are not modelled. A DOM element clamps selection bounds
  to the value's length and turns a null bound into 0. The host record
  stores whatever is written.
- Numbers are integers. Fractional values and NaN are not modelled. This
  matters only in `x || 0`, where NaN would also become 0.
- Rerender / HostAgreesWithCaller: the wrapper renders the element as a
  controlled input with `value || ''` (`withEmoji.tsx:197`), so a re-render
  writes the prop into the element. That write is not modelled. The
  agreement invariant therefore holds only for callers that feed each
  reported value back as the prop.
- `onChange` is modelled by its presence alone. Presence is fixed when the
  controller is built, and a re-render that adds or removes the callback is
  not modelled. The values it receives form the `notifications` log.
- `{ ...current }` copies become plain values. Snapshots are never mutated in
  place, so aliasing between the undo stack and the previous state cannot be
  observed.
- `src/app/ui/App.tsx` (the demo page) and `src/app/ui/withSomething.tsx` (a
  pass-through wrapper) are presentation code. They are not part of this
  model.
