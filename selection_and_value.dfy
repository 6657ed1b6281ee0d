/** The immutable snapshot class of `private/SelectionAndValue.ts`. */
module SelectionAndValue {
  import opened Js

  /** A selection bound as the class accepts it: `number | null | undefined`. */
  type SelectionBound = Optional<NullableNumber>

  /** The three private fields, listed in the order the constructor assigns
      them (end, start, value). A datatype value never changes after it is
      built, just as the class has no setters. */
  datatype SelectionAndValue = Fields(
    selectionEndField: SelectionBound,
    selectionStartField: SelectionBound,
    valueField: Optional<JsString>)
  {
    /** The `value` getter. */
    function Value(): Optional<JsString>
    {
      valueField
    }

    /** The `selectionEnd` getter. */
    function SelectionEnd(): SelectionBound
    {
      selectionEndField
    }

    /** The `selectionStart` getter. */
    function SelectionStart(): SelectionBound
    {
      selectionStartField
    }
  }

  /** The constructor `new SelectionAndValue(value, selectionStart, selectionEnd)`:
      every getter gives back exactly the argument of the same name, although
      the arguments arrive in a different order from the one the fields are
      assigned in. Every argument may be undefined, and both bounds may be null. */
  function New(value: Optional<JsString>, selectionStart: SelectionBound, selectionEnd: SelectionBound): (s: SelectionAndValue)
    ensures s.Value() == value
    ensures s.SelectionStart() == selectionStart
    ensures s.SelectionEnd() == selectionEnd
  {
    Fields(selectionEnd, selectionStart, value)
  }

  /** An instance holds nothing beyond what its getters show: rebuilding it
      from its getters gives the same instance. */
  lemma NewFromGetters(s: SelectionAndValue)
    ensures New(s.Value(), s.SelectionStart(), s.SelectionEnd()) == s
  {
  }

  /** Two constructions give equal instances exactly when their arguments agree. */
  lemma NewInjective(value: Optional<JsString>, selectionStart: SelectionBound, selectionEnd: SelectionBound,
                     value': Optional<JsString>, selectionStart': SelectionBound, selectionEnd': SelectionBound)
    ensures New(value, selectionStart, selectionEnd) == New(value', selectionStart', selectionEnd')
        <==> value == value' && selectionStart == selectionStart' && selectionEnd == selectionEnd'
  {
  }
}
