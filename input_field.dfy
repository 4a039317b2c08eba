/**
 * The InputField component (InputField.tsx lines 68-197): its local state
 * (`showPassword`, `internalValue`), the change, clear and password-toggle
 * handlers, and the values the render derives from props and state. Styling
 * classes are not modelled.
 */
module InputFieldComponent {
  import opened Wrappers

  /** The props the logic reads. `None` is an omitted (undefined) prop; an
      omitted boolean prop is `false`. `hasOnChange` and `hasOnClear` say
      whether the callbacks were supplied. */
  datatype InputProps = InputProps(
    value: Option<string>,
    inputType: Option<string>,
    id: Option<string>,
    helperText: Option<string>,
    errorMessage: Option<string>,
    invalid: bool,
    loading: bool,
    disabled: bool,
    showClearButton: bool,
    isPassword: bool,
    hasOnChange: bool,
    hasOnClear: bool)

  /** JavaScript truthiness of an optional string: undefined and "" are falsy. */
  predicate Truthy(s: Option<string>) {
    s.Some? && s.value != ""
  }

  /** The field is controlled when the caller passes `value`. */
  predicate Controlled(p: InputProps) {
    p.value.Some?
  }

  /** `useState(value || "")`. */
  function InitialInternalValue(value: Option<string>): string {
    if Truthy(value) then value.value else ""
  }

  /** `actualValue`: `value` when defined, the internal value otherwise. */
  function ActualValue(p: InputProps, internalValue: string): string {
    if p.value.Some? then p.value.value else internalValue
  }

  /** `isInvalid`. */
  predicate IsInvalid(p: InputProps) {
    p.invalid || Truthy(p.errorMessage)
  }

  /** `inputType`: revealed or masked for a password field, the caller's
      `type` otherwise. */
  function InputType(p: InputProps, showPassword: bool): Option<string> {
    if p.isPassword then Some(if showPassword then "text" else "password") else p.inputType
  }

  /** The `disabled` attribute of the input. */
  predicate InputDisabled(p: InputProps) {
    p.disabled || p.loading
  }

  /** The spinner is rendered. */
  predicate SpinnerVisible(p: InputProps) {
    p.loading
  }

  /** The clear button is rendered. */
  predicate ClearButtonVisible(p: InputProps, actualValue: string) {
    !p.loading && p.showClearButton && actualValue != ""
  }

  /** The password visibility toggle is rendered. */
  predicate PasswordToggleVisible(p: InputProps) {
    p.isPassword && !p.loading
  }

  /** The toggle's `aria-label`. */
  function PasswordToggleLabel(showPassword: bool): string {
    if showPassword then "Hide Password" else "Show Password"
  }

  /** `${props.id}-description`: an omitted id prints as "undefined". */
  function DescriptionId(p: InputProps): string {
    (if p.id.Some? then p.id.value else "undefined") + "-description"
  }

  /** The text of the description paragraph, `errorMessage || helperText`,
      when the paragraph is rendered. */
  function Description(p: InputProps): Option<string> {
    if Truthy(p.errorMessage) then p.errorMessage
    else if Truthy(p.helperText) then p.helperText
    else None
  }

  /** The input's `aria-describedby`. */
  function DescribedBy(p: InputProps): Option<string> {
    if Truthy(p.errorMessage) || Truthy(p.helperText) then Some(DescriptionId(p)) else None
  }

  // ---------------------------------------------------------------------------
  // Properties of the derivations
  // ---------------------------------------------------------------------------

  /** On mount the displayed value is `value` when controlled and "" when not;
      afterwards a controlled field shows `value` whatever its internal state,
      and an uncontrolled one shows its internal state. */
  lemma DisplayedValueModes(p: InputProps, internalValue: string)
    ensures ActualValue(p, InitialInternalValue(p.value)) == p.value.GetOr("")
    ensures Controlled(p) ==> ActualValue(p, internalValue) == p.value.value
    ensures !Controlled(p) ==> ActualValue(p, internalValue) == internalValue
  {
  }

  /** The field is invalid exactly when `invalid` is set or an error message is
      given; the message alone suffices, an empty one does not count. */
  lemma InvalidCases(p: InputProps)
    ensures IsInvalid(p) <==> p.invalid || (p.errorMessage.Some? && p.errorMessage.value != "")
    ensures Truthy(p.errorMessage) ==> IsInvalid(p)
    ensures !p.invalid && p.errorMessage == Some("") ==> !IsInvalid(p)
  {
  }

  /** A password field is typed "text" exactly when shown and "password"
      exactly when hidden; any other field keeps the caller's `type`. Flipping
      visibility changes a password field's type. */
  lemma InputTypeCases(p: InputProps, showPassword: bool)
    ensures p.isPassword ==> (InputType(p, showPassword) == Some("text") <==> showPassword)
    ensures p.isPassword ==> (InputType(p, showPassword) == Some("password") <==> !showPassword)
    ensures !p.isPassword ==> InputType(p, showPassword) == p.inputType
    ensures p.isPassword ==> InputType(p, !showPassword) != InputType(p, showPassword)
  {
  }

  /** While loading the input is disabled and the spinner is the only adornment;
      otherwise the spinner is hidden, the clear button shows exactly when
      enabled and there is text, and a password field shows its toggle. */
  lemma AdornmentCases(p: InputProps, actualValue: string)
    ensures p.loading ==> InputDisabled(p) && SpinnerVisible(p)
    ensures p.loading ==> !ClearButtonVisible(p, actualValue) && !PasswordToggleVisible(p)
    ensures !p.loading ==> !SpinnerVisible(p)
    ensures !p.loading ==> (ClearButtonVisible(p, actualValue) <==> p.showClearButton && actualValue != "")
    ensures !p.loading ==> (PasswordToggleVisible(p) <==> p.isPassword)
    ensures InputDisabled(p) <==> p.disabled || p.loading
  {
  }

  /** The description paragraph and `aria-describedby` appear together, and the
      attribute names the paragraph's id; the paragraph shows the error message
      when there is one and the helper text otherwise. */
  lemma DescriptionCases(p: InputProps)
    ensures DescribedBy(p).Some? <==> Description(p).Some?
    ensures Description(p).Some? ==> DescribedBy(p) == Some(DescriptionId(p)) && Description(p).value != ""
    ensures Truthy(p.errorMessage) ==> Description(p) == p.errorMessage
    ensures !Truthy(p.errorMessage) && Truthy(p.helperText) ==> Description(p) == p.helperText
    ensures Description(p).Some? <==> Truthy(p.errorMessage) || Truthy(p.helperText)
  {
  }

  // ---------------------------------------------------------------------------
  // The component's state
  // ---------------------------------------------------------------------------

  class InputField {
    const props: InputProps
    var showPassword: bool
    var internalValue: string

    /** Mounting: the password is hidden and the internal value is `value || ""`. */
    constructor (props: InputProps)
      ensures this.props == props
      ensures !showPassword && internalValue == InitialInternalValue(props.value)
      ensures DisplayedValue() == props.value.GetOr("")
      ensures props.isPassword ==> InputType(props, showPassword) == Some("password")
    {
      this.props := props;
      showPassword := false;
      internalValue := InitialInternalValue(props.value);
    }

    /** The value the input shows. */
    function DisplayedValue(): string
      reads this
    {
      ActualValue(props, internalValue)
    }

    /** `handleChange`: an uncontrolled field takes the typed text; a controlled
        one keeps showing `value`. `onChange` is called once when supplied. */
    method HandleChange(text: string) returns (onChangeCalls: nat)
      modifies this`internalValue
      ensures internalValue == if Controlled(props) then old(internalValue) else text
      ensures DisplayedValue() == if Controlled(props) then old(DisplayedValue()) else text
      ensures showPassword == old(showPassword)
      ensures onChangeCalls == if props.hasOnChange then 1 else 0
    {
      if props.value.None? {
        internalValue := text;
      }
      onChangeCalls := if props.hasOnChange then 1 else 0;
    }

    /** `handleClear`: an uncontrolled field is emptied, which hides the clear
        button; a controlled one is left alone. `onClear` is called once when
        supplied. */
    method HandleClear() returns (onClearCalls: nat)
      modifies this`internalValue
      ensures !Controlled(props) ==> internalValue == "" && DisplayedValue() == ""
      ensures !Controlled(props) ==> !ClearButtonVisible(props, DisplayedValue())
      ensures Controlled(props) ==> internalValue == old(internalValue) && DisplayedValue() == old(DisplayedValue())
      ensures showPassword == old(showPassword)
      ensures onClearCalls == if props.hasOnClear then 1 else 0
    {
      if props.value.None? {
        internalValue := "";
      }
      onClearCalls := if props.hasOnClear then 1 else 0;
    }

    /** `togglePasswordVisibility`: flips visibility, which for a password
        field swaps the input type between "password" and "text". */
    method TogglePasswordVisibility()
      modifies this`showPassword
      ensures showPassword == !old(showPassword)
      ensures internalValue == old(internalValue)
      ensures props.isPassword ==> InputType(props, showPassword) == Some(if old(showPassword) then "password" else "text")
      ensures PasswordToggleLabel(showPassword) != PasswordToggleLabel(old(showPassword))
    {
      showPassword := !showPassword;
    }
  }

  /** Two toggles restore the original visibility and input type. */
  method ToggleTwice(f: InputField)
    modifies f
    ensures f.showPassword == old(f.showPassword) && f.internalValue == old(f.internalValue)
    ensures InputType(f.props, f.showPassword) == old(InputType(f.props, f.showPassword))
  {
    f.TogglePasswordVisibility();
    f.TogglePasswordVisibility();
  }
}
