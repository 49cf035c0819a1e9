/**
 * Form controls as the two validators see them (the input, textarea and select elements of
 * a form), and the rules both validators share. Every rule reads the trimmed value.
 */
module Fields {
  import opened Text
  import opened Patterns

  datatype Tag = Input | TextArea | Select

  /**
   * One form control. `kind` is the element's `type` property ("text", "email", "tel",
   * "textarea", "select-one", ...); `required` is the presence of the required attribute;
   * `invalid` is the aria-invalid="true" mark a validator sets or removes; `disabled` is the
   * element's disabled property; `defaultValue` is what form.reset() restores.
   */
  datatype Control = Control(
    tag: Tag, kind: string, name: string, required: bool,
    value: string, defaultValue: string, disabled: bool, invalid: bool)

  const RequiredMessage := "This field is required"
  const EmailMessage := "Please enter a valid email address"
  const PhoneMessage := "Please enter a valid phone number"

  /** A required control whose trimmed value is empty. */
  predicate MissingRequired(f: Control) {
    f.required && Trim(f.value) == []
  }

  /** An email control with a non-empty trimmed value the email rule rejects. */
  predicate BadEmail(f: Control) {
    f.kind == "email" && Trim(f.value) != [] && !IsValidEmail(Trim(f.value))
  }

  /** A tel control with a non-empty trimmed value the phone rule rejects. */
  predicate BadPhone(f: Control) {
    f.kind == "tel" && Trim(f.value) != [] && !IsValidPhone(Trim(f.value))
  }

  /** An email or tel control that is left blank breaks none of the shared rules unless it is required. */
  lemma BlankOptionalPasses(f: Control)
    requires IsBlank(f.value) && !f.required
    ensures !MissingRequired(f) && !BadEmail(f) && !BadPhone(f)
  {
    TrimSpec(f.value);
  }

  /** A required control that holds only white space is missing, whatever its kind. */
  lemma BlankRequiredMissing(f: Control)
    requires IsBlank(f.value) && f.required
    ensures MissingRequired(f)
  {
    TrimSpec(f.value);
  }
}
