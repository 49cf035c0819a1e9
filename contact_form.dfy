/**
 * The contact form (src/js/contact-form.js): per-field validation, the three blur-time
 * validators, the submit handler with its re-entrancy guard, the submitting state that
 * disables every control, and the tab-order numbering.
 *
 * handleSubmit is asynchronous: it awaits the (simulated) delivery. It is modelled as two
 * steps, HandleSubmit (everything up to the await) and CompleteSubmit (what runs when the
 * await resumes), so that a second submit arriving in between meets the guard.
 */
module ContactForms {
  import opened Wrappers
  import opened Text
  import opened Patterns
  import opened Fields

  const TooShortMessage := "Please provide more details (at least 10 characters)"
  const TooLongMessage := "Message is too long (maximum 1000 characters)"
  const CorrectErrorsMessage := "Please correct the errors above and try again."
  const SendFailedMessage :=
    "Sorry, there was an error sending your message. Please try again or contact us directly."

  /** The message textarea, the only control with a length rule. */
  predicate IsMessageArea(f: Control) {
    f.tag == TextArea && f.name == "message"
  }

  /** A message of 10 to 1000 characters once trimmed. */
  predicate LengthOk(value: string) {
    10 <= |Trim(value)| <= 1000
  }

  /** A control passes validateField when it breaks none of its rules. */
  predicate FieldValid(f: Control) {
    !MissingRequired(f) && !BadEmail(f) && !BadPhone(f) && !(IsMessageArea(f) && !LengthOk(f.value))
  }

  /**
   * validateField: every rule is checked in turn and a failing rule overwrites the message
   * of an earlier one, so the message reported is that of the LAST failing rule: length,
   * then email or phone, then required.
   */
  method ValidateField(f: Control) returns (isValid: bool, errorMessage: string)
    ensures isValid <==> FieldValid(f)
    ensures isValid <==> errorMessage == ""
    ensures IsMessageArea(f) && |Trim(f.value)| < 10 ==> errorMessage == TooShortMessage
    ensures IsMessageArea(f) && |Trim(f.value)| > 1000 ==> errorMessage == TooLongMessage
    ensures !(IsMessageArea(f) && !LengthOk(f.value)) && BadEmail(f) ==> errorMessage == EmailMessage
    ensures !(IsMessageArea(f) && !LengthOk(f.value)) && BadPhone(f) ==> errorMessage == PhoneMessage
    ensures !(IsMessageArea(f) && !LengthOk(f.value)) && !BadEmail(f) && !BadPhone(f) && MissingRequired(f)
      ==> errorMessage == RequiredMessage
  {
    var value := Trim(f.value);
    isValid := true;
    errorMessage := "";
    if f.required && value == [] {
      isValid := false;
      errorMessage := RequiredMessage;
    }
    if f.kind == "email" {
      if value != [] && !IsValidEmail(value) {
        isValid := false;
        errorMessage := EmailMessage;
      }
    } else if f.kind == "tel" {
      if value != [] && !IsValidPhone(value) {
        isValid := false;
        errorMessage := PhoneMessage;
      }
    }
    if f.tag == TextArea && f.name == "message" {
      if |value| < 10 {
        isValid := false;
        errorMessage := TooShortMessage;
      } else if |value| > 1000 {
        isValid := false;
        errorMessage := TooLongMessage;
      }
    }
  }

  /** validateEmail (on blur of the email input): true unless a non-empty value fails the email rule. */
  function ValidateEmail(value: string): (ok: bool)
    ensures IsBlank(value) ==> ok
    ensures !IsBlank(value) ==> (ok <==> IsValidEmail(Trim(value)))
  {
    TrimSpec(value);
    var v := Trim(value);
    !(v != [] && !IsValidEmail(v))
  }

  /** validatePhone (on blur of the tel input): true unless a non-empty value fails the phone rule. */
  function ValidatePhone(value: string): (ok: bool)
    ensures IsBlank(value) ==> ok
    ensures !IsBlank(value) ==> (ok <==> IsValidPhone(Trim(value)))
  {
    TrimSpec(value);
    var v := Trim(value);
    !(v != [] && !IsValidPhone(v))
  }

  /** validateMessage (on blur of the textarea): the trimmed length must be 10 to 1000. */
  function ValidateMessage(value: string): (ok: bool)
    ensures ok <==> LengthOk(value)
    ensures IsBlank(value) ==> !ok
  {
    TrimSpec(value);
    var v := Trim(value);
    if |v| < 10 then false else if |v| > 1000 then false else true
  }

  /**
   * The blur-time email check and validateField agree on an optional email input; in
   * particular an empty optional email is valid.
   */
  lemma ValidateEmailAgrees(f: Control)
    requires f.tag == Input && f.kind == "email" && !f.required
    ensures ValidateEmail(f.value) <==> FieldValid(f)
    ensures Trim(f.value) == [] ==> ValidateEmail(f.value)
  {
  }

  /** The blur-time phone check and validateField agree on an optional tel input. */
  lemma ValidatePhoneAgrees(f: Control)
    requires f.tag == Input && f.kind == "tel" && !f.required
    ensures ValidatePhone(f.value) <==> FieldValid(f)
    ensures Trim(f.value) == [] ==> ValidatePhone(f.value)
  {
  }

  /**
   * The blur-time message check and validateField agree on the message textarea, required
   * or not: a blank required message fails the length rule as well.
   */
  lemma ValidateMessageAgrees(f: Control)
    requires IsMessageArea(f) && f.kind == "textarea"
    ensures ValidateMessage(f.value) <==> FieldValid(f)
    ensures ValidateMessage(f.value) <==> 10 <= |Trim(f.value)| <= 1000
  {
  }

  /** Every control of the sequence passes validateField. */
  predicate AllValid(fs: seq<Control>) {
    forall i :: 0 <= i < |fs| ==> FieldValid(fs[i])
  }

  /** The form-level message shown above the form (an element with role="alert"). */
  datatype Banner = NoBanner | FormError(message: string) | Sent

  class ContactForm {
    /** The form's input, textarea and select elements, in document order. */
    const fields: array<Control>
    /** Whether the form has a submit button. */
    const hasSubmitButton: bool
    var submitDisabled: bool
    var isSubmitting: bool
    var banner: Banner

    constructor (controls: seq<Control>, hasSubmitButton: bool)
      ensures fresh(fields) && fields[..] == controls
      ensures this.hasSubmitButton == hasSubmitButton
      ensures !isSubmitting && !submitDisabled && banner == NoBanner
    {
      fields := new Control[|controls|](i requires 0 <= i < |controls| => controls[i]);
      this.hasSubmitButton := hasSubmitButton;
      submitDisabled := false;
      isSubmitting := false;
      banner := NoBanner;
    }

    /** setSubmittingState: the flag, the submit button and every control follow b. */
    method SetSubmittingState(b: bool)
      modifies this, fields
      ensures isSubmitting == b
      ensures submitDisabled == if hasSubmitButton then b else old(submitDisabled)
      ensures banner == old(banner)
      ensures forall i :: 0 <= i < fields.Length ==> fields[i] == old(fields[i]).(disabled := b)
    {
      isSubmitting := b;
      if hasSubmitButton {
        submitDisabled := b;
      }
      var i := 0;
      while i < fields.Length
        invariant 0 <= i <= fields.Length
        invariant isSubmitting == b && banner == old(banner)
        invariant submitDisabled == if hasSubmitButton then b else old(submitDisabled)
        invariant forall k :: 0 <= k < i ==> fields[k] == old(fields[k]).(disabled := b)
        invariant forall k :: i <= k < fields.Length ==> fields[k] == old(fields[k])
      {
        fields[i] := fields[i].(disabled := b);
        i := i + 1;
      }
    }

    /**
     * handleSubmit up to its await. While a submission is pending nothing happens at all.
     * Otherwise every control is validated, none skipped (each gets its aria-invalid mark),
     * and the submission starts exactly when every control is valid.
     */
    method HandleSubmit() returns (started: bool)
      modifies this, fields
      ensures old(isSubmitting) ==> !started && isSubmitting && banner == old(banner)
      ensures old(isSubmitting) ==> submitDisabled == old(submitDisabled) && fields[..] == old(fields[..])
      ensures !old(isSubmitting) ==> (started <==> AllValid(old(fields[..])))
      ensures !old(isSubmitting) ==> forall i :: 0 <= i < fields.Length ==>
        fields[i] == old(fields[i]).(invalid := !FieldValid(old(fields[i])),
                                    disabled := if started then true else old(fields[i]).disabled)
      ensures !old(isSubmitting) && !started ==>
        !isSubmitting && banner == FormError(CorrectErrorsMessage) && submitDisabled == old(submitDisabled)
      ensures started ==> isSubmitting && banner == old(banner)
      ensures started ==> submitDisabled == (hasSubmitButton || old(submitDisabled))
    {
      if isSubmitting {
        return false;
      }
      var isFormValid := true;
      var i := 0;
      while i < fields.Length
        invariant 0 <= i <= fields.Length
        invariant unchanged(this)
        invariant forall k :: 0 <= k < i ==> fields[k] == old(fields[k]).(invalid := !FieldValid(old(fields[k])))
        invariant forall k :: i <= k < fields.Length ==> fields[k] == old(fields[k])
        invariant isFormValid <==> forall k :: 0 <= k < i ==> FieldValid(old(fields[k]))
      {
        var ok, _ := ValidateField(fields[i]);
        fields[i] := fields[i].(invalid := !ok);
        if !ok {
          isFormValid := false;
        }
        i := i + 1;
      }
      assert isFormValid <==> AllValid(old(fields[..]));
      if !isFormValid {
        banner := FormError(CorrectErrorsMessage);
        return false;
      }
      SetSubmittingState(true);
      started := true;
    }

    /**
     * The rest of handleSubmit, once the delivery it awaited has settled: on success the
     * success message and form.reset(), on failure the error message; in both cases the
     * finally block clears the submitting state.
     */
    method CompleteSubmit(delivered: bool)
      modifies this, fields
      ensures !isSubmitting && (hasSubmitButton ==> !submitDisabled)
      ensures banner == if delivered then Sent else FormError(SendFailedMessage)
      ensures forall i :: 0 <= i < fields.Length ==>
        fields[i] == old(fields[i]).(value := if delivered then old(fields[i]).defaultValue else old(fields[i]).value,
                                    disabled := false)
    {
      if delivered {
        banner := Sent;
        var i := 0;
        while i < fields.Length
          invariant 0 <= i <= fields.Length
          invariant unchanged(this`isSubmitting, this`submitDisabled) && banner == Sent
          invariant forall k :: 0 <= k < i ==> fields[k] == old(fields[k]).(value := old(fields[k]).defaultValue)
          invariant forall k :: i <= k < fields.Length ==> fields[k] == old(fields[k])
        {
          fields[i] := fields[i].(value := fields[i].defaultValue);
          i := i + 1;
        }
      } else {
        banner := FormError(SendFailedMessage);
      }
      SetSubmittingState(false);
    }
  }

  /** A second submit while the first is pending is ignored; the flag clears once it settles. */
  method DoubleSubmit(form: ContactForm, delivered: bool) returns (first: bool, second: bool)
    requires !form.isSubmitting && AllValid(form.fields[..])
    modifies form, form.fields
    ensures first && !second
    ensures !form.isSubmitting && form.banner == if delivered then Sent else FormError(SendFailedMessage)
  {
    first := form.HandleSubmit();
    second := form.HandleSubmit();
    form.CompleteSubmit(delivered);
  }

  /** setupAccessibility's tab order: the focusable controls get tabindex 1..n in document order. */
  method NumberTabOrder(tabindex: array<Option<int>>)
    modifies tabindex
    ensures forall i :: 0 <= i < tabindex.Length ==> tabindex[i] == Some(i + 1)
  {
    var i := 0;
    while i < tabindex.Length
      invariant 0 <= i <= tabindex.Length
      invariant forall k :: 0 <= k < i ==> tabindex[k] == Some(k + 1)
    {
      tabindex[i] := Some(i + 1);
      i := i + 1;
    }
  }
}
