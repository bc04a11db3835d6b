/** The state of the subscription dialog (`SubscriptionModal`) and the event
    handlers that change it. Each React state variable is a field; each handler
    is a method that changes the fields the way the handler's `set…` calls do.
    The POST request and the toast are recorded as the logs `requests` and
    `toasts`; closing the dialog through `onClose` clears `isOpen`. */
module SubscriptionModal {
  import opened JsStrings
  import opened Validation
  import opened Submission

  class Form {
    var fullName: string
    var phoneNumber: string
    var email: string
    var errors: Errors
    var isSubmitting: bool
    /** The dialog's `isOpen` flag, owned by the parent and cleared by `onClose`. */
    var isOpen: bool
    /** Bodies of the requests to /api/subscribers sent so far, oldest first. */
    var requests: seq<Payload>
    /** Notifications shown so far, oldest first. */
    var toasts: seq<Toast>

    /** The phone field only ever holds what the sanitiser produces; while a
        request is in flight the form has passed validation and its fields are
        exactly what was sent (every input is disabled meanwhile). */
    ghost predicate Valid()
      reads this
    {
      && IsStoredPhone(phoneNumber)
      && (isSubmitting ==>
            && errors.IsEmpty()
            && requests != []
            && requests[|requests| - 1] == BuildPayload(fullName, phoneNumber, email))
    }

    /** A freshly mounted, open dialog: the `useState` initial values. */
    constructor ()
      ensures Valid()
      ensures fullName == [] && phoneNumber == [] && email == []
      ensures errors == NoErrors && !isSubmitting && isOpen
      ensures requests == [] && toasts == []
    {
      fullName, phoneNumber, email := "", "", "";
      errors := NoErrors;
      isSubmitting := false;
      isOpen := true;
      requests, toasts := [], [];
    }

    /** `handlePhoneNumberChange`: store the sanitised value and clear the
        phone error only. */
    method EditPhone(value: string)
      requires Valid() && !isSubmitting
      modifies this
      ensures Valid()
      ensures phoneNumber == SanitizePhone(value)
      ensures errors == old(errors).(phoneNumber := None)
      ensures fullName == old(fullName) && email == old(email)
      ensures isSubmitting == old(isSubmitting) && isOpen == old(isOpen)
      ensures requests == old(requests) && toasts == old(toasts)
    {
      phoneNumber := SanitizePhone(value);
      if errors.phoneNumber.Some? {
        errors := errors.(phoneNumber := None);
      }
    }

    /** `handleEmailChange`: store the value as typed and clear the email error only. */
    method EditEmail(value: string)
      requires Valid() && !isSubmitting
      modifies this
      ensures Valid()
      ensures email == value
      ensures errors == old(errors).(email := None)
      ensures fullName == old(fullName) && phoneNumber == old(phoneNumber)
      ensures isSubmitting == old(isSubmitting) && isOpen == old(isOpen)
      ensures requests == old(requests) && toasts == old(toasts)
    {
      email := value;
      if errors.email.Some? {
        errors := errors.(email := None);
      }
    }

    /** The name input's `onChange`: store the value; the errors stay as they are. */
    method EditName(value: string)
      requires Valid() && !isSubmitting
      modifies this
      ensures Valid()
      ensures fullName == value
      ensures errors == old(errors)
      ensures phoneNumber == old(phoneNumber) && email == old(email)
      ensures isSubmitting == old(isSubmitting) && isOpen == old(isOpen)
      ensures requests == old(requests) && toasts == old(toasts)
    {
      fullName := value;
    }

    /** `validateForm`: replace the errors with those of the current fields and
        report whether there are none. */
    method Validate() returns (valid: bool)
      requires Valid() && !isSubmitting
      modifies this
      ensures Valid()
      ensures errors == ValidateForm(fullName, phoneNumber, email)
      ensures valid <==> errors.IsEmpty()
      ensures fullName == old(fullName) && phoneNumber == old(phoneNumber) && email == old(email)
      ensures isSubmitting == old(isSubmitting) && isOpen == old(isOpen)
      ensures requests == old(requests) && toasts == old(toasts)
    {
      errors := ValidateForm(fullName, phoneNumber, email);
      valid := errors.IsEmpty();
    }

    /** The first half of `handleSubmit`, up to the `await`: validate, and if
        that passes, mark the form as submitting and send one request. */
    method Submit() returns (sent: Option<Payload>)
      requires Valid() && !isSubmitting
      modifies this
      ensures Valid()
      ensures errors == ValidateForm(fullName, phoneNumber, email)
      ensures sent.Some? <==> errors.IsEmpty()
      ensures sent.Some? ==> sent.value == BuildPayload(fullName, phoneNumber, email)
      ensures requests == old(requests) + (if sent.Some? then [sent.value] else [])
      ensures isSubmitting <==> sent.Some?
      ensures fullName == old(fullName) && phoneNumber == old(phoneNumber) && email == old(email)
      ensures isOpen == old(isOpen) && toasts == old(toasts)
    {
      var valid := Validate();
      if !valid {
        return None;
      }
      isSubmitting := true;
      var body := BuildPayload(fullName, phoneNumber, email);
      requests := requests + [body];
      sent := Some(body);
    }

    /** The second half of `handleSubmit`, once the request has ended: show one
        notification; on success clear the fields and close the dialog; in
        every case leave the submitting state. */
    method Settle(outcome: Outcome)
      requires Valid() && isSubmitting
      modifies this
      ensures Valid() && !isSubmitting
      ensures toasts == old(toasts) + [Notify(outcome, old(email))]
      ensures requests == old(requests) && errors == old(errors)
      ensures Succeeded(outcome) ==> fullName == [] && phoneNumber == [] && email == [] && !isOpen
      ensures !Succeeded(outcome) ==>
        fullName == old(fullName) && phoneNumber == old(phoneNumber) && email == old(email) && isOpen == old(isOpen)
    {
      toasts := toasts + [Notify(outcome, email)];
      if Succeeded(outcome) {
        fullName, phoneNumber, email := "", "", "";
        isOpen := false;
      }
      isSubmitting := false;
    }

    /** `handleSubmit` as one step: the request, if one is sent, ends with `outcome`. */
    method HandleSubmit(outcome: Outcome) returns (sent: Option<Payload>)
      requires Valid() && !isSubmitting
      modifies this
      ensures Valid() && !isSubmitting
      ensures errors == ValidateForm(old(fullName), old(phoneNumber), old(email))
      ensures sent.Some? <==> errors.IsEmpty()
      ensures sent.Some? <==> Acceptable(old(fullName), old(phoneNumber), old(email))
      ensures sent.Some? ==> sent.value == BuildPayload(old(fullName), old(phoneNumber), old(email))
      ensures requests == old(requests) + (if sent.Some? then [sent.value] else [])
      ensures toasts == old(toasts) + (if sent.Some? then [Notify(outcome, old(email))] else [])
      ensures sent.Some? && Succeeded(outcome) ==> fullName == [] && phoneNumber == [] && email == [] && !isOpen
      ensures sent.None? || !Succeeded(outcome) ==>
        fullName == old(fullName) && phoneNumber == old(phoneNumber) && email == old(email) && isOpen == old(isOpen)
    {
      sent := Submit();
      ValidateFormPasses(fullName, phoneNumber, email);
      if sent.Some? {
        Settle(outcome);
      }
    }

    /** The Cancel button: `onClose` only; the fields are kept. */
    method Cancel()
      requires Valid() && !isSubmitting
      modifies this
      ensures Valid()
      ensures !isOpen
      ensures fullName == old(fullName) && phoneNumber == old(phoneNumber) && email == old(email)
      ensures errors == old(errors) && isSubmitting == old(isSubmitting)
      ensures requests == old(requests) && toasts == old(toasts)
    {
      isOpen := false;
    }

    /** The dialog's own close control (`onOpenChange`): `onClose`, with no
        guard, so it also works while a request is in flight. */
    method Dismiss()
      requires Valid()
      modifies this
      ensures Valid()
      ensures !isOpen
      ensures fullName == old(fullName) && phoneNumber == old(phoneNumber) && email == old(email)
      ensures errors == old(errors) && isSubmitting == old(isSubmitting)
      ensures requests == old(requests) && toasts == old(toasts)
    {
      isOpen := false;
    }
  }

  /** A subscription by email only that the server accepts as new: one body
      without a phone key is sent, the welcome sentence is shown, and the form
      is cleared and closed. */
  method AcceptedEmailScenario()
  {
    var name, local, host, tld := "Asha Rao", "asha", "example", "com";
    var address := local + "@" + host + "." + tld;
    var form := new Form();
    form.EditName(name);
    form.EditEmail(address);
    assert Acceptable(name, "", address) by {
      var domain := host + "." + tld;
      assert domain == "example.com";
      AsciiLowerFixesLower(domain);
      ExampleDomainNotBlocklisted();
      assert !IsWhitespace(name[0]);
      EmailOnlyAccepted(name, local, host, tld);
    }
    ValidateFormPasses(name, "", address);
    var reply := Replied(Response(true, None, true, true));
    var sent := form.HandleSubmit(reply);
    assert sent.Some?;
    assert sent.value.fullName == name;
    assert sent.value.phoneNumber == None;
    assert sent.value.email == Some(address);
    assert form.requests == [Payload(name, None, Some(address))];
    NewSubscriptionWithWelcome(address);
    assert form.toasts == [Toast(SubscribedTitle, DefaultSuccessMessage + WelcomeSentence(address), Default)];
    assert form.fullName == [] && form.phoneNumber == [] && form.email == [] && !form.isOpen;
  }

  /** A rejected subscription: the server's message is shown and every field
      keeps what was typed. */
  method RejectedScenario()
  {
    var name, phone, reason := "Asha Rao", "9876543210", "Email already subscribed";
    var form := new Form();
    form.EditName(name);
    SanitizeFixesStored(phone);
    form.EditPhone(phone);
    ValidPhoneVerdict();
    var reply := Replied(Response(false, Some(reason), false, false));
    var sent := form.HandleSubmit(reply);
    assert sent.Some?;
    assert sent.value.fullName == name;
    assert sent.value.phoneNumber == Some(phone);
    assert sent.value.email == None;
    RejectionShowsReason(reason, false, false, "");
    assert form.toasts == [Toast(FailedTitle, reason, Destructive)];
    assert form.fullName == name && form.phoneNumber == phone && form.email == [] && form.isOpen;
  }
}
