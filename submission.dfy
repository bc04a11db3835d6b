/** What a submission sends and what it reports: the request body for
    POST /api/subscribers, the server's reply (or a transport failure) taken as
    an input, and the notification composed from it. */
module Submission {
  import opened JsStrings

  // ---------------------------------------------------------------------------
  // Request body

  /** The JSON body `{ fullName, phoneNumber?, email? }`; `None` is a key that
      `JSON.stringify` leaves out because its value is `undefined`. */
  datatype Payload = Payload(fullName: string, phoneNumber: Option<string>, email: Option<string>)

  /** `s || undefined`: the empty string is falsy and becomes an absent key. */
  function Present(s: string): (r: Option<string>)
    ensures r.Some? <==> s != []
    ensures r.Some? ==> r.value == s
  {
    if s == [] then None else Some(s)
  }

  /** The body `handleSubmit` sends for the current field values. */
  function BuildPayload(fullName: string, phoneNumber: string, email: string): (p: Payload)
    ensures p.fullName == fullName
    ensures p.phoneNumber != Some([]) && p.email != Some([])
    ensures p.phoneNumber.Some? <==> phoneNumber != []
    ensures p.email.Some? <==> email != []
  {
    Payload(fullName, Present(phoneNumber), Present(email))
  }

  /** The field values a body stands for: a missing key is an empty field. */
  function FieldsOf(p: Payload): (string, string, string) {
    (p.fullName,
     match p.phoneNumber case Some(v) => v case None => "",
     match p.email case Some(v) => v case None => "")
  }

  /** Leaving out empty fields loses nothing: the fields can be read back from the body. */
  lemma PayloadRoundTrip(fullName: string, phoneNumber: string, email: string)
    ensures FieldsOf(BuildPayload(fullName, phoneNumber, email)) == (fullName, phoneNumber, email)
  {
  }

  /** Different forms give different bodies. */
  lemma PayloadInjective(n1: string, p1: string, e1: string, n2: string, p2: string, e2: string)
    requires BuildPayload(n1, p1, e1) == BuildPayload(n2, p2, e2)
    ensures n1 == n2 && p1 == p2 && e1 == e2
  {
    PayloadRoundTrip(n1, p1, e1);
    PayloadRoundTrip(n2, p2, e2);
  }

  // ---------------------------------------------------------------------------
  // Server reply

  /** The parsed reply body with the transport's `ok` flag. `message` is `None`
      when absent; `isNewSubscription` and `emailSent` hold the truthiness of
      those keys (false when absent). */
  datatype Response = Response(ok: bool, message: Option<string>, isNewSubscription: bool, emailSent: bool)

  /** How a request ended: a reply, or an exception (the request or the parse
      of its body failed) carrying its `message`. */
  datatype Outcome = Replied(response: Response) | Failed(errorMessage: string)

  predicate Succeeded(o: Outcome) {
    o.Replied? && o.response.ok
  }

  // ---------------------------------------------------------------------------
  // Notification

  datatype Variant = Default | Destructive

  /** One `toast({ title, description, variant })` call. */
  datatype Toast = Toast(title: string, description: string, variant: Variant)

  const SubscribedTitle := "You're subscribed!"
  const UpdatedTitle := "Subscription updated"
  const FailedTitle := "Subscription failed"
  const DefaultSuccessMessage := "You'll receive updates soon."
  const RejectedMessage := "Failed to subscribe"
  const FallbackErrorMessage := "Something went wrong. Please try again."

  /** `value || fallback` for a string that may be missing. */
  function OrElse(value: Option<string>, fallback: string): (r: string)
    ensures value.Some? && value.value != [] ==> r == value.value
    ensures value.None? || value.value == [] ==> r == fallback
  {
    match value
    case Some(v) => if v != [] then v else fallback
    case None => fallback
  }

  function WelcomeSentence(email: string): string {
    " A welcome email has been sent to " + email + "."
  }

  /** The notification `handleSubmit` shows once the request has ended; `email`
      is the email field as it was sent. */
  function Notify(o: Outcome, email: string): (t: Toast)
    ensures t.variant == Default <==> Succeeded(o)
    ensures t.description != []
    ensures Succeeded(o) ==> (t.title == SubscribedTitle <==> o.response.isNewSubscription)
    ensures Succeeded(o) ==> t.title == SubscribedTitle || t.title == UpdatedTitle
    ensures Succeeded(o) ==>
      t.description == OrElse(o.response.message, DefaultSuccessMessage)
        + (if o.response.emailSent && email != [] then WelcomeSentence(email) else "")
    ensures !Succeeded(o) ==> t.title == FailedTitle
    ensures o.Replied? && !o.response.ok ==> t.description == OrElse(o.response.message, RejectedMessage)
    ensures o.Failed? ==> t.description == OrElse(Some(o.errorMessage), FallbackErrorMessage)
  {
    match o
    case Replied(r) =>
      if !r.ok then
        // `throw new Error(data.message || 'Failed to subscribe')`, caught below
        var thrown := OrElse(r.message, RejectedMessage);
        Toast(FailedTitle, OrElse(Some(thrown), FallbackErrorMessage), Destructive)
      else
        var base := OrElse(r.message, DefaultSuccessMessage);
        var description := if r.emailSent && email != [] then base + WelcomeSentence(email) else base;
        Toast(if r.isNewSubscription then SubscribedTitle else UpdatedTitle, description, Default)
    case Failed(m) =>
      Toast(FailedTitle, OrElse(Some(m), FallbackErrorMessage), Destructive)
  }

  /** A server message, when it is given, is shown verbatim at the head of the
      description, on success and on rejection alike. */
  lemma ServerMessageShown(r: Response, email: string)
    requires r.message.Some? && r.message.value != []
    ensures Notify(Replied(r), email).description[..|r.message.value|] == r.message.value
  {
  }

  /** The welcome sentence naming the address is appended exactly when the
      server reports that the email was sent and an address was given. */
  lemma WelcomeSentenceIff(r: Response, email: string)
    requires r.ok
    ensures var t := Notify(Replied(r), email);
      var base := OrElse(r.message, DefaultSuccessMessage);
      && t.description[..|base|] == base
      && (|t.description| > |base| <==> r.emailSent && email != [])
      && (|t.description| > |base| ==> t.description[|base|..] == WelcomeSentence(email))
  {
  }

  /** A rejection that carries a message shows exactly that message, as a
      failure, whatever the rest of the reply and the form hold. */
  lemma RejectionShowsReason(reason: string, isNew: bool, emailSent: bool, email: string)
    requires reason != []
    ensures Notify(Replied(Response(false, Some(reason), isNew, emailSent)), email)
      == Toast(FailedTitle, reason, Destructive)
  {
  }

  /** A new subscription whose welcome email was sent, with no server message,
      shows the default text followed by the welcome sentence. */
  lemma NewSubscriptionWithWelcome(email: string)
    requires email != []
    ensures Notify(Replied(Response(true, None, true, true)), email)
      == Toast(SubscribedTitle, DefaultSuccessMessage + WelcomeSentence(email), Default)
  {
  }

  /** Fallback notifications: a rejection without a message, an update
      without a message, and a failure without a message. */
  lemma FallbackNotifications()
    ensures Notify(Replied(Response(false, None, false, false)), "") == Toast(FailedTitle, RejectedMessage, Destructive)
    ensures Notify(Replied(Response(true, None, false, true)), "") == Toast(UpdatedTitle, DefaultSuccessMessage, Default)
    ensures Notify(Failed(""), "") == Toast(FailedTitle, FallbackErrorMessage, Destructive)
  {
  }
}
