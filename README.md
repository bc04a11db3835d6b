# Subscription form model

A Dafny model of the client-side behaviour of the subscription dialog
`SubscriptionModal` (`components/subscription-modal.tsx`). Visitors use this
form to sign up for updates with a name and a mobile number, an email
address, or both. The model covers:

- the phone-field sanitiser, which keeps the digits in order and cuts them to
  ten;
- `validateForm`, which maps the three field values to a record of
  per-field error messages: the name is required after trimming; a phone
  number or an email is required; the phone number must have ten digits and
  start with 6 to 9; the email must have the `local@host.tld` shape and its
  domain must not be on a five-entry blocklist of throwaway-address providers;
- the form's state and its event handlers: editing each field, submitting,
  settling the request, Cancel, and closing the dialog.

The model is split into four modules:

- `JsStrings` (`js_strings.dfy`) holds the JavaScript string and
  regular-expression primitives the form relies on:
  - `replace(/\D/g, '')`;
  - `slice(0, n)`;
  - `trim()`;
  - `split` with a one-character separator;
  - `toLowerCase()`;
  - `.length` in UTF-16 code units.

  It also holds two helpers of the model's own. `IndexOf` finds the first
  occurrence of a character and serves the one-pass email test and `Split`.
  `Join` is the inverse of `Split` in the round-trip lemmas `SplitJoin` and
  `JoinSplit`.
- `Validation` (`validation.dfy`) holds the sanitiser, the email-shape test,
  the domain lookup and `ValidateForm`. `ValidateForm` keeps the source's rule
  order, so a later rule on a field overwrites an earlier one. Lemmas state
  the rules field by field, and `ValidateFormPasses` gives the full condition
  under which the form passes.
- `Submission` (`submission.dfy`) holds the JSON body sent to
  `/api/subscribers`, the outcome of the request and the notification
  composed from it. The outcome is either a reply (`ok`, an optional
  `message`, `isNewSubscription`, `emailSent`) or a failure with its message.
- `SubscriptionModal` (`subscription_modal.dfy`) holds the class `Form`. Its
  fields are the component's React state (`fullName`, `phoneNumber`, `email`,
  `errors`, `isSubmitting`) and the parent's `isOpen` flag. It also keeps two
  logs: `requests`, the bodies sent, and `toasts`, the notifications shown.
  - Each handler is a method. Its `modifies this` and its `ensures` give the
    complete new state.
  - The invariant `Valid()` states two things. The phone field holds only
    sanitiser output. While a request is in flight, the form has passed
    validation and the last body sent is the current fields.

`handleSubmit` is modelled in three methods:

- `Submit` covers everything up to the `await`: validate, set the in-flight
  flag, send the body.
- `Settle(outcome)` covers the rest: the notification, the reset on success,
  and the `finally`.
- `HandleSubmit` runs the two as one step.

The request's outcome is an input to the model.

Three behaviours of the code worth noting:

- The domain that is checked against the blocklist is `email.split('@')[1]`.
  That is the piece between the first and the second `@`, not the text after
  the last `@`. So `a@yopmail.com@x` gets the disposable error, while
  `a@x@yopmail.com` gets only the format error (`SecondPieceIsLookedUp`,
  `LastPieceIsNotLookedUp`).
- Cancel only closes the dialog. The fields keep their values.
- A form that fails validation shows no notification. Only the errors
  record changes.

## Model

| member | source | states |
|---|---|---|
| JsStrings.KeepDigits | components/subscription-modal.tsx:36 | `value.replace(/\D/g, '')` yields digits only and is never longer than its input |
| JsStrings.KeepDigitsAppend | components/subscription-modal.tsx:36 | stripping non-digits distributes over concatenation: the digits of `a + b` are those of `a` followed by those of `b` |
| JsStrings.KeepDigitsIsSubsequence | components/subscription-modal.tsx:36 | the kept digits appear in the order they were typed (the result is a subsequence of the input) |
| JsStrings.KeepDigitsCounts | components/subscription-modal.tsx:36 | each digit occurs in the result exactly as often as in the input, and no other character occurs |
| JsStrings.KeepDigitsFixesDigits | components/subscription-modal.tsx:36 | the digit filter leaves a string unchanged if and only if it holds digits only |
| JsStrings.Take | components/subscription-modal.tsx:36 | `slice(0, n)` is a prefix of its input whose length is `n`, or the input's length when that is shorter |
| JsStrings.Trim | components/subscription-modal.tsx:60 | `trim()` returns a string no longer than its input that is empty or neither begins nor ends with whitespace; where it sits in the input is stated by `TrimIsSlice` |
| JsStrings.TrimIsSlice | components/subscription-modal.tsx:60 | the input is a whitespace-only prefix, then `trim()`'s result, then a whitespace-only suffix; together with `Trim`'s contract, exactly the leading and trailing whitespace is removed and everything between is kept |
| JsStrings.TrimEmptyIff | components/subscription-modal.tsx:60 | `fullName.trim()` is empty (falsy) exactly when every character of the name is whitespace |
| JsStrings.Split | components/subscription-modal.tsx:89 | `split('@')` yields at least one piece and no piece contains `@` |
| JsStrings.SplitJoin | components/subscription-modal.tsx:89 | joining the pieces of `split('@')` with `@` gives back the address |
| JsStrings.JoinSplit | components/subscription-modal.tsx:89 | splitting a join of `@`-free pieces gives back the pieces, so `split('@')[1]` is the piece after the first `@` |
| JsStrings.AsciiLower | components/subscription-modal.tsx:89 | `toLowerCase()` keeps the length and lower-cases each character in place |
| JsStrings.AsciiLowerFixesLower | components/subscription-modal.tsx:89 | a domain with no capital letters is left unchanged by lower-casing |
| JsStrings.Utf16Length | components/subscription-modal.tsx:72 | `.length` counts each character outside the Basic Multilingual Plane as two code units, so it lies between the number of characters and twice that |
| JsStrings.Utf16LengthOfBmp | components/subscription-modal.tsx:72 | on strings of Basic Multilingual Plane characters, `.length` equals the number of characters |
| JsStrings.Utf16LengthOfChar | components/subscription-modal.tsx:72 | a character outside the Basic Multilingual Plane has a `.length` of two, any other character a `.length` of one |
| JsStrings.Utf16LengthAppend | components/subscription-modal.tsx:72 | `.length` of a concatenation is the sum of the parts' lengths, so with the one-character case it is fixed on every string |
| Validation.SanitizePhone | components/subscription-modal.tsx:36 | the stored phone value is all digits, at most ten long, and is a prefix of the input's digits: ten of them, or all of them when there are fewer |
| Validation.SanitizeFixesStored | components/subscription-modal.tsx:32-37 | a value the phone field can hold is left as it is by the sanitiser |
| Validation.StoredPhoneLength | components/subscription-modal.tsx:72 | on every value the phone field can hold, `phoneNumber.length` in UTF-16 code units equals the model's length |
| Validation.WidePhoneLength | components/subscription-modal.tsx:72 | `"\u{1F600}12345678"` has nine characters but a `.length` of ten, the case where the model's length rule and the source's differ |
| Validation.SanitizeIdempotent | components/subscription-modal.tsx:36 | sanitising twice equals sanitising once |
| Validation.SanitizeTyping | components/subscription-modal.tsx:32-37 | typing a non-digit or typing into a full field leaves the stored number unchanged; typing a digit into a shorter one appends exactly that digit |
| Validation.MatchImpliesShape | components/subscription-modal.tsx:82-83 | an address accepted by the one-pass test has the regular expression's `local@host.tld` shape |
| Validation.ShapeImpliesMatch | components/subscription-modal.tsx:82-83 | an address with the `local@host.tld` shape is accepted by the one-pass test |
| Validation.EmailPatternCorrect | components/subscription-modal.tsx:82-83 | the one-pass test accepts exactly the language of `^[^\s@]+@[^\s@]+\.[^\s@]+$` (both directions) |
| Validation.ShapeOfParts | components/subscription-modal.tsx:82 | three runs of non-space, non-`@` characters joined as `local@host.tld` match the email pattern |
| Validation.EmailDomain | components/subscription-modal.tsx:89 | `email.split('@')[1]?.toLowerCase()` is undefined exactly when the address has no `@` |
| Validation.EmailDomainIsSecondPiece | components/subscription-modal.tsx:89 | the domain is the lower-cased piece between the first `@` and the next `@` or the end, whatever follows |
| Validation.UnlistedDomainNotDisposable | components/subscription-modal.tsx:88-90 | an address whose lower-cased domain is not on the blocklist is not treated as disposable |
| Validation.PartsNotDisposable | components/subscription-modal.tsx:88-90 | `local@host.tld` with an unlisted `host.tld` is not treated as disposable |
| Validation.SecondPieceDisposable | components/subscription-modal.tsx:88-90 | an address whose piece after the first `@` is `yopmail.com` is treated as disposable, whatever follows a second `@` |
| Validation.NameRule | components/subscription-modal.tsx:59-62 | the name error is set exactly when the name is blank after trimming, and it is then "Name is required" |
| Validation.PhoneRules | components/subscription-modal.tsx:64-77 | empty phone: the contact error when the email is also empty, else none; non-empty phone of length other than 10: the length error; length 10: no error exactly when it matches `^[6-9]\d{9}$`, else the Indian-number error |
| Validation.EmailRules | components/subscription-modal.tsx:64-93 | empty email: the contact error when the phone is also empty, else none; a blocklisted domain gives the disposable error, overriding the format error; otherwise there is an error exactly when the shape check fails, and it is the format error |
| Validation.ValidateFormPasses | components/subscription-modal.tsx:56-97 | `validateForm` yields no errors if and only if the name is not blank, a contact is given, a given phone is a valid Indian mobile number, and a given email has the right shape and a non-blocklisted domain |
| Validation.StoredPhoneVerdict | components/subscription-modal.tsx:71-76 | for a value produced by the sanitiser, there is no phone error exactly when it is empty while an email is given, or it has ten digits and starts with 6 to 9 |
| Validation.SecondPieceIsLookedUp | components/subscription-modal.tsx:88-92 | `local@yopmail.com`, even with a second `@` piece after it, gets "Please use a non-disposable email address", whatever the other fields hold |
| Validation.LastPieceIsNotLookedUp | components/subscription-modal.tsx:80-92 | `local@host@yopmail.com` with an unlisted `host` gets only the format error: the last piece is not looked up |
| Validation.ShortPhoneVerdict | components/subscription-modal.tsx:72-73 | `98765432` gets "Mobile number must be exactly 10 digits" |
| Validation.LeadingOneVerdict | components/subscription-modal.tsx:74-75 | `1876543210` gets the Indian-number error |
| Validation.ValidPhoneVerdict | components/subscription-modal.tsx:56-97 | a named form with `9876543210` and no email has no errors |
| Validation.MalformedVerdict | components/subscription-modal.tsx:82-84 | `not-an-email` gets "Please enter a valid email address", whatever the other fields hold |
| Validation.BlankFormVerdict | components/subscription-modal.tsx:59-68 | a whitespace-only name with no phone and no email gets the name error and the contact error on both contact fields |
| Validation.EmailOnlyAccepted | components/subscription-modal.tsx:56-97 | a form whose name has a non-whitespace character, with no phone and an address `local@host.tld` on an unlisted domain, is acceptable, so it passes validation (`ValidateFormPasses`) |
| Submission.Present | components/subscription-modal.tsx:116-117 | `s \|\| undefined` is absent exactly for the empty string and is otherwise `s` |
| Submission.BuildPayload | components/subscription-modal.tsx:114-118 | the body carries `fullName` as typed; it has a phone or email key exactly when that field is non-empty, and never an empty one |
| Submission.PayloadRoundTrip | components/subscription-modal.tsx:114-118 | leaving out the empty keys loses nothing: the three field values can be read back from the body |
| Submission.PayloadInjective | components/subscription-modal.tsx:114-118 | different forms give different bodies |
| Submission.OrElse | components/subscription-modal.tsx:124 | `value \|\| fallback` is the value when it is a non-empty string and the fallback otherwise |
| Submission.Notify | components/subscription-modal.tsx:121-152 | the notification is the default variant exactly on an ok reply; then its title is "You're subscribed!" exactly when `isNewSubscription`, otherwise "Subscription updated", and its description is the message (or the default text), followed by the welcome sentence when `emailSent` and an email was given; on a rejection it is "Subscription failed" with the message or "Failed to subscribe"; on a failure it is "Subscription failed" with the error's message or the generic text; the description is never empty |
| Submission.ServerMessageShown | components/subscription-modal.tsx:121-137 | a non-empty server message is shown verbatim at the start of the description, on success and on rejection alike |
| Submission.WelcomeSentenceIff | components/subscription-modal.tsx:128-133 | on success the description starts with the base message and goes beyond it exactly when `emailSent` and an email was given, the extra text being the welcome sentence naming that address |
| Submission.RejectionShowsReason | components/subscription-modal.tsx:123-152 | a rejection carrying a message is shown as "Subscription failed" with exactly that message, whatever else the reply and the form hold |
| Submission.NewSubscriptionWithWelcome | components/subscription-modal.tsx:128-139 | a new subscription whose welcome email was sent, with no message, is shown as "You're subscribed!" with the default text and the welcome sentence |
| Submission.FallbackNotifications | components/subscription-modal.tsx:121-152 | a rejection without message, an update without message, and a failure without message give the fallback notifications |
| SubscriptionModal.Form.constructor | components/subscription-modal.tsx:25-29 | the initial state: empty fields, no errors, not submitting, the invariant holds |
| SubscriptionModal.Form.EditPhone | components/subscription-modal.tsx:32-43 | the phone field becomes the sanitised input, only the phone error is cleared, and nothing else changes |
| SubscriptionModal.Form.EditEmail | components/subscription-modal.tsx:46-54 | the email field becomes the input as typed, only the email error is cleared, and nothing else changes |
| SubscriptionModal.Form.EditName | components/subscription-modal.tsx:179 | the name field becomes the input and the errors, the name error included, stay as they were |
| SubscriptionModal.Form.Validate | components/subscription-modal.tsx:95-96 | the errors are replaced wholesale by those of the current fields, and the result is true exactly when there are none; nothing else changes |
| SubscriptionModal.Form.Submit | components/subscription-modal.tsx:99-119 | a request is sent exactly when validation passes; it is the body of the current fields, it is the only request added, and the form is in flight exactly then; no notification is shown and the fields are unchanged |
| SubscriptionModal.Form.Settle | components/subscription-modal.tsx:121-155 | exactly one notification for the outcome is shown, using the email that was sent; on success the three fields are emptied and the dialog closes, otherwise they are kept; the form is no longer in flight |
| SubscriptionModal.Form.HandleSubmit | components/subscription-modal.tsx:99-156 | a request is sent if and only if the form is acceptable; then one notification follows and the form is reset and closed exactly on success; a failed validation sends nothing and shows nothing; the form ends not in flight, with the invariant kept |
| SubscriptionModal.Form.Cancel | components/subscription-modal.tsx:251 | Cancel closes the dialog and changes nothing else |
| SubscriptionModal.Form.Dismiss | components/subscription-modal.tsx:159 | closing through the dialog closes it in any state, also while a request is in flight, and changes nothing else |

## Left out

- Rendering is not modelled: the JSX, the dialog, buttons, inputs, labels and icons. The `disabled={isSubmitting}` attribute on the inputs, Cancel and Submit is modelled only as the precondition `!isSubmitting` on the matching methods.
- The browser's own check of `type="email"` inputs is not modelled. That check can stop a submission before `handleSubmit` runs. It belongs to the browser, not to this component.
- The browser's input rules that narrow what reaches the handlers are not modelled: `maxLength={10}` on the phone input (:227) cuts pasted text, and a `type="email"` input strips line breaks and surrounding whitespace from its value (:197). `EditPhone` and `EditEmail` accept any string, so the model covers a superset of the values those handlers can receive.
- Notifications are not displayed. A notification is recorded as a (title, description, variant) entry in `toasts`.
- `fetch` and `response.json()` are foreign I/O. The request is recorded in `requests`, and its result is an `Outcome` input. A body that cannot be parsed is a `Failed` outcome carrying some message.
- Reply fields that are neither strings nor booleans are not modelled: `message` is an optional string, and `isNewSubscription` and `emailSent` are reduced to their truthiness.
- `async`/`await` and React's batching of state updates are not modelled. The submission is split at its one `await` into `Submit` and `Settle`, with `isSubmitting` as the in-flight flag. The model does not abort a request still in flight when the dialog closes, and neither does the source.
- `isOpen` belongs to the parent component, which is not part of this model. The model assumes that `onClose` closes the dialog. What the parent does when it reopens the dialog is not modelled.
- JsStrings.AsciiLower: lower-cases ASCII letters only, not all of Unicode. Every blocklisted domain is ASCII and contains no `k` (the Kelvin sign lower-cases to `k`), so a domain matches the blocklist under this model exactly when it matches under full `toLowerCase()`. This equivalence is argued here, not proved.
- Validation.ValidateForm: counts the phone number's length in Unicode scalar values. JavaScript's `.length` counts UTF-16 code units, so for a phone value with a character outside the Basic Multilingual Plane (`"\u{1F600}12345678"`: 10 code units, 9 scalar values, `WidePhoneLength`) the model gives the length error where the source gives the Indian-number error. The form never holds such a value: `Valid()` keeps the phone field to ASCII digits, and `StoredPhoneLength` proves both counts agree there. The searches for digits, `@`, `.` and whitespace give the same answers either way, since all of those characters are in the Basic Multilingual Plane.
- `app/courtroom/data/mockCases.ts` is not part of this model. It is a static list of case records with no operations.
