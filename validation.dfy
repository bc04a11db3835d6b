/** The subscription form's input rules: the phone-field sanitiser applied on
    every keystroke, and `validateForm`, which maps the three field values to a
    record of per-field error messages. */
module Validation {
  import opened JsStrings

  // ---------------------------------------------------------------------------
  // Phone field sanitiser (handlePhoneNumberChange)

  const PhoneLength: nat := 10

  /** What the phone field can hold after any edit: digits only, at most ten. */
  predicate IsStoredPhone(p: string) {
    AllDigits(p) && |p| <= PhoneLength
  }

  /** `value.replace(/\D/g, '').slice(0, 10)`. */
  function SanitizePhone(value: string): (r: string)
    ensures IsStoredPhone(r)
    ensures r <= KeepDigits(value)
    ensures |r| == PhoneLength || r == KeepDigits(value)
  {
    Take(KeepDigits(value), PhoneLength)
  }

  /** A stored phone number is left as it is by the sanitiser, so re-sending the
      field's own value is a no-op. */
  lemma SanitizeFixesStored(p: string)
    requires IsStoredPhone(p)
    ensures SanitizePhone(p) == p
  {
    KeepDigitsFixesDigits(p);
  }

  /** The length rule (`phoneNumber.length !== 10`) counts UTF-16 code units;
      on every value the phone field can hold that is the model's length. */
  lemma StoredPhoneLength(p: string)
    requires IsStoredPhone(p)
    ensures Utf16Length(p) == |p|
  {
    Utf16LengthOfBmp(p);
  }

  /** Outside the field's values the counts part: a leading emoji makes nine
      characters ten code units. */
  lemma WidePhoneLength()
    ensures var p := "\U{1F600}12345678"; |p| == 9 && Utf16Length(p) == 10
  {
    var p := "\U{1F600}12345678";
    assert !InBmp(p[0]);
    Utf16LengthOfBmp(p[1..]);
  }

  /** Sanitising twice is the same as sanitising once. */
  lemma SanitizeIdempotent(value: string)
    ensures SanitizePhone(SanitizePhone(value)) == SanitizePhone(value)
  {
    SanitizeFixesStored(SanitizePhone(value));
  }

  /** Typing one more character into a full field changes nothing, and typing a
      digit into a shorter one appends exactly that digit. */
  lemma SanitizeTyping(p: string, c: char)
    requires IsStoredPhone(p)
    ensures |p| == PhoneLength ==> SanitizePhone(p + [c]) == p
    ensures |p| < PhoneLength && IsDigit(c) ==> SanitizePhone(p + [c]) == p + [c]
    ensures !IsDigit(c) ==> SanitizePhone(p + [c]) == p
  {
    KeepDigitsAppend(p, [c]);
    KeepDigitsFixesDigits(p);
    assert KeepDigits([c]) == if IsDigit(c) then [c] else [];
    assert p + [c] == (p + [c])[..|p| + 1];
  }

  // ---------------------------------------------------------------------------
  // Error messages and the error record

  const NameRequired := "Name is required"
  const ContactRequired := "Either mobile number or email is required"
  const PhoneWrongLength := "Mobile number must be exactly 10 digits"
  const PhoneNotIndian := "Must be a valid Indian mobile number (without +91/0)"
  const EmailInvalid := "Please enter a valid email address"
  const EmailDisposable := "Please use a non-disposable email address"

  /** The `errors` object: one optional message per field. */
  datatype Errors = Errors(fullName: Option<string>, phoneNumber: Option<string>, email: Option<string>)
  {
    /** `Object.keys(errors).length === 0` for an object whose keys are set only to messages. */
    predicate IsEmpty() {
      fullName.None? && phoneNumber.None? && email.None?
    }
  }

  const NoErrors := Errors(None, None, None)

  // ---------------------------------------------------------------------------
  // Phone rule

  /** `/^[6-9]\d{9}$/`: ten digits, the first of them 6, 7, 8 or 9. */
  predicate IsIndianMobile(p: string) {
    |p| == PhoneLength && '6' <= p[0] <= '9' && AllDigits(p[1..])
  }

  // ---------------------------------------------------------------------------
  // Email rules

  /** One run of `[^\s@]+`: non-empty, no whitespace and no `@`. */
  predicate Atom(t: string) {
    t != [] && forall i :: 0 <= i < |t| ==> t[i] != '@' && !IsWhitespace(t[i])
  }

  /** `s` is `local@host.tld` with the `@` at `at` and the chosen `.` at `dot`,
      each of the three parts being a run of `[^\s@]+`. */
  predicate ShapedAt(s: string, at: int, dot: int) {
    && 0 <= at < dot < |s|
    && s[at] == '@' && s[dot] == '.'
    && Atom(s[..at]) && Atom(s[at + 1..dot]) && Atom(s[dot + 1..])
  }

  /** The language of `^[^\s@]+@[^\s@]+\.[^\s@]+$`. */
  ghost predicate EmailShape(s: string) {
    exists at, dot :: ShapedAt(s, at, dot)
  }

  /** `|d| >= 3` and a `.` somewhere other than the first or last place of `d`. */
  predicate HasInnerDot(d: string) {
    |d| >= 3 && '.' in d[1..|d| - 1]
  }

  /** `emailRegex.test(s)`, decided in one pass: a single `@`, not first, no
      whitespace, and an inner `.` in what follows the `@`. */
  predicate MatchesEmailPattern(s: string) {
    match IndexOf(s, '@')
    case None => false
    case Some(at) => at > 0 && '@' !in s[at + 1..] && NoWhitespace(s) && HasInnerDot(s[at + 1..])
  }

  /** A slice of `s` over positions that hold neither `@` nor whitespace. */
  lemma AtomOfSlice(s: string, lo: int, hi: int)
    requires 0 <= lo < hi <= |s|
    requires forall i :: lo <= i < hi ==> s[i] != '@' && !IsWhitespace(s[i])
    ensures Atom(s[lo..hi])
  {
    var t := s[lo..hi];
    forall i | 0 <= i < |t| ensures t[i] != '@' && !IsWhitespace(t[i]) {
      assert t[i] == s[lo + i];
    }
  }

  lemma MatchImpliesShape(s: string)
    requires MatchesEmailPattern(s)
    ensures EmailShape(s)
  {
    var at := IndexOf(s, '@').value;
    var d := s[at + 1..];
    var inner := d[1..|d| - 1];
    var k :| 0 <= k < |inner| && inner[k] == '.';
    var dot := at + 2 + k;
    assert s[dot] == inner[k];
    forall i | 0 <= i < |s| && i != at ensures s[i] != '@' {
      if i < at {
        assert s[..at][i] == s[i];
      } else {
        assert d[i - at - 1] == s[i];
      }
    }
    AtomOfSlice(s, 0, at);
    assert s[0..at] == s[..at];
    AtomOfSlice(s, at + 1, dot);
    AtomOfSlice(s, dot + 1, |s|);
    assert s[dot + 1..|s|] == s[dot + 1..];
    assert ShapedAt(s, at, dot);
  }

  /** What follows the `@` in a shaped address: no `@`, no whitespace, an inner dot. */
  lemma DomainOfShape(host: string, tld: string)
    requires Atom(host) && Atom(tld)
    ensures var d := host + ['.'] + tld;
      '@' !in d && NoWhitespace(d) && HasInnerDot(d)
  {
    var d := host + ['.'] + tld;
    forall i | 0 <= i < |d| ensures d[i] != '@' && !IsWhitespace(d[i]) {
      if i < |host| {
        assert d[i] == host[i];
      } else if i > |host| {
        assert d[i] == tld[i - |host| - 1];
      }
    }
    assert d[1..|d| - 1][|host| - 1] == '.';
  }

  lemma NoWhitespaceAround(local: string, d: string)
    requires Atom(local) && NoWhitespace(d)
    ensures NoWhitespace(local + ['@'] + d)
  {
    var s := local + ['@'] + d;
    forall i | 0 <= i < |s| ensures !IsWhitespace(s[i]) {
      if i < |local| {
        assert s[i] == local[i];
      } else if i > |local| {
        assert s[i] == d[i - |local| - 1];
      }
    }
  }

  lemma ShapeImpliesMatch(s: string, at: int, dot: int)
    requires ShapedAt(s, at, dot)
    ensures MatchesEmailPattern(s)
  {
    var local, host, tld := s[..at], s[at + 1..dot], s[dot + 1..];
    var d := s[at + 1..];
    assert s == local + ['@'] + d;
    assert d == host + ['.'] + tld;
    assert '@' !in local by {
      forall i | 0 <= i < |local| ensures local[i] != '@' { }
    }
    IndexOfAfterPrefix(local, '@', d);
    DomainOfShape(host, tld);
    NoWhitespaceAround(local, d);
  }

  /** The one-pass test accepts exactly the language of the regular expression. */
  lemma EmailPatternCorrect(s: string)
    ensures MatchesEmailPattern(s) <==> EmailShape(s)
  {
    if MatchesEmailPattern(s) {
      MatchImpliesShape(s);
    }
    if EmailShape(s) {
      var at, dot :| ShapedAt(s, at, dot);
      ShapeImpliesMatch(s, at, dot);
    }
  }

  const DisposableDomains: seq<string> :=
    ["yopmail.com", "tempmail.com", "mailinator.com", "temp-mail.org", "guerrillamail.com"]

  /** `email.split('@')[1]?.toLowerCase()`: the piece between the first and the
      second `@`, lower-cased; `None` (undefined) when there is no `@`. */
  function EmailDomain(email: string): (r: Option<string>)
    ensures r.None? <==> '@' !in email
  {
    var parts := Split(email, '@');
    if |parts| >= 2 then Some(AsciiLower(parts[1]))
    else
      assert parts == Split(email, '@');
      SplitJoin(email, '@');
      None
  }

  /** `domain && disposableDomains.includes(domain)`. */
  predicate IsDisposable(email: string) {
    match EmailDomain(email)
    case None => false
    case Some(domain) => domain != [] && domain in DisposableDomains
  }

  /** The domain is the piece that follows the first `@` up to the next `@` (or
      the end), whatever comes after it. */
  lemma {:induction false} EmailDomainIsSecondPiece(local: string, domain: string, rest: string)
    requires '@' !in local && '@' !in domain
    requires rest == [] || rest[0] == '@'
    ensures EmailDomain(local + ['@'] + domain + rest) == Some(AsciiLower(domain))
  {
    var s := local + ['@'] + domain + rest;
    var parts: seq<string>;
    if rest == [] {
      parts := [local, domain];
    } else {
      var tail := Split(rest[1..], '@');
      SplitJoin(rest[1..], '@');
      parts := [local, domain] + tail;
      assert parts[2..] == tail;
      assert Join(parts[1..], '@') == domain + ['@'] + Join(tail, '@');
      assert rest == ['@'] + rest[1..];
    }
    assert Join(parts, '@') == s;
    JoinSplit(parts, '@');
  }

  // ---------------------------------------------------------------------------
  // validateForm

  /** The error record `validateForm` computes, rule by rule and in the same
      order: a later rule on a field overwrites an earlier one. */
  function ValidateForm(fullName: string, phoneNumber: string, email: string): Errors
  {
    var nameError := if Trim(fullName) == [] then Some(NameRequired) else None;
    var noContact := phoneNumber == [] && email == [];
    var phoneError0 := if noContact then Some(ContactRequired) else None;
    var emailError0 := if noContact then Some(ContactRequired) else None;
    var phoneError :=
      if phoneNumber == [] then phoneError0
      else if |phoneNumber| != PhoneLength then Some(PhoneWrongLength)
      else if !IsIndianMobile(phoneNumber) then Some(PhoneNotIndian)
      else phoneError0;
    var emailError1 :=
      if email != [] && !MatchesEmailPattern(email) then Some(EmailInvalid) else emailError0;
    var emailError :=
      if email != [] && IsDisposable(email) then Some(EmailDisposable) else emailError1;
    Errors(nameError, phoneError, emailError)
  }

  /** The name is required: its error is set exactly when it is blank once trimmed. */
  lemma NameRule(fullName: string, phoneNumber: string, email: string)
    ensures var r := ValidateForm(fullName, phoneNumber, email);
      && (r.fullName.Some? <==> AllWhitespace(fullName))
      && (r.fullName.Some? ==> r.fullName == Some(NameRequired))
  {
    TrimEmptyIff(fullName);
  }

  /** The phone error: the contact rule when both contact fields are empty,
      none when only the phone is empty, and otherwise the length rule before
      the prefix rule. */
  lemma PhoneRules(fullName: string, phoneNumber: string, email: string)
    ensures var r := ValidateForm(fullName, phoneNumber, email);
      && (phoneNumber == [] ==> r.phoneNumber == if email == [] then Some(ContactRequired) else None)
      && (phoneNumber != [] && |phoneNumber| != PhoneLength ==> r.phoneNumber == Some(PhoneWrongLength))
      && (|phoneNumber| == PhoneLength ==> (r.phoneNumber.None? <==> IsIndianMobile(phoneNumber)))
      && (|phoneNumber| == PhoneLength && r.phoneNumber.Some? ==> r.phoneNumber == Some(PhoneNotIndian))
  {
  }

  /** The email error: the contact rule when both contact fields are empty,
      none when only the email is empty; otherwise the blocklist error
      overrides the format error, and without it there is an error exactly
      when the address does not have the expected shape. */
  lemma EmailRules(fullName: string, phoneNumber: string, email: string)
    ensures var r := ValidateForm(fullName, phoneNumber, email);
      && (email == [] ==> r.email == if phoneNumber == [] then Some(ContactRequired) else None)
      && (email != [] && IsDisposable(email) ==> r.email == Some(EmailDisposable))
      && (email != [] && !IsDisposable(email) ==> (r.email.None? <==> EmailShape(email)))
      && (email != [] && !IsDisposable(email) && r.email.Some? ==> r.email == Some(EmailInvalid))
  {
    EmailPatternCorrect(email);
  }

  /** What the form must hold for `validateForm` to return true. */
  ghost predicate Acceptable(fullName: string, phoneNumber: string, email: string) {
    && (exists i :: 0 <= i < |fullName| && !IsWhitespace(fullName[i]))
    && (phoneNumber != [] || email != [])
    && (phoneNumber == [] || IsIndianMobile(phoneNumber))
    && (email == [] || (EmailShape(email) && !IsDisposable(email)))
  }

  /** `validateForm()` returns true exactly for acceptable forms. */
  lemma ValidateFormPasses(fullName: string, phoneNumber: string, email: string)
    ensures ValidateForm(fullName, phoneNumber, email).IsEmpty() <==> Acceptable(fullName, phoneNumber, email)
  {
    NameRule(fullName, phoneNumber, email);
    PhoneRules(fullName, phoneNumber, email);
    EmailRules(fullName, phoneNumber, email);
  }

  /** On a phone number the sanitiser produced, the only errors that can arise
      are the contact rule, the length rule and a first digit below 6. */
  lemma StoredPhoneVerdict(fullName: string, raw: string, email: string)
    ensures var p := SanitizePhone(raw);
      ValidateForm(fullName, p, email).phoneNumber.None? <==>
        (p == [] && email != []) || (|p| == PhoneLength && '6' <= p[0] <= '9')
  {
    var p := SanitizePhone(raw);
    PhoneRules(fullName, p, email);
    if |p| == PhoneLength {
      assert AllDigits(p[1..]) by {
        forall i | 0 <= i < |p[1..]| ensures IsDigit(p[1..][i]) { assert p[1..][i] == p[i + 1]; }
      }
    }
  }

  /** An address on a blocklisted domain gets the disposable error, whatever the
      other fields hold. The domain looked up is the piece right after the first
      `@`, so this holds even when a second `@` follows and the address is
      therefore malformed. */
  lemma SecondPieceIsLookedUp(fullName: string, phoneNumber: string, local: string, rest: string)
    requires '@' !in local
    requires rest == [] || rest[0] == '@'
    ensures ValidateForm(fullName, phoneNumber, local + "@yopmail.com" + rest).email == Some(EmailDisposable)
  {
    SecondPieceDisposable(local, rest);
  }

  lemma SecondPieceDisposable(local: string, rest: string)
    requires '@' !in local
    requires rest == [] || rest[0] == '@'
    ensures IsDisposable(local + "@yopmail.com" + rest)
  {
    var domain := DisposableDomains[0];
    var e := local + "@yopmail.com" + rest;
    assert e == local + ['@'] + domain + rest;
    EmailDomainIsSecondPiece(local, domain, rest);
    AsciiLowerFixesLower(domain);
    assert EmailDomain(e) == Some(domain);
  }

  /** A blocklisted domain after a second `@` is never looked up: the address
      is reported only as malformed. */
  lemma LastPieceIsNotLookedUp(fullName: string, phoneNumber: string, local: string, host: string)
    requires '@' !in local && '@' !in host
    requires AsciiLower(host) !in DisposableDomains
    ensures ValidateForm(fullName, phoneNumber, local + "@" + host + "@yopmail.com").email == Some(EmailInvalid)
  {
    var e := local + "@" + host + "@yopmail.com";
    EmailDomainIsSecondPiece(local, host, "@yopmail.com");
    assert local + ['@'] + host + "@yopmail.com" == e;
    IndexOfAfterPrefix(local, '@', host + "@yopmail.com");
    assert local + ['@'] + (host + "@yopmail.com") == e;
    assert e[|local| + 1..][|host|] == '@';
  }

  /** A phone number of eight digits breaks the length rule. */
  lemma ShortPhoneVerdict()
    ensures ValidateForm("Asha Rao", "98765432", "").phoneNumber == Some(PhoneWrongLength)
  {
  }

  /** Ten digits starting with 1 break the prefix rule. */
  lemma LeadingOneVerdict()
    ensures ValidateForm("Asha Rao", "1876543210", "").phoneNumber == Some(PhoneNotIndian)
  {
  }

  /** A named form with a valid Indian number and no email passes. */
  lemma ValidPhoneVerdict()
    ensures ValidateForm("Asha Rao", "9876543210", "").IsEmpty()
  {
    NameRule("Asha Rao", "9876543210", "");
    assert !IsWhitespace("Asha Rao"[0]);
    var p := "9876543210";
    assert AllDigits(p[1..]) by {
      forall i | 0 <= i < 9 ensures IsDigit(p[1..][i]) { assert p[1..][i] == p[i + 1]; }
    }
  }

  /** A string without `@` gets the format error, whatever the other fields hold. */
  lemma MalformedVerdict(fullName: string, phoneNumber: string)
    ensures ValidateForm(fullName, phoneNumber, "not-an-email").email == Some(EmailInvalid)
  {
    var e := "not-an-email";
    assert '@' !in e;
  }

  /** A blank form gets all three errors. */
  lemma BlankFormVerdict()
    ensures ValidateForm(" \t", "", "") == Errors(Some(NameRequired), Some(ContactRequired), Some(ContactRequired))
  {
    NameRule(" \t", "", "");
  }

  /** Three runs of `[^\s@]+` joined by `@` and `.` have the address shape. */
  lemma ShapeOfParts(local: string, host: string, tld: string)
    requires Atom(local) && Atom(host) && Atom(tld)
    ensures EmailShape(local + "@" + host + "." + tld)
  {
    var e := local + "@" + host + "." + tld;
    var at, dot := |local|, |local| + 1 + |host|;
    assert e[..at] == local;
    assert e[at + 1..dot] == host;
    assert e[dot + 1..] == tld;
    assert ShapedAt(e, at, dot);
  }

  /** A named form holding only an ordinary address on an unlisted domain passes. */
  lemma EmailOnlyAccepted(fullName: string, local: string, host: string, tld: string)
    requires exists i :: 0 <= i < |fullName| && !IsWhitespace(fullName[i])
    requires Atom(local) && Atom(host) && Atom(tld)
    requires AsciiLower(host + "." + tld) !in DisposableDomains
    ensures Acceptable(fullName, "", local + "@" + host + "." + tld)
  {
    ShapeOfParts(local, host, tld);
    PartsNotDisposable(local, host, tld);
  }

  lemma PartsNotDisposable(local: string, host: string, tld: string)
    requires Atom(local) && Atom(host) && Atom(tld)
    requires AsciiLower(host + "." + tld) !in DisposableDomains
    ensures !IsDisposable(local + "@" + host + "." + tld)
  {
    var domain := host + "." + tld;
    DomainOfShape(host, tld);
    assert domain == host + ['.'] + tld;
    assert '@' !in local;
    UnlistedDomainNotDisposable(local, domain);
    assert local + "@" + domain == local + "@" + host + "." + tld;
  }

  /** An address whose domain, lower-cased, is not on the blocklist is not disposable. */
  lemma UnlistedDomainNotDisposable(local: string, domain: string)
    requires '@' !in local && '@' !in domain
    requires AsciiLower(domain) !in DisposableDomains
    ensures !IsDisposable(local + "@" + domain)
  {
    EmailDomainIsSecondPiece(local, domain, "");
    assert local + ['@'] + domain + "" == local + "@" + domain;
  }

  lemma ExampleDomainNotBlocklisted()
    ensures "example.com" !in DisposableDomains
  {
    var domain := "example.com";
    assert domain[0] != DisposableDomains[0][0];
    assert forall k :: 1 <= k < |DisposableDomains| ==> |DisposableDomains[k]| != |domain|;
  }
}
