/**
 * The sign-in / sign-up form check of frontend/src/TranslationPlatform.jsx
 * (`validateAuthForm`): at most one message per field, name and birth date
 * only when signing up. `birth` is what `new Date(authBirthDate)` yields
 * (`None` for an invalid date) and `today` the current date.
 */
module AuthForm {
  import opened Wrappers
  import opened JsStrings
  import opened ValidationRules
  import AccountStore

  datatype Mode = LoginMode | SignupMode

  datatype Field = NameField | BirthDateField | EmailField | PasswordField

  /** The form's inputs. */
  datatype Form = Form(mode: Mode, name: string, birthDate: string, email: string, password: string)

  /** The messages the form can show; `Text` gives the words on the page. */
  datatype Message =
    | NameRequired
    | NameTooShort
    | BirthDateRequired
    | InvalidDate
    | FutureBirthDate
    | TooYoung
    | EmailRequired
    | EmailInvalid
    | PasswordRequired
    | PasswordTooShort
    | PasswordTooWeak

  function Text(m: Message): string {
    match m
    case NameRequired => "Name is required"
    case NameTooShort => "Name must be at least 3 characters"
    case BirthDateRequired => "Birth date is required"
    case InvalidDate => "Invalid date"
    case FutureBirthDate => "Birth date cannot be in the future"
    case TooYoung => "You must be at least 13 years old"
    case EmailRequired => "Email is required"
    case EmailInvalid => "Enter a valid email address"
    case PasswordRequired => "Password is required"
    case PasswordTooShort => "Password must be at least 8 characters"
    case PasswordTooWeak => "Password must contain letters and numbers"
  }

  function NameError(mode: Mode, name: string): Option<Message> {
    if mode != SignupMode then None
    else if Trim(name) == [] then Some(NameRequired)
    else if JsLength(Trim(name)) < MinNameLength then Some(NameTooShort)
    else None
  }

  function BirthDateError(mode: Mode, birthDate: string, birth: Option<Date>, today: Date): Option<Message> {
    if mode != SignupMode then None
    else if birthDate == [] then Some(BirthDateRequired)
    else if birth.None? then Some(InvalidDate)
    else if After(birth.value, today) then Some(FutureBirthDate)
    else if AgeOn(birth.value, today) < MinAge then Some(TooYoung)
    else None
  }

  /** The pattern is tested on the trimmed e-mail. */
  function EmailError(email: string): Option<Message> {
    if Trim(email) == [] then Some(EmailRequired)
    else if !EmailShape(Trim(email)) then Some(EmailInvalid)
    else None
  }

  function PasswordError(password: string): Option<Message> {
    if password == [] then Some(PasswordRequired)
    else if JsLength(password) < MinPasswordLength then Some(PasswordTooShort)
    else if !HasAsciiLetter(password) || !HasAsciiDigit(password) then Some(PasswordTooWeak)
    else None
  }

  function FieldError(f: Field, form: Form, birth: Option<Date>, today: Date): Option<Message> {
    match f
    case NameField => NameError(form.mode, form.name)
    case BirthDateField => BirthDateError(form.mode, form.birthDate, birth, today)
    case EmailField => EmailError(form.email)
    case PasswordField => PasswordError(form.password)
  }

  /** `errors.f = message` when there is a message for `f`. */
  function MessagesOf(errors: map<Field, Message>, f: Field, message: Option<Message>): map<Field, Message> {
    if message.Some? then errors[f := message.value] else errors
  }

  /** The `errors` object filled in the page's order: name, birth date, e-mail, password. */
  function Gather(name: Option<Message>, birthDate: Option<Message>, email: Option<Message>, password: Option<Message>)
    : (errors: map<Field, Message>)
    ensures NameField in errors <==> name.Some?
    ensures BirthDateField in errors <==> birthDate.Some?
    ensures EmailField in errors <==> email.Some?
    ensures PasswordField in errors <==> password.Some?
    ensures NameField in errors ==> errors[NameField] == name.value
    ensures BirthDateField in errors ==> errors[BirthDateField] == birthDate.value
    ensures EmailField in errors ==> errors[EmailField] == email.value
    ensures PasswordField in errors ==> errors[PasswordField] == password.value
  {
    MessagesOf(MessagesOf(MessagesOf(MessagesOf(map[], NameField, name), BirthDateField, birthDate),
                          EmailField, email), PasswordField, password)
  }

  /** The `errors` object the check builds. */
  function FormErrors(form: Form, birth: Option<Date>, today: Date): map<Field, Message> {
    Gather(NameError(form.mode, form.name), BirthDateError(form.mode, form.birthDate, birth, today),
           EmailError(form.email), PasswordError(form.password))
  }

  /** One entry per field that has a message, holding that message. */
  lemma FormErrorsPerField(form: Form, birth: Option<Date>, today: Date)
    ensures forall f :: f in FormErrors(form, birth, today) <==> FieldError(f, form, birth, today).Some?
    ensures forall f :: f in FormErrors(form, birth, today) ==>
              FormErrors(form, birth, today)[f] == FieldError(f, form, birth, today).value
  {
    var errors := FormErrors(form, birth, today);
    forall f
      ensures (f in errors <==> FieldError(f, form, birth, today).Some?)
           && (f in errors ==> errors[f] == FieldError(f, form, birth, today).value)
    {
      match f
      case NameField =>
      case BirthDateField =>
      case EmailField =>
      case PasswordField =>
    }
  }

  /** When logging in, only the e-mail and password can carry a message. */
  lemma LoginModeOnlyCredentials(form: Form, birth: Option<Date>, today: Date)
    requires form.mode == LoginMode
    ensures FormErrors(form, birth, today).Keys <= {EmailField, PasswordField}
  {
    FormErrorsPerField(form, birth, today);
  }

  /** The form's rules stated on their own: the e-mail by its regular
      expression, the age by the thirteenth birthday. */
  ghost predicate FormAcceptable(form: Form, birth: Option<Date>, today: Date) {
    && (form.mode == SignupMode ==>
          && JsLength(Trim(form.name)) >= 3
          && form.birthDate != [] && birth.Some? && !After(birth.value, today)
          && !After(Anniversary(birth.value, 13), today))
    && MatchesEmailRegex(Trim(form.email))
    && JsLength(form.password) >= 8 && HasAsciiLetter(form.password) && HasAsciiDigit(form.password)
  }

  /** `validateAuthForm` returns true exactly when the form meets every rule. */
  lemma NoErrorsIffAcceptable(form: Form, birth: Option<Date>, today: Date)
    ensures FormErrors(form, birth, today) == map[] <==> FormAcceptable(form, birth, today)
  {
    NoErrorsIffNoFieldError(form, birth, today);
    NameMessages(form.name);
    EmailMessages(form.email);
    PasswordMessages(form.password);
    BirthDateMessages(form.birthDate, birth, today);
  }

  lemma NoErrorsIffNoFieldError(form: Form, birth: Option<Date>, today: Date)
    ensures FormErrors(form, birth, today) == map[]
      <==> && NameError(form.mode, form.name).None?
           && BirthDateError(form.mode, form.birthDate, birth, today).None?
           && EmailError(form.email).None?
           && PasswordError(form.password).None?
  {
    GatherEmptyIff(NameError(form.mode, form.name), BirthDateError(form.mode, form.birthDate, birth, today),
                   EmailError(form.email), PasswordError(form.password));
  }

  /** The `errors` object is empty exactly when no block set a message. */
  lemma GatherEmptyIff(name: Option<Message>, birthDate: Option<Message>, email: Option<Message>, password: Option<Message>)
    ensures Gather(name, birthDate, email, password) == map[]
      <==> name.None? && birthDate.None? && email.None? && password.None?
  {
    var errors := Gather(name, birthDate, email, password);
    if name.None? && birthDate.None? && email.None? && password.None? {
      forall f
        ensures f !in errors
      {
        assert f == NameField || f == BirthDateField || f == EmailField || f == PasswordField;
      }
      assert errors.Keys == {};
    }
  }

  /** The name's messages, in priority order. */
  lemma NameMessages(name: string)
    ensures NameError(SignupMode, name) == Some(NameRequired) <==> AllWhiteSpace(name)
    ensures NameError(SignupMode, name) == Some(NameTooShort) <==> !AllWhiteSpace(name) && JsLength(Trim(name)) < 3
    ensures NameError(SignupMode, name) == None <==> JsLength(Trim(name)) >= 3
  {
    assert JsLength([]) == 0;
    TrimEmptyIff(name);
  }

  /** The e-mail's messages, in priority order. */
  lemma EmailMessages(email: string)
    ensures EmailError(email) == Some(EmailRequired) <==> AllWhiteSpace(email)
    ensures EmailError(email) == Some(EmailInvalid) <==> !AllWhiteSpace(email) && !MatchesEmailRegex(Trim(email))
    ensures EmailError(email) == None <==> MatchesEmailRegex(Trim(email))
  {
    TrimEmptyIff(email);
    EmailShapeIsRegex(Trim(email));
    if Trim(email) == [] {
      assert !MatchesEmailRegex(Trim(email));
    }
  }

  /** The password's messages, in priority order. */
  lemma PasswordMessages(password: string)
    ensures PasswordError(password) == Some(PasswordRequired) <==> password == []
    ensures PasswordError(password) == Some(PasswordTooShort) <==> password != [] && JsLength(password) < 8
    ensures PasswordError(password) == Some(PasswordTooWeak)
      <==> JsLength(password) >= 8 && !(HasAsciiLetter(password) && HasAsciiDigit(password))
    ensures PasswordError(password) == None
      <==> JsLength(password) >= 8 && HasAsciiLetter(password) && HasAsciiDigit(password)
  {
  }

  /** The birth date's messages, in priority order. */
  lemma BirthDateMessages(birthDate: string, birth: Option<Date>, today: Date)
    ensures BirthDateError(SignupMode, birthDate, birth, today) == Some(BirthDateRequired) <==> birthDate == []
    ensures BirthDateError(SignupMode, birthDate, birth, today) == Some(InvalidDate)
      <==> birthDate != [] && birth.None?
    ensures BirthDateError(SignupMode, birthDate, birth, today) == Some(FutureBirthDate)
      <==> birthDate != [] && birth.Some? && After(birth.value, today)
    ensures BirthDateError(SignupMode, birthDate, birth, today) == Some(TooYoung)
      <==> birthDate != [] && birth.Some? && !After(birth.value, today) && After(Anniversary(birth.value, 13), today)
    ensures BirthDateError(SignupMode, birthDate, birth, today) == None
      <==> birthDate != [] && birth.Some? && !After(birth.value, today) && !After(Anniversary(birth.value, 13), today)
  {
    if birth.Some? {
      AgeAtLeastIffBirthdayReached(birth.value, today, MinAge);
    }
  }

  /** A sign-up form the page accepts, whose e-mail has no surrounding
      whitespace, passes every check of the server's signup route except
      possibly the duplicate-account check. */
  lemma SignupFormAgreesWithServer(form: Form, birth: Option<Date>, today: Date, users: seq<AccountStore.User>)
    requires form.mode == SignupMode
    requires FormErrors(form, birth, today) == map[]
    requires Trim(form.email) == form.email
    ensures var req := AccountStore.SignupRequest(form.name, form.birthDate, form.email, form.password);
      AccountStore.SignupCheck(req, birth, today, users) in {None, Some(AccountStore.UserExists)}
  {
    SignupFormFacts(form, birth, today);
  }

  lemma SignupFormFacts(form: Form, birth: Option<Date>, today: Date)
    requires form.mode == SignupMode
    requires FormErrors(form, birth, today) == map[]
    ensures form.name != [] && JsLength(Trim(form.name)) >= MinNameLength
    ensures form.birthDate != [] && birth.Some? && !After(birth.value, today) && AgeOn(birth.value, today) >= MinAge
    ensures form.email != [] && EmailShape(Trim(form.email))
    ensures form.password != [] && JsLength(form.password) >= MinPasswordLength
    ensures HasAsciiLetter(form.password) && HasAsciiDigit(form.password)
  {
    NoErrorsIffNoFieldError(form, birth, today);
  }

  /** The page tests the trimmed e-mail but sends it untrimmed, so an address
      typed with a leading space passes the page and fails the server. */
  lemma PaddedEmailPassesPageOnly(email: string)
    requires EmailShape(email)
    ensures EmailError(" " + email) == None
    ensures !EmailShape(" " + email)
  {
    var padded := " " + email;
    assert padded[1..] == email;
    assert TrimStart(padded) == TrimStart(email);
    EmailShapeIsTrimmed(email);
    assert !NoWhiteSpace(padded) by {
      assert IsJsWhiteSpace(padded[0]);
    }
  }

  /** An address of the e-mail shape neither starts nor ends with whitespace. */
  lemma EmailShapeIsTrimmed(email: string)
    requires EmailShape(email)
    ensures TrimStart(email) == email && TrimEnd(email) == email
  {
    EmailShapeIsRegex(email);
    var a, d :| 0 <= a < d < |email| && email[a] == '@' && email[d] == '.'
      && EmailAtom(email[..a]) && EmailAtom(email[a + 1..d]) && EmailAtom(email[d + 1..]);
    assert email[0] == email[..a][0];
    assert email[|email| - 1] == email[d + 1..][|email| - d - 2];
  }
}
