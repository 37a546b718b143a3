/**
 * The server's accounts (backend/server.js): the in-memory user list, the
 * signup route's ordered validation chain and append, and the login route's
 * lookup. The birth-date parser (`new Date(birthDate)`) and the clock enter
 * as a parse oracle and a `today` date; token signing is abstracted to the
 * claims a token would carry.
 */
module AccountStore {
  import opened Wrappers
  import opened JsStrings
  import opened ValidationRules
  import opened AuthGate

  datatype User = User(name: string, birthDate: string, email: string, password: string)

  /** The one account the server starts with. */
  const DemoUser := User("Demo User", "2000-01-01", "demo@user.com", "password123")

  /** A signup body; an absent field is the empty string (both are falsy). */
  datatype SignupRequest = SignupRequest(name: string, birthDate: string, email: string, password: string)

  /** The signup rejections, in the order the route tests them. */
  datatype SignupError =
    | MissingField
    | NameTooShort
    | InvalidEmail
    | PasswordTooShort
    | PasswordTooWeak
    | InvalidBirthDate
    | TooYoung
    | UserExists

  const SignupOrder: seq<SignupError> :=
    [MissingField, NameTooShort, InvalidEmail, PasswordTooShort, PasswordTooWeak,
     InvalidBirthDate, TooYoung, UserExists]

  function SignupErrorMessage(e: SignupError): string {
    match e
    case MissingField => "Name, birth date, email and password are required"
    case NameTooShort => "Name must be at least 3 characters"
    case InvalidEmail => "Invalid email format"
    case PasswordTooShort => "Password must be at least 8 characters long"
    case PasswordTooWeak => "Password must contain at least one letter and one number"
    case InvalidBirthDate => "Invalid birth date"
    case TooYoung => "You must be at least 13 years old"
    case UserExists => "User already exists"
  }

  /** Every signup rejection answers 400. */
  const SignupRejectStatus := 400

  datatype LoginError = MissingCredentials | InvalidCredentials

  function LoginErrorMessage(e: LoginError): string {
    match e
    case MissingCredentials => "Email and password are required"
    case InvalidCredentials => "Invalid email or password"
  }

  function LoginErrorStatus(e: LoginError): int {
    match e
    case MissingCredentials => 400
    case InvalidCredentials => 401
  }

  /** The JSON answer of a rejected request: its HTTP status and `error` text. */
  datatype ErrorReply = ErrorReply(status: int, error: string)

  /** `res.status(400).json({ error })` for a failed signup rule. */
  function SignupRejection(e: SignupError): ErrorReply {
    ErrorReply(SignupRejectStatus, SignupErrorMessage(e))
  }

  /** The login route's rejection: 400 for missing fields, 401 for bad credentials. */
  function LoginRejection(e: LoginError): ErrorReply {
    ErrorReply(LoginErrorStatus(e), LoginErrorMessage(e))
  }

  /** A successful signup or login answer: the token (standing for its claims),
      e-mail, name and birth date. */
  datatype Session = Session(token: Claims, email: string, name: string, birthDate: string)

  function SessionOf(u: User): Session {
    Session(Claims(u.email, u.name), u.email, u.name, u.birthDate)
  }

  function NewUser(req: SignupRequest): User {
    User(req.name, req.birthDate, req.email, req.password)
  }

  predicate EmailTaken(users: seq<User>, email: string) {
    exists i :: 0 <= i < |users| && users[i].email == email
  }

  ghost predicate UniqueEmails(users: seq<User>) {
    forall i, j :: 0 <= i < j < |users| ==> users[i].email != users[j].email
  }

  /** Every stored account has a non-empty e-mail and password. */
  ghost predicate CredentialsPresent(users: seq<User>) {
    forall i :: 0 <= i < |users| ==> users[i].email != [] && users[i].password != []
  }

  /** The signup route's checks, first failure wins; `birth` is the parsed
      birth date (`None` when it does not parse). */
  function SignupCheck(req: SignupRequest, birth: Option<Date>, today: Date, users: seq<User>): Option<SignupError> {
    if req.name == [] || req.birthDate == [] || req.email == [] || req.password == [] then Some(MissingField)
    else if JsLength(Trim(req.name)) < MinNameLength then Some(NameTooShort)
    else if !EmailShape(req.email) then Some(InvalidEmail)
    else AccountCheck(req, birth, today, users)
  }

  /** The signup route's checks after the e-mail format: password, birth date,
      age and duplicate account, first failure wins. */
  function AccountCheck(req: SignupRequest, birth: Option<Date>, today: Date, users: seq<User>): Option<SignupError> {
    if JsLength(req.password) < MinPasswordLength then Some(PasswordTooShort)
    else if !HasAsciiLetter(req.password) || !HasAsciiDigit(req.password) then Some(PasswordTooWeak)
    else if birth.None? || After(birth.value, today) then Some(InvalidBirthDate)
    else if AgeOn(birth.value, today) < MinAge then Some(TooYoung)
    else if EmailTaken(users, req.email) then Some(UserExists)
    else None
  }

  /** Each rule of signup stated on its own, in the terms of the rule rather
      than of the route's code: the e-mail by its regular expression, the age
      by the thirteenth birthday. */
  ghost predicate Passes(rule: SignupError, req: SignupRequest, birth: Option<Date>, today: Date, users: seq<User>) {
    match rule
    case MissingField => req.name != [] && req.birthDate != [] && req.email != [] && req.password != []
    case NameTooShort => JsLength(Trim(req.name)) >= 3
    case InvalidEmail => MatchesEmailRegex(req.email)
    case PasswordTooShort => JsLength(req.password) >= 8
    case PasswordTooWeak => HasAsciiLetter(req.password) && HasAsciiDigit(req.password)
    case InvalidBirthDate => birth.Some? && !After(birth.value, today)
    case TooYoung => birth.None? || !After(Anniversary(birth.value, 13), today)
    case UserExists => forall u :: u in users ==> u.email != req.email
  }

  /** The first rule of `rules` that does not pass, if any. */
  ghost function FirstFailing(rules: seq<SignupError>, req: SignupRequest, birth: Option<Date>, today: Date, users: seq<User>)
    : Option<SignupError>
  {
    if rules == [] then None
    else if !Passes(rules[0], req, birth, today, users) then Some(rules[0])
    else FirstFailing(rules[1..], req, birth, today, users)
  }

  /** `FirstFailing` finds nothing exactly when every rule passes, and
      otherwise a failing rule all of whose predecessors pass. */
  lemma {:induction false} FirstFailingMeaning(rules: seq<SignupError>, req: SignupRequest, birth: Option<Date>, today: Date, users: seq<User>)
    ensures FirstFailing(rules, req, birth, today, users).None?
      <==> forall k :: 0 <= k < |rules| ==> Passes(rules[k], req, birth, today, users)
    ensures forall k :: 0 <= k < |rules| ==>
      (FirstFailing(rules, req, birth, today, users) == Some(rules[k])
         <== !Passes(rules[k], req, birth, today, users)
             && forall j :: 0 <= j < k ==> Passes(rules[j], req, birth, today, users))
  {
    if rules != [] {
      FirstFailingMeaning(rules[1..], req, birth, today, users);
      forall k | 0 <= k < |rules| && !Passes(rules[k], req, birth, today, users)
        && forall j :: 0 <= j < k ==> Passes(rules[j], req, birth, today, users)
        ensures FirstFailing(rules, req, birth, today, users) == Some(rules[k])
      {
        if k > 0 {
          assert rules[k] == rules[1..][k - 1];
          forall j | 0 <= j < k - 1
            ensures Passes(rules[1..][j], req, birth, today, users)
          {
            assert rules[1..][j] == rules[j + 1];
          }
        }
      }
      if forall k :: 0 <= k < |rules[1..]| ==> Passes(rules[1..][k], req, birth, today, users) {
        forall k | 0 <= k < |rules|
          ensures Passes(rules[k], req, birth, today, users) || !Passes(rules[0], req, birth, today, users)
        {
          if k > 0 { assert rules[k] == rules[1..][k - 1]; }
        }
      }
    }
  }

  /** Signup answers with the first rule of `SignupOrder` that fails, and
      accepts exactly when every rule passes. */
  lemma SignupCheckIsFirstFailing(req: SignupRequest, birth: Option<Date>, today: Date, users: seq<User>)
    ensures SignupCheck(req, birth, today, users) == FirstFailing(SignupOrder, req, birth, today, users)
  {
    var o := SignupOrder;
    assert o[0..] == o;
    UnfoldFirstFailing(o, 0, req, birth, today, users);
    UnfoldFirstFailing(o, 1, req, birth, today, users);
    UnfoldFirstFailing(o, 2, req, birth, today, users);
    EmailRule(req, birth, today, users);
    AccountCheckIsFirstFailing(req, birth, today, users);
  }

  /** The checks after the e-mail format answer with the first failing rule
      among the remaining ones. */
  lemma AccountCheckIsFirstFailing(req: SignupRequest, birth: Option<Date>, today: Date, users: seq<User>)
    ensures AccountCheck(req, birth, today, users) == FirstFailing(SignupOrder[3..], req, birth, today, users)
  {
    var o := SignupOrder;
    UnfoldFirstFailing(o, 3, req, birth, today, users);
    UnfoldFirstFailing(o, 4, req, birth, today, users);
    UnfoldFirstFailing(o, 5, req, birth, today, users);
    UnfoldFirstFailing(o, 6, req, birth, today, users);
    UnfoldFirstFailing(o, 7, req, birth, today, users);
    assert o[8..] == [];
    AgeRule(req, birth, today, users);
    DuplicateRule(req, birth, today, users);
  }

  /** The regex rule is the route's e-mail test. */
  lemma EmailRule(req: SignupRequest, birth: Option<Date>, today: Date, users: seq<User>)
    ensures Passes(InvalidEmail, req, birth, today, users) == EmailShape(req.email)
  {
    EmailShapeIsRegex(req.email);
  }

  /** The birthday rule is the route's computed-age test, once the date parsed. */
  lemma AgeRule(req: SignupRequest, birth: Option<Date>, today: Date, users: seq<User>)
    ensures birth.Some? ==> Passes(TooYoung, req, birth, today, users) == (AgeOn(birth.value, today) >= MinAge)
  {
    if birth.Some? {
      AgeAtLeastIffBirthdayReached(birth.value, today, MinAge);
    }
  }

  /** No account holds the e-mail exactly when `users.find` finds none. */
  lemma DuplicateRule(req: SignupRequest, birth: Option<Date>, today: Date, users: seq<User>)
    ensures Passes(UserExists, req, birth, today, users) == !EmailTaken(users, req.email)
  {
    if EmailTaken(users, req.email) {
      var i :| 0 <= i < |users| && users[i].email == req.email;
      assert users[i] in users;
    }
  }

  lemma UnfoldFirstFailing(rules: seq<SignupError>, k: nat, req: SignupRequest, birth: Option<Date>, today: Date, users: seq<User>)
    requires k < |rules|
    ensures FirstFailing(rules[k..], req, birth, today, users)
      == if !Passes(rules[k], req, birth, today, users) then Some(rules[k])
         else FirstFailing(rules[k + 1..], req, birth, today, users)
  {
    assert rules[k..][0] == rules[k];
    assert rules[k..][1..] == rules[k + 1..];
  }

  /** A signup that passes its checks keeps e-mails unique. */
  lemma SignupKeepsEmailsUnique(req: SignupRequest, birth: Option<Date>, today: Date, users: seq<User>)
    requires UniqueEmails(users)
    requires SignupCheck(req, birth, today, users) == None
    ensures UniqueEmails(users + [NewUser(req)])
  {
    AcceptedSignup(req, birth, today, users);
    AppendKeepsUnique(users, NewUser(req));
  }

  /** A signup that passes its checks stores an account with both credentials. */
  lemma SignupKeepsCredentials(req: SignupRequest, birth: Option<Date>, today: Date, users: seq<User>)
    requires CredentialsPresent(users)
    requires SignupCheck(req, birth, today, users) == None
    ensures CredentialsPresent(users + [NewUser(req)])
  {
    AcceptedSignup(req, birth, today, users);
    AppendKeepsCredentials(users, NewUser(req));
  }

  /** What an accepted signup guarantees about the new account. */
  lemma AcceptedSignup(req: SignupRequest, birth: Option<Date>, today: Date, users: seq<User>)
    requires SignupCheck(req, birth, today, users) == None
    ensures req.email != [] && req.password != [] && !EmailTaken(users, req.email)
  {
    assert AccountCheck(req, birth, today, users) == None;
  }

  lemma AppendKeepsUnique(users: seq<User>, u: User)
    requires UniqueEmails(users) && !EmailTaken(users, u.email)
    ensures UniqueEmails(users + [u])
  {
    var all := users + [u];
    forall i, j | 0 <= i < j < |all|
      ensures all[i].email != all[j].email
    {
      assert all[i] == users[i];
      if j < |users| {
        assert all[j] == users[j];
      }
    }
  }

  lemma AppendKeepsCredentials(users: seq<User>, u: User)
    requires CredentialsPresent(users) && u.email != [] && u.password != []
    ensures CredentialsPresent(users + [u])
  {
    var all := users + [u];
    forall i | 0 <= i < |all|
      ensures all[i].email != [] && all[i].password != []
    {
      if i < |users| {
        assert all[i] == users[i];
      }
    }
  }

  predicate Matches(u: User, email: string, password: string) {
    u.email == email && u.password == password
  }

  /** `users.find(u => u.email === email && u.password === password)`, as an index. */
  function FindCredentials(users: seq<User>, email: string, password: string): (r: Option<nat>)
    ensures r.Some? ==> r.value < |users| && Matches(users[r.value], email, password)
    ensures r.Some? ==> forall j :: 0 <= j < r.value ==> !Matches(users[j], email, password)
    ensures r.None? ==> forall j :: 0 <= j < |users| ==> !Matches(users[j], email, password)
  {
    if users == [] then None
    else if Matches(users[0], email, password) then Some(0)
    else match FindCredentials(users[1..], email, password)
      case None => None
      case Some(i) => Some(i + 1)
  }

  /** The login route's answer for the current user list. */
  function LoginOutcome(users: seq<User>, email: string, password: string): Result<Session, LoginError> {
    if email == [] || password == [] then Failure(MissingCredentials)
    else match FindCredentials(users, email, password)
      case None => Failure(InvalidCredentials)
      case Some(i) => Success(SessionOf(users[i]))
  }

  /** Login succeeds exactly when both fields are given and some stored user
      has exactly that e-mail and password. */
  lemma LoginSucceedsIff(users: seq<User>, email: string, password: string)
    ensures LoginOutcome(users, email, password).Success?
        <==> email != [] && password != [] && exists i :: 0 <= i < |users| && Matches(users[i], email, password)
  {
  }

  /** With unique e-mails, a successful login answers with the one account
      that owns the e-mail. */
  lemma LoginFindsOwner(users: seq<User>, email: string, password: string, i: nat)
    requires UniqueEmails(users)
    requires i < |users| && users[i].email == email
    ensures LoginOutcome(users, email, password).Success?
        ==> LoginOutcome(users, email, password).value == SessionOf(users[i])
  {
  }

  /** After a signup is accepted, logging in with its e-mail and password
      answers with the new account's name and birth date. */
  lemma {:induction false} LoginAfterSignup(req: SignupRequest, birth: Option<Date>, today: Date, users: seq<User>)
    requires SignupCheck(req, birth, today, users) == None
    ensures LoginOutcome(users + [NewUser(req)], req.email, req.password) == Success(SessionOf(NewUser(req)))
  {
    AcceptedSignup(req, birth, today, users);
    LoginAfterAppend(users, NewUser(req));
  }

  /** In a store with unique e-mails, every account with both credentials
      logs in with them and gets its own session. */
  lemma StoredUserLogsIn(users: seq<User>, i: nat)
    requires UniqueEmails(users) && i < |users| && users[i].email != [] && users[i].password != []
    ensures LoginOutcome(users, users[i].email, users[i].password) == Success(SessionOf(users[i]))
  {
    var r := FindCredentials(users, users[i].email, users[i].password);
    assert r.Some? && r.value <= i;
  }

  /** Rejected logins answer 400 exactly when a field is missing and 401
      exactly when the fields are given but no account matches. */
  lemma LoginRejectionStatus(users: seq<User>, email: string, password: string)
    ensures var o := LoginOutcome(users, email, password);
      && (o.Failure? && LoginRejection(o.error).status == 400 <==> email == [] || password == [])
      && (o.Failure? && LoginRejection(o.error).status == 401
          <==> email != [] && password != [] && forall j :: 0 <= j < |users| ==> !Matches(users[j], email, password))
  {
    if email != [] && password != [] && FindCredentials(users, email, password).Some? {
      assert !forall j :: 0 <= j < |users| ==> !Matches(users[j], email, password)
        by { assert Matches(users[FindCredentials(users, email, password).value], email, password); }
    }
  }

  /** Appending an account whose e-mail is new makes its credentials log in to it. */
  lemma LoginAfterAppend(users: seq<User>, u: User)
    requires u.email != [] && u.password != [] && !EmailTaken(users, u.email)
    ensures LoginOutcome(users + [u], u.email, u.password) == Success(SessionOf(u))
  {
    var all := users + [u];
    forall j | 0 <= j < |users|
      ensures !Matches(all[j], u.email, u.password)
    {
      assert all[j] == users[j];
    }
    assert Matches(all[|users|], u.email, u.password);
  }

  /** The server's user list, updated in place by signup. */
  class UserStore {
    var users: seq<User>

    /** E-mails are unique and no account lacks a credential. */
    ghost predicate Valid()
      reads this
    {
      UniqueEmails(users) && CredentialsPresent(users)
    }

    constructor ()
      ensures Valid() && users == [DemoUser]
    {
      users := [DemoUser];
    }

    /** `POST /api/signup`: on success the new account is appended, on any
        rejection the list is left as it was. */
    method Signup(req: SignupRequest, parseDate: string -> Option<Date>, today: Date)
      returns (r: Result<Session, ErrorReply>)
      requires Valid()
      modifies this
      ensures Valid()
      ensures SignupCheck(req, parseDate(req.birthDate), today, old(users)) == None
        ==> r == Success(SessionOf(NewUser(req))) && users == old(users) + [NewUser(req)]
      ensures SignupCheck(req, parseDate(req.birthDate), today, old(users)).Some?
        ==> r == Failure(SignupRejection(SignupCheck(req, parseDate(req.birthDate), today, old(users)).value))
            && users == old(users)
    {
      var check := SignupCheck(req, parseDate(req.birthDate), today, users);
      if check.Some? {
        return Failure(SignupRejection(check.value));
      }
      SignupKeepsEmailsUnique(req, parseDate(req.birthDate), today, users);
      SignupKeepsCredentials(req, parseDate(req.birthDate), today, users);
      var u := NewUser(req);
      users := users + [u];
      r := Success(SessionOf(u));
    }

    /** `POST /api/login`: a front-to-back search of the list. */
    method Login(email: string, password: string) returns (r: Result<Session, ErrorReply>)
      ensures LoginOutcome(users, email, password).Success? ==> r == Success(LoginOutcome(users, email, password).value)
      ensures LoginOutcome(users, email, password).Failure?
        ==> r == Failure(LoginRejection(LoginOutcome(users, email, password).error))
    {
      if email == [] || password == [] {
        return Failure(LoginRejection(MissingCredentials));
      }
      var i := 0;
      while i < |users|
        invariant 0 <= i <= |users|
        invariant forall j :: 0 <= j < i ==> !Matches(users[j], email, password)
      {
        if users[i].email == email && users[i].password == password {
          return Success(SessionOf(users[i]));
        }
        i := i + 1;
      }
      r := Failure(LoginRejection(InvalidCredentials));
    }
  }
}
