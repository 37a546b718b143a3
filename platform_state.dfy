/**
 * The page state of frontend/src/TranslationPlatform.jsx and the handlers
 * that update it: form validation, logout, translate, language swap and the
 * history buttons. Each React `useState` pair becomes a field; a handler's
 * `set…` calls become assignments. The server's reply to a translation
 * request is an input, and the entry id and timestamp are supplied.
 */
module Platform {
  import opened Wrappers
  import opened JsStrings
  import opened ValidationRules
  import opened History
  import opened AuthForm

  /** The banner message `error` shows; `NoNotice` is the empty string. */
  datatype Notice =
    | NoNotice
    | LoginFirst
    | SessionExpired
    | FallbackMode
    | ServerError(message: string)
    | TranslationFailed
    | BackendUnreachable

  function NoticeText(n: Notice): string {
    match n
    case NoNotice => ""
    case LoginFirst => "Please login first to translate."
    case SessionExpired => "Session expired or invalid. Please login again."
    case FallbackMode => "⚠️ Fallback mode – API unavailable"
    case ServerError(message) => message
    case TranslationFailed => "❌ Translation failed"
    case BackendUnreachable => "❌ Backend not reachable"
  }

  /** What `fetch` to `/api/translate` comes back with: a 401, no answer at all
      (network or JSON failure), or a JSON body whose absent fields are empty. */
  datatype ServerReply =
    | Status401
    | Unreachable
    | Body(translated: string, success: bool, error: string)

  /** The name block of `validateAuthForm` (sign-up only). */
  method AddNameMessage(errors: map<Field, Message>, mode: Mode, authName: string) returns (r: map<Field, Message>)
    ensures r == MessagesOf(errors, NameField, NameError(mode, authName))
  {
    r := errors;
    if mode == SignupMode {
      var name := Trim(authName);
      if name == [] {
        assert NameError(mode, authName) == Some(NameRequired);
        r := r[NameField := NameRequired];
      } else if JsLength(name) < MinNameLength {
        assert NameError(mode, authName) == Some(NameTooShort);
        r := r[NameField := NameTooShort];
      } else {
        assert NameError(mode, authName) == None;
      }
    }
  }

  /** The birth-date block of `validateAuthForm` (sign-up only). */
  method AddBirthDateMessage(errors: map<Field, Message>, mode: Mode, authBirthDate: string,
                             parseDate: string -> Option<Date>, today: Date) returns (r: map<Field, Message>)
    ensures r == MessagesOf(errors, BirthDateField, BirthDateError(mode, authBirthDate, parseDate(authBirthDate), today))
  {
    r := errors;
    if mode == SignupMode {
      if authBirthDate == [] {
        r := r[BirthDateField := BirthDateRequired];
      } else {
        var birth := parseDate(authBirthDate);
        if birth.None? {
          r := r[BirthDateField := InvalidDate];
        } else if After(birth.value, today) {
          r := r[BirthDateField := FutureBirthDate];
        } else if AgeOn(birth.value, today) < MinAge {
          r := r[BirthDateField := TooYoung];
        }
      }
    }
  }

  /** The e-mail block of `validateAuthForm`: the pattern is tested on the trimmed text. */
  method AddEmailMessage(errors: map<Field, Message>, authEmail: string) returns (r: map<Field, Message>)
    ensures r == MessagesOf(errors, EmailField, EmailError(authEmail))
  {
    r := errors;
    var email := Trim(authEmail);
    if email == [] {
      r := r[EmailField := EmailRequired];
    } else if !EmailShape(email) {
      r := r[EmailField := EmailInvalid];
    }
  }

  /** The password block of `validateAuthForm`. */
  method AddPasswordMessage(errors: map<Field, Message>, authPassword: string) returns (r: map<Field, Message>)
    ensures r == MessagesOf(errors, PasswordField, PasswordError(authPassword))
  {
    r := errors;
    if authPassword == [] {
      r := r[PasswordField := PasswordRequired];
    } else if JsLength(authPassword) < MinPasswordLength {
      r := r[PasswordField := PasswordTooShort];
    } else if !HasAsciiLetter(authPassword) || !HasAsciiDigit(authPassword) {
      r := r[PasswordField := PasswordTooWeak];
    }
  }

  class TranslationPlatform {
    var sourceText: string
    var translatedText: string
    var sourceLang: string
    var targetLang: string
    var loading: bool
    var error: Notice
    var history: seq<Entry>

    var isLoggedIn: bool
    var authToken: string
    var userEmail: string
    var userName: string
    var userBirthDate: string

    var authMode: Mode
    var authName: string
    var authBirthDate: string
    var authEmail: string
    var authPassword: string
    var authFieldErrors: map<Field, Message>

    /** A logged-out page holds no token. */
    ghost predicate Valid()
      reads this
    {
      !isLoggedIn ==> authToken == []
    }

    /** The initial `useState` values. */
    constructor ()
      ensures Valid()
      ensures sourceText == [] && translatedText == [] && sourceLang == "en" && targetLang == "hi"
      ensures !loading && error == NoNotice && history == []
      ensures !isLoggedIn && authToken == [] && userEmail == [] && userName == [] && userBirthDate == []
      ensures authMode == LoginMode && authName == [] && authBirthDate == []
      ensures authEmail == "demo@user.com" && authPassword == "password123" && authFieldErrors == map[]
    {
      sourceText, translatedText, sourceLang, targetLang := [], [], "en", "hi";
      loading, error, history := false, NoNotice, [];
      isLoggedIn, authToken, userEmail, userName, userBirthDate := false, [], [], [], [];
      authMode, authName, authBirthDate := LoginMode, [], [];
      authEmail, authPassword, authFieldErrors := "demo@user.com", "password123", map[];
    }

    /** `validateAuthForm`: fills the field messages one field at a time and
        reports whether none was set. */
    method ValidateAuthForm(parseDate: string -> Option<Date>, today: Date) returns (valid: bool)
      modifies this`authFieldErrors
      ensures authFieldErrors
        == FormErrors(Form(authMode, authName, authBirthDate, authEmail, authPassword), parseDate(authBirthDate), today)
      ensures valid <==> authFieldErrors == map[]
    {
      var errors: map<Field, Message> := map[];
      errors := AddNameMessage(errors, authMode, authName);
      errors := AddBirthDateMessage(errors, authMode, authBirthDate, parseDate, today);
      errors := AddEmailMessage(errors, authEmail);
      errors := AddPasswordMessage(errors, authPassword);
      authFieldErrors := errors;
      valid := |errors| == 0;
    }

    /** The success branch of `handleAuthSubmit`: the page takes the session. */
    method ApplySession(token: string, email: string, name: string, birthDate: string)
      requires Valid()
      modifies this`authToken, this`userEmail, this`userName, this`userBirthDate, this`isLoggedIn
      ensures Valid()
      ensures authToken == token && userEmail == email && userName == name && userBirthDate == birthDate
      ensures isLoggedIn
    {
      authToken := token;
      userEmail := email;
      userName := name;
      userBirthDate := birthDate;
      isLoggedIn := true;
    }

    /** `handleLogout` */
    method HandleLogout()
      modifies this`isLoggedIn, this`authToken, this`userEmail, this`userName, this`userBirthDate
      ensures Valid()
      ensures !isLoggedIn && authToken == [] && userEmail == [] && userName == [] && userBirthDate == []
    {
      isLoggedIn := false;
      authToken := [];
      userEmail := [];
      userName := [];
      userBirthDate := [];
    }

    /** `handleTranslate`. Returns whether a request was sent: only for a
        non-blank text and a held token. */
    method HandleTranslate(reply: ServerReply, entryId: int, timestamp: string) returns (requested: bool)
      requires Valid()
      modifies this`error, this`loading, this`isLoggedIn, this`authToken, this`translatedText, this`history
      ensures Valid()
      ensures requested <==> Trim(old(sourceText)) != [] && old(authToken) != []
      ensures !old(isLoggedIn) ==> !requested
      ensures Trim(old(sourceText)) == [] ==> unchanged(this)
      ensures Trim(old(sourceText)) != [] && old(authToken) == []
        ==> error == LoginFirst
            && loading == old(loading) && isLoggedIn == old(isLoggedIn) && authToken == old(authToken)
            && translatedText == old(translatedText) && history == old(history)
      ensures requested ==> Received(reply, entryId, timestamp, old(isLoggedIn), old(authToken),
                                     old(translatedText), old(history))
    {
      if Trim(sourceText) == [] {
        return false;
      }
      if authToken == [] {
        error := LoginFirst;
        return false;
      }
      requested := true;
      loading := true;
      error := NoNotice;
      ReceiveReply(reply, entryId, timestamp);
    }

    /** The page after the reply to a sent request, given the session fields
        and the translation and history it had before. */
    ghost predicate Received(reply: ServerReply, entryId: int, timestamp: string, wasLoggedIn: bool, token: string,
                             oldTranslated: string, oldHistory: seq<Entry>)
      reads this
    {
      && !loading
      && match reply {
        case Status401 =>
          error == SessionExpired && !isLoggedIn && authToken == []
          && translatedText == oldTranslated && history == oldHistory
        case Unreachable =>
          error == BackendUnreachable && isLoggedIn == wasLoggedIn && authToken == token
          && translatedText == oldTranslated && history == oldHistory
        case Body(translated, success, message) =>
          && isLoggedIn == wasLoggedIn && authToken == token
          && (translated != [] ==>
                translatedText == translated
                && history == Prepend(Entry(entryId, sourceText, translated, sourceLang, targetLang, timestamp), oldHistory)
                && error == (if success then NoNotice else FallbackMode))
          && (translated == [] ==>
                error == (if message != [] then ServerError(message) else TranslationFailed)
                && translatedText == oldTranslated && history == oldHistory)
      }
    }

    /** What `handleTranslate` does with the reply once the request is sent,
        which has cleared `error`. */
    method ReceiveReply(reply: ServerReply, entryId: int, timestamp: string)
      requires Valid() && error == NoNotice
      modifies this`error, this`loading, this`isLoggedIn, this`authToken, this`translatedText, this`history
      ensures Valid()
      ensures Received(reply, entryId, timestamp, old(isLoggedIn), old(authToken), old(translatedText), old(history))
    {
      match reply {
        case Status401 =>
          error := SessionExpired;
          isLoggedIn := false;
          authToken := [];
          loading := false;
          return;
        case Unreachable =>
          error := BackendUnreachable;
        case Body(translated, success, message) =>
          if translated != [] {
            translatedText := translated;
            if !success {
              error := FallbackMode;
            }
            var entry := Entry(entryId, sourceText, translated, sourceLang, targetLang, timestamp);
            history := Prepend(entry, history);
          } else {
            error := if message != [] then ServerError(message) else TranslationFailed;
          }
      }
      loading := false;
    }

    /** `swapLanguages`: the languages trade places and the translation becomes the new source. */
    method SwapLanguages()
      modifies this`sourceLang, this`targetLang, this`sourceText, this`translatedText
      ensures sourceLang == old(targetLang) && targetLang == old(sourceLang)
      ensures sourceText == old(translatedText) && translatedText == []
    {
      sourceLang, targetLang := targetLang, sourceLang;
      sourceText := translatedText;
      translatedText := [];
    }

    /** `handleHistoryDelete` */
    method HandleHistoryDelete(id: int)
      modifies this`history
      ensures history == DeleteById(old(history), id)
    {
      history := DeleteById(history, id);
    }

    /** `handleClearAllHistory` */
    method HandleClearAllHistory()
      modifies this`history
      ensures history == []
    {
      history := [];
    }
  }
}
