# Translation platform: accounts, token gate, translation fallback and page state

This project models the core of a small translation web application in Dafny.
The application has two parts.

- **The Express backend** (`backend/server.js`). It keeps an in-memory user
  list with one demo user. `POST /api/signup` validates the request and
  appends a user. `POST /api/login` finds a user by e-mail and password. A
  bearer-token middleware guards `POST /api/translate`. That route tries two
  LibreTranslate servers in order, then an unofficial Google endpoint, and
  otherwise answers with the input marked as unavailable.
- **The React page** (`frontend/src/TranslationPlatform.jsx`). It validates
  the login/sign-up form field by field. It sends translation requests with
  the stored token and keeps a newest-first history. It also implements
  logout, language swap and history deletion.

The model is organised as follows:

- `js_strings.dfy` gives the JavaScript string built-ins the code relies on:
  `trim`, `length` in UTF-16 code units, `startsWith`, `split` and `join`.
- `validation_rules.dfy` gives the rules both sides share. These are the
  e-mail pattern `^[^\s@]+@[^\s@]+\.[^\s@]+$`, the password character tests,
  and the age computation with its anniversary meaning.
- `account_store.dfy` holds the sign-up checks in the server's order, the
  login lookup, and the user list as a `UserStore` class.
- `auth_gate.dfy` holds the bearer-token extraction and the middleware's
  decision.
- `translation_fallback.dfy` holds the provider adapters' normalisation, the
  fallback order, and the route as a loop over the servers.
- `history.dfy` holds the history list operations.
- `auth_form.dfy` holds the page's per-field validation messages.
- `platform_state.dfy` holds the page state as a `TranslationPlatform` class,
  with one field per `useState` value and one method per handler.

Several inputs are passed in as parameters:

- Provider answers, the JWT check, the date parser, today's date, and the
  server's reply to the page.
- The history entry's `Date.now()` id and its timestamp.

## Model

| member | source | states |
|---|---|---|
| JsStrings.TrimIsMaximalInfix | backend/server.js:39 | `trim` returns a slice of the input. Everything cut off on either side is whitespace, and the result neither starts nor ends with whitespace. |
| JsStrings.TrimEmptyIff | frontend/src/TranslationPlatform.jsx:118 | `!s.trim()` holds exactly when the string is whitespace only, so a blank-but-spaced name counts as missing. |
| JsStrings.TrimIdempotent | frontend/src/TranslationPlatform.jsx:150-154 | Trimming twice gives the same result as trimming once. The e-mail is trimmed once for the emptiness test and once for the pattern test. |
| JsStrings.JsLengthBounds | backend/server.js:48 | `length` counts between one and two code units per character, and it is zero only for the empty string. |
| JsStrings.JsLengthAppend | backend/server.js:39 | `length` adds up over concatenation. |
| JsStrings.SplitJoinRoundTrip | backend/server.js:129 | Joining `split(c)` with `c` gives back the original string, so `split` loses nothing. |
| JsStrings.SplitHead | backend/server.js:129 | The first field of `split(c)` is the longest separator-free prefix. |
| JsStrings.SplitFieldsFree | backend/server.js:129 | No field of `split(c)` contains the separator. |
| JsStrings.SplitAfterPrefix | backend/server.js:129 | A string whose first separator follows a separator-free prefix splits into that prefix followed by the split of the rest. |
| JsStrings.SplitWithoutSeparator | backend/server.js:129 | A string without the separator splits into itself alone. |
| JsStrings.JoinEmptyAppend | backend/server.js:159 | `join("")` distributes over concatenation of the part lists. |
| ValidationRules.EmailShapeIsRegex | backend/server.js:43-44 | The executable e-mail check holds exactly when the string matches `^[^\s@]+@[^\s@]+\.[^\s@]+$` (one `@`, no whitespace, a dot with text on both sides after the `@`). Both directions are proved. |
| ValidationRules.ShapeGivesRegex | backend/server.js:43-44 | An accepted address has a local part, host and suffix that match the pattern's three runs. |
| ValidationRules.RegexGivesShape | backend/server.js:43-44 | Every string the pattern matches passes the executable check. |
| ValidationRules.AgeIsWholeYears | backend/server.js:67-71 | The computed age is the number of birthdays reached. The age-th anniversary is on or before today, and the next one is after today. |
| ValidationRules.AgeAtLeastIffBirthdayReached | backend/server.js:67-74 | The age is at least k exactly when the k-th anniversary of the birth date is not after today. With k = 13, this is the meaning of the minimum-age rule. |
| AccountStore.FirstFailingMeaning | backend/server.js:33-79 | The first failing rule of an ordered list is reported exactly when every earlier rule passes and that one fails. If all rules pass, nothing is reported. |
| AccountStore.SignupCheckIsFirstFailing | backend/server.js:33-79 | The sign-up check reports the first failing rule in this order: presence, name length, e-mail format, password length, password letters/digits, birth date, age, duplicate e-mail. |
| AccountStore.AccountCheckIsFirstFailing | backend/server.js:48-79 | The checks from password length onwards report the first failing rule among those five, in source order. |
| AccountStore.EmailRule | backend/server.js:43-46 | The e-mail rule passes exactly when the untrimmed e-mail matches the pattern. |
| AccountStore.AgeRule | backend/server.js:67-74 | For a parsed birth date, the age rule passes exactly when the computed age is at least 13. |
| AccountStore.DuplicateRule | backend/server.js:76-79 | The duplicate rule passes exactly when no stored user has the same e-mail. |
| AccountStore.SignupKeepsEmailsUnique | backend/server.js:76-82 | A sign-up that passes every check keeps stored e-mails pairwise distinct. |
| AccountStore.SignupKeepsCredentials | backend/server.js:33-82 | A sign-up that passes every check stores an account whose e-mail and password are both non-empty, so no stored account lacks a credential. |
| AccountStore.AcceptedSignup | backend/server.js:33-79 | An accepted sign-up has a non-empty e-mail and password, and its e-mail is not yet taken. |
| AccountStore.FindCredentials | backend/server.js:104-106 | `users.find` returns the first user whose e-mail and password both match, or reports that no user matches. |
| AccountStore.LoginSucceedsIff | backend/server.js:98-109 | Login succeeds exactly when both fields are non-empty and some stored user matches both of them. |
| AccountStore.LoginFindsOwner | backend/server.js:104-122 | With unique e-mails, a successful login with a stored e-mail returns the session of the one user who owns that e-mail: their e-mail, name and birth date. |
| AccountStore.LoginAfterSignup | backend/server.js:81-122 | Right after a successful sign-up, logging in with the same e-mail and password returns the new user's session. |
| AccountStore.StoredUserLogsIn | backend/server.js:98-122 | In a store with unique e-mails, every account with both credentials logs in with them and gets its own session. Together with the store invariant, this holds for every account at any later time, not only right after its sign-up. |
| AccountStore.LoginRejectionStatus | backend/server.js:98-109 | A rejected login answers 400 exactly when the e-mail or password is missing. It answers 401 exactly when both are given but no account matches both. |
| AccountStore.LoginAfterAppend | backend/server.js:104-106 | Appending a user whose e-mail is not yet taken makes that user the one `find` returns for their credentials. |
| AccountStore.UserStore.constructor | backend/server.js:15-22 | The store starts with the demo user alone and satisfies the store invariant: unique e-mails and no missing credential. |
| AccountStore.UserStore.Signup | backend/server.js:30-92 | A request that passes every check appends exactly the new user at the end and returns its session. A rejected request answers 400 with the first failing rule's message and leaves the list unchanged. The store invariant is preserved. |
| AccountStore.UserStore.Login | backend/server.js:95-123 | The loop over the users returns the first matching user's session. Otherwise it returns the login rejection: 400 "Email and password are required" or 401 "Invalid email or password". |
| AuthGate.SplitBearer | backend/server.js:128-129 | On a header that starts with `Bearer `, `split(" ")` yields `Bearer` followed by the split of the rest. |
| AuthGate.BearerToken | backend/server.js:127-130 | A token is extracted only from a header that starts with `Bearer `, and it is never empty. |
| AuthGate.BearerTokenShape | backend/server.js:127-130 | The extracted token is exactly the text after `Bearer ` up to the next space, and it contains no space. |
| AuthGate.BearerTokenOf | backend/server.js:127-130 | For a header `Bearer t` followed by nothing or by a space, the token is exactly `t`. |
| AuthGate.Authorize | backend/server.js:126-143 | `No token provided` is returned exactly when no token is extracted. `Invalid or expired token` is returned exactly when a token is extracted but fails verification. Otherwise the verified claims are returned. |
| TranslationFallback.LibreOutput | backend/server.js:175 | A LibreTranslate answer counts exactly when its `translatedText` is present and non-empty, and it is then returned unchanged. |
| TranslationFallback.SegmentTexts | backend/server.js:159 | `map((x) => x[0])` keeps one text per segment, in order. |
| TranslationFallback.SegmentTextsAppend | backend/server.js:159 | Mapping segments to their texts distributes over concatenation of the segment lists. |
| TranslationFallback.GoogleTextAppend | backend/server.js:159 | The Google text is the in-order concatenation of the segments' texts. |
| TranslationFallback.GoogleTextSingle | backend/server.js:159 | A single segment contributes its first string only. |
| TranslationFallback.FirstAccepted | backend/server.js:197-202 | The chosen server is the first one whose output is non-empty and differs from the input. If no server qualifies, none is chosen. |
| TranslationFallback.FallbackPicksFirstServer | backend/server.js:197-201 | When server i is the first with an accepted answer, the route answers with that text, names server i as `api`, and has called exactly i + 1 providers. |
| TranslationFallback.FallbackUsesGoogle | backend/server.js:204-212 | When no server is accepted and Google's text is, the route answers with Google's text from "Google Fallback" after calling every provider. |
| TranslationFallback.FallbackExhausted | backend/server.js:214-219 | When nothing is accepted, the answer is the input plus " (Translation service unavailable)", with `success: false` and `api: "all-blocked"`. |
| TranslationFallback.FallbackNeverEchoes | backend/server.js:185-219 | A missing text gives "Missing text" and only then. A successful answer is never empty and never equals the input. An unsuccessful one is the marked input. |
| TranslationFallback.FallbackExample | backend/server.js:204-212 | Silent LibreTranslate servers and a Google answer "Bonjour" for "Hello" give `Bonjour` from "Google Fallback". |
| TranslationFallback.TranslateText | backend/server.js:182-220 | The route's loop returns the fallback answer and calls exactly the providers the fallback order needs. |
| TranslationFallback.HandleTranslate | backend/server.js:182-220 | A request the token gate rejects gets status 401 with the gate's message, and no provider is called. An accepted one gets the fallback answer. |
| History.DeleteById | frontend/src/TranslationPlatform.jsx:358-359 | The remaining entries are exactly the old entries whose id differs from the deleted one. |
| History.DeleteByIdKeepsOrder | frontend/src/TranslationPlatform.jsx:359 | Deleting distributes over concatenation, so the survivors keep their relative order. |
| History.DeleteAbsentId | frontend/src/TranslationPlatform.jsx:359 | Deleting an id no entry carries changes nothing. |
| History.DeleteByIdIdempotent | frontend/src/TranslationPlatform.jsx:358-360 | Deleting the same id twice is the same as deleting it once. |
| History.DeleteUndoesPrepend | frontend/src/TranslationPlatform.jsx:359 | Deleting a freshly prepended entry whose id is new restores the previous history. |
| AuthForm.Gather | frontend/src/TranslationPlatform.jsx:114-171 | The error object has a key exactly for the fields with a message, and each key holds that field's message. |
| AuthForm.FormErrorsPerField | frontend/src/TranslationPlatform.jsx:113-174 | A field is in the form's errors exactly when its own check fails, and it carries that check's message. |
| AuthForm.LoginModeOnlyCredentials | frontend/src/TranslationPlatform.jsx:117-147 | In login mode, only the e-mail and password can carry errors. |
| AuthForm.NoErrorsIffAcceptable | frontend/src/TranslationPlatform.jsx:172-173 | The form is valid exactly when it is acceptable. The name, birth date, e-mail and password rules must hold for sign-up, and the e-mail and password rules for login. |
| AuthForm.NoErrorsIffNoFieldError | frontend/src/TranslationPlatform.jsx:172-173 | `Object.keys(errors).length === 0` holds exactly when no field check fails. |
| AuthForm.GatherEmptyIff | frontend/src/TranslationPlatform.jsx:172-173 | The gathered error object is empty exactly when every field has no message. |
| AuthForm.NameMessages | frontend/src/TranslationPlatform.jsx:117-123 | In sign-up mode, "Name is required" is given exactly for a whitespace-only name. "at least 3 characters" is given exactly for a non-blank name whose trimmed length is under 3. No message is given exactly when the trimmed length is at least 3. |
| AuthForm.BirthDateMessages | frontend/src/TranslationPlatform.jsx:126-147 | Each birth-date message matches its case: required for an empty field, invalid for an unparsable date, future for a date after today, and too young for an age under 13. No message is given exactly when none of these applies. |
| AuthForm.EmailMessages | frontend/src/TranslationPlatform.jsx:149-157 | "Email is required" is given exactly for a whitespace-only e-mail. "Enter a valid email address" is given exactly when the trimmed e-mail fails the pattern. No message is given exactly when the trimmed e-mail matches. |
| AuthForm.PasswordMessages | frontend/src/TranslationPlatform.jsx:159-170 | Each password message matches its case: required for empty, too short under 8 code units, and weak without both an ASCII letter and a digit. No message is given exactly when all three hold. |
| AuthForm.SignupFormAgreesWithServer | frontend/src/TranslationPlatform.jsx:187-198 | A sign-up form the page accepts, whose e-mail has no surrounding whitespace, passes every server check except the duplicate-e-mail rule. The server then reports at most "User already exists". |
| AuthForm.SignupFormFacts | frontend/src/TranslationPlatform.jsx:113-174 | An accepted sign-up form has all four fields present, a name of at least 3 units, a past birth date at least 13 years back, a matching trimmed e-mail, and a strong password. |
| AuthForm.PaddedEmailPassesPageOnly | frontend/src/TranslationPlatform.jsx:150-154 | The page accepts a valid e-mail preceded by a space, because it tests the trimmed text. The server rejects the same untrimmed text the page sends. |
| AuthForm.EmailShapeIsTrimmed | backend/server.js:43-44 | An address that matches the pattern has no surrounding whitespace, so trimming leaves it unchanged. |
| Platform.AddNameMessage | frontend/src/TranslationPlatform.jsx:117-123 | The name block adds exactly the name message, if any, and leaves the other fields' messages alone. |
| Platform.AddBirthDateMessage | frontend/src/TranslationPlatform.jsx:126-147 | The birth-date block adds exactly the birth-date message, if any, and leaves the rest alone. |
| Platform.AddEmailMessage | frontend/src/TranslationPlatform.jsx:149-157 | The e-mail block adds exactly the e-mail message, if any, and leaves the rest alone. |
| Platform.AddPasswordMessage | frontend/src/TranslationPlatform.jsx:159-170 | The password block adds exactly the password message, if any, and leaves the rest alone. |
| Platform.TranslationPlatform.constructor | frontend/src/TranslationPlatform.jsx:17-41 | The initial page is logged out with no token or history, languages `en` to `hi`, the demo credentials pre-filled, and no field errors. |
| Platform.TranslationPlatform.ValidateAuthForm | frontend/src/TranslationPlatform.jsx:113-174 | The stored field errors are the form's errors, and the result is true exactly when there are none. |
| Platform.TranslationPlatform.ApplySession | frontend/src/TranslationPlatform.jsx:215-219 | A successful authentication stores the token, e-mail, name and birth date, and marks the page logged in. |
| Platform.TranslationPlatform.HandleLogout | frontend/src/TranslationPlatform.jsx:233-243 | Logout clears the login flag, token and user fields, and restores the no-token-when-logged-out invariant. |
| Platform.TranslationPlatform.HandleTranslate | frontend/src/TranslationPlatform.jsx:246-306 | A request is sent exactly when the trimmed text is non-empty and a token is held, so never when logged out. A blank text changes nothing. A missing token only sets "Please login first to translate.". A sent request ends as the reply dictates. |
| Platform.TranslationPlatform.ReceiveReply | frontend/src/TranslationPlatform.jsx:270-305 | A 401 logs out and clears the token. An unreachable server sets "Backend not reachable". A translated answer replaces the translation and prepends a history entry, with the fallback warning when `success` is false. An empty one shows the server's error or "Translation failed". Loading always ends. |
| Platform.TranslationPlatform.SwapLanguages | frontend/src/TranslationPlatform.jsx:350-354 | The languages trade places, the translation becomes the source text, and the translation is cleared. |
| Platform.TranslationPlatform.HandleHistoryDelete | frontend/src/TranslationPlatform.jsx:358-360 | The history becomes the old history without the entries carrying that id. |
| Platform.TranslationPlatform.HandleClearAllHistory | frontend/src/TranslationPlatform.jsx:362-364 | The history becomes empty. |

## Left out

- JWT signing and verification: `jwt.sign` is not modelled. `jwt.verify` is the parameter `verify`, which returns the claims or nothing. Expiry is folded into that answer.
- Network calls: `fetch` to the providers, the page's calls to the backend, timeouts and `async` interleaving are not modelled. Each call's outcome is an input, and `consulted` counts the provider calls the route would make.
- Express wiring: CORS, JSON parsing, `app.listen`, the health route and HTTP headers beyond `Authorization`.
- Date handling: `new Date(...)` parsing and time zones are the parameter `parseDate`, and `new Date()` is the parameter `today`. Both are calendar dates, so `birth > now` is compared by day. The source compares instants. A birth date on the current day that parses to a moment later than now is in the future for the source: the server answers "Invalid birth date" and the page "Birth date cannot be in the future". The model reports that case as too young instead. An example is a date-only string read as UTC midnight while it is still the previous day in UTC.
- Browser state: `localStorage`, session restore on load (`frontend/src/TranslationPlatform.jsx:49-75`), speech recognition and synthesis, copying, and the JSX rendering.
- handleAuthSubmit: the parts other than validation and the session fields (`authLoading`, `authError`, building the request body) are not modelled, because they only drive the UI.
- History entries: the `Date.now()` id and the `toLocaleString()` timestamp are supplied values.
- Messages: the page's messages are modelled as the datatypes `AuthForm.Message` and `Platform.Notice`. `AuthForm.Text` and `Platform.NoticeText` give their exact strings.
- Server error field: `data.error` in a translate reply is taken to be a string, with absent treated as empty. The server's own field values (`name`, `email` in the body) are taken to be strings.
- Character encoding: strings are sequences of Unicode scalar values. `length` counts UTF-16 code units, but no encoding or normalisation is modelled.
