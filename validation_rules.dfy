/**
 * The input rules that the server (backend/server.js) and the sign-in form
 * (frontend/src/TranslationPlatform.jsx) both apply: the e-mail pattern
 * `^[^\s@]+@[^\s@]+\.[^\s@]+$`, the password classes `[A-Za-z]` and `[0-9]`,
 * and the whole-years age computed from calendar dates.
 */
module ValidationRules {
  import opened JsStrings

  // ---------------------------------------------------------------- e-mail

  /** One `[^\s@]+` run of the e-mail pattern. */
  predicate EmailAtom(s: string) {
    s != [] && NoWhiteSpace(s) && '@' !in s
  }

  /** What `/^[^\s@]+@[^\s@]+\.[^\s@]+$/.test(s)` means: `s` splits as
      local `@` host `.` rest, each part a non-empty run free of whitespace and `@`. */
  ghost predicate MatchesEmailRegex(s: string) {
    exists a, d :: 0 <= a < d < |s| && s[a] == '@' && s[d] == '.'
      && EmailAtom(s[..a]) && EmailAtom(s[a + 1..d]) && EmailAtom(s[d + 1..])
  }

  /** An executable reformulation of the e-mail pattern, proved equal to it by
      `EmailShapeIsRegex`: exactly one `@` with a non-empty local part, no
      whitespace, and a `.` in the domain that is neither its first nor its
      last character. */
  predicate EmailShape(s: string) {
    var parts := Split(s, '@');
    |parts| == 2 && parts[0] != [] && NoWhiteSpace(s)
    && |parts[1]| >= 3 && '.' in parts[1][1..|parts[1]| - 1]
  }

  lemma EmailShapeIsRegex(s: string)
    ensures EmailShape(s) <==> MatchesEmailRegex(s)
  {
    if EmailShape(s) {
      ShapeGivesRegex(s);
    }
    if MatchesEmailRegex(s) {
      RegexGivesShape(s);
    }
  }

  lemma ShapeGivesRegex(s: string)
    requires EmailShape(s)
    ensures MatchesEmailRegex(s)
  {
    var parts := Split(s, '@');
    SplitJoinRoundTrip(s, '@');
    SplitFieldsFree(s, '@');
    var local, dom := parts[0], parts[1];
    assert parts == [local, dom];
    assert '@' !in local && '@' !in dom;
    assert s == local + ['@'] + dom;
    var inner := dom[1..|dom| - 1];
    var k' :| 0 <= k' < |inner| && inner[k'] == '.';
    var k := k' + 1;
    var host, rest := dom[..k], dom[k + 1..];
    assert dom == host + ['.'] + rest;
    UnglueNoWhiteSpace(local, '@', dom);
    UnglueNoWhiteSpace(host, '.', rest);
    AssembledRegex(local, host, rest);
  }

  lemma RegexGivesShape(s: string)
    requires MatchesEmailRegex(s)
    ensures EmailShape(s)
  {
    var a, d :| 0 <= a < d < |s| && s[a] == '@' && s[d] == '.'
      && EmailAtom(s[..a]) && EmailAtom(s[a + 1..d]) && EmailAtom(s[d + 1..]);
    SliceAtSeparators(s, a, d);
    AssembledShape(s[..a], s[a + 1..d], s[d + 1..]);
  }

  lemma SliceAtSeparators(s: string, a: int, d: int)
    requires 0 <= a < d < |s| && s[a] == '@' && s[d] == '.'
    ensures s == s[..a] + ['@'] + (s[a + 1..d] + ['.'] + s[d + 1..])
  {
    assert s[a..] == ['@'] + s[a + 1..];
    assert s[a + 1..] == s[a + 1..d] + ['.'] + s[d + 1..];
    assert s == s[..a] + s[a..];
  }

  /** `local@host.rest` built from three atoms matches the pattern. */
  lemma AssembledRegex(local: string, host: string, rest: string)
    requires EmailAtom(local) && EmailAtom(host) && EmailAtom(rest)
    ensures MatchesEmailRegex(local + ['@'] + (host + ['.'] + rest))
  {
    var s := local + ['@'] + (host + ['.'] + rest);
    var a := |local|;
    var d := a + 1 + |host|;
    assert s[..a] == local && s[a + 1..d] == host && s[d + 1..] == rest;
    assert s[a] == '@' && s[d] == '.';
  }

  /** `local@host.rest` built from three atoms passes the application's test. */
  lemma AssembledShape(local: string, host: string, rest: string)
    requires EmailAtom(local) && EmailAtom(host) && EmailAtom(rest)
    ensures EmailShape(local + ['@'] + (host + ['.'] + rest))
  {
    var dom := host + ['.'] + rest;
    DomainFacts(host, rest);
    GlueNoWhiteSpace(local, '@', dom);
    SplitAfterPrefix(local, '@', dom);
    SplitWithoutSeparator(dom, '@');
  }

  /** A domain `host.rest` of two atoms has no whitespace and no `@`, and its
      dot lies strictly inside it. */
  lemma DomainFacts(host: string, rest: string)
    requires EmailAtom(host) && EmailAtom(rest)
    ensures var dom := host + ['.'] + rest;
      && NoWhiteSpace(dom) && '@' !in dom
      && |dom| >= 3 && '.' in dom[1..|dom| - 1]
  {
    var dom := host + ['.'] + rest;
    GlueFree(host, '.', rest);
    assert dom[1..|dom| - 1][|host| - 1] == '.';
  }

  /** Two `[^\s@]` runs glued by a character other than `@` and whitespace stay free of both. */
  lemma GlueFree(x: string, c: char, y: string)
    requires EmailAtom(x) && EmailAtom(y) && c != '@' && !IsJsWhiteSpace(c)
    ensures NoWhiteSpace(x + [c] + y) && '@' !in x + [c] + y
  {
    GlueNoWhiteSpace(x, c, y);
    assert forall i :: 0 <= i < |x + [c] + y| ==> (x + [c] + y)[i] != '@' by {
      forall i | 0 <= i < |x + [c] + y|
        ensures (x + [c] + y)[i] != '@'
      {
        if i < |x| {
          assert (x + [c] + y)[i] == x[i];
        } else if i > |x| {
          assert (x + [c] + y)[i] == y[i - |x| - 1];
        }
      }
    }
  }

  lemma UnglueNoWhiteSpace(x: string, c: char, y: string)
    requires NoWhiteSpace(x + [c] + y)
    ensures NoWhiteSpace(x) && NoWhiteSpace(y)
  {
    forall i | 0 <= i < |x|
      ensures !IsJsWhiteSpace(x[i])
    {
      assert (x + [c] + y)[i] == x[i];
    }
    forall i | 0 <= i < |y|
      ensures !IsJsWhiteSpace(y[i])
    {
      assert (x + [c] + y)[|x| + 1 + i] == y[i];
    }
  }

  lemma GlueNoWhiteSpace(x: string, c: char, y: string)
    requires NoWhiteSpace(x) && NoWhiteSpace(y) && !IsJsWhiteSpace(c)
    ensures NoWhiteSpace(x + [c] + y)
  {
    forall i | 0 <= i < |x + [c] + y|
      ensures !IsJsWhiteSpace((x + [c] + y)[i])
    {
      if i < |x| {
        assert (x + [c] + y)[i] == x[i];
      } else if i > |x| {
        assert (x + [c] + y)[i] == y[i - |x| - 1];
      }
    }
  }

  // ---------------------------------------------------------------- password

  /** `[A-Za-z]` */
  predicate IsAsciiLetter(c: char) {
    ('A' <= c <= 'Z') || ('a' <= c <= 'z')
  }

  /** `[0-9]` */
  predicate IsAsciiDigit(c: char) {
    '0' <= c <= '9'
  }

  /** `/[A-Za-z]/.test(s)` */
  predicate HasAsciiLetter(s: string) {
    exists i :: 0 <= i < |s| && IsAsciiLetter(s[i])
  }

  /** `/[0-9]/.test(s)` */
  predicate HasAsciiDigit(s: string) {
    exists i :: 0 <= i < |s| && IsAsciiDigit(s[i])
  }

  const MinPasswordLength := 8
  const MinNameLength := 3
  const MinAge := 13

  // ---------------------------------------------------------------- dates

  /** A calendar date as read through `getFullYear`, `getMonth` and `getDate`. */
  datatype Date = Date(year: int, month: int, day: int)

  /** `a > b` on dates: later year, else later month, else later day. */
  predicate After(a: Date, b: Date) {
    a.year > b.year
    || (a.year == b.year && (a.month > b.month || (a.month == b.month && a.day > b.day)))
  }

  /** Age in whole years on `now`: year difference, less one while this year's
      birthday (month, day) has not been reached. */
  function AgeOn(birth: Date, now: Date): int {
    var age := now.year - birth.year;
    var m := now.month - birth.month;
    if m < 0 || (m == 0 && now.day < birth.day) then age - 1 else age
  }

  /** The `k`-th birthday. */
  function Anniversary(birth: Date, k: int): Date {
    Date(birth.year + k, birth.month, birth.day)
  }

  /** The age is the number of birthdays reached: the `AgeOn`-th birthday is
      on or before `now`, the next one is after it. */
  lemma AgeIsWholeYears(birth: Date, now: Date)
    ensures !After(Anniversary(birth, AgeOn(birth, now)), now)
    ensures After(Anniversary(birth, AgeOn(birth, now) + 1), now)
  {
  }

  /** Being at least `k` years old means the `k`-th birthday has come. */
  lemma AgeAtLeastIffBirthdayReached(birth: Date, now: Date, k: int)
    ensures AgeOn(birth, now) >= k <==> !After(Anniversary(birth, k), now)
  {
  }
}
