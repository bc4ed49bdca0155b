/** The browser-side checks: the email and password validators, the
    password-strength meter, the validation chains of the two submit
    handlers, and the expiry test that decides whether a stored token is
    still live. DOM effects are replaced by the value they display. */
module ClientValidation {
  import opened Wrappers
  import opened JsString

  // ---------------------------------------------------------------------
  // validateEmail: /^[^\s@]+@[^\s@]+\.[^\s@]+$/
  // ---------------------------------------------------------------------

  /** The character class `[^\s@]`. */
  predicate EmailChar(c: char) {
    !IsWhitespace(c) && c != '@'
  }

  predicate AllEmailChars(s: string) {
    forall k | 0 <= k < |s| :: EmailChar(s[k])
  }

  /** The regular expression read literally: three non-empty runs of
      `[^\s@]`, the first two separated by '@', the last two by '.'. */
  ghost predicate MatchesEmailRegex(s: string) {
    exists i, j | 0 < i && i + 1 < j && j + 1 < |s| ::
      && s[i] == '@' && s[j] == '.'
      && AllEmailChars(s[..i]) && AllEmailChars(s[i + 1..j]) && AllEmailChars(s[j + 1..])
  }

  /** Position of the first occurrence of `c` (`s.indexOf(c)`). */
  function IndexOf(s: string, c: char): (r: Option<nat>)
    ensures r.Some? ==> r.value < |s| && s[r.value] == c
    ensures r.Some? ==> forall m | 0 <= m < r.value :: s[m] != c
    ensures r.None? ==> forall m | 0 <= m < |s| :: s[m] != c
    decreases |s|
  {
    if |s| == 0 then None
    else if s[0] == c then Some(0)
    else match IndexOf(s[1..], c)
      case None => None
      case Some(k) => Some(k + 1)
  }

  /** A '.' that is neither the first nor the last character. */
  predicate HasInnerDot(d: string) {
    exists k | 0 < k < |d| - 1 :: d[k] == '.'
  }

  /** Index `i` holds the one and only '@' of `s`. */
  predicate OnlyAtSignAt(s: string, i: nat) {
    forall m | 0 <= m < |s| :: s[m] == '@' <==> m == i
  }

  /** `validateEmail`: split at the first '@', then check the two sides as
      the pattern does. */
  function ValidateEmail(s: string): (ok: bool)
    ensures ok <==>
              && NoWhitespace(s)
              && exists i | 0 < i < |s| :: OnlyAtSignAt(s, i) && HasInnerDot(s[i + 1..])
  {
    match IndexOf(s, '@')
    case None =>
      assert forall i | 0 <= i < |s| :: !OnlyAtSignAt(s, i) by {
        forall i | 0 <= i < |s| ensures !OnlyAtSignAt(s, i) {
          assert s[i] != '@';
        }
      }
      false
    case Some(i) =>
      var ok := 0 < i && AllEmailChars(s[..i]) && AllEmailChars(s[i + 1..]) && HasInnerDot(s[i + 1..]);
      EmailCharsAround(s, i);
      assert forall i' | 0 <= i' < |s| && OnlyAtSignAt(s, i') :: i' == i;
      ok
  }

  /** The two sides of index `i` are free of whitespace and '@' exactly
      when `i` is the only '@' and `s` has no whitespace. */
  lemma EmailCharsAround(s: string, i: nat)
    requires i < |s| && s[i] == '@'
    ensures AllEmailChars(s[..i]) && AllEmailChars(s[i + 1..]) <==> NoWhitespace(s) && OnlyAtSignAt(s, i)
  {
    AllEmailCharsSlice(s, 0, i);
    AllEmailCharsSlice(s, i + 1, |s|);
    assert s[i + 1..] == s[i + 1..|s|];
  }

  lemma AllEmailCharsSlice(s: string, a: nat, b: nat)
    requires a <= b <= |s|
    ensures AllEmailChars(s[a..b]) <==> forall m | a <= m < b :: EmailChar(s[m])
  {
    if forall m | a <= m < b :: EmailChar(s[m]) {
      forall k | 0 <= k < b - a ensures EmailChar(s[a..b][k]) {
        assert s[a..b][k] == s[a + k];
      }
    }
    if AllEmailChars(s[a..b]) {
      forall m | a <= m < b ensures EmailChar(s[m]) {
        assert s[m] == s[a..b][m - a];
      }
    }
  }

  /** The structural validator accepts exactly the strings the regular expression matches. */
  lemma ValidateEmailMatchesRegex(s: string)
    ensures ValidateEmail(s) <==> MatchesEmailRegex(s)
  {
    if ValidateEmail(s) {
      ValidEmailMatches(s);
    }
    if MatchesEmailRegex(s) {
      var i, j :| 0 < i && i + 1 < j && j + 1 < |s|
                  && s[i] == '@' && s[j] == '.'
                  && AllEmailChars(s[..i]) && AllEmailChars(s[i + 1..j]) && AllEmailChars(s[j + 1..]);
      RegexMatchIsValid(s, i, j);
    }
  }

  lemma ValidEmailMatches(s: string)
    requires ValidateEmail(s)
    ensures MatchesEmailRegex(s)
  {
    var i :| 0 < i < |s| && OnlyAtSignAt(s, i) && HasInnerDot(s[i + 1..]);
    var d := s[i + 1..];
    var k :| 0 < k < |d| - 1 && d[k] == '.';
    var j := i + 1 + k;
    assert s[j] == '.' by { assert s[j] == d[k]; }
    EmailCharsAround(s, i);
    assert AllEmailChars(s[..i]);
    assert forall m | i + 1 <= m < |s| :: EmailChar(s[m]) by {
      AllEmailCharsSlice(s, i + 1, |s|);
      assert s[i + 1..] == s[i + 1..|s|];
    }
    AllEmailCharsSlice(s, i + 1, j);
    AllEmailCharsSlice(s, j + 1, |s|);
    assert s[j + 1..] == s[j + 1..|s|];
    assert AllEmailChars(s[i + 1..j]) && AllEmailChars(s[j + 1..]);
  }

  lemma RegexMatchIsValid(s: string, i: nat, j: nat)
    requires 0 < i && i + 1 < j && j + 1 < |s|
    requires s[i] == '@' && s[j] == '.'
    requires AllEmailChars(s[..i]) && AllEmailChars(s[i + 1..j]) && AllEmailChars(s[j + 1..])
    ensures ValidateEmail(s)
  {
    assert forall m | i + 1 <= m < |s| :: EmailChar(s[m]) by {
      AllEmailCharsSlice(s, i + 1, j);
      AllEmailCharsSlice(s, j + 1, |s|);
      assert s[j + 1..] == s[j + 1..|s|];
    }
    assert AllEmailChars(s[i + 1..]) by {
      AllEmailCharsSlice(s, i + 1, |s|);
      assert s[i + 1..] == s[i + 1..|s|];
    }
    EmailCharsAround(s, i);
    var d := s[i + 1..];
    assert d[j - i - 1] == '.';
    assert HasInnerDot(d);
  }

  // ---------------------------------------------------------------------
  // validatePassword
  // ---------------------------------------------------------------------

  /** Minimum `.length` of a password; the server enforces the same bound. */
  const MinPasswordLength: nat := 6

  /** `validatePassword`: at least six UTF-16 code units. */
  function ValidatePassword(p: string): (ok: bool)
    ensures ok ==> |p| >= MinPasswordLength / 2
    ensures |p| >= MinPasswordLength ==> ok
  {
    Utf16Length(p) >= MinPasswordLength
  }

  /** For text inside the Basic Multilingual Plane the bound is six characters. */
  lemma ValidatePasswordBmp(p: string)
    requires forall k | 0 <= k < |p| :: p[k] as int <= 0xFFFF
    ensures ValidatePassword(p) <==> |p| >= 6
  {
    Utf16LengthOfBmp(p);
  }

  // ---------------------------------------------------------------------
  // Password strength meter
  // ---------------------------------------------------------------------

  predicate HasAsciiLower(s: string) { exists k | 0 <= k < |s| :: 'a' <= s[k] <= 'z' }
  predicate HasAsciiUpper(s: string) { exists k | 0 <= k < |s| :: 'A' <= s[k] <= 'Z' }
  predicate HasAsciiDigit(s: string) { exists k | 0 <= k < |s| :: '0' <= s[k] <= '9' }

  /** The four criteria of the meter, in the order the meter checks them. */
  function Criteria(p: string): seq<bool> {
    [Utf16Length(p) >= 8, HasAsciiLower(p), HasAsciiUpper(p), HasAsciiDigit(p)]
  }

  function CountTrue(bs: seq<bool>): (n: nat)
    ensures n <= |bs|
  {
    if |bs| == 0 then 0 else (if bs[0] then 1 else 0) + CountTrue(bs[1..])
  }

  /** The `strength` accumulated in `updatePasswordStrength`: 25 per criterion met. */
  function StrengthScore(p: string): (score: nat)
    ensures score == 25 * CountTrue(Criteria(p))
    ensures score in {0, 25, 50, 75, 100}
  {
    var cs := Criteria(p);
    assert CountTrue(cs[3..]) == if cs[3] then 1 else 0;
    assert CountTrue(cs[2..]) == (if cs[2] then 1 else 0) + CountTrue(cs[2..][1..]);
    assert cs[2..][1..] == cs[3..] && cs[1..][1..] == cs[2..] && cs[0..][1..] == cs[1..];
    var strength := 0;
    var strength := if Utf16Length(p) >= 8 then strength + 25 else strength;
    var strength := if HasAsciiLower(p) then strength + 25 else strength;
    var strength := if HasAsciiUpper(p) then strength + 25 else strength;
    var strength := if HasAsciiDigit(p) then strength + 25 else strength;
    strength
  }

  datatype StrengthLevel = Weak | Medium | Strong

  /** The label and bar colour chosen for a score. */
  function StrengthIndicator(score: int): (r: (StrengthLevel, string))
    ensures r.0 == Strong <==> score >= 75
    ensures r.0 == Medium <==> 50 <= score < 75
    ensures r.0 == Weak <==> score < 50
  {
    if score >= 75 then (Strong, "#48bb78")
    else if score >= 50 then (Medium, "#ed8936")
    else (Weak, "#667eea")
  }

  function Rank(l: StrengthLevel): nat {
    match l
    case Weak => 0
    case Medium => 1
    case Strong => 2
  }

  /** A password is labelled Strong when it meets at least three of the four
      criteria, Medium when it meets exactly two, Weak otherwise. */
  lemma LevelByCriteria(p: string)
    ensures var level := StrengthIndicator(StrengthScore(p)).0;
            && (level == Strong <==> CountTrue(Criteria(p)) >= 3)
            && (level == Medium <==> CountTrue(Criteria(p)) == 2)
            && (level == Weak <==> CountTrue(Criteria(p)) <= 1)
  {
  }

  lemma InsertKeepsWitness(a: string, c: char, b: string, lo: char, hi: char)
    requires exists k | 0 <= k < |a + b| :: lo <= (a + b)[k] <= hi
    ensures exists k | 0 <= k < |a + [c] + b| :: lo <= (a + [c] + b)[k] <= hi
  {
    var k :| 0 <= k < |a + b| && lo <= (a + b)[k] <= hi;
    if k < |a| {
      assert (a + [c] + b)[k] == (a + b)[k];
    } else {
      assert (a + [c] + b)[k + 1] == (a + b)[k];
    }
  }

  /** Typing a character anywhere in the password never lowers the score. */
  lemma InsertNeverLowersScore(a: string, c: char, b: string)
    ensures StrengthScore(a + [c] + b) >= StrengthScore(a + b)
  {
    var p, q := a + b, a + [c] + b;
    Utf16LengthInsert(a, c, b);
    if HasAsciiLower(p) { InsertKeepsWitness(a, c, b, 'a', 'z'); }
    if HasAsciiUpper(p) { InsertKeepsWitness(a, c, b, 'A', 'Z'); }
    if HasAsciiDigit(p) { InsertKeepsWitness(a, c, b, '0', '9'); }
  }

  /** Nor does it lower the label. */
  lemma InsertNeverLowersLevel(a: string, c: char, b: string)
    ensures Rank(StrengthIndicator(StrengthScore(a + [c] + b)).0) >= Rank(StrengthIndicator(StrengthScore(a + b)).0)
  {
    InsertNeverLowersScore(a, c, b);
  }

  // ---------------------------------------------------------------------
  // Submit handlers
  // ---------------------------------------------------------------------

  const MsgFillAllFields := "Please fill in all fields"
  const MsgInvalidEmail := "Please enter a valid email address"
  const MsgShortPassword := "Password must be at least 6 characters long"
  const MsgPasswordsDiffer := "Passwords do not match"

  /** What a submit handler does: show an error and stop, or post a body. */
  datatype FormOutcome<B> = ShowError(message: string) | Submit(body: B)

  datatype SignInBody = SignInBody(email: string, password: string)
  datatype SignUpBody = SignUpBody(name: string, email: string, password: string)

  /** The sign-in submit handler: trims the email (not the password), then
      checks for empty fields before the email format. */
  function SignInForm(emailInput: string, password: string): (out: FormOutcome<SignInBody>)
    ensures Trim(emailInput) == [] || password == [] ==> out == ShowError(MsgFillAllFields)
    ensures out.Submit? <==> ValidateEmail(Trim(emailInput)) && password != []
    ensures out.Submit? ==> out.body == SignInBody(Trim(emailInput), password)
    ensures out.ShowError? ==> out.message in {MsgFillAllFields, MsgInvalidEmail}
    ensures Trim(emailInput) != [] && password != [] && !ValidateEmail(Trim(emailInput)) ==>
              out == ShowError(MsgInvalidEmail)
  {
    var email := Trim(emailInput);
    if email == [] || password == [] then ShowError(MsgFillAllFields)
    else if !ValidateEmail(email) then ShowError(MsgInvalidEmail)
    else Submit(SignInBody(email, password))
  }

  /** The sign-up submit handler: trims name and email (not the passwords),
      then reports the first of: an empty field, a malformed email, a short
      password, a confirmation that differs. */
  function SignUpForm(nameInput: string, emailInput: string, password: string, confirm: string): (out: FormOutcome<SignUpBody>)
    ensures out.Submit? <==>
              Trim(nameInput) != [] && ValidateEmail(Trim(emailInput)) && ValidatePassword(password) && password == confirm
    ensures out.Submit? ==> out.body == SignUpBody(Trim(nameInput), Trim(emailInput), password)
  {
    var name := Trim(nameInput);
    var email := Trim(emailInput);
    if name == [] || email == [] || password == [] || confirm == [] then ShowError(MsgFillAllFields)
    else if !ValidateEmail(email) then ShowError(MsgInvalidEmail)
    else if !ValidatePassword(password) then ShowError(MsgShortPassword)
    else if password != confirm then ShowError(MsgPasswordsDiffer)
    else Submit(SignUpBody(name, email, password))
  }

  /** A whitespace-only name or email counts as an empty field, and that is
      reported before anything else. */
  lemma BlankFieldReportedFirst(nameInput: string, emailInput: string, password: string, confirm: string)
    requires AllWhitespace(nameInput) || AllWhitespace(emailInput) || password == [] || confirm == []
    ensures SignUpForm(nameInput, emailInput, password, confirm) == ShowError(MsgFillAllFields)
  {
  }

  /** A malformed email is reported exactly when no field is blank and the
      trimmed email fails `validateEmail`, so before any password check. */
  lemma MalformedEmailReportedSecond(nameInput: string, emailInput: string, password: string, confirm: string)
    ensures SignUpForm(nameInput, emailInput, password, confirm) == ShowError(MsgInvalidEmail) <==>
              && Trim(nameInput) != [] && Trim(emailInput) != [] && password != [] && confirm != []
              && !ValidateEmail(Trim(emailInput))
  {
  }

  /** A short password is reported exactly when no field is blank and the
      email is well formed, so before the confirmation is compared. */
  lemma ShortPasswordReportedThird(nameInput: string, emailInput: string, password: string, confirm: string)
    ensures SignUpForm(nameInput, emailInput, password, confirm) == ShowError(MsgShortPassword) <==>
              && Trim(nameInput) != [] && Trim(emailInput) != [] && password != [] && confirm != []
              && ValidateEmail(Trim(emailInput)) && !ValidatePassword(password)
  {
  }

  /** A mismatched confirmation is reported only once every other check passed. */
  lemma MismatchReportedLast(nameInput: string, emailInput: string, password: string, confirm: string)
    ensures SignUpForm(nameInput, emailInput, password, confirm) == ShowError(MsgPasswordsDiffer) <==>
              && Trim(nameInput) != [] && confirm != []
              && ValidateEmail(Trim(emailInput)) && ValidatePassword(password) && password != confirm
  {
  }

  // ---------------------------------------------------------------------
  // checkAuth
  // ---------------------------------------------------------------------

  /** What `JSON.parse(atob(token.split('.')[1]))` gave: a parse failure, or
      a payload whose `exp` claim may be absent. */
  datatype StoredPayload = Unreadable | Payload(exp: Option<int>)

  datatype AuthCheck = StayOnPage | RedirectToDashboard | ClearStoredSession

  /** `payload.exp > now` with `now = Date.now() / 1000`, a fractional number of seconds. */
  predicate IsLive(exp: int, nowMillis: int) {
    exp as real > nowMillis as real / 1000.0
  }

  /** Liveness in whole milliseconds: the token is live strictly before `exp` seconds. */
  lemma IsLiveMillis(exp: int, nowMillis: int)
    ensures IsLive(exp, nowMillis) <==> nowMillis < exp * 1000
  {
  }

  function CheckAuth(token: Option<string>, payload: StoredPayload, nowMillis: int): (a: AuthCheck)
    ensures a == RedirectToDashboard <==>
              token.Some? && token.value != [] && payload.Payload? && payload.exp.Some? && nowMillis < payload.exp.value * 1000
    ensures a == ClearStoredSession <==> token.Some? && token.value != [] && payload.Unreadable?
  {
    IsLiveMillisAll();
    if token.None? || token.value == [] then StayOnPage
    else match payload
      case Unreadable => ClearStoredSession
      case Payload(exp) =>
        if exp.Some? && IsLive(exp.value, nowMillis) then RedirectToDashboard else StayOnPage
  }

  lemma IsLiveMillisAll()
    ensures forall exp: int, ms: int {:trigger IsLive(exp, ms)} :: IsLive(exp, ms) <==> ms < exp * 1000
  {
    forall exp: int, ms: int ensures IsLive(exp, ms) <==> ms < exp * 1000 {
      IsLiveMillis(exp, ms);
    }
  }

  /** The comparison is strict: at the very millisecond of `exp` the token is no longer live. */
  lemma ExpiryIsStrict(exp: int)
    ensures !IsLive(exp, exp * 1000)
    ensures IsLive(exp, exp * 1000 - 1)
  {
    IsLiveMillis(exp, exp * 1000);
    IsLiveMillis(exp, exp * 1000 - 1);
  }
}
