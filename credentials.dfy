/** The credential policy of the user administration panel: `validate_login`
    and `validate_password`, each returning a `(valid, message)` pair. */
module Credentials {
  import opened Outcomes
  import opened Patterns

  const MIN_LOGIN_LENGTH: nat := 5
  const MIN_PASSWORD_LENGTH: nat := 8
  const MAX_PASSWORD_LENGTH: nat := 128

  datatype LoginError = EmptyLogin | InvalidLoginFormat

  datatype PasswordError =
    | EmptyPassword
    | InvalidLength
    | MissingUppercase
    | MissingLowercase
    | MissingDigit
    | ContainsWhitespace
    | InvalidCharacters

  /** Python's `not v` for a form value: true for a missing field and for "". */
  predicate IsBlank(v: Option<string>)
    ensures !IsBlank(v) ==> v.Some? && |v.value| >= 1
  {
    v.None? || v.value == ""
  }

  /** The text of a form value, a missing field read as "". */
  function Text(v: Option<string>): (s: string)
    ensures s == "" <==> IsBlank(v)
  {
    if v.None? then "" else v.value
  }

  // ---------------------------------------------------------------------------
  // validate_login

  /** `validate_login`: a blank login is refused first; otherwise the login must
      match `^[a-zA-Z0-9]{5,}$`. */
  function ValidateLogin(login: Option<string>): (r: Outcome<LoginError>)
    ensures r == Fail(EmptyLogin) <==> IsBlank(login)
    ensures r.Pass? ==> login.Some? && |login.value| >= MIN_LOGIN_LENGTH
  {
    if IsBlank(login) then Fail(EmptyLogin)
    else if !FullMatch(login.value, LoginChar, MIN_LOGIN_LENGTH) then Fail(InvalidLoginFormat)
    else Pass
  }

  /** A well-formed login: five or more ASCII letters and digits, optionally
      followed by the one newline that Python's `$` lets through. */
  predicate IsWellFormedLogin(s: string) {
    || (|s| >= MIN_LOGIN_LENGTH && AllIn(s, LoginChar))
    || (|s| >= MIN_LOGIN_LENGTH + 1 && s[|s| - 1] == '\n' && AllIn(s[..|s| - 1], LoginChar))
  }

  /** Exactly which outcome `validate_login` gives: blank logins are refused as
      empty whatever else holds, and a non-blank login is accepted exactly when
      it is well formed. */
  lemma LoginOutcomes(login: Option<string>)
    ensures ValidateLogin(login) == Fail(EmptyLogin) <==> IsBlank(login)
    ensures ValidateLogin(login) == Pass <==> !IsBlank(login) && IsWellFormedLogin(login.value)
    ensures ValidateLogin(login) == Fail(InvalidLoginFormat) <==> !IsBlank(login) && !IsWellFormedLogin(login.value)
  {
    if !IsBlank(login) {
      MatchedClassesExcludeNewline();
      FullMatchCases(login.value, LoginChar, MIN_LOGIN_LENGTH);
    }
  }

  /** For a login without a newline, acceptance means: at least five
      characters, every one an ASCII letter or digit. */
  lemma LoginWithoutNewline(s: string)
    requires forall i :: 0 <= i < |s| ==> s[i] != '\n'
    ensures ValidateLogin(Some(s)) == Pass <==> |s| >= MIN_LOGIN_LENGTH && AllIn(s, LoginChar)
  {
    LoginOutcomes(Some(s));
  }

  // ---------------------------------------------------------------------------
  // validate_password

  /** `validate_password`: seven checks in a fixed order; the first that fails
      decides the reason. */
  function ValidatePassword(password: Option<string>): (r: Outcome<PasswordError>)
    ensures r == Fail(EmptyPassword) <==> IsBlank(password)
    ensures r.Pass? ==> password.Some? && MIN_PASSWORD_LENGTH <= |password.value| <= MAX_PASSWORD_LENGTH
    ensures r.Pass? ==> HasAny(password.value, AsciiUpper) && HasAny(password.value, AsciiLower)
    ensures r.Pass? ==> HasAny(password.value, AsciiDigit) && !HasAny(password.value, Whitespace)
  {
    if IsBlank(password) then Fail(EmptyPassword)
    else
      var p := password.value;
      if |p| < MIN_PASSWORD_LENGTH || |p| > MAX_PASSWORD_LENGTH then Fail(InvalidLength)
      else if Search(p, AsciiUpper).None? then Fail(MissingUppercase)
      else if Search(p, AsciiLower).None? then Fail(MissingLowercase)
      else if Search(p, AsciiDigit).None? then Fail(MissingDigit)
      else if Search(p, Whitespace).Some? then Fail(ContainsWhitespace)
      else if !FullMatch(p, PasswordChar, 1) then Fail(InvalidCharacters)
      else Pass
  }

  /** The password rules in the order they are checked, each named by the
      reason reported when it is the first one broken. */
  const PASSWORD_RULES: seq<PasswordError> := [
    EmptyPassword, InvalidLength, MissingUppercase, MissingLowercase,
    MissingDigit, ContainsWhitespace, InvalidCharacters
  ]

  /** `p` keeps the rule whose violation is reported as `rule`, stated
      directly over the characters of `p`, without regular expressions. */
  predicate Obeys(p: string, rule: PasswordError) {
    match rule
    case EmptyPassword => p != ""
    case InvalidLength => MIN_PASSWORD_LENGTH <= |p| <= MAX_PASSWORD_LENGTH
    case MissingUppercase => HasAny(p, AsciiUpper)
    case MissingLowercase => HasAny(p, AsciiLower)
    case MissingDigit => HasAny(p, AsciiDigit)
    case ContainsWhitespace => !HasAny(p, Whitespace)
    case InvalidCharacters => AllIn(p, PasswordChar)
  }

  /** `p` keeps the first `k` rules. */
  predicate ObeysFirst(p: string, k: nat)
    requires k <= |PASSWORD_RULES|
  {
    forall j :: 0 <= j < k ==> Obeys(p, PASSWORD_RULES[j])
  }

  /** Each reason appears exactly once in the rule order. */
  lemma RulesAreDistinct()
    ensures forall i, j :: 0 <= i < j < |PASSWORD_RULES| ==> PASSWORD_RULES[i] != PASSWORD_RULES[j]
    ensures forall e: PasswordError :: e in PASSWORD_RULES
  {
    forall e: PasswordError ensures e in PASSWORD_RULES {
      match e
      case EmptyPassword => assert PASSWORD_RULES[0] == e;
      case InvalidLength => assert PASSWORD_RULES[1] == e;
      case MissingUppercase => assert PASSWORD_RULES[2] == e;
      case MissingLowercase => assert PASSWORD_RULES[3] == e;
      case MissingDigit => assert PASSWORD_RULES[4] == e;
      case ContainsWhitespace => assert PASSWORD_RULES[5] == e;
      case InvalidCharacters => assert PASSWORD_RULES[6] == e;
    }
  }

  /** The position of a reason in the rule order. */
  function Rank(e: PasswordError): (k: nat)
    ensures k < |PASSWORD_RULES| && PASSWORD_RULES[k] == e
    ensures forall j :: 0 <= j < |PASSWORD_RULES| && PASSWORD_RULES[j] == e ==> j == k
  {
    RulesAreDistinct();
    match e
    case EmptyPassword => 0
    case InvalidLength => 1
    case MissingUppercase => 2
    case MissingLowercase => 3
    case MissingDigit => 4
    case ContainsWhitespace => 5
    case InvalidCharacters => 6
  }

  /** The regex test of the last check agrees with the "every character
      allowed" rule on every password that reaches it: the newline that `$`
      would let through has already been refused as whitespace. */
  lemma CharsetCheckAfterWhitespace(p: string)
    requires !HasAny(p, Whitespace)
    ensures FullMatch(p, PasswordChar, 1) <==> |p| >= 1 && AllIn(p, PasswordChar)
  {
    MatchedClassesExcludeNewline();
    forall i | 0 <= i < |p| ensures p[i] != '\n' {
      assert !Whitespace.Contains(p[i]);
    }
    FullMatchWithoutNewline(p, PasswordChar, 1);
  }

  /** The first broken rule decides: `validate_password` reports the `k`-th
      reason exactly when the password keeps every earlier rule and breaks
      the `k`-th. */
  lemma FirstBrokenRuleDecides(password: Option<string>, k: nat)
    requires k < |PASSWORD_RULES|
    ensures ValidatePassword(password) == Fail(PASSWORD_RULES[k]) <==>
      ObeysFirst(Text(password), k) && !Obeys(Text(password), PASSWORD_RULES[k])
  {
    var p := Text(password);
    if !HasAny(p, Whitespace) {
      CharsetCheckAfterWhitespace(p);
    }
    assert ObeysFirst(p, k) <==> forall j :: 0 <= j < k ==> Obeys(p, PASSWORD_RULES[j]);
    if k >= 1 { assert PASSWORD_RULES[0] == EmptyPassword; }
    if k >= 2 { assert PASSWORD_RULES[1] == InvalidLength; }
    if k >= 3 { assert PASSWORD_RULES[2] == MissingUppercase; }
    if k >= 4 { assert PASSWORD_RULES[3] == MissingLowercase; }
    if k >= 5 { assert PASSWORD_RULES[4] == MissingDigit; }
    if k >= 6 { assert PASSWORD_RULES[5] == ContainsWhitespace; }
  }

  /** The same, reason by reason: `validate_password` refuses for `e` exactly
      when the password keeps every rule checked before `e` and breaks `e`. */
  lemma ReasonDecides(password: Option<string>, e: PasswordError)
    ensures ValidatePassword(password) == Fail(e) <==>
      ObeysFirst(Text(password), Rank(e)) && !Obeys(Text(password), e)
  {
    FirstBrokenRuleDecides(password, Rank(e));
  }

  /** A password is accepted exactly when it keeps all seven rules. */
  lemma AcceptedIffAllRules(password: Option<string>)
    ensures ValidatePassword(password) == Pass <==> ObeysFirst(Text(password), |PASSWORD_RULES|)
  {
    var p := Text(password);
    if !HasAny(p, Whitespace) {
      CharsetCheckAfterWhitespace(p);
    }
    if ObeysFirst(p, |PASSWORD_RULES|) {
      assert Obeys(p, PASSWORD_RULES[0]) && Obeys(p, PASSWORD_RULES[1]) && Obeys(p, PASSWORD_RULES[2]);
      assert Obeys(p, PASSWORD_RULES[3]) && Obeys(p, PASSWORD_RULES[4]) && Obeys(p, PASSWORD_RULES[5]);
      assert Obeys(p, PASSWORD_RULES[6]);
    }
  }

  /** What an accepted password is known to have. */
  lemma AcceptedPasswordShape(password: Option<string>)
    requires ValidatePassword(password) == Pass
    ensures password.Some?
    ensures MIN_PASSWORD_LENGTH <= |password.value| <= MAX_PASSWORD_LENGTH
    ensures HasAny(password.value, AsciiUpper)
    ensures HasAny(password.value, AsciiLower)
    ensures HasAny(password.value, AsciiDigit)
    ensures !HasAny(password.value, Whitespace)
    ensures AllIn(password.value, PasswordChar)
  {
    AcceptedIffAllRules(password);
    assert Obeys(Text(password), PASSWORD_RULES[6]);
  }

  /** The length check comes before every content check: a non-blank password
      shorter than 8 or longer than 128 characters gets the length reason,
      whatever characters it holds. */
  lemma LengthDecidesBeforeContent(p: string)
    requires p != ""
    requires |p| < MIN_PASSWORD_LENGTH || |p| > MAX_PASSWORD_LENGTH
    ensures ValidatePassword(Some(p)) == Fail(InvalidLength)
  {
  }

  /** Whitespace is reported before the allowed-set check: a password holding
      a space (or any other `\s` character) is never refused for invalid
      characters. */
  lemma WhitespaceIsNeverInvalidCharacters(password: Option<string>)
    requires HasAny(Text(password), Whitespace)
    ensures ValidatePassword(password) != Fail(InvalidCharacters)
  {
    FirstBrokenRuleDecides(password, 6);
    assert !Obeys(Text(password), PASSWORD_RULES[5]);
  }

  /** The first six checks passed and one character lies outside the allowed
      set: the reason is InvalidCharacters. */
  lemma ForeignCharacterIsInvalid(p: string, i: nat)
    requires ObeysFirst(p, 6)
    requires i < |p| && !PasswordChar.Contains(p[i])
    ensures ValidatePassword(Some(p)) == Fail(InvalidCharacters)
  {
    FirstBrokenRuleDecides(Some(p), 6);
  }

  /** In the Cyrillic block U+0400..U+04FF the allowed set holds exactly the
      64 letters А..Я and а..я; in particular `Ё` (U+0401) and `ё` (U+0451)
      are outside it. */
  lemma CyrillicInAllowedSet(c: char)
    requires '\U{0400}' <= c <= '\U{04FF}'
    ensures PasswordChar.Contains(c) <==> '\U{0410}' <= c <= '\U{044F}'
    ensures c == '\U{0401}' || c == '\U{0451}' ==> !PasswordChar.Contains(c)
  {
  }

  /** A password that passes the first six checks but holds `ё` or `Ё` is
      refused for invalid characters. */
  lemma YoIsInvalid(p: string, i: nat)
    requires ObeysFirst(p, 6)
    requires i < |p| && (p[i] == '\U{0401}' || p[i] == '\U{0451}')
    ensures ValidatePassword(Some(p)) == Fail(InvalidCharacters)
  {
    CyrillicInAllowedSet(p[i]);
    ForeignCharacterIsInvalid(p, i);
  }

  // ---------------------------------------------------------------------------
  // The (valid, message) pairs

  function LoginMessage(e: LoginError): (m: string)
    ensures m != ""
  {
    match e
    case EmptyLogin => "Login cannot be empty"
    case InvalidLoginFormat => "Login must contain only Latin letters and numbers, minimum 5 characters"
  }

  function PasswordMessage(e: PasswordError): (m: string)
    ensures m != ""
  {
    match e
    case EmptyPassword => "Password cannot be empty"
    case InvalidLength => "Password must be between 8 and 128 characters"
    case MissingUppercase => "Password must contain at least one uppercase letter"
    case MissingLowercase => "Password must contain at least one lowercase letter"
    case MissingDigit => "Password must contain at least one number"
    case ContainsWhitespace => "Password must not contain spaces"
    case InvalidCharacters => "Password contains invalid characters"
  }

  /** The reason a login message stands for, if it is one. */
  function LoginErrorOf(m: string): (r: Option<LoginError>)
    ensures r.Some? ==> LoginMessage(r.value) == m
  {
    if m == LoginMessage(EmptyLogin) then Some(EmptyLogin)
    else if m == LoginMessage(InvalidLoginFormat) then Some(InvalidLoginFormat)
    else None
  }

  /** The reason a password message stands for, if it is one. */
  function PasswordErrorOf(m: string): (r: Option<PasswordError>)
    ensures r.Some? ==> PasswordMessage(r.value) == m
  {
    if m == PasswordMessage(EmptyPassword) then Some(EmptyPassword)
    else if m == PasswordMessage(InvalidLength) then Some(InvalidLength)
    else if m == PasswordMessage(MissingUppercase) then Some(MissingUppercase)
    else if m == PasswordMessage(MissingLowercase) then Some(MissingLowercase)
    else if m == PasswordMessage(MissingDigit) then Some(MissingDigit)
    else if m == PasswordMessage(ContainsWhitespace) then Some(ContainsWhitespace)
    else if m == PasswordMessage(InvalidCharacters) then Some(InvalidCharacters)
    else None
  }

  /** Every message names its reason unambiguously: each one reads back as the
      reason it was made from, login messages and password messages never
      coincide, and none is empty. */
  lemma MessagesIdentifyReasons(le: LoginError, pe: PasswordError)
    ensures LoginErrorOf(LoginMessage(le)) == Some(le)
    ensures PasswordErrorOf(PasswordMessage(pe)) == Some(pe)
    ensures PasswordErrorOf(LoginMessage(le)) == None
    ensures LoginErrorOf(PasswordMessage(pe)) == None
    ensures LoginMessage(le) != "" && PasswordMessage(pe) != ""
  {
    MessageLengths();
    match pe
    case MissingUppercase =>
    case MissingLowercase =>
    case _ =>
  }

  /** Apart from the two "must contain at least one ..." messages, which differ
      at "uppercase"/"lowercase", all nine messages differ in length. */
  lemma MessageLengths()
    ensures |LoginMessage(EmptyLogin)| == 21 && |LoginMessage(InvalidLoginFormat)| == 71
    ensures |PasswordMessage(EmptyPassword)| == 24 && |PasswordMessage(InvalidLength)| == 45
    ensures |PasswordMessage(MissingUppercase)| == 51 && |PasswordMessage(MissingLowercase)| == 51
    ensures |PasswordMessage(MissingDigit)| == 41 && |PasswordMessage(ContainsWhitespace)| == 32
    ensures |PasswordMessage(InvalidCharacters)| == 36
    ensures PasswordMessage(MissingUppercase)[35] == 'u' && PasswordMessage(MissingLowercase)[35] == 'l'
  {
  }

  /** The pair a validator returns for an outcome: `(True, "")` on success,
      `(False, message)` on failure. */
  function LoginReply(o: Outcome<LoginError>): (r: (bool, string))
    ensures r.0 <==> r.1 == ""
    ensures r.0 <==> o.Pass?
  {
    MessagesIdentifyReasons(EmptyLogin, EmptyPassword);
    MessagesIdentifyReasons(InvalidLoginFormat, EmptyPassword);
    match o
    case Pass => (true, "")
    case Fail(e) => (false, LoginMessage(e))
  }

  function PasswordReply(o: Outcome<PasswordError>): (r: (bool, string))
    ensures r.0 <==> r.1 == ""
    ensures r.0 <==> o.Pass?
  {
    if o.Fail? then MessagesIdentifyReasons(EmptyLogin, o.error); (false, PasswordMessage(o.error))
    else (true, "")
  }

  /** The outcome a login pair stands for. */
  function LoginOutcomeOf(r: (bool, string)): Outcome<LoginError> {
    if r.0 then Pass
    else match LoginErrorOf(r.1)
      case Some(e) => Fail(e)
      case None => Fail(InvalidLoginFormat)
  }

  /** The outcome a password pair stands for. */
  function PasswordOutcomeOf(r: (bool, string)): Outcome<PasswordError> {
    if r.0 then Pass
    else match PasswordErrorOf(r.1)
      case Some(e) => Fail(e)
      case None => Fail(InvalidCharacters)
  }

  /** `validate_login(login)` as the pair the Python function returns. */
  function ValidateLoginReply(login: Option<string>): (r: (bool, string))
    ensures r == (true, "") <==> !IsBlank(login) && IsWellFormedLogin(login.value)
    ensures r == (false, "Login cannot be empty") <==> IsBlank(login)
    ensures r == (false, LoginMessage(InvalidLoginFormat)) <==> !IsBlank(login) && !IsWellFormedLogin(login.value)
    ensures !r.0 ==> r.1 != ""
  {
    LoginOutcomes(login);
    MessagesIdentifyReasons(InvalidLoginFormat, EmptyPassword);
    MessagesIdentifyReasons(EmptyLogin, EmptyPassword);
    LoginReply(ValidateLogin(login))
  }

  /** `validate_password(password)` as the pair the Python function returns. */
  function ValidatePasswordReply(password: Option<string>): (r: (bool, string))
    ensures r == (true, "") <==> ObeysFirst(Text(password), |PASSWORD_RULES|)
    ensures r == (false, "Password cannot be empty") <==> IsBlank(password)
    ensures !r.0 ==> r.1 != ""
  {
    AcceptedIffAllRules(password);
    var o := ValidatePassword(password);
    RepliesRoundTrip(Pass, o);
    MessagesIdentifyReasons(EmptyLogin, EmptyPassword);
    PasswordReply(o)
  }

  /** The message `validate_password` returns names the first broken rule:
      the pair is `(False, message of e)` exactly when the password keeps
      every rule checked before `e` and breaks `e`. */
  lemma PasswordReplyNamesFirstBrokenRule(password: Option<string>, e: PasswordError)
    ensures ValidatePasswordReply(password) == (false, PasswordMessage(e)) <==>
      ObeysFirst(Text(password), Rank(e)) && !Obeys(Text(password), e)
  {
    ReasonDecides(password, e);
    var o := ValidatePassword(password);
    MessagesIdentifyReasons(EmptyLogin, e);
    if o.Fail? {
      MessagesIdentifyReasons(EmptyLogin, o.error);
    }
  }

  /** The pairs lose nothing: the outcome reads back from the pair. */
  lemma RepliesRoundTrip(lo: Outcome<LoginError>, po: Outcome<PasswordError>)
    ensures LoginOutcomeOf(LoginReply(lo)) == lo
    ensures PasswordOutcomeOf(PasswordReply(po)) == po
  {
    var le := if lo.Fail? then lo.error else EmptyLogin;
    var pe := if po.Fail? then po.error else EmptyPassword;
    MessagesIdentifyReasons(le, pe);
  }

  // ---------------------------------------------------------------------------
  // The inputs the application's tests send

  lemma ExampleLogins()
    ensures ValidateLogin(Some("a")) == Fail(InvalidLoginFormat)
    ensures ValidateLogin(Some("newuser")) == Pass
    ensures ValidateLogin(Some("abcde\n")) == Pass
    ensures ValidateLogin(None) == Fail(EmptyLogin)
    ensures ValidateLoginReply(Some("a")) ==
      (false, "Login must contain only Latin letters and numbers, minimum 5 characters")
  {
    LoginOutcomes(Some("a"));
    LoginOutcomes(Some("newuser"));
    LoginOutcomes(Some("abcde\n"));
    assert "abcde\n"[..5] == "abcde";
  }

  lemma ExampleShortPassword()
    ensures ValidatePassword(Some("weak")) == Fail(InvalidLength)
    ensures ValidatePasswordReply(Some("weak")) == (false, "Password must be between 8 and 128 characters")
  {
  }

  /** A password that keeps all seven rules, character by character. */
  lemma AcceptedExample(p: string, upper: nat, lower: nat, digit: nat)
    requires MIN_PASSWORD_LENGTH <= |p| <= MAX_PASSWORD_LENGTH
    requires upper < |p| && AsciiUpper.Contains(p[upper])
    requires lower < |p| && AsciiLower.Contains(p[lower])
    requires digit < |p| && AsciiDigit.Contains(p[digit])
    requires forall i :: 0 <= i < |p| ==> PasswordChar.Contains(p[i]) && !Whitespace.Contains(p[i])
    ensures ValidatePassword(Some(p)) == Pass
  {
    AcceptedIffAllRules(Some(p));
    assert Obeys(p, PASSWORD_RULES[2]) && Obeys(p, PASSWORD_RULES[3]) && Obeys(p, PASSWORD_RULES[4]);
  }

  /** ASCII letters and digits are allowed in passwords and are not whitespace. */
  lemma AsciiAlnumIsPlainPasswordChar(c: char)
    requires LoginChar.Contains(c)
    ensures PasswordChar.Contains(c) && !Whitespace.Contains(c)
  {
  }

  lemma ExampleNewPass()
    ensures ValidatePassword(Some("NewPass123!")) == Pass
  {
    var p := "NewPass123!";
    forall i | 0 <= i < |p| ensures PasswordChar.Contains(p[i]) && !Whitespace.Contains(p[i]) {
      if i == 10 {
        assert p[i] == '!' && IsPasswordPunctuation(p[i]);
      } else {
        AsciiAlnumIsPlainPasswordChar(p[i]);
      }
    }
    AcceptedExample(p, 0, 1, 7);
  }

  lemma ExampleTest123()
    ensures ValidatePassword(Some("Test123!")) == Pass
  {
    var p := "Test123!";
    forall i | 0 <= i < |p| ensures PasswordChar.Contains(p[i]) && !Whitespace.Contains(p[i]) {
      if i == 7 {
        assert p[i] == '!' && IsPasswordPunctuation(p[i]);
      } else {
        AsciiAlnumIsPlainPasswordChar(p[i]);
      }
    }
    AcceptedExample(p, 0, 1, 4);
  }

  lemma ExampleSpacedPassword()
    ensures ValidatePassword(Some("NewPass 123")) == Fail(ContainsWhitespace)
  {
    var w := "NewPass 123";
    FirstBrokenRuleDecides(Some(w), 5);
    assert AsciiUpper.Contains(w[0]) && AsciiLower.Contains(w[1]) && AsciiDigit.Contains(w[8]);
    assert Whitespace.Contains(w[7]);
    assert Obeys(w, PASSWORD_RULES[2]) && Obeys(w, PASSWORD_RULES[3]) && Obeys(w, PASSWORD_RULES[4]);
  }
}
