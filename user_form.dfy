/** The validation step of the "new user" form: both credential validators
    run, and every failing message is flashed, the login's first. */
module UserForm {
  import opened Outcomes
  import opened Credentials

  /** What `create_user` does after validating: go on to create the user, or
      re-render the form after flashing the given messages in order. */
  datatype FormCheck = Proceed | Rerender(flashes: seq<string>)

  /** The validation step of `create_user` for the submitted `login` and
      `password` fields. */
  function CheckNewUser(login: Option<string>, password: Option<string>): (r: FormCheck)
    ensures r.Proceed? <==> ValidateLogin(login) == Pass && ValidatePassword(password) == Pass
    ensures r.Rerender? ==> 1 <= |r.flashes| <= 2
    ensures r.Rerender? ==> forall i :: 0 <= i < |r.flashes| ==> r.flashes[i] != ""
  {
    var (loginValid, loginError) := ValidateLoginReply(login);
    var (passwordValid, passwordError) := ValidatePasswordReply(password);
    if !loginValid || !passwordValid then
      Rerender((if !loginValid then [loginError] else []) + (if !passwordValid then [passwordError] else []))
    else
      Proceed
  }

  /** The validator outcomes a list of flashed messages tells of: a leading
      login message, then a password message. */
  function Explain(flashes: seq<string>): (Outcome<LoginError>, Outcome<PasswordError>) {
    var loginPart := if |flashes| > 0 && LoginErrorOf(flashes[0]).Some? then Fail(LoginErrorOf(flashes[0]).value) else Pass;
    var rest := if loginPart.Fail? then flashes[1..] else flashes;
    var passwordPart := if |rest| > 0 && PasswordErrorOf(rest[0]).Some? then Fail(PasswordErrorOf(rest[0]).value) else Pass;
    (loginPart, passwordPart)
  }

  /** Nothing is lost in the flashes: from the messages of a rejected form one
      recovers both validators' outcomes, so a failing password is reported
      even when the login fails too. */
  lemma FlashesTellBothOutcomes(login: Option<string>, password: Option<string>)
    requires CheckNewUser(login, password).Rerender?
    ensures Explain(CheckNewUser(login, password).flashes) == (ValidateLogin(login), ValidatePassword(password))
  {
    var lo, po := ValidateLogin(login), ValidatePassword(password);
    CheckIsFlashes(login, password);
    ExplainInvertsFlashes(lo, po);
  }

  /** The messages flashed for two validator outcomes, the login's first. */
  function Flashes(lo: Outcome<LoginError>, po: Outcome<PasswordError>): seq<string> {
    (if lo.Fail? then [LoginMessage(lo.error)] else []) + (if po.Fail? then [PasswordMessage(po.error)] else [])
  }

  /** The validation step in terms of the two outcomes: proceed when both
      pass, otherwise flash the failing messages, the login's first. */
  lemma CheckIsFlashes(login: Option<string>, password: Option<string>)
    ensures var lo, po := ValidateLogin(login), ValidatePassword(password);
      CheckNewUser(login, password) == if lo.Pass? && po.Pass? then Proceed else Rerender(Flashes(lo, po))
  {
  }

  /** `Explain` reads the flashed messages back as the two outcomes. */
  lemma ExplainInvertsFlashes(lo: Outcome<LoginError>, po: Outcome<PasswordError>)
    ensures Explain(Flashes(lo, po)) == (lo, po)
  {
    MessagesIdentifyReasons(if lo.Fail? then lo.error else EmptyLogin, if po.Fail? then po.error else EmptyPassword);
    if lo.Fail? {
      assert Flashes(lo, po)[1..] == (if po.Fail? then [PasswordMessage(po.error)] else []);
    }
  }

  /** The order of the flashes: a failing login's message comes first, a
      failing password's message comes last, and each validator contributes
      at most one message. */
  lemma FlashOrder(login: Option<string>, password: Option<string>)
    requires CheckNewUser(login, password).Rerender?
    ensures var f := CheckNewUser(login, password).flashes;
      && (ValidateLogin(login).Fail? ==> f[0] == LoginMessage(ValidateLogin(login).error))
      && (ValidatePassword(password).Fail? ==> f[|f| - 1] == PasswordMessage(ValidatePassword(password).error))
      && (|f| == 2 <==> ValidateLogin(login).Fail? && ValidatePassword(password).Fail?)
  {
  }

  /** The application's test forms: a weak password is reported alone. */
  lemma ExampleWeakPasswordForm()
    ensures CheckNewUser(Some("newuser"), Some("weak")) ==
      Rerender(["Password must be between 8 and 128 characters"])
  {
    ExampleLogins();
    ExampleShortPassword();
    CheckIsFlashes(Some("newuser"), Some("weak"));
  }

  /** A one-letter login is reported alone. */
  lemma ExampleShortLoginForm()
    ensures CheckNewUser(Some("a"), Some("NewPass123!")) ==
      Rerender(["Login must contain only Latin letters and numbers, minimum 5 characters"])
  {
    ExampleLogins();
    ExampleNewPass();
    CheckIsFlashes(Some("a"), Some("NewPass123!"));
  }

  /** A valid login and password go on to create the user. */
  lemma ExampleValidForm()
    ensures CheckNewUser(Some("newuser"), Some("NewPass123!")) == Proceed
  {
    ExampleLogins();
    ExampleNewPass();
    CheckIsFlashes(Some("newuser"), Some("NewPass123!"));
  }
}
