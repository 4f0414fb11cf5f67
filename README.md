# Credential policy of the user administration panel

This project models the login and password policy of the database-backed
user administration exercise (`lab4/app.py`). The model covers three parts:

- `validate_login`: a blank login is refused. Otherwise the login must match
  `^[a-zA-Z0-9]{5,}$`.
- `validate_password`: seven checks run in a fixed order, and the first that
  fails decides the message. The password must be non-empty and 8 to 128
  characters long. It must hold an ASCII upper-case letter, an ASCII
  lower-case letter and an ASCII digit. It must hold no whitespace. Every
  character must be in the allowed set.
- the validation step of `create_user`: both validators run, and every
  failing message is flashed, the login's first.

Layout:

- `outcomes.dfy` (module `Outcomes`): `Option` for a form field that may be
  missing, and `Outcome` (`Pass` or `Fail(reason)`) for a validator's verdict.
- `patterns.dfy` (module `Patterns`): the regular-expression pieces the policy
  uses. The character classes `[A-Z]`, `[a-z]`, `[0-9]`, `\s`, `[a-zA-Z0-9]`
  and the password's allowed set are a datatype. `re.search` with a one-class
  pattern is `Search`, which returns the leftmost matching index.
  `re.match(r'^[k]{min,}$', s)` is `FullMatch`, a greedy scan (`Run`)
  followed by Python's `$`. It is proved equal to the declarative meaning of
  the pattern, `MatchesAnchored`.
- `credentials.dfy` (module `Credentials`): the two validators, the rules
  stated without regular expressions (`Obeys`, in the order `PASSWORD_RULES`),
  the exact message strings, and the `(valid, message)` pairs the Python
  functions return.
- `user_form.dfy` (module `UserForm`): the validation step of `create_user` as
  a pure function. It yields `Proceed` or `Rerender(flashes)`.

Notes on behaviour the model reproduces:

- A form field that was not submitted (`request.form.get` gives `None`) is
  `None`. Python's `not v` treats it like `""`, so both give the "empty"
  message.
- Python's `$` also matches just before a final newline, so the login
  `abcde\n` is accepted (`Credentials.ExampleLogins`). The allowed-set check
  on passwords has the same `$`, but a newline is whitespace and is refused
  one check earlier. `Credentials.CharsetCheckAfterWhitespace` proves that the
  newline allowance never matters there.
- `\s` in a str pattern matches the characters for which `str.isspace()`
  holds. These are U+0009 to U+000D, U+001C to U+001F, U+0020, U+0085,
  U+00A0, U+1680, U+2000 to U+200A, U+2028, U+2029, U+202F, U+205F and U+3000.
- The Cyrillic part of the allowed set is only the ranges `А-Я` (U+0410 to
  U+042F) and `а-я` (U+0430 to U+044F), together U+0410 to U+044F. `Ё`, `ё`
  and the rest of the Cyrillic block are refused.
- The thirty punctuation marks allowed are ``~ ! ? @ # $ % ^ & * _ - + ( ) [ ] { } > < / \ | " ' , . : ;``.

## Model

| member | source | states |
|---|---|---|
| `Patterns.CharClass.Contains` | lab4/app.py:48-65 | the classes `[A-Z]`, `[a-z]`, `[0-9]` (lines 57-61), `[a-zA-Z0-9]` (line 48), `\s` (line 63) and the password's allowed set (line 65); every class but `\s` is disjoint from `\s`, and all but `\s` and the allowed set are pure ASCII |
| `Patterns.ClassInclusions` | lab4/app.py:48 | `[a-zA-Z0-9]` is the union of `[A-Z]`, `[a-z]` and `[0-9]`, and the password's allowed set contains it |
| `Patterns.IsUnicodeSpace` | lab4/app.py:63 | `\s`: U+0009-000D, U+001C-001F, U+0020, U+0085, U+00A0, U+1680, U+2000-200A, U+2028, U+2029, U+202F, U+205F, U+3000; it holds for space, tab, newline and carriage return, and for no printable ASCII character |
| `Patterns.IsCyrillicLetterRange` | lab4/app.py:65 | `[А-Яа-я]`: exactly the two ranges U+0410-042F and U+0430-044F, which excludes `Ё` (U+0401) and `ё` (U+0451) |
| `Patterns.IsPasswordPunctuation` | lab4/app.py:65 | the thirty marks ``~ ! ? @ # $ % ^ & * _ - + ( ) [ ] { } > < / \ \| " ' , . : ;`` (the raw string's `\'` read as `'`); all are printable ASCII, none is a letter or digit, and `=` and the backquote are not among them |
| `Patterns.AtEnd` | lab4/app.py:48 | Python's `$` without MULTILINE: it matches at the end of the string, or just before a newline that ends it, and nowhere beyond the end |
| `Patterns.Search` | lab4/app.py:57-63 | `re.search` for a one-class pattern: a found index is the leftmost character in the class, and nothing is found exactly when no character of the string is in the class |
| `Patterns.Run` | lab4/app.py:48 | the greedy repetition stops at the first character outside the class, and everything before it is in the class |
| `Patterns.FullMatch` | lab4/app.py:48 | `re.match(r'^[k]{min,}$', s)`: a match has at least `min` characters, all in the class apart from one possible final newline; the converse is `FullMatchIsAnchoredMatch` |
| `Patterns.FullMatchIsAnchoredMatch` | lab4/app.py:48 | for a class without the newline, the greedy scan followed by `$` accepts exactly the strings in which some prefix of at least `min` class characters is followed by the end or by one final newline |
| `Patterns.FullMatchCases` | lab4/app.py:48 | `^[k]{min,}$` accepts exactly the strings that are `min` or more class characters, possibly followed by one final newline |
| `Patterns.FullMatchWithoutNewline` | lab4/app.py:65 | on a string without a newline, `^[k]{min,}$` means at least `min` characters, all in the class |
| `Patterns.MatchedClassesExcludeNewline` | lab4/app.py:63-65 | the two classes used under `^...$` exclude the newline, and `\s` includes it |
| `Credentials.IsBlank` | lab4/app.py:46 | Python's `not login` / `not password` on a form value: true for a missing field and for `""`; a value that is not blank is a present, non-empty string |
| `Credentials.Text` | lab4/app.py:46 | a form value reads as the empty string exactly when it is missing or empty |
| `Credentials.ValidateLogin` | lab4/app.py:45-50 | `validate_login`: "empty" exactly for a missing or empty login, and an accepted login has at least 5 characters; the full characterisation is `LoginOutcomes` |
| `Credentials.LoginOutcomes` | lab4/app.py:45-50 | a login gets "empty" exactly when it is missing or `""`; a non-blank login is accepted exactly when it is 5 or more ASCII letters and digits, optionally followed by one final newline; every other non-blank login gets the format message |
| `Credentials.LoginWithoutNewline` | lab4/app.py:48-50 | a login without a newline is accepted exactly when it has at least 5 characters, all ASCII letters or digits |
| `Credentials.ValidatePassword` | lab4/app.py:52-67 | `validate_password`: "empty" exactly for a missing or empty password, and an accepted password has length 8 to 128, an upper-case letter, a lower-case letter, a digit and no whitespace; the full characterisation is `FirstBrokenRuleDecides`, `ReasonDecides` and `AcceptedIffAllRules` |
| `Credentials.RulesAreDistinct` | lab4/app.py:53-66 | the rule order lists each of the seven password reasons exactly once |
| `Credentials.CharsetCheckAfterWhitespace` | lab4/app.py:63-66 | on a password without whitespace, the allowed-set regex test means "non-empty and every character allowed" |
| `Credentials.FirstBrokenRuleDecides` | lab4/app.py:52-66 | the password gets the k-th reason exactly when it keeps rules 1 to k-1 and breaks rule k |
| `Credentials.Rank` | lab4/app.py:53-66 | each reason has exactly one position in the order of the checks |
| `Credentials.ReasonDecides` | lab4/app.py:52-66 | the password is refused for reason `e` exactly when it keeps every rule checked before `e` and breaks `e` |
| `Credentials.AcceptedIffAllRules` | lab4/app.py:52-67 | a password is accepted exactly when it keeps all seven rules |
| `Credentials.AcceptedPasswordShape` | lab4/app.py:55-67 | an accepted password was submitted and has length 8 to 128, an ASCII upper-case letter, an ASCII lower-case letter and an ASCII digit, no whitespace, and only allowed characters |
| `Credentials.LengthDecidesBeforeContent` | lab4/app.py:55-56 | a non-empty password shorter than 8 or longer than 128 characters gets the length reason, whatever it contains |
| `Credentials.WhitespaceIsNeverInvalidCharacters` | lab4/app.py:63-66 | a password holding a whitespace character is never refused for invalid characters |
| `Credentials.ForeignCharacterIsInvalid` | lab4/app.py:65-66 | a password that passes the first six checks and holds one character outside the allowed set gets the invalid-characters reason |
| `Credentials.CyrillicInAllowedSet` | lab4/app.py:65 | in the Cyrillic block U+0400 to U+04FF, exactly U+0410 to U+044F are allowed, so `Ё` and `ё` are not |
| `Credentials.YoIsInvalid` | lab4/app.py:65-66 | a password that passes the first six checks but holds `Ё` or `ё` gets the invalid-characters reason |
| `Credentials.LoginMessage` | lab4/app.py:47-49 | the two login messages, none empty; `MessagesIdentifyReasons` shows they identify their reasons |
| `Credentials.PasswordMessage` | lab4/app.py:54-66 | the seven password messages, none empty; `MessagesIdentifyReasons` shows they identify their reasons |
| `Credentials.MessageLengths` | lab4/app.py:47-66 | the lengths of the nine messages, which tell all of them apart except the upper-case and lower-case messages, which differ at "uppercase"/"lowercase" |
| `Credentials.LoginErrorOf` | lab4/app.py:47-49 | a login message read back as a reason is the message of that reason |
| `Credentials.PasswordErrorOf` | lab4/app.py:54-66 | a password message read back as a reason is the message of that reason |
| `Credentials.MessagesIdentifyReasons` | lab4/app.py:45-67 | every message reads back as the reason it came from, no login message is a password message or the reverse, and no message is empty |
| `Credentials.LoginReply` | lab4/app.py:46-50 | the pair is `(True, "")` on success and `(False, message)` on failure, so the message is empty exactly when the login is valid |
| `Credentials.PasswordReply` | lab4/app.py:53-67 | the pair's message is empty exactly when the password is valid, and the flag is the verdict |
| `Credentials.ValidateLoginReply` | lab4/app.py:45-50 | the pair `validate_login` returns is `(True, "")` exactly for a non-blank well-formed login, `(False, "Login cannot be empty")` exactly for a blank one, and `(False, format message)` exactly for a non-blank login that is not well formed |
| `Credentials.ValidatePasswordReply` | lab4/app.py:52-67 | the pair `validate_password` returns is `(True, "")` exactly when all seven rules hold, `(False, "Password cannot be empty")` exactly for a blank password, and otherwise carries a non-empty message |
| `Credentials.PasswordReplyNamesFirstBrokenRule` | lab4/app.py:52-67 | the pair `validate_password` returns is `(False, message of e)` exactly when the password keeps every rule checked before `e` and breaks `e` |
| `Credentials.RepliesRoundTrip` | lab4/app.py:45-67 | the outcome can be read back from the returned pair |
| `Credentials.ExampleLogins` | lab4/app.py:45-50 | `a` gets the format message (the login lab4/tests.py:132-139 sends), `newuser` is accepted, `abcde\n` is accepted because of `$`, and a missing login is empty |
| `Credentials.ExampleShortPassword` | lab4/tests.py:115-123 | `weak` gets the length message |
| `Credentials.AcceptedExample` | lab4/app.py:55-67 | a password of allowed length, with one upper-case letter, one lower-case letter and one digit, and only allowed characters that are not whitespace, is accepted |
| `Credentials.AsciiAlnumIsPlainPasswordChar` | lab4/app.py:63-65 | ASCII letters and digits are allowed in passwords and are not whitespace |
| `Credentials.ExampleNewPass` | lab4/tests.py:61-69 | `NewPass123!` is accepted |
| `Credentials.ExampleTest123` | lab4/app.py:52-67 | `validate_password` accepts `Test123!`, the password the tests' fixture stores (lab4/tests.py:24) |
| `Credentials.ExampleSpacedPassword` | lab4/app.py:63-64 | `NewPass 123` gets the whitespace reason |
| `UserForm.CheckNewUser` | lab4/app.py:110-117 | the form proceeds exactly when both validators pass; otherwise it re-renders with one or two non-empty flashed messages |
| `UserForm.CheckIsFlashes` | lab4/app.py:110-117 | the step proceeds when both outcomes pass and otherwise flashes the login's failure message, then the password's |
| `UserForm.ExplainInvertsFlashes` | lab4/app.py:113-117 | any flash list built from two outcomes reads back as exactly those outcomes |
| `UserForm.FlashesTellBothOutcomes` | lab4/app.py:110-117 | both validators' outcomes can be recovered from the flashed messages, so a failing password is reported even when the login fails too |
| `UserForm.FlashOrder` | lab4/app.py:113-117 | a failing login's message is flashed first, a failing password's message last, and there are two messages exactly when both fail |
| `UserForm.ExampleWeakPasswordForm` | lab4/tests.py:109-123 | the form with login `newuser` and password `weak` re-renders with the length message alone |
| `UserForm.ExampleShortLoginForm` | lab4/tests.py:125-139 | the form with login `a` and password `NewPass123!` re-renders with the login format message alone |
| `UserForm.ExampleValidForm` | lab4/tests.py:55-69 | the form with login `newuser` and password `NewPass123!` proceeds |

## Left out

- The phone-number normaliser of the request-introspection exercise (`lab2/app.py`) is not modelled. It is a separate exercise and is not part of the credential policy.
- The rest of `change_password` (`lab4/app.py:194-223`) is not modelled. It calls `validate_password`, but it also needs the stored password hash and the database session.
- Flask routing, templates, `flash` rendering, redirects and form parsing are not modelled. The validators receive the field values as `Option<string>`.
- The SQLAlchemy models, database commit and rollback, and the "Error creating user" path are not modelled. They go through a library outside this code.
- Password hashing (`generate_password_hash`, `check_password_hash`) is not modelled. These are foreign cryptographic calls.
- The blog, visit-counter and session exercises (`lab1`, `lab3`) and the root WSGI dispatcher are not modelled. They are framework and random-data plumbing with no policy logic.
- Patterns.FullMatch: models `re.match` only for patterns `^[k]{min,}$` over a class without the newline (the only shape the policy uses), not Python's general regex engine with backtracking.
- Strings are sequences of Unicode scalar values. A Python string holding a lone surrogate has no counterpart; form data decoded from UTF-8 does not hold one.
