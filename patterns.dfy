/** The parts of Python's `re` module that the credential policy relies on:
    bracketed character classes, `re.search` with a one-class pattern, and
    `re.match` with a pattern of the shape `^[class]{min,}$`. */
module Patterns {
  import opened Outcomes

  /** The character classes written in the policy's regular expressions. */
  datatype CharClass =
    | AsciiUpper    // [A-Z]
    | AsciiLower    // [a-z]
    | AsciiDigit    // [0-9]
    | Whitespace    // \s in a str pattern
    | LoginChar     // [a-zA-Z0-9]
    | PasswordChar  // [a-zA-Zа-яА-Я0-9] and thirty punctuation marks
  {
    /** Membership in the class. Every class but `\s` is disjoint from `\s`,
        and every class but `\s` and the password class is pure ASCII. */
    predicate Contains(c: char)
      ensures this != Whitespace && Contains(c) ==> !IsUnicodeSpace(c)
      ensures this != Whitespace && this != PasswordChar && Contains(c) ==> c < '\U{0080}'
    {
      match this
      case AsciiUpper => 'A' <= c <= 'Z'
      case AsciiLower => 'a' <= c <= 'z'
      case AsciiDigit => '0' <= c <= '9'
      case Whitespace => IsUnicodeSpace(c)
      case LoginChar => 'a' <= c <= 'z' || 'A' <= c <= 'Z' || '0' <= c <= '9'
      case PasswordChar =>
        || 'a' <= c <= 'z' || 'A' <= c <= 'Z'
        || IsCyrillicLetterRange(c)
        || '0' <= c <= '9'
        || IsPasswordPunctuation(c)
    }
  }

  /** The characters `\s` matches in a str pattern: those for which Python's
      `str.isspace` holds. */
  predicate IsUnicodeSpace(c: char)
    ensures c == ' ' || c == '\t' || c == '\n' || c == '\r' ==> IsUnicodeSpace(c)
    ensures IsUnicodeSpace(c) ==> !('!' <= c <= '~')
  {
    || '\U{0009}' <= c <= '\U{000D}'
    || '\U{001C}' <= c <= '\U{001F}'
    || c == ' ' || c == '\U{0085}' || c == '\U{00A0}' || c == '\U{1680}'
    || '\U{2000}' <= c <= '\U{200A}'
    || c == '\U{2028}' || c == '\U{2029}' || c == '\U{202F}' || c == '\U{205F}'
    || c == '\U{3000}'
  }

  /** The two ranges `А-Я` (U+0410..U+042F) and `а-я` (U+0430..U+044F), which
      meet, so together they are one block of 64 code points; `Ё` and `ё`
      lie outside it. */
  predicate IsCyrillicLetterRange(c: char)
    ensures IsCyrillicLetterRange(c) <==> '\U{0410}' <= c <= '\U{042F}' || '\U{0430}' <= c <= '\U{044F}'
    ensures c == '\U{0401}' || c == '\U{0451}' ==> !IsCyrillicLetterRange(c)
  {
    '\U{0410}' <= c <= '\U{044F}'
  }

  /** The punctuation of the password's allowed set: ~ ! ? @ # $ % ^ & * _ - +
      ( ) [ ] { } > < / \ | " ' , . : ; */
  predicate IsPasswordPunctuation(c: char)
    ensures IsPasswordPunctuation(c) ==> '!' <= c <= '~'
    ensures IsPasswordPunctuation(c) ==> !('a' <= c <= 'z' || 'A' <= c <= 'Z' || '0' <= c <= '9')
    ensures c == '=' || c == '`' ==> !IsPasswordPunctuation(c)
  {
    c in {'~', '!', '?', '@', '#', '$', '%', '^', '&', '*', '_', '-', '+',
          '(', ')', '[', ']', '{', '}', '>', '<', '/', '\\', '|', '"', '\'',
          ',', '.', ':', ';'}
  }

  /** How the classes relate: `[a-zA-Z0-9]` is the union of the three ASCII
      classes, and the password class contains it. */
  lemma ClassInclusions(c: char)
    ensures LoginChar.Contains(c) <==>
      AsciiUpper.Contains(c) || AsciiLower.Contains(c) || AsciiDigit.Contains(c)
    ensures LoginChar.Contains(c) ==> PasswordChar.Contains(c)
  {
  }

  /** Some character of `s` is in `k`. */
  predicate HasAny(s: string, k: CharClass) {
    exists i :: 0 <= i < |s| && k.Contains(s[i])
  }

  /** Every character of `s` is in `k`. */
  predicate AllIn(s: string, k: CharClass) {
    forall i :: 0 <= i < |s| ==> k.Contains(s[i])
  }

  /** `re.search(r'[k]', s)`: the index of the leftmost character of `s` in `k`,
      or `None` when there is none. */
  function Search(s: string, k: CharClass): (r: Option<nat>)
    ensures r.Some? ==> r.value < |s| && k.Contains(s[r.value])
    ensures r.Some? ==> forall j :: 0 <= j < r.value ==> !k.Contains(s[j])
    ensures r.None? <==> !HasAny(s, k)
  {
    if s == [] then None
    else if k.Contains(s[0]) then Some(0)
    else
      match Search(s[1..], k)
      case None => None
      case Some(i) => Some(i + 1)
  }

  /** How far a greedy `[k]*` advances from the start of `s`: the length of the
      longest prefix of `s` whose characters are all in `k`. */
  function Run(s: string, k: CharClass): (n: nat)
    ensures n <= |s|
    ensures AllIn(s[..n], k)
    ensures n < |s| ==> !k.Contains(s[n])
  {
    if s == [] || !k.Contains(s[0]) then 0 else 1 + Run(s[1..], k)
  }

  /** Where Python's `$` (without MULTILINE) matches: at the end of `s`, or just
      before a newline that ends `s`. */
  predicate AtEnd(s: string, m: nat)
    ensures AtEnd(s, m) ==> m <= |s|
    ensures m == |s| ==> AtEnd(s, m)
  {
    m == |s| || (m + 1 == |s| && s[m] == '\n')
  }

  /** `re.match(r'^[k]{min,}$', s)` as the regex engine runs it for a class
      without '\n': the greedy repetition takes the longest run of `k` and `$`
      is tried right after it (backing off cannot help, since every shorter
      run is followed by a character of `k`, which is neither the end nor a
      newline). */
  predicate FullMatch(s: string, k: CharClass, min: nat)
    ensures FullMatch(s, k, min) ==> |s| >= min
    ensures FullMatch(s, k, min) ==>
      AllIn(s, k) || (s[|s| - 1] == '\n' && AllIn(s[..|s| - 1], k))
  {
    var n := Run(s, k);
    n >= min && AtEnd(s, n)
  }

  /** The meaning of `^[k]{min,}$`: some prefix of at least `min` characters of
      `k` is followed by a place where `$` matches. */
  predicate MatchesAnchored(s: string, k: CharClass, min: nat) {
    exists m :: min <= m <= |s| && AllIn(s[..m], k) && AtEnd(s, m)
  }

  /** The greedy scan decides `^[k]{min,}$` exactly, for every class that
      excludes the newline (both classes the policy matches this way do). */
  lemma FullMatchIsAnchoredMatch(s: string, k: CharClass, min: nat)
    requires !k.Contains('\n')
    ensures FullMatch(s, k, min) <==> MatchesAnchored(s, k, min)
  {
    var n := Run(s, k);
    if FullMatch(s, k, min) {
      assert min <= n <= |s| && AllIn(s[..n], k) && AtEnd(s, n);
    }
    if MatchesAnchored(s, k, min) {
      var m :| min <= m <= |s| && AllIn(s[..m], k) && AtEnd(s, m);
      assert n == m;
    }
  }

  /** The two ways a string can match `^[k]{min,}$`: it is entirely made of `k`,
      or it is that followed by one final newline. */
  lemma FullMatchCases(s: string, k: CharClass, min: nat)
    requires !k.Contains('\n')
    ensures FullMatch(s, k, min) <==>
      || (|s| >= min && AllIn(s, k))
      || (|s| >= min + 1 && s[|s| - 1] == '\n' && AllIn(s[..|s| - 1], k))
  {
    var n := Run(s, k);
    assert s[..|s|] == s;
  }

  /** For a string without a newline, `^[k]{min,}$` means: at least `min`
      characters, all of them in `k`. */
  lemma FullMatchWithoutNewline(s: string, k: CharClass, min: nat)
    requires !k.Contains('\n')
    requires forall i :: 0 <= i < |s| ==> s[i] != '\n'
    ensures FullMatch(s, k, min) <==> |s| >= min && AllIn(s, k)
  {
    FullMatchCases(s, k, min);
  }

  /** The classes `^...$` is applied to leave the newline out. */
  lemma MatchedClassesExcludeNewline()
    ensures !LoginChar.Contains('\n') && !PasswordChar.Contains('\n')
    ensures Whitespace.Contains('\n')
  {
  }
}
