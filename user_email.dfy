/** The `UserEmail` value object: a string accepted only when it is not blank,
    contains an `@` and fully matches
    `^[A-Za-z0-9+_.-]+@[A-Za-z0-9.-]+\.[A-Za-z]{2,}$`. */
module UserEmailModel {
  import opened Wrappers

  // ---------------------------------------------------------------------------
  // Character classes
  // ---------------------------------------------------------------------------

  /** Kotlin's `Char.isWhitespace()` on the JVM: `Character.isWhitespace` or
      `Character.isSpaceChar`, i.e. the ASCII controls TAB, LF, VT, FF, CR and
      FS..US, plus every space, line and paragraph separator of Unicode. */
  predicate IsWhitespace(c: char) {
    || c == '\t' || c == '\n' || c == '\U{000B}' || c == '\U{000C}' || c == '\r'
    || ('\U{001C}' <= c <= '\U{001F}')
    || c == ' ' || c == '\U{00A0}' || c == '\U{1680}'
    || ('\U{2000}' <= c <= '\U{200A}')
    || c == '\U{2028}' || c == '\U{2029}' || c == '\U{202F}' || c == '\U{205F}' || c == '\U{3000}'
  }

  /** Kotlin's `CharSequence.isBlank()`: empty, or whitespace only. */
  predicate IsBlank(s: string) {
    |s| == 0 || (IsWhitespace(s[0]) && IsBlank(s[1..]))
  }

  /** Blank means that every character is whitespace. */
  lemma {:induction false} BlankMeansAllWhitespace(s: string)
    ensures IsBlank(s) <==> forall i :: 0 <= i < |s| ==> IsWhitespace(s[i])
  {
    if |s| > 0 {
      BlankMeansAllWhitespace(s[1..]);
      assert forall i :: 1 <= i < |s| ==> s[i] == s[1..][i - 1];
    }
  }

  predicate IsAsciiLetter(c: char) { ('A' <= c <= 'Z') || ('a' <= c <= 'z') }

  predicate IsAsciiDigit(c: char) { '0' <= c <= '9' }

  /** The class `[A-Za-z0-9+_.-]` of the local part. */
  predicate IsLocalChar(c: char) {
    IsAsciiLetter(c) || IsAsciiDigit(c) || c == '+' || c == '_' || c == '.' || c == '-'
  }

  /** The class `[A-Za-z0-9.-]` of the domain body. */
  predicate IsDomainChar(c: char) {
    IsAsciiLetter(c) || IsAsciiDigit(c) || c == '.' || c == '-'
  }

  predicate LocalCharsIn(s: string, lo: nat, hi: nat)
    requires lo <= hi <= |s|
  {
    forall i :: lo <= i < hi ==> IsLocalChar(s[i])
  }

  predicate DomainCharsIn(s: string, lo: nat, hi: nat)
    requires lo <= hi <= |s|
  {
    forall i :: lo <= i < hi ==> IsDomainChar(s[i])
  }

  predicate LettersIn(s: string, lo: nat, hi: nat)
    requires lo <= hi <= |s|
  {
    forall i :: lo <= i < hi ==> IsAsciiLetter(s[i])
  }

  // ---------------------------------------------------------------------------
  // The pattern
  // ---------------------------------------------------------------------------

  /** What it means for `s` to match the whole pattern: some position `at`
      holds the `@` with one or more local characters before it, some later
      position `dot` holds a `.` with one or more domain characters between the
      two, and two or more letters follow the `.` up to the end. */
  ghost predicate RegexMatches(s: string) {
    exists at: nat, dot: nat ::
      && 0 < at && at + 1 < dot && dot + 2 < |s|
      && s[at] == '@' && s[dot] == '.'
      && LocalCharsIn(s, 0, at) && DomainCharsIn(s, at + 1, dot) && LettersIn(s, dot + 1, |s|)
  }

  /** Only ASCII letters: `[A-Za-z]*`. */
  predicate OnlyLetters(w: string) {
    |w| == 0 || (IsAsciiLetter(w[0]) && OnlyLetters(w[1..]))
  }

  /** `[A-Za-z0-9.-]+\.[A-Za-z]{2,}$` against what follows the `@`, trying
      every position for the final `.` as a backtracking matcher does; `body`
      says whether the domain body has taken a character yet. */
  predicate DomainMatches(w: string, body: bool) {
    && |w| > 0
    && (|| (body && w[0] == '.' && |w| >= 3 && OnlyLetters(w[1..]))
        || (IsDomainChar(w[0]) && DomainMatches(w[1..], true)))
  }

  /** `^[A-Za-z0-9+_.-]+@` followed by the domain; `local` says whether the
      local part has taken a character yet. */
  predicate LocalMatches(s: string, local: bool) {
    && |s| > 0
    && (|| (local && s[0] == '@' && DomainMatches(s[1..], false))
        || (IsLocalChar(s[0]) && LocalMatches(s[1..], true)))
  }

  /** `value.matches(Regex(...))`: the whole string matches the pattern. */
  predicate MatchesEmailPattern(s: string) {
    LocalMatches(s, false)
  }

  lemma {:induction false} OnlyLettersIff(w: string)
    ensures OnlyLetters(w) <==> LettersIn(w, 0, |w|)
  {
    if |w| > 0 {
      OnlyLettersIff(w[1..]);
      assert forall i :: 1 <= i < |w| ==> w[i] == w[1..][i - 1];
    }
  }

  /** Where the domain's final `.` may stand in `w`. */
  ghost predicate DomainAt(w: string, body: bool, dot: nat) {
    && (body || 0 < dot) && dot + 2 < |w| && w[dot] == '.'
    && DomainCharsIn(w, 0, dot) && LettersIn(w, dot + 1, |w|)
  }

  lemma {:induction false} DomainMatchesIff(w: string, body: bool)
    ensures DomainMatches(w, body) <==> exists dot: nat :: DomainAt(w, body, dot)
  {
    if |w| > 0 {
      var t := w[1..];
      assert forall i :: 1 <= i < |w| ==> w[i] == t[i - 1];
      DomainMatchesIff(t, true);
      OnlyLettersIff(t);
      if DomainMatches(w, body) {
        if body && w[0] == '.' && |w| >= 3 && OnlyLetters(t) {
          assert DomainAt(w, body, 0);
        } else {
          var d: nat :| DomainAt(t, true, d);
          assert DomainAt(w, body, d + 1);
        }
      }
      if exists dot: nat :: DomainAt(w, body, dot) {
        var dot: nat :| DomainAt(w, body, dot);
        if dot > 0 {
          assert DomainAt(t, true, dot - 1);
        }
      }
    }
  }

  /** Where the `@` may stand in `s`. */
  ghost predicate LocalAt(s: string, local: bool, at: nat) {
    && (local || 0 < at) && at < |s| && s[at] == '@'
    && LocalCharsIn(s, 0, at) && DomainMatches(s[at + 1..], false)
  }

  lemma {:induction false} LocalMatchesIff(s: string, local: bool)
    ensures LocalMatches(s, local) <==> exists at: nat :: LocalAt(s, local, at)
  {
    if |s| > 0 {
      var t := s[1..];
      assert forall i :: 1 <= i < |s| ==> s[i] == t[i - 1];
      LocalMatchesIff(t, true);
      if LocalMatches(s, local) {
        if local && s[0] == '@' && DomainMatches(t, false) {
          assert LocalAt(s, local, 0);
        } else {
          var a: nat :| LocalAt(t, true, a);
          assert t[a + 1..] == s[a + 2..];
          assert LocalAt(s, local, a + 1);
        }
      }
      if exists at: nat :: LocalAt(s, local, at) {
        var at: nat :| LocalAt(s, local, at);
        if at > 0 {
          assert t[at..] == s[at + 1..];
          assert LocalAt(t, true, at - 1);
        }
      }
    }
  }

  /** The matcher accepts exactly the strings the pattern matches. */
  lemma MatchesEmailPatternIffRegex(s: string)
    ensures MatchesEmailPattern(s) <==> RegexMatches(s)
  {
    LocalMatchesIff(s, false);
    if MatchesEmailPattern(s) {
      var at: nat :| LocalAt(s, false, at);
      var w := s[at + 1..];
      DomainMatchesIff(w, false);
      var d: nat :| DomainAt(w, false, d);
      var dot := at + 1 + d;
      assert forall i :: at + 1 <= i < |s| ==> s[i] == w[i - at - 1];
      assert s[at] == '@' && s[dot] == '.';
    }
    if RegexMatches(s) {
      var at: nat, dot: nat :|
        && 0 < at && at + 1 < dot && dot + 2 < |s|
        && s[at] == '@' && s[dot] == '.'
        && LocalCharsIn(s, 0, at) && DomainCharsIn(s, at + 1, dot) && LettersIn(s, dot + 1, |s|);
      var w := s[at + 1..];
      assert forall i :: at + 1 <= i < |s| ==> s[i] == w[i - at - 1];
      assert DomainAt(w, false, dot - at - 1);
      DomainMatchesIff(w, false);
      assert LocalAt(s, false, at);
    }
  }

  /** A string that matches the pattern is not blank and contains `@`, so the
      first two checks of the constructor never reject a string the third
      accepts. */
  lemma PatternImpliesEarlierChecks(s: string)
    requires RegexMatches(s)
    ensures !IsBlank(s) && '@' in s
  {
    var at: nat, dot: nat :|
      && 0 < at && at + 1 < dot && dot + 2 < |s|
      && s[at] == '@' && s[dot] == '.'
      && LocalCharsIn(s, 0, at) && DomainCharsIn(s, at + 1, dot) && LettersIn(s, dot + 1, |s|);
    assert !IsWhitespace(s[at]);
  }

  // ---------------------------------------------------------------------------
  // The value object
  // ---------------------------------------------------------------------------

  /** The three checks of the constructor, in order. */
  predicate IsValidEmail(s: string) {
    !IsBlank(s) && '@' in s && MatchesEmailPattern(s)
  }

  /** The raw wrapper; `UserEmail` below admits only valid values. */
  datatype Email = Email(value: string)

  /** A `UserEmail` never exists with an invalid value. */
  type UserEmail = e: Email | IsValidEmail(e.value) witness Email("a@b.co")

  /** A valid address, used as the witness that the type of users is not empty. */
  const SampleEmail: UserEmail := Email("a@b.co")

  /** Which check rejected a string. */
  datatype EmailError = BlankEmail | MissingAtSymbol | InvalidFormat

  /** The constructor `UserEmail(value)`: the first failing check decides the
      error; an accepted string is kept exactly as given. */
  function ParseEmail(s: string): (r: Result<UserEmail, EmailError>)
    ensures r.Success? <==> RegexMatches(s)
    ensures r.Success? ==> r.value.value == s
    ensures r == Failure(BlankEmail) <==> IsBlank(s)
    ensures r == Failure(MissingAtSymbol) <==> !IsBlank(s) && '@' !in s
    ensures r == Failure(InvalidFormat) <==> !IsBlank(s) && '@' in s && !RegexMatches(s)
  {
    MatchesEmailPatternIffRegex(s);
    if IsBlank(s) then Failure(BlankEmail)
    else if '@' !in s then Failure(MissingAtSymbol)
    else if !MatchesEmailPattern(s) then Failure(InvalidFormat)
    else Success(Email(s))
  }

  /** What every accepted value looks like: exactly one `@`, with a non-empty
      local part of local characters before it, and a `.` followed by two or
      more ASCII letters at the end. */
  lemma AcceptedEmailShape(e: UserEmail)
    ensures exists at :: 0 < at < |e.value| && e.value[at] == '@' && LocalCharsIn(e.value, 0, at)
                         && forall j :: 0 <= j < |e.value| && e.value[j] == '@' ==> j == at
    ensures exists dot :: 0 < dot && dot + 2 < |e.value| && e.value[dot] == '.'
                          && LettersIn(e.value, dot + 1, |e.value|)
  {
    var s := e.value;
    MatchesEmailPatternIffRegex(s);
    var at: nat, dot: nat :|
      && 0 < at && at + 1 < dot && dot + 2 < |s|
      && s[at] == '@' && s[dot] == '.'
      && LocalCharsIn(s, 0, at) && DomainCharsIn(s, at + 1, dot) && LettersIn(s, dot + 1, |s|);
    forall j | 0 <= j < |s| && j != at ensures s[j] != '@' {
      if j < at {
        assert IsLocalChar(s[j]);
      } else if j < dot {
        assert IsDomainChar(s[j]);
      } else if j > dot {
        assert IsAsciiLetter(s[j]);
      }
    }
  }

  /** The accepted example of the test suite is kept as given. */
  lemma AcceptedExample()
    ensures ParseEmail("john@example.com") == Success(Email("john@example.com"))
  {
    var john := "john@example.com";
    assert john[4] == '@' && john[12] == '.';
    assert LocalCharsIn(john, 0, 4);
    assert DomainCharsIn(john, 5, 12);
    assert LettersIn(john, 13, 16);
    assert RegexMatches(john);
  }

  /** The rejected examples of the test suite, each with the check that rejects it. */
  lemma RejectedExamples()
    ensures ParseEmail("") == Failure(BlankEmail)
    ensures ParseEmail("   ") == Failure(BlankEmail)
    ensures ParseEmail("invalid-email") == Failure(MissingAtSymbol)
    ensures ParseEmail("not-an-email") == Failure(MissingAtSymbol)
    ensures ParseEmail("a@b") == Failure(InvalidFormat)
  {
    NoAtSign("invalid-email");
    NoAtSign("not-an-email");
    assert "a@b"[1] == '@';
  }

  /** A string whose first character is not whitespace and that has no `@`
      fails the second check. */
  lemma NoAtSign(s: string)
    requires 0 < |s| && !IsWhitespace(s[0]) && '@' !in s
    ensures ParseEmail(s) == Failure(MissingAtSymbol)
  {
  }
}
