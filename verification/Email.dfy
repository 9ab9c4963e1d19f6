/** `validateEmail`: the test of a string against the pattern
    `^[^\s@]+@[^\s@]+\.[^\s@]+$`. */
module Email {
  import opened Wrappers
  import opened JsText

  /** The character class `[^\s@]`. */
  predicate IsAddressChar(c: char) {
    !IsWhiteSpace(c) && c != '@'
  }

  predicate AllAddressChars(s: string) {
    forall k :: 0 <= k < |s| ==> IsAddressChar(s[k])
  }

  /** `s` matches the whole pattern with its `@` at index `at` and its `\.` at
      index `dot`: three non-empty runs of `[^\s@]` separated by them. */
  ghost predicate MatchesAt(s: string, at: int, dot: int) {
    && 0 < at && at + 1 < dot && dot + 1 < |s|
    && AllAddressChars(s[..at]) && s[at] == '@'
    && AllAddressChars(s[at + 1..dot]) && s[dot] == '.'
    && AllAddressChars(s[dot + 1..])
  }

  ghost predicate MatchesPattern(s: string) {
    exists at, dot :: MatchesAt(s, at, dot)
  }

  /** The index of the first `c` in `s`. */
  function IndexOf(s: string, c: char): (r: Option<nat>)
    ensures r.Some? ==> r.value < |s| && s[r.value] == c
    ensures r.Some? ==> forall k :: 0 <= k < r.value ==> s[k] != c
    ensures r.None? ==> forall k :: 0 <= k < |s| ==> s[k] != c
  {
    if s == [] then None
    else if s[0] == c then Some(0)
    else match IndexOf(s[1..], c)
      case None => None
      case Some(k) => assert s[k + 1] == s[1..][k]; Some(k + 1)
  }

  /** `validateEmail(s)`, deciding the pattern by splitting at the first `@`:
      a non-empty local part, then a domain free of `@` and white space with a
      `.` that is neither its first nor its last character. */
  function ValidateEmail(s: string): bool {
    match IndexOf(s, '@')
    case None => false
    case Some(at) =>
      var domain := s[at + 1..];
      && 0 < at && AllAddressChars(s[..at]) && AllAddressChars(domain)
      && exists k :: 0 < k < |domain| - 1 && domain[k] == '.'
  }

  /** An accepted address matches the pattern, split at its first `@`. */
  lemma ValidateEmailSound(s: string)
    requires ValidateEmail(s)
    ensures MatchesPattern(s)
  {
    var at := IndexOf(s, '@').value;
    var domain := s[at + 1..];
    var k :| 0 < k < |domain| - 1 && domain[k] == '.';
    var dot := at + 1 + k;
    assert s[at + 1..dot] == domain[..k] && s[dot + 1..] == domain[k + 1..];
    assert MatchesAt(s, at, dot);
  }

  /** A string that matches the pattern is accepted: its `@` is the first
      one, and the domain after it is free of `@` and white space. */
  lemma ValidateEmailComplete(s: string)
    requires MatchesPattern(s)
    ensures ValidateEmail(s)
  {
    var at', dot' :| MatchesAt(s, at', dot');
    var at := IndexOf(s, '@').value;
    assert at == at';
    var domain := s[at + 1..];
    forall k | 0 <= k < |domain| ensures IsAddressChar(domain[k]) {
      var j := at + 1 + k;
      if j < dot' {
        assert domain[k] == s[at + 1..dot'][k];
      } else if j > dot' {
        assert domain[k] == s[dot' + 1..][j - dot' - 1];
      }
    }
    assert domain[dot' - at - 1] == '.';
  }

  /** `validateEmail(s)` is true exactly when the pattern matches all of `s`. */
  lemma ValidateEmailMatchesPattern(s: string)
    ensures ValidateEmail(s) <==> MatchesPattern(s)
  {
    if ValidateEmail(s) {
      ValidateEmailSound(s);
    }
    if MatchesPattern(s) {
      ValidateEmailComplete(s);
    }
  }

  /** The same acceptance, said without the pattern: no white space anywhere,
      exactly one `@`, not in first position, and after it a `.` that is
      neither the first nor the last character of the domain. */
  ghost predicate IsPlausibleAddress(s: string) {
    && (forall k :: 0 <= k < |s| ==> !IsWhiteSpace(s[k]))
    && exists at ::
         && 0 < at < |s| && s[at] == '@'
         && (forall k :: 0 <= k < |s| && s[k] == '@' ==> k == at)
         && exists dot :: at + 1 < dot < |s| - 1 && s[dot] == '.'
  }

  lemma ValidateEmailCharacterisation(s: string)
    ensures ValidateEmail(s) <==> IsPlausibleAddress(s)
  {
    match IndexOf(s, '@')
    case None =>
    case Some(at) =>
      var domain := s[at + 1..];
      if ValidateEmail(s) {
        forall k | 0 <= k < |s| ensures !IsWhiteSpace(s[k]) && (s[k] == '@' ==> k == at) {
          if k < at {
            assert s[k] == s[..at][k];
          } else if k > at {
            assert s[k] == domain[k - at - 1];
          }
        }
        var i :| 0 < i < |domain| - 1 && domain[i] == '.';
        assert s[at + 1 + i] == '.';
      }
      if IsPlausibleAddress(s) {
        var at' :| && 0 < at' < |s| && s[at'] == '@'
                   && (forall k :: 0 <= k < |s| && s[k] == '@' ==> k == at')
                   && exists dot :: at' + 1 < dot < |s| - 1 && s[dot] == '.';
        assert at == at';
        var dot :| at + 1 < dot < |s| - 1 && s[dot] == '.';
        assert domain[dot - at - 1] == '.';
      }
  }

  /** A plain address is accepted. */
  lemma ValidateEmailAccepts()
    ensures ValidateEmail("a@b.co")
  {
    assert "a@b.co"[2..][1] == '.';
  }

  /** No dot after the `@`, a space, and an empty local part are rejected. */
  lemma ValidateEmailRejects()
    ensures !ValidateEmail("a@b")
    ensures !ValidateEmail("a b@c.co")
    ensures !ValidateEmail("@b.co")
  {
  }
}
