/**
  `validateEmail`: the test of an address against `/^[^\s@]+@[^\s@]+\.[^\s@]+$/`.
  The regular expression is stated as a predicate on positions (EmailPattern);
  ValidateEmail decides it by scanning for the `@` and the last usable `.`,
  and ValidateEmailMatchesPattern proves that the two agree on every string.
 */
module Email {
  import opened Text

  /** A character of the class `[^\s@]`. */
  predicate IsPartChar(c: char) {
    !IsWs(c) && c != '@'
  }

  /** A match of `[^\s@]+`. */
  predicate IsPart(s: string) {
    |s| > 0 && forall k | 0 <= k < |s| :: IsPartChar(s[k])
  }

  /** The anchored regular expression: some `@` at position i and some `.` at
      position j cut the string into three non-empty runs of `[^\s@]`. */
  ghost predicate EmailPattern(s: string) {
    exists i, j | 0 < i && i + 1 < j && j + 1 < |s| ::
      && s[i] == '@' && s[j] == '.'
      && IsPart(s[..i]) && IsPart(s[i + 1..j]) && IsPart(s[j + 1..])
  }

  /** `validateEmail(email)`: no white space, one `@` that is not the first
      character, and a `.` after it that leaves a character on each side. */
  function ValidateEmail(email: string): bool {
    var at := IndexOf(email, '@');
    && 0 < at
    && at + 3 < |email|
    && (forall k | 0 <= k < |email| :: k == at || IsPartChar(email[k]))
    && at + 1 < LastIndexOf(email[..|email| - 1], '.')
  }

  /** What the scan accepts matches the regular expression: the first `@` and
      the last `.` before the final character are the cut points. */
  lemma ValidateEmailSound(s: string)
    requires ValidateEmail(s)
    ensures EmailPattern(s)
  {
    var i := IndexOf(s, '@');
    var j := LastIndexOf(s[..|s| - 1], '.');
    assert s[j] == '.';
    assert IsPart(s[..i]);
    assert IsPart(s[i + 1..j]);
    assert IsPart(s[j + 1..]);
  }

  /** Every match of the regular expression passes the scan. */
  lemma ValidateEmailComplete(s: string)
    requires EmailPattern(s)
    ensures ValidateEmail(s)
  {
    var i, j :| 0 < i && i + 1 < j && j + 1 < |s|
      && s[i] == '@' && s[j] == '.'
      && IsPart(s[..i]) && IsPart(s[i + 1..j]) && IsPart(s[j + 1..]);
    var at := IndexOf(s, '@');
    assert forall k | 0 <= k < i :: s[k] == s[..i][k];
    assert at == i;
    forall k | 0 <= k < |s| && k != i ensures IsPartChar(s[k]) {
      if k < i {
        assert s[k] == s[..i][k];
      } else if k < j {
        assert s[k] == s[i + 1..j][k - i - 1];
      } else if k > j {
        assert s[k] == s[j + 1..][k - j - 1];
      }
    }
    assert s[..|s| - 1][j] == '.';
    assert j <= LastIndexOf(s[..|s| - 1], '.');
  }

  /** The scan accepts exactly the strings the regular expression matches. */
  lemma ValidateEmailMatchesPattern(s: string)
    ensures ValidateEmail(s) <==> EmailPattern(s)
  {
    if ValidateEmail(s) {
      ValidateEmailSound(s);
    }
    if EmailPattern(s) {
      ValidateEmailComplete(s);
    }
  }

  /** Every three runs of `[^\s@]` joined by `@` and `.` form an accepted address. */
  lemma EmailAcceptsShape(local: string, domain: string, tld: string)
    requires IsPart(local) && IsPart(domain) && IsPart(tld)
    ensures ValidateEmail(local + "@" + domain + "." + tld)
  {
    var s := local + "@" + domain + "." + tld;
    var i := |local|;
    var j := |local| + 1 + |domain|;
    assert s[..i] == local;
    assert s[i + 1..j] == domain;
    assert s[j + 1..] == tld;
    assert s[i] == '@' && s[j] == '.';
    assert EmailPattern(s);
    ValidateEmailMatchesPattern(s);
  }

  /** Conversely, an accepted address splits into that shape, and its `@` is
      the only one. */
  lemma EmailShapeOfAccepted(s: string) returns (local: string, domain: string, tld: string)
    requires ValidateEmail(s)
    ensures IsPart(local) && IsPart(domain) && IsPart(tld)
    ensures s == local + "@" + domain + "." + tld
    ensures forall k | 0 <= k < |s| && s[k] == '@' :: k == |local|
  {
    var i := IndexOf(s, '@');
    var j := LastIndexOf(s[..|s| - 1], '.');
    local, domain, tld := s[..i], s[i + 1..j], s[j + 1..];
    ValidateEmailMatchesPattern(s);
    assert s[j] == '.';
    assert s == local + "@" + domain + "." + tld;
  }

  /** An accepted address is never blank, so the "required" check on the
      trimmed value never fires for it. */
  lemma AcceptedEmailNotBlank(s: string)
    requires ValidateEmail(s)
    ensures Trim(s) != []
  {
    TrimEmptyIff(s);
    assert !IsWs(s[IndexOf(s, '@')]);
  }

  /** Concrete cases: "a@b.co" is accepted; "abc", "a@b", "a@.c" and " a@b.co"
      (leading space: the pattern sees the raw, untrimmed value) are not. */
  lemma EmailExamples()
    ensures ValidateEmail("a@b.co")
    ensures !ValidateEmail("abc") && !ValidateEmail("a@b") && !ValidateEmail("a@.c")
    ensures !ValidateEmail(" a@b.co")
  {
    EmailAcceptsShape("a", "b", "co");
    assert "a" + "@" + "b" + "." + "co" == "a@b.co";
    assert IndexOf("abc", '@') == 3;
    assert IndexOf("a@b", '@') == 1;
    assert IndexOf("a@.c", '@') == 1;
    assert IsWs(" a@b.co"[0]);
  }
}
