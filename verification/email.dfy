/**
 * The signup email check, the regular expression `^[^\s@]+@[^\s@]+\.[^\s@]+$`.
 * `ValidEmail` decides it by splitting at `@`; `MatchesPattern` reads the
 * expression off directly, position by position, and the two are proved equal.
 */
module Email {
  import opened Js

  /** JavaScript's `\s`: the WhiteSpace and LineTerminator code points. */
  predicate IsJsSpace(c: char) {
    || c == '\t' || c == '\n' || c == '\U{0B}' || c == '\U{0C}' || c == '\r'
    || c == ' ' || c == '\U{A0}' || c == '\U{1680}'
    || ('\U{2000}' <= c <= '\U{200A}')
    || c == '\U{2028}' || c == '\U{2029}' || c == '\U{202F}' || c == '\U{205F}'
    || c == '\U{3000}' || c == '\U{FEFF}'
  }

  /** The class `[^\s@]`. */
  predicate Plain(c: char) {
    c != '@' && !IsJsSpace(c)
  }

  predicate NoSpace(s: string) {
    forall i :: 0 <= i < |s| ==> !IsJsSpace(s[i])
  }

  /** A dot with at least one character on each side of it. */
  predicate HasInnerDot(domain: string) {
    |domain| >= 3 && '.' in domain[1..|domain| - 1]
  }

  /** `emailRegExp.test(email)`: one `@`, a non-empty local part, a domain with an inner dot, no whitespace. */
  predicate ValidEmail(email: string) {
    var parts := Split(email, '@');
    && |parts| == 2
    && Truthy(parts[0]) && NoSpace(parts[0])
    && NoSpace(parts[1]) && HasInnerDot(parts[1])
  }

  /**
   * The regular expression read position by position: an `@` after at least
   * one character, a `.` at least two characters later and at least one
   * character before the end, and every other character in `[^\s@]`.
   */
  ghost predicate MatchesPattern(s: string) {
    exists at, dot ::
      && 0 < at && at + 1 < dot && dot + 1 < |s|
      && s[at] == '@' && s[dot] == '.'
      && forall k :: 0 <= k < |s| && k != at ==> Plain(s[k])
  }

  /** The split-based check accepts exactly the strings the expression matches. */
  lemma ValidEmailMatchesPattern(s: string)
    ensures ValidEmail(s) <==> MatchesPattern(s)
  {
    if ValidEmail(s) {
      ValidEmailSound(s);
    }
    if MatchesPattern(s) {
      var at, dot :| && 0 < at && at + 1 < dot && dot + 1 < |s|
                     && s[at] == '@' && s[dot] == '.'
                     && forall k :: 0 <= k < |s| && k != at ==> Plain(s[k]);
      PatternIsValid(s, at, dot);
    }
  }

  lemma ValidEmailSound(s: string)
    requires ValidEmail(s)
    ensures MatchesPattern(s)
  {
    var parts := Split(s, '@');
    var local, domain := parts[0], parts[1];
    JoinSplit(s, '@');
    assert s == local + "@" + domain;
    var at := |local|;
    var k :| 0 <= k < |domain[1..|domain| - 1]| && domain[1..|domain| - 1][k] == '.';
    var dot := at + 2 + k;
    assert s[dot] == domain[k + 1] == '.';
    assert s[at] == '@';
    forall j | 0 <= j < |s| && j != at ensures Plain(s[j]) {
      if j < at {
        assert s[j] == local[j];
      } else {
        assert s[j] == domain[j - at - 1];
      }
    }
    assert 0 < at && at + 1 < dot && dot + 1 < |s|;
  }

  lemma PatternIsValid(s: string, at: nat, dot: nat)
    requires 0 < at && at + 1 < dot && dot + 1 < |s|
    requires s[at] == '@' && s[dot] == '.'
    requires forall k :: 0 <= k < |s| && k != at ==> Plain(s[k])
    ensures ValidEmail(s)
  {
    var local, domain := s[..at], s[at + 1..];
    assert '@' !in local by {
      forall i | 0 <= i < |local| ensures local[i] != '@' { assert local[i] == s[i]; }
    }
    assert '@' !in domain by {
      forall i | 0 <= i < |domain| ensures domain[i] != '@' { assert domain[i] == s[at + 1 + i]; }
    }
    assert s == Join([local, domain], '@');
    SplitJoin([local, domain], '@');
    assert NoSpace(local) by {
      forall i | 0 <= i < |local| ensures !IsJsSpace(local[i]) { assert local[i] == s[i]; }
    }
    assert NoSpace(domain) by {
      forall i | 0 <= i < |domain| ensures !IsJsSpace(domain[i]) { assert domain[i] == s[at + 1 + i]; }
    }
    assert domain[1..|domain| - 1][dot - at - 2] == '.';
  }
}
