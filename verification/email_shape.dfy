/**
 * The contact form's email shape check, the regular expression
 * `^[^\s@]+@[^\s@]+\.[^\s@]+$` of script.js. It is a loose shape test:
 * a non-empty local part, one `@`, and a domain holding a `.` that has
 * at least one character on each side.
 */
module EmailShape {

  /** JavaScript's `\s` class: the ECMAScript white space and line terminator
      code points. The equivalences between the scan and the regular expression
      hold whatever this set is; only the worked examples depend on it. */
  predicate IsJsSpace(c: char) {
    c == ' ' || c == '\t' || c == '\n' || c == '\r' || c == '\U{000B}' || c == '\U{000C}'
    || c == '\U{00A0}' || c == '\U{1680}' || ('\U{2000}' <= c <= '\U{200A}')
    || c == '\U{2028}' || c == '\U{2029}' || c == '\U{202F}' || c == '\U{205F}'
    || c == '\U{3000}' || c == '\U{FEFF}'
  }

  /** A character of the class `[^\s@]`. */
  predicate Plain(c: char) {
    !IsJsSpace(c) && c != '@'
  }

  predicate AllPlain(s: string) {
    forall k :: 0 <= k < |s| ==> Plain(s[k])
  }

  /** The regular expression matches `s` with its `@` at index `at` and its
      literal `.` at index `dot`: three non-empty runs of `[^\s@]` around them. */
  ghost predicate MatchesAt(s: string, at: int, dot: int) {
    0 < at && at + 1 < dot && dot + 1 < |s|
    && AllPlain(s[..at]) && s[at] == '@'
    && AllPlain(s[at + 1..dot]) && s[dot] == '.'
    && AllPlain(s[dot + 1..])
  }

  /** `emailRegex.test(s)`: some placement of `@` and `.` matches. */
  ghost predicate RegexMatches(s: string) {
    exists at, dot :: MatchesAt(s, at, dot)
  }

  /** Index of the first `c` in `s`, or `|s|` when there is none. */
  function IndexOf(s: string, c: char): (i: nat)
    ensures i <= |s|
    ensures i < |s| ==> s[i] == c
    ensures forall k :: 0 <= k < i ==> s[k] != c
  {
    if |s| == 0 then 0
    else if s[0] == c then 0
    else 1 + IndexOf(s[1..], c)
  }

  /** The domain has a `.` that is neither its first nor its last character. */
  predicate InnerDot(d: string) {
    exists k :: 0 < k < |d| - 1 && d[k] == '.'
  }

  /** The shape check as a deterministic scan: split at the first `@`; the local
      part is non-empty and both parts hold only `[^\s@]`; the domain has an
      inner dot. */
  predicate IsValidEmail(s: string) {
    var at := IndexOf(s, '@');
    0 < at < |s| && AllPlain(s[..at]) && AllPlain(s[at + 1..]) && InnerDot(s[at + 1..])
  }

  /** The scan accepts exactly the strings the regular expression matches. */
  lemma ValidEmailIffRegex(s: string)
    ensures IsValidEmail(s) <==> RegexMatches(s)
  {
    if IsValidEmail(s) {
      var at := IndexOf(s, '@');
      var d := s[at + 1..];
      var k :| 0 < k < |d| - 1 && d[k] == '.';
      var dot := at + 1 + k;
      assert s[at + 1..dot] == d[..k];
      assert s[dot + 1..] == d[k + 1..];
      assert MatchesAt(s, at, dot);
    }
    if RegexMatches(s) {
      var at, dot :| MatchesAt(s, at, dot);
      assert IndexOf(s, '@') == at;
      var d := s[at + 1..];
      assert d == s[at + 1..dot] + [s[dot]] + s[dot + 1..];
      assert AllPlain(d) by {
        forall k | 0 <= k < |d| ensures Plain(d[k]) {
          if k < dot - at - 1 {
            assert d[k] == s[at + 1..dot][k];
          } else if k > dot - at - 1 {
            assert d[k] == s[dot + 1..][k - (dot - at)];
          }
        }
      }
      assert d[dot - at - 1] == '.';
    }
  }

  /** Every decomposition around an `@` decides the check: `L@D` is accepted iff
      `L` is non-empty, neither part holds white space or `@`, and `D` has an
      inner dot. */
  lemma ValidEmailIffParts(s: string, local: string, domain: string)
    requires s == local + "@" + domain
    ensures IsValidEmail(s) <==> |local| > 0 && AllPlain(local) && AllPlain(domain) && InnerDot(domain)
  {
    var at := IndexOf(s, '@');
    assert s[|local|] == '@';
    if IsValidEmail(s) {
      forall j | at < j < |s| ensures s[j] != '@' {
        assert s[j] == s[at + 1..][j - at - 1];
      }
    }
    if IsValidEmail(s) || AllPlain(local) {
      assert at == |local|;
      assert s[..at] == local;
      assert s[at + 1..] == domain;
    }
  }

  /** An accepted address holds exactly one `@`. */
  lemma ValidEmailHasOneAt(s: string)
    requires IsValidEmail(s)
    ensures multiset(s)['@'] == 1
  {
    var at := IndexOf(s, '@');
    assert s == s[..at] + [s[at]] + s[at + 1..];
    assert '@' !in s[..at];
    assert '@' !in s[at + 1..];
    assert multiset(s) == multiset(s[..at]) + multiset([s[at]]) + multiset(s[at + 1..]);
  }

  /** A plain address is accepted. */
  lemma AcceptsPlainAddress()
    ensures IsValidEmail("jo@mail.com")
  {
    assert "jo@mail.com" == "jo" + "@" + "mail.com";
    assert AllPlain("jo");
    assert AllPlain("mail.com");
    assert InnerDot("mail.com") by {
      assert "mail.com"[4] == '.';
    }
    ValidEmailIffParts("jo@mail.com", "jo", "mail.com");
  }

  /** A domain whose only dot is missing, first or last is refused. */
  lemma RejectsDomainWithoutInnerDot()
    ensures !IsValidEmail("jo@mail")
    ensures !IsValidEmail("jo@.com")
    ensures !IsValidEmail("jo@mail.")
  {
    ValidEmailIffParts("jo@mail", "jo", "mail");
    ValidEmailIffParts("jo@.com", "jo", ".com");
    ValidEmailIffParts("jo@mail.", "jo", "mail.");
  }

  /** An empty local part is refused. */
  lemma RejectsEmptyLocalPart()
    ensures !IsValidEmail("@mail.com")
  {
    ValidEmailIffParts("@mail.com", "", "mail.com");
  }

  /** White space in the local part is refused. */
  lemma RejectsSpaceInLocalPart()
    ensures !IsValidEmail("j o@mail.com")
  {
    ValidEmailIffParts("j o@mail.com", "j o", "mail.com");
    assert !Plain("j o"[1]);
  }

  /** A second `@` is refused. */
  lemma RejectsSecondAt()
    ensures !IsValidEmail("j@o@mail.com")
  {
    ValidEmailIffParts("j@o@mail.com", "j@o", "mail.com");
    assert !Plain("j@o"[1]);
  }
}
