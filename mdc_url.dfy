/**
 * `MDC_FILE_REGEX`, /^https:\/\/github\.com\/.*\.mdc$/, which both scripts
 * use to decide whether the current page shows a `.mdc` file.
 */
module MdcUrl {
  const Prefix := "https://github.com/"
  const Suffix := ".mdc"

  /** The characters JavaScript's `.` does not match. */
  predicate IsLineTerminator(c: char) {
    c == '\n' || c == '\r' || c == '\U{2028}' || c == '\U{2029}'
  }

  predicate NoLineTerminator(t: string) {
    forall i :: 0 <= i < |t| ==> !IsLineTerminator(t[i])
  }

  /** The pattern read as a grammar: the prefix, any line of text, the suffix, nothing after. */
  ghost predicate MatchesPattern(u: string) {
    exists mid :: NoLineTerminator(mid) && u == Prefix + mid + Suffix
  }

  /** `MDC_FILE_REGEX.test(u)`. */
  predicate IsMdcUrl(u: string) {
    && |u| >= |Prefix| + |Suffix|
    && u[..|Prefix|] == Prefix
    && u[|u| - |Suffix|..] == Suffix
    && NoLineTerminator(u[|Prefix|..|u| - |Suffix|])
  }

  /** The test accepts exactly the texts the pattern describes. */
  lemma IsMdcUrlMatchesPattern(u: string)
    ensures IsMdcUrl(u) <==> MatchesPattern(u)
  {
    if IsMdcUrl(u) {
      var mid := u[|Prefix|..|u| - |Suffix|];
      assert u == Prefix + mid + Suffix by {
        assert u == u[..|Prefix|] + mid + u[|u| - |Suffix|..];
      }
    }
    if MatchesPattern(u) {
      var mid :| NoLineTerminator(mid) && u == Prefix + mid + Suffix;
      assert u[|Prefix|..|u| - |Suffix|] == mid;
    }
  }

  /** Any line of text between the prefix and the suffix is accepted. */
  lemma PatternAccepted(u: string, mid: string)
    requires NoLineTerminator(mid) && u == Prefix + mid + Suffix
    ensures IsMdcUrl(u)
  {
    IsMdcUrlMatchesPattern(u);
  }

  lemma RuleUrlParts(u: string, mid: string)
    requires u == "https://github.com/o/r/blob/main/.cursor/rules/a.mdc"
    requires mid == "o/r/blob/main/.cursor/rules/a"
    ensures u == Prefix + mid + Suffix && NoLineTerminator(mid)
  {
    assert u == Prefix + mid + Suffix;
  }

  /** A rule file in a repository matches. */
  lemma ExampleRuleUrl(u: string)
    requires u == "https://github.com/o/r/blob/main/.cursor/rules/a.mdc"
    ensures IsMdcUrl(u)
  {
    var mid := "o/r/blob/main/.cursor/rules/a";
    RuleUrlParts(u, mid);
    PatternAccepted(u, mid);
  }

  /** `$` admits nothing after `.mdc`: a query string or a fragment defeats the test. */
  lemma ExampleSuffixedUrls(rule: string, query: string, fragment: string)
    requires query == rule + "?plain=1" && fragment == rule + "#L3"
    ensures !IsMdcUrl(query) && !IsMdcUrl(fragment)
  {
    if |query| >= |Suffix| {
      assert query[|query| - |Suffix|..][3] == query[|query| - 1] == '1';
    }
    if |fragment| >= |Suffix| {
      assert fragment[|fragment| - |Suffix|..][3] == fragment[|fragment| - 1] == '3';
    }
  }

  /** The scheme must be https. */
  lemma ExampleInsecureUrl(u: string)
    requires u == "http://github.com/o/r/blob/main/a.mdc"
    ensures !IsMdcUrl(u)
  {
    assert u[4] == ':';
    if |u| >= |Prefix| { assert u[..|Prefix|][4] == ':'; }
  }
}
