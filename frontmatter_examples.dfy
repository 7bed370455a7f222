/** Worked inputs of `processContent`, one per behaviour of the regular expression. */
module FrontMatterExamples {
  import opened FrontMatter

  /** The usual Cursor rule header. */
  lemma FencesFrontMatter(s: string)
    requires s == "---\nkey: val\n---\nHello"
    ensures ProcessContent(s) == "```yaml\nkey: val\n```\n\nHello"
  {
    assert NoDashLine("key: val");
    assert "```yaml\n" + "key: val" + "\n```\n\n" + "Hello" == "```yaml\nkey: val\n```\n\nHello";
    FencesPlainBlock(s, "key: val", "Hello");
  }

  /** Text without a leading `---` is left alone. */
  lemma PlainMarkdownUnchanged(s: string)
    requires s == "Just markdown, no frontmatter"
    ensures ProcessContent(s) == s
  {
    assert s[0] != '-';
    UnchangedWithoutPositions(s);
  }

  /** The closing `---` must be followed by a newline: at the very end of the text it closes nothing. */
  lemma UnterminatedUnchanged(s: string)
    requires s == "---\nkey: val\n---"
    ensures ProcessContent(s) == s
  {
    assert forall x :: 0 <= x < |s| && s[x] == '\n' ==> x == 3 || x == 12;
    forall a: At ensures !MatchesAt(s, a) {
      if a.close + 4 <= |s| && s[a.close..a.close + 4] == "\n---" {
        assert s[a.close] == '\n';
      }
    }
    UnchangedWithoutPositions(s);
  }

  /** Only whitespace may follow the closing `---` on its line. */
  lemma TrailingTextUnchanged(s: string)
    requires s == "---\nk\n---x\nmore"
    ensures ProcessContent(s) == s
  {
    assert forall x :: 0 <= x < |s| && s[x] == '\n' ==> x == 3 || x == 5 || x == 10;
    assert !IsWs(s[9]) && s[11] != '-';
    UnchangedWithoutPositions(s);
  }

  lemma BlankLinePositions(s: string, a: At)
    requires s == "---\na: 1\n---\n\n# T"
    requires MatchesAt(s, a)
    ensures a.open == 3 && a.close == 8 && a.end <= 13
  {
    assert forall x :: 0 <= x < |s| && s[x] == '\n' ==> x == 3 || x == 8 || x == 12 || x == 13;
    assert !IsWs(s[4]);
    assert a.open == 3;
    assert s[a.close] == '\n' && s[a.close + 1] == '-';
    assert a.close == 8;
    assert !IsWs(s[14]) && s[a.end] == '\n';
  }

  /** The greedy `\s*` after the closing `---` swallows the blank line that follows it. */
  lemma BlankLineSwallowed(s: string)
    requires s == "---\na: 1\n---\n\n# T"
    ensures ProcessContent(s) == "```yaml\na: 1\n```\n\n# T"
  {
    var m := Split("", "a: 1", "\n", "# T");
    assert Assemble(m) == s;
    forall a: At | MatchesAt(s, a) ensures NoLaterThan(PositionsOf(m), a) {
      BlankLinePositions(s, a);
    }
    FirstByPositions(s, m);
    assert Fenced(m) == "```yaml\na: 1\n```\n\n# T";
    ProcessContentFences(s, m);
  }

  /** The greedy opening `\s*` first takes both newlines, finds no closing
      delimiter after them, and backtracks to an empty yaml block. */
  lemma OpeningBacktracks(s: string)
    requires s == "---\n\n---\nX"
    ensures ProcessContent(s) == "```yaml\n\n```\n\nX"
  {
    var m := Split("", "", "", "X");
    assert Assemble(m) == s;
    forall a: At | MatchesAt(s, a) ensures NoLaterThan(PositionsOf(m), a) {
      BacktrackPositions(s, a);
    }
    FirstByPositions(s, m);
    assert Fenced(m) == "```yaml\n\n```\n\nX";
    ProcessContentFences(s, m);
  }

  lemma BacktrackPositions(s: string, a: At)
    requires s == "---\n\n---\nX"
    requires MatchesAt(s, a)
    ensures a == At(3, 4, 8)
  {
    assert forall x :: 0 <= x < |s| && s[x] == '\n' ==> x == 3 || x == 4 || x == 8;
    assert s[a.close] == '\n' && s[a.close + 1] == '-' && s[9] == 'X';
    assert a.close == 4;
    assert a.open == 3;
    assert !IsWs(s[9]) && s[a.end] == '\n';
  }

  lemma CrlfPositions(s: string, a: At)
    requires s == "---\r\nk: v\r\n---\r\nBody"
    requires MatchesAt(s, a)
    ensures a == At(4, 10, 15)
  {
    assert forall x :: 0 <= x < |s| && s[x] == '\n' ==> x == 4 || x == 10 || x == 15;
    assert !IsWs(s[5]);
    assert a.open == 4;
    assert s[a.close] == '\n' && s[a.close + 1] == '-' && s[16] == 'B';
    assert a.close == 10;
    assert s[a.end] == '\n';
  }

  /** With CRLF line ends the `\r` before the opening newline is taken by
      `\s*`, but the one ending the last yaml line stays in the yaml. */
  lemma CrlfKeepsCarriageReturn(s: string)
    requires s == "---\r\nk: v\r\n---\r\nBody"
    ensures ProcessContent(s) == "```yaml\nk: v\r\n```\n\nBody"
  {
    var m := Split("\r", "k: v\r", "\r", "Body");
    assert Assemble(m) == s;
    forall a: At | MatchesAt(s, a) ensures NoLaterThan(PositionsOf(m), a) {
      CrlfPositions(s, a);
    }
    FirstByPositions(s, m);
    assert Fenced(m) == "```yaml\nk: v\r\n```\n\nBody";
    ProcessContentFences(s, m);
  }
}
