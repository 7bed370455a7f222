/**
 * The content transformer shared by both userscripts (`processContent`):
 * a leading YAML front-matter block, delimited by `---` lines, is re-emitted
 * as a fenced `yaml` code block; any other text is returned unchanged.
 *
 * The block is recognised by the regular expression
 *   /^---\s*\n([\s\S]*?)\n---\s*\n([\s\S]*)$/
 * Its declarative meaning is `IsSplitOf`: the text is
 *   "---" + openWs + "\n" + yaml + "\n---" + closeWs + "\n" + markdown
 * with openWs and closeWs made of whitespace. A text may split in several
 * ways; a JavaScript regex engine returns the first one its backtracking
 * search reaches (`Precedes`): the longest openWs (greedy `\s*`), then the
 * shortest yaml (lazy `*?`), then the longest closeWs (greedy `\s*`).
 * `Match` performs that search over positions of the text, and
 * `MatchIsFirstSplit` proves it returns exactly that first split.
 */
module FrontMatter {
  import opened Options

  /** JavaScript's `\s`: the WhiteSpace and LineTerminator code points. */
  predicate IsWs(c: char) {
    || c == ' ' || c == '\t' || c == '\n' || c == '\r' || c == '\U{000B}' || c == '\U{000C}'
    || c == '\U{00A0}' || c == '\U{1680}' || ('\U{2000}' <= c <= '\U{200A}')
    || c == '\U{2028}' || c == '\U{2029}' || c == '\U{202F}' || c == '\U{205F}'
    || c == '\U{3000}' || c == '\U{FEFF}'
  }

  predicate AllWs(t: string) {
    forall i :: 0 <= i < |t| ==> IsWs(t[i])
  }

  // ---------------------------------------------------------------------
  // The declarative meaning of a match

  /** The two capture groups (yaml, markdown) and the whitespace the two `\s*` consume. */
  datatype Split = Split(openWs: string, yaml: string, closeWs: string, markdown: string)

  function Assemble(m: Split): string {
    "---" + m.openWs + "\n" + m.yaml + "\n---" + m.closeWs + "\n" + m.markdown
  }

  /** `m` is one way the regular expression can match all of `s`. */
  predicate IsSplitOf(s: string, m: Split) {
    AllWs(m.openWs) && AllWs(m.closeWs) && Assemble(m) == s
  }

  ghost predicate HasFrontMatter(s: string) {
    exists m :: IsSplitOf(s, m)
  }

  /** The backtracking engine reaches split `a` before split `b`. */
  predicate Precedes(a: Split, b: Split) {
    || |a.openWs| > |b.openWs|
    || (|a.openWs| == |b.openWs| && |a.yaml| < |b.yaml|)
    || (|a.openWs| == |b.openWs| && |a.yaml| == |b.yaml| && |a.closeWs| > |b.closeWs|)
  }

  /** `m` is the split a JavaScript engine reports for `s`. */
  ghost predicate IsFirstSplit(s: string, m: Split) {
    IsSplitOf(s, m) && forall m' :: IsSplitOf(s, m') && m' != m ==> Precedes(m, m')
  }

  /** The text `processContent` emits for a match. */
  function Fenced(m: Split): string {
    "```yaml\n" + m.yaml + "\n```\n\n" + m.markdown
  }

  // ---------------------------------------------------------------------
  // The same notions over positions of the text

  /** Every character of s[i..j] is whitespace. */
  predicate WsBetween(s: string, i: nat, j: nat)
    requires i <= j <= |s|
  {
    forall x :: i <= x < j ==> IsWs(s[x])
  }

  /** `\s*\n` starting at i can end with the newline at e. */
  predicate WsThenNewline(s: string, i: nat, e: nat) {
    i <= e < |s| && WsBetween(s, i, e) && s[e] == '\n'
  }

  /** `\n---\s*\n` can start at q and end with the newline at e. */
  predicate ClosesAt(s: string, q: nat, e: nat) {
    q + 4 <= |s| && s[q..q + 4] == "\n---" && WsThenNewline(s, q + 4, e)
  }

  /** Positions of a match: the opening newline, the closing `\n---`, the closing newline. */
  datatype At = At(open: nat, close: nat, end: nat)

  /** The part of a match after the leading `---`. */
  predicate FramesAt(s: string, a: At) {
    WsThenNewline(s, 3, a.open) && a.open < a.close && ClosesAt(s, a.close, a.end)
  }

  predicate MatchesAt(s: string, a: At) {
    |s| >= 3 && s[..3] == "---" && FramesAt(s, a)
  }

  /** `a` is `b`, or the engine reaches `a` before `b`. */
  predicate NoLaterThan(a: At, b: At) {
    || a.open > b.open
    || (a.open == b.open && a.close < b.close)
    || (a.open == b.open && a.close == b.close && a.end >= b.end)
  }

  /** The split whose delimiters sit at the positions `a`. */
  function Build(s: string, a: At): (m: Split)
    requires FramesAt(s, a)
  {
    Split(s[3..a.open], s[a.open + 1..a.close], s[a.close + 4..a.end], s[a.end + 1..])
  }

  // ---------------------------------------------------------------------
  // The backtracking search

  /** Length of the whitespace run a greedy `\s*` consumes at i. */
  function WsRun(s: string, i: nat): (n: nat)
    requires i <= |s|
    ensures i + n <= |s| && WsBetween(s, i, i + n)
    ensures i + n == |s| || !IsWs(s[i + n])
    decreases |s| - i
  {
    if i < |s| && IsWs(s[i]) then 1 + WsRun(s, i + 1) else 0
  }

  /** Greedy `\s*` giving back one character at a time until `\n` follows:
      the last newline at a position in [i, p]. */
  function BackOff(s: string, i: nat, p: nat): (r: Option<nat>)
    requires i <= p
    ensures r.Some? ==> i <= r.value <= p && r.value < |s| && s[r.value] == '\n'
    ensures forall x: nat :: i <= x <= p && x < |s| && s[x] == '\n' ==> r.Some? && x <= r.value
    decreases p - i
  {
    if p < |s| && s[p] == '\n' then Some(p)
    else if p == i then None
    else BackOff(s, i, p - 1)
  }

  /** `\n---\s*\n` tried at q: the newline that ends the longest closing delimiter there. */
  function CloseNewline(s: string, q: nat): (r: Option<nat>)
    ensures r.Some? ==> ClosesAt(s, q, r.value)
    ensures forall e: nat :: ClosesAt(s, q, e) ==> r.Some? && e <= r.value
  {
    if q + 4 <= |s| && s[q..q + 4] == "\n---" then
      var run := WsRun(s, q + 4);
      BackOff(s, q + 4, q + 4 + run)
    else None
  }

  /** Lazy `[\s\S]*?`: the closing delimiter is tried at q, q + 1, ... */
  function ScanBody(s: string, q: nat): (r: Option<(nat, nat)>)
    ensures r.Some? ==> q <= r.value.0 && ClosesAt(s, r.value.0, r.value.1)
    ensures r.Some? ==> forall e: nat :: ClosesAt(s, r.value.0, e) ==> e <= r.value.1
    ensures forall q': nat, e: nat :: q <= q' && ClosesAt(s, q', e) ==> r.Some? && r.value.0 <= q'
    decreases |s| - q
  {
    match CloseNewline(s, q)
    case Some(e) => Some((q, e))
    case None => if q + 4 >= |s| then None else ScanBody(s, q + 1)
  }

  /** Greedy `\s*\n` after the opening `---`, backtracking from the newline
      at or before p: for each opening newline the body is scanned; if no
      closing delimiter follows, the next shorter opening is tried. */
  function OpenFrom(s: string, p: nat): (r: Option<At>)
    requires 3 <= p <= |s| && WsBetween(s, 3, p)
    ensures r.Some? ==> r.value.open <= p && FramesAt(s, r.value)
    ensures forall a: At :: a.open <= p && FramesAt(s, a) ==> r.Some? && NoLaterThan(r.value, a)
    decreases p
  {
    match BackOff(s, 3, p)
    case None => None
    case Some(o) =>
      match ScanBody(s, o + 1)
      case Some((q, e)) => Some(At(o, q, e))
      case None => if o == 3 then None else OpenFrom(s, o - 1)
  }

  /** `content.match(YAML_FRONTMATTER_REGEX)`, as the split it captures. */
  function Match(s: string): (r: Option<Split>)
  {
    if |s| >= 3 && s[..3] == "---" then
      match OpenFrom(s, 3 + WsRun(s, 3))
      case Some(a) => Some(Build(s, a))
      case None => None
    else None
  }

  /** `processContent`: fence the front matter, or return the text unchanged. */
  function ProcessContent(s: string): string
  {
    match Match(s)
    case Some(m) => Fenced(m)
    case None => s
  }

  // ---------------------------------------------------------------------
  // Splits and positions describe the same matches

  lemma AllWsSlice(s: string, i: nat, j: nat)
    requires i <= j <= |s|
    ensures AllWs(s[i..j]) <==> WsBetween(s, i, j)
  {
    if AllWs(s[i..j]) {
      forall x | i <= x < j ensures IsWs(s[x]) { assert s[x] == s[i..j][x - i]; }
    }
  }

  /** A split of s puts its delimiters at the positions its lengths give. */
  lemma {:induction false} SplitPositions(s: string, m: Split)
    requires IsSplitOf(s, m)
    ensures var a := PositionsOf(m); MatchesAt(s, a) && Build(s, a) == m
  {
    var a := PositionsOf(m);
    var o, q, e := a.open, a.close, a.end;
    var t1 := "---" + m.openWs;
    var t2 := t1 + "\n" + m.yaml;
    var t3 := t2 + "\n---" + m.closeWs;
    assert s == t3 + "\n" + m.markdown;
    assert |t1| == o && |t2| == q && |t3| == e;
    assert s[..3] == "---";
    assert s[3..o] == m.openWs;
    assert s[o] == '\n';
    assert s[o + 1..q] == m.yaml;
    assert s[q..q + 4] == "\n---";
    assert s[q + 4..e] == m.closeWs;
    assert s[e] == '\n';
    assert s[e + 1..] == m.markdown;
    AllWsSlice(s, 3, o);
    AllWsSlice(s, q + 4, e);
  }

  /** Where the delimiters of a split sit in the text. */
  function PositionsOf(m: Split): (a: At)
    ensures a.open == 3 + |m.openWs| && a.close == a.open + 1 + |m.yaml| && a.end == a.close + 4 + |m.closeWs|
  {
    var o := 3 + |m.openWs|;
    var q := o + 1 + |m.yaml|;
    At(o, q, q + 4 + |m.closeWs|)
  }

  /** The delimiters at positions `a` cut the text into a split. */
  lemma {:induction false} BuildIsSplit(s: string, a: At)
    requires MatchesAt(s, a)
    ensures IsSplitOf(s, Build(s, a)) && PositionsOf(Build(s, a)) == a
  {
    AllWsSlice(s, 3, a.open);
    AllWsSlice(s, a.close + 4, a.end);
    BuildReassembles(s, a);
  }

  lemma JoinSlices(s: string, j: nat, k: nat)
    requires j <= k <= |s|
    ensures s[..j] + s[j..k] == s[..k]
  {
  }

  /** Putting the pieces cut at positions `a` back together gives the text. */
  lemma BuildReassembles(s: string, a: At)
    requires MatchesAt(s, a)
    ensures Assemble(Build(s, a)) == s
  {
    var m := Build(s, a);
    var o, q, e := a.open, a.close, a.end;
    var t := "---" + m.openWs;
    JoinSlices(s, 3, o);
    assert t == s[..o];
    t := t + "\n";
    JoinSlices(s, o, o + 1);
    assert t == s[..o + 1];
    t := t + m.yaml;
    JoinSlices(s, o + 1, q);
    assert t == s[..q];
    t := t + "\n---";
    JoinSlices(s, q, q + 4);
    assert t == s[..q + 4];
    t := t + m.closeWs;
    JoinSlices(s, q + 4, e);
    assert t == s[..e];
    t := t + "\n";
    JoinSlices(s, e, e + 1);
    assert t == s[..e + 1];
    t := t + m.markdown;
    JoinSlices(s, e + 1, |s|);
    assert t == s;
  }

  // ---------------------------------------------------------------------
  // What `processContent` computes

  /** A greedy `\s*` never ends its match past the whitespace run. */
  lemma OpeningInRun(s: string, a: At)
    requires FramesAt(s, a)
    ensures a.open < 3 + WsRun(s, 3)
  {
    WsUpToNewline(s, 3, a.open, 3 + WsRun(s, 3));
  }

  lemma WsUpToNewline(s: string, i: nat, e: nat, x: nat)
    requires WsThenNewline(s, i, e) && i <= x
    ensures x <= e ==> IsWs(s[x])
  {
  }

  /** The engine's order on splits is its order on delimiter positions. */
  lemma PrecedesByPositions(m: Split, m': Split)
    requires NoLaterThan(PositionsOf(m), PositionsOf(m')) && PositionsOf(m) != PositionsOf(m')
    ensures Precedes(m, m')
  {
  }

  /** The search finds a match whenever there is one, and none the engine reaches later. */
  lemma SearchFinds(s: string, a': At)
    requires MatchesAt(s, a')
    ensures var r := OpenFrom(s, 3 + WsRun(s, 3));
      r.Some? && NoLaterThan(r.value, a') && Match(s) == Some(Build(s, r.value))
  {
    OpeningInRun(s, a');
  }

  /** Every split of s is found by the search, or comes after the one it finds. */
  lemma {:induction false} SearchReachesSplit(s: string, m': Split)
    requires IsSplitOf(s, m')
    ensures Match(s).Some? && (m' == Match(s).value || Precedes(Match(s).value, m'))
  {
    SplitPositions(s, m');
    var a' := PositionsOf(m');
    SearchFinds(s, a');
    var a := OpenFrom(s, 3 + WsRun(s, 3)).value;
    BuildIsSplit(s, a);
    var m := Build(s, a);
    if a == a' {
      assert m == m';
    } else {
      assert PositionsOf(m) == a;
      PrecedesByPositions(m, m');
    }
  }

  /** The search returns the first split the backtracking engine reaches,
      and finds none exactly when the text has no front-matter block. */
  lemma MatchIsFirstSplit(s: string)
    ensures Match(s).Some? ==> IsFirstSplit(s, Match(s).value)
    ensures Match(s).None? <==> !HasFrontMatter(s)
  {
    forall m' | IsSplitOf(s, m')
      ensures Match(s).Some? && (m' == Match(s).value || Precedes(Match(s).value, m'))
    {
      SearchReachesSplit(s, m');
    }
    if Match(s).Some? {
      BuildIsSplit(s, OpenFrom(s, 3 + WsRun(s, 3)).value);
    }
  }

  /** A text without a leading front-matter block is returned unchanged,
      and a text with one never is. */
  lemma ProcessContentUnchanged(s: string)
    ensures ProcessContent(s) == s <==> !HasFrontMatter(s)
  {
    MatchIsFirstSplit(s);
    if Match(s).Some? {
      assert ProcessContent(s)[0] == '`' && s[0] == '-';
    }
  }

  /** With a front-matter block, the output is the fenced yaml of the first
      split followed by the rest of the text verbatim. */
  lemma ProcessContentFences(s: string, m: Split)
    requires IsFirstSplit(s, m)
    ensures ProcessContent(s) == "```yaml\n" + m.yaml + "\n```\n\n" + m.markdown
  {
    MatchIsFirstSplit(s);
    var r := Match(s).value;
    assert r == m;
  }

  /** The lazy `*?` keeps the yaml as short as it can be: no closing
      delimiter (`\n---`, whitespace, `\n`) starts inside it. */
  lemma {:induction false} YamlHasNoClosingDelimiter(s: string, m: Split)
    requires IsFirstSplit(s, m)
    ensures forall q: nat, e: nat :: 4 + |m.openWs| <= q < 4 + |m.openWs| + |m.yaml| ==> !ClosesAt(s, q, e)
  {
    SplitPositions(s, m);
    var a := PositionsOf(m);
    forall q: nat, e: nat | a.open + 1 <= q < a.close
      ensures !ClosesAt(s, q, e)
    {
      if ClosesAt(s, q, e) {
        var b := At(a.open, q, e);
        BuildIsSplit(s, b);
        assert false;
      }
    }
  }

  /** A split is the first one when no other delimiter positions come earlier. */
  lemma FirstByPositions(s: string, m: Split)
    requires IsSplitOf(s, m)
    requires forall a: At :: MatchesAt(s, a) ==> NoLaterThan(PositionsOf(m), a)
    ensures IsFirstSplit(s, m)
  {
    SplitPositions(s, m);
    forall m' | IsSplitOf(s, m') && m' != m ensures Precedes(m, m') {
      SplitPositions(s, m');
      PrecedesByPositions(m, m');
    }
  }

  /** No line of y begins with `---`. */
  predicate NoDashLine(y: string) {
    forall i :: 0 <= i < |y| - 3 && y[i] == '\n' ==> !(y[i + 1] == '-' && y[i + 2] == '-' && y[i + 3] == '-')
  }

  /** Text of the common shape: `---`, yaml, `---`, markdown. */
  function PlainBlock(y: string, r: string): string {
    "---\n" + y + "\n---\n" + r
  }

  /** In the common shape no closing delimiter starts inside the yaml. */
  lemma PlainBlockNoEarlyClose(y: string, r: string, q: nat)
    requires NoDashLine(y)
    requires 4 <= q < 4 + |y|
    ensures PlainBlock(y, r)[q..q + 4] != "\n---"
  {
    var s, n := PlainBlock(y, r), |y|;
    if s[q] == '\n' {
      var i := q - 4;
      assert y[i] == '\n';
      if i < n - 3 {
        assert s[q + 1] == y[i + 1] && s[q + 2] == y[i + 2] && s[q + 3] == y[i + 3];
      } else {
        assert s[4 + n] == '\n';
      }
    }
  }

  /** In the common shape the only match is the obvious one. */
  lemma PlainBlockPositions(y: string, r: string, a: At)
    requires |y| > 0 && !IsWs(y[0]) && NoDashLine(y)
    requires r == [] || !IsWs(r[0])
    requires MatchesAt(PlainBlock(y, r), a)
    ensures a.open == 3 && (a.close > 4 + |y| || a == At(3, 4 + |y|, 8 + |y|))
  {
    var s, n := PlainBlock(y, r), |y|;
    assert s[4] == y[0];
    assert s[8 + n] == '\n' && (r != [] ==> s[9 + n] == r[0]);
    if a.close < 4 + n {
      PlainBlockNoEarlyClose(y, r, a.close);
    }
  }

  /** The common shape: a yaml block whose first character is not
      whitespace and none of whose lines starts with `---`, followed by a
      markdown part that does not start with whitespace. Such a block is
      fenced with its yaml and markdown verbatim. */
  lemma {:induction false} FencesPlainBlock(s: string, y: string, r: string)
    requires |y| > 0 && !IsWs(y[0]) && NoDashLine(y)
    requires r == [] || !IsWs(r[0])
    requires s == PlainBlock(y, r)
    ensures ProcessContent(s) == "```yaml\n" + y + "\n```\n\n" + r
  {
    var m := Split("", y, "", r);
    assert Assemble(m) == s;
    assert PositionsOf(m) == At(3, 4 + |y|, 8 + |y|);
    forall a: At | MatchesAt(s, a) ensures NoLaterThan(PositionsOf(m), a) {
      PlainBlockPositions(y, r, a);
    }
    FirstByPositions(s, m);
    ProcessContentFences(s, m);
  }

  /** A text in which the delimiters fit nowhere is returned unchanged. */
  lemma UnchangedWithoutPositions(s: string)
    requires forall a: At :: !MatchesAt(s, a)
    ensures ProcessContent(s) == s
  {
    forall m ensures !IsSplitOf(s, m) {
      if IsSplitOf(s, m) {
        SplitPositions(s, m);
        assert false;
      }
    }
    ProcessContentUnchanged(s);
  }

  /** Text made only of whitespace cannot open with `---` and is returned unchanged. */
  lemma BlankUnchanged(s: string)
    requires AllWs(s)
    ensures ProcessContent(s) == s
  {
    if |s| >= 3 {
      assert IsWs(s[0]) && s[..3][0] == s[0];
      assert s[..3] != "---";
    }
    UnchangedWithoutPositions(s);
  }
}
