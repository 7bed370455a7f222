# MDC renderer for GitHub, modelled in Dafny

Two userscripts render Cursor rule files (`.mdc`) on GitHub file pages as
markdown. `mdc-render-lite.js` adds a rendered view next to the source view,
with a two-item toggle control. `mdc-render.js` replaces the page's content
section with the rendered markdown and keeps the source textarea hidden.
Both scripts share one pure transformation, `processContent`. It turns a
leading YAML front-matter block into a fenced `yaml` code block so that the
markdown parser shows it as code.

The project has five main modules, plus two small shared ones. `Options` holds an `Option` datatype. `Polls` removes a finished poll from the list of running polls.

- `FrontMatter` (`frontmatter.dfy`) models `processContent` and the regex
  `^---\s*\n([\s\S]*?)\n---\s*\n([\s\S]*)$`.
  - A declarative definition, `IsSplitOf`, says what a decomposition is.
  - `Precedes` gives the order in which JavaScript's backtracking tries
    decompositions: longest opening whitespace first, then shortest body,
    then longest closing whitespace.
  - `IsFirstSplit` picks the first decomposition in that order.
  - An executable position search, `Match`, is proved to find exactly that
    decomposition, and to find none when none exists.
  - `IsWs` is the complete character set of JavaScript's `\s`.
- `FrontMatterExamples` (`frontmatter_examples.dfy`) gives concrete inputs
  with their exact outputs.
- `MdcUrl` (`mdc_url.dfy`) models `^https://github\.com/.*\.mdc$`. In that
  regex `.` excludes line terminators, and `$` means end of input.
- `LiteRenderer` (`lite_renderer.dfy`) models `mdc-render-lite.js`.
  - The page is reduced to the facts the script reads or writes.
  - The script's variables are fields of class `LiteScript`.
  - Each script function is a method, proved against a pure function that
    gives its effect on the page.
- `Renderer` (`renderer.dfy`) models `mdc-render.js` the same way, in class
  `RenderScript`.

In both classes, timer ticks and mutation notifications are methods that the
environment calls.
- `polls` holds the `attempts` counter of each running `setInterval` poll.
- `observing` stands for the script's observer variable being non-null.
- The ghost counter `liveObservers` counts observers that were created and
  not yet disconnected. `Valid()` ties it to `observing`, which is how the
  model states that at most one observer is ever live.

The rendered output is represented by the markdown text handed to
`marked.parse`. The parser itself is not modelled.

## Model

| member | source | states |
|---|---|---|
| FrontMatter.MatchIsFirstSplit | mdc-render-lite.js:18 | the regex match is the first decomposition `"---" + w1 + "\n" + body + "\n---" + w2 + "\n" + rest` (w1, w2 whitespace) in backtracking order, and there is no match exactly when no decomposition exists |
| FrontMatter.ProcessContentUnchanged | mdc-render-lite.js:41-48 | the input is returned unchanged exactly when it has no front-matter decomposition |
| FrontMatter.ProcessContentFences | mdc-render-lite.js:42-45 | on a match the output is "```yaml\n" + body + "\n```\n\n" + rest for the first decomposition; mdc-render.js:97-100 is the same code |
| FrontMatter.YamlHasNoClosingDelimiter | mdc-render.js:27 | the lazy body never contains a closing `\n---` + whitespace + `\n` |
| FrontMatter.FencesPlainBlock | mdc-render-lite.js:18 | `"---\n" + y + "\n---\n" + r` is fenced as y and r when y has no `---` line and neither y nor r starts with whitespace |
| FrontMatter.UnchangedWithoutPositions | mdc-render-lite.js:41-48 | text in which the delimiters fit nowhere is returned unchanged |
| FrontMatter.BlankUnchanged | mdc-render.js:94-103 | whitespace-only text cannot open a block and is returned unchanged |
| FrontMatter.SplitPositions | mdc-render-lite.js:18 | every decomposition corresponds to delimiter positions in the text, and the positions rebuild it |
| FrontMatter.BuildIsSplit | mdc-render-lite.js:18 | delimiter positions that satisfy the regex yield a decomposition, and the decomposition gives back those positions |
| FrontMatter.SearchReachesSplit | mdc-render-lite.js:18 | the search finds a decomposition no later in backtracking order than any given one |
| FrontMatter.WsRun | mdc-render-lite.js:18 | the greedy `\s*` run: all whitespace and maximal |
| FrontMatter.BackOff | mdc-render-lite.js:18 | backtracking out of a `\s*` run stops at the last newline within reach |
| FrontMatter.CloseNewline | mdc-render-lite.js:18 | a closing `\n---` followed by whitespace and the longest reachable newline |
| FrontMatter.ScanBody | mdc-render-lite.js:18 | the lazy body stops at the first closing delimiter |
| FrontMatter.OpenFrom | mdc-render-lite.js:18 | the opening run is tried from longest to shortest, and the first that closes wins |
| FrontMatterExamples.FencesFrontMatter | mdc-render-lite.js:41-48 | "---\nkey: val\n---\nHello" becomes "```yaml\nkey: val\n```\n\nHello" |
| FrontMatterExamples.PlainMarkdownUnchanged | mdc-render-lite.js:41-48 | text without a leading `---` is unchanged |
| FrontMatterExamples.UnterminatedUnchanged | mdc-render-lite.js:18 | "---\nkey: val\n---" (no newline after the closing `---`) is unchanged |
| FrontMatterExamples.TrailingTextUnchanged | mdc-render-lite.js:18 | "---\nk\n---x\nmore" (text after the closing `---`) is unchanged |
| FrontMatterExamples.BlankLineSwallowed | mdc-render.js:27 | the greedy closing `\s*` swallows the blank line after the block |
| FrontMatterExamples.OpeningBacktracks | mdc-render.js:27 | "---\n\n---\nX" backtracks the opening run and yields an empty body |
| FrontMatterExamples.CrlfKeepsCarriageReturn | mdc-render.js:27 | with CRLF line ends the `\r` before the closing delimiter stays in the body |
| MdcUrl.IsMdcUrlMatchesPattern | mdc-render-lite.js:17 | the URL test holds exactly when the URL is `https://github.com/` + text without line terminators + `.mdc` |
| MdcUrl.ExampleRuleUrl | mdc-render.js:24 | a rule file URL is accepted |
| MdcUrl.ExampleSuffixedUrls | mdc-render.js:24 | a query string or fragment after `.mdc` defeats the test |
| MdcUrl.ExampleInsecureUrl | mdc-render-lite.js:17 | an `http:` URL is rejected |
| LiteRenderer.NewControl | mdc-render-lite.js:50-117 | a new toggle control is in the state `setViewMode('rendered')` writes: the rendered item selected and current, the source item neither |
| LiteRenderer.RenderOutcome | mdc-render-lite.js:152-199 | `renderMDC` fails and changes nothing without a textarea or with blank text. It succeeds exactly when there is a section. On success the rendered node holds the processed text and is displayed, and the section is hidden. A control is added only to a toolbar without one, so there is at most one; an added control selects the rendered view, which is the view displayed |
| LiteRenderer.ViewModeApplied | mdc-render-lite.js:119-150 | a no-op unless the rendered node, the section and the control all exist. Otherwise exactly the chosen view is displayed and the control's first item matches it |
| LiteRenderer.ViewModeLastWins | mdc-render-lite.js:119-150 | of two successive `setViewMode` calls the last decides the page, so repeating a mode changes nothing further |
| LiteRenderer.ViewModeKeepsViewAndControlInStep | mdc-render-lite.js:127-149 | after `setViewMode`, one view is displayed, and the selected and `aria-current` item is that view's |
| LiteRenderer.RerenderKeepsControlSelection | mdc-render-lite.js:183-191 | a re-render after choosing the source view displays the rendered view while the control still selects source |
| LiteRenderer.CleanedUp | mdc-render-lite.js:201-208 | `cleanup` removes the rendered node and the first control, and displays the section if there is one |
| LiteRenderer.CleanupRemovesEverything | mdc-render-lite.js:201-218 | after `cleanup` there is no rendered node and no control, and the original is displayed |
| LiteRenderer.LiteScript.constructor | mdc-render-lite.js:283-286 | `init`: the initial variables, then `handlePageChange` on the current URL |
| LiteRenderer.LiteScript.SetViewMode | mdc-render-lite.js:119-150 | applies `ViewModeApplied` and keeps every control in lock-step |
| LiteRenderer.LiteScript.RenderMDC | mdc-render-lite.js:152-199 | applies `RenderOutcome`; at most one control remains |
| LiteRenderer.LiteScript.Cleanup | mdc-render-lite.js:201-218 | applies `CleanedUp`, disconnects the observer, clears `isActive`, and leaves running polls alone |
| LiteRenderer.LiteScript.SetupTextareaObserver | mdc-render-lite.js:220-243 | without a textarea it fails and keeps the old observer. Otherwise it disconnects the old observer before creating the new one, so exactly one is live |
| LiteRenderer.LiteScript.HandlePageChange | mdc-render-lite.js:245-280 | on an `.mdc` URL while inactive it activates and renders, then installs the observer on success or starts a poll. While active it only re-installs the observer. Off `.mdc` while active it cleans up; otherwise it does nothing |
| LiteRenderer.LiteScript.PollTick | mdc-render-lite.js:260-269 | a poll tick renders. It stops at the first success, which installs the observer, or after 50 attempts |
| LiteRenderer.LiteScript.OnTextareaMutation | mdc-render-lite.js:230-233 | a textarea change re-renders |
| LiteRenderer.LiteScript.OnDocumentMutation | mdc-render-lite.js:288-294 | a changed location is recorded and handled as a page change, with each of the four outcomes of `handlePageChange` (activate and render, re-install the observer, clean up, nothing). An unchanged location changes nothing |
| Renderer.InjectedStyles | mdc-render.js:109-114 | `injectStyles` adds one style element unless one was already added, and sets `cssInjected` |
| Renderer.InjectStylesOnce | mdc-render.js:109-114 | after the first call, later calls do nothing |
| Renderer.Render | mdc-render.js:120-147 | `renderMarkdown` fails and changes nothing without a section or textarea, or with empty text. On success the section holds exactly the hidden textarea and one markdown body with the processed text, and the styles are injected |
| Renderer.RenderIdempotent | mdc-render.js:120-147 | rendering again changes nothing, and in particular adds no second style element |
| Renderer.WhitespaceOnlyIsRendered | mdc-render.js:128-131 | whitespace-only text is rendered, as itself |
| Renderer.GuardedRender | mdc-render.js:168-175 | only non-empty text that differs from `lastContent` is rendered, and it becomes `lastContent` before the render |
| Renderer.GuardedRenderIdempotent | mdc-render.js:178-185 | the same content seen twice renders at most once |
| Renderer.ContentSeenWithoutSectionStaysUnrendered | mdc-render.js:168-175 | text seen while the section is missing is recorded but not rendered, and it is not rendered later either until it changes |
| Renderer.RenderScript.constructor | mdc-render.js:231-232 | the initial variables, then `handleUrlChange` on the current URL |
| Renderer.RenderScript.InjectStyles | mdc-render.js:109-114 | applies `InjectedStyles`; one style element exists exactly when `cssInjected` |
| Renderer.RenderScript.RenderMarkdown | mdc-render.js:120-147 | applies `Render` |
| Renderer.RenderScript.RenderIfChanged | mdc-render.js:169-175 | applies `GuardedRender` |
| Renderer.RenderScript.ObserveContentChanges | mdc-render.js:156-196 | the old observer is disconnected first. Without a textarea it fails and no observer remains. Otherwise it applies the guarded render to the textarea's text and one observer is live |
| Renderer.RenderScript.OnContentMutation | mdc-render.js:178-186 | a change of the observed textarea applies the guarded render to its text |
| Renderer.RenderScript.WaitForTextareaAndObserve | mdc-render.js:202-206 | starts a poll with no attempts made |
| Renderer.RenderScript.PollTick | mdc-render.js:206-216 | a poll tick tries to set up observation. It stops at the first success or after 100 attempts |
| Renderer.RenderScript.HandleUrlChange | mdc-render.js:223-228 | an `.mdc` URL starts a poll; any other URL changes nothing |
| Renderer.RenderScript.OnDocumentMutation | mdc-render.js:235-240 | a changed location is recorded and handled as a URL change; the page is untouched |

## Left out

- `marked.parse` and `hljs.highlightElement` are foreign libraries. The
  rendered node holds the markdown text handed to the parser.
- DOM markup is not modelled: element creation, class names, attributes,
  labels, and the click handlers that call `setViewMode`. The page is
  abstracted to the fields of `Page`.
- The CSS text and the `GM_addStyle` call are left out. `Renderer` counts
  the style elements added.
- `console.log` and `DEBUG` logging, the userscript header, and the
  `document.readyState` startup wiring are left out.
- `MutationObserver` and `setInterval` timing is not modelled. Each
  callback run is a method the environment calls. The 100 ms period is
  not modelled.
- Host page changes are a single method, `HostChange`, that replaces the
  page. Such changes include SPA navigation and content arriving late.
  Two assumptions about the host hold the invariants up:
  - `LiteRenderer.LiteScript.HostChange` may remove the toggle control but
    never adds one or alters one. The at-most-one-control and lock-step
    invariants depend on this.
  - `Renderer.RenderScript.HostChange` never adds or removes the style
    elements the script added. The invariant that one style element exists
    exactly when `cssInjected` is set depends on this.
- Renderer.RenderScript.OnContentMutation: the textarea node that an
  observer captured is not tracked. The text of the observed node is a
  parameter, while the render reads the page's current textarea.
- LiteRenderer.LiteScript.OnTextareaMutation: the same applies. The
  observed node's identity is not tracked.

In these places the scripts behave differently from what a user might expect; the model follows the code:

- In `mdc-render-lite.js`, moving between two `.mdc` pages while active does
  not re-render. It only re-installs the textarea observer.
- `cleanup` does not stop a running poll, so a poll can render after the
  user has left the `.mdc` page.
- A lite re-render leaves an existing toggle control as it was. After the
  user chose the source view, the rendered view is displayed while the
  control still selects source (`RerenderKeepsControlSelection`).
- `mdc-render.js` never undoes its rendering or its observer when the user
  navigates away. Each navigation to an `.mdc` URL starts a further poll.
