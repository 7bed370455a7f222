/**
 * The full userscript (mdc-render.js) as a state machine.
 *
 * Unlike the lite script it replaces the contents of the first `<section>`
 * of the page with the original textarea (hidden) followed by the rendered
 * markdown, renders only when the textarea's text differs from the last
 * text it saw, and never tears anything down.
 */
module Renderer {
  import opened Options
  import FrontMatter
  import MdcUrl
  import opened Polls

  /** `maxAttempts` of the textarea poll. */
  const MaxAttempts := 100

  /** A child of the content section. */
  datatype Node =
    | HostNode                    // something the host page put there
    | SourceTextarea              // #read-only-cursor-text-area
    | MarkdownBody(markdown: string) // the `.markdown-body` div: the markdown handed to the parser

  /** What the script sees of the page. */
  datatype Page = Page(
    url: string,                 // location.href
    hasSection: bool,            // document.querySelector('section') is found
    sectionChildren: seq<Node>,  // that section's children
    textarea: Option<string>,    // #read-only-cursor-text-area and its textContent
    textareaShown: bool,         // the textarea's display is not 'none'
    styleSheets: nat)            // style elements added by GM_addStyle

  /** The script's variables that rendering reads or writes, with the page. */
  datatype State = State(page: Page, cssInjected: bool, lastContent: string)

  // ---------------------------------------------------------------------
  // Effects on the page

  /** The effect of `injectStyles()`. */
  function InjectedStyles(s: State): (r: State)
    ensures r.cssInjected
    ensures r.page.styleSheets == if s.cssInjected then s.page.styleSheets else s.page.styleSheets + 1
    ensures r.page == s.page.(styleSheets := r.page.styleSheets) && r.lastContent == s.lastContent
  {
    if s.cssInjected then s
    else s.(page := s.page.(styleSheets := s.page.styleSheets + 1), cssInjected := true)
  }

  /** The effect of `renderMarkdown()`: whether it reports success, and the state after it. */
  function Render(s: State): (r: (bool, State))
    ensures r.0 <==> s.page.hasSection && s.page.textarea.Some? && s.page.textarea.value != ""
    ensures !r.0 ==> r.1 == s
    ensures r.0 ==> && r.1.page.sectionChildren == [SourceTextarea, MarkdownBody(FrontMatter.ProcessContent(s.page.textarea.value))]
                    && !r.1.page.textareaShown
                    && r.1.cssInjected
                    && r.1.page.styleSheets == (if s.cssInjected then s.page.styleSheets else s.page.styleSheets + 1)
    ensures && r.1.page.url == s.page.url && r.1.page.hasSection == s.page.hasSection
            && r.1.page.textarea == s.page.textarea && r.1.lastContent == s.lastContent
  {
    if !s.page.hasSection || s.page.textarea.None? then (false, s)
    else if s.page.textarea.value == "" then (false, s)
    else
      var text := s.page.textarea.value;
      var replaced := s.page.(sectionChildren := [SourceTextarea, MarkdownBody(FrontMatter.ProcessContent(text))],
                              textareaShown := false);
      (true, InjectedStyles(s.(page := replaced)))
  }

  /** The guarded render run when observation starts and on every textarea
      mutation: a non-empty `content` different from the last one seen is
      recorded as the last one seen before it is rendered, whether or not
      the render then succeeds. */
  function GuardedRender(s: State, content: string): (r: State)
    ensures content == "" || content == s.lastContent ==> r == s
    ensures content != "" && content != s.lastContent ==>
      r.lastContent == content && r == Render(s.(lastContent := content)).1
  {
    if content != "" && content != s.lastContent then Render(s.(lastContent := content)).1
    else s
  }

  // ---------------------------------------------------------------------
  // Properties of the effects

  /** After the first injection, injecting again does nothing. */
  lemma InjectStylesOnce(s: State)
    ensures InjectedStyles(InjectedStyles(s)) == InjectedStyles(s)
    ensures s.cssInjected ==> InjectedStyles(s) == s
  {
  }

  /** Rendering a page a second time changes nothing, and the styles are added at most once. */
  lemma RenderIdempotent(s: State)
    ensures Render(Render(s).1).1 == Render(s).1
  {
  }

  /** The same content seen twice renders at most once. */
  lemma GuardedRenderIdempotent(s: State, content: string)
    ensures GuardedRender(GuardedRender(s, content), content) == GuardedRender(s, content)
  {
  }

  /** Whitespace-only text is rendered (as itself), where the lite script
      refuses it. */
  lemma WhitespaceOnlyIsRendered(s: State, content: string)
    requires s.page.hasSection && s.page.textarea == Some(content)
    requires content != "" && content != s.lastContent && FrontMatter.AllWs(content)
    ensures GuardedRender(s, content).page.sectionChildren == [SourceTextarea, MarkdownBody(content)]
  {
    FrontMatter.BlankUnchanged(content);
  }

  /** Content seen while the section was missing is recorded but not
      rendered; once the section appears, the same content is still not
      rendered, until it changes. */
  lemma ContentSeenWithoutSectionStaysUnrendered(s: State, content: string, later: Page)
    requires !s.page.hasSection && content != "" && content != s.lastContent
    requires later.hasSection && later.textarea == Some(content)
    ensures var missed := GuardedRender(s, content);
      && missed.page == s.page && missed.lastContent == content
      && GuardedRender(missed.(page := later), content).page == later
  {
  }

  // ---------------------------------------------------------------------
  // The script

  class RenderScript {
    var page: Page
    var cssInjected: bool        // `cssInjected`
    var lastContent: string      // `lastContent`
    var observing: bool          // `contentObserver !== null`
    ghost var liveObservers: nat // content observers created and not yet disconnected
    var polls: seq<nat>          // `attempts` of each textarea poll still running
    var currentUrl: string       // `currentUrl`

    function Snapshot(): State
      reads this
    {
      State(page, cssInjected, lastContent)
    }

    /** One content observer at most; the styles added once, when first needed;
        no poll past its last attempt. */
    ghost predicate Valid()
      reads this
    {
      && liveObservers == (if observing then 1 else 0)
      && page.styleSheets == (if cssInjected then 1 else 0)
      && (forall i :: 0 <= i < |polls| ==> polls[i] < MaxAttempts)
    }

    /** The script's top level: the initial variables, then `handleUrlChange()`. */
    constructor (p: Page)
      requires p.styleSheets == 0
      ensures Valid()
      ensures page == p && currentUrl == p.url && !cssInjected && lastContent == "" && !observing
      ensures polls == if MdcUrl.IsMdcUrl(p.url) then [0] else []
    {
      page := p;
      cssInjected := false;
      lastContent := "";
      observing := false;
      liveObservers := 0;
      polls := [];
      currentUrl := p.url;
      new;
      HandleUrlChange();
    }

    /** `injectStyles()`. */
    method InjectStyles()
      requires Valid()
      modifies this
      ensures Valid()
      ensures Snapshot() == InjectedStyles(old(Snapshot()))
      ensures observing == old(observing) && polls == old(polls) && currentUrl == old(currentUrl)
    {
      if cssInjected {
        return;
      }
      page := page.(styleSheets := page.styleSheets + 1);
      cssInjected := true;
    }

    /** `renderMarkdown()`. */
    method RenderMarkdown() returns (ok: bool)
      requires Valid()
      modifies this
      ensures Valid()
      ensures (ok, Snapshot()) == Render(old(Snapshot()))
      ensures observing == old(observing) && polls == old(polls) && currentUrl == old(currentUrl)
    {
      if !page.hasSection || page.textarea.None? {
        return false;
      }
      var rawContent := page.textarea.value;
      if rawContent == "" {
        return false;
      }
      var processed := FrontMatter.ProcessContent(rawContent);
      page := page.(sectionChildren := []);
      page := page.(textareaShown := false);
      page := page.(sectionChildren := page.sectionChildren + [SourceTextarea]);
      page := page.(sectionChildren := page.sectionChildren + [MarkdownBody(processed)]);
      assert page.sectionChildren == [SourceTextarea, MarkdownBody(processed)];
      InjectStyles();
      return true;
    }

    /** The content check of `observeContentChanges()` and of its observer's callback. */
    method RenderIfChanged(content: string)
      requires Valid()
      modifies this
      ensures Valid()
      ensures Snapshot() == GuardedRender(old(Snapshot()), content)
      ensures observing == old(observing) && polls == old(polls) && currentUrl == old(currentUrl)
    {
      if content != "" && content != lastContent {
        lastContent := content;
        var _ := RenderMarkdown();
      }
    }

    /** `observeContentChanges()`: the old observer is disconnected first, so
        a missing textarea leaves no observer at all. */
    method ObserveContentChanges() returns (ok: bool)
      requires Valid()
      modifies this
      ensures Valid()
      ensures ok == old(page).textarea.Some? && observing == ok
      ensures Snapshot() == if ok then GuardedRender(old(Snapshot()), old(page).textarea.value) else old(Snapshot())
      ensures polls == old(polls) && currentUrl == old(currentUrl)
    {
      if observing {
        liveObservers := liveObservers - 1;
        observing := false;
      }
      if page.textarea.None? {
        return false;
      }
      RenderIfChanged(page.textarea.value);
      observing := true;
      liveObservers := liveObservers + 1;
      return true;
    }

    /** A notification of the content observer; `observed` is the text of the
        textarea the observer was attached to. */
    method OnContentMutation(observed: string)
      requires Valid() && observing
      modifies this
      ensures Valid()
      ensures Snapshot() == GuardedRender(old(Snapshot()), observed)
      ensures observing && polls == old(polls) && currentUrl == old(currentUrl)
    {
      RenderIfChanged(observed);
    }

    /** `waitForTextareaAndObserve()`: starts a poll. */
    method WaitForTextareaAndObserve()
      requires Valid()
      modifies this`polls
      ensures Valid()
      ensures polls == old(polls) + [0]
    {
      polls := polls + [0];
    }

    /** One run of the `setInterval` callback of poll `i`: count the attempt,
        stop once observation is set up or `MaxAttempts` attempts have been made. */
    method PollTick(i: nat)
      requires Valid() && i < |polls|
      modifies this
      ensures Valid()
      ensures var ok := old(page).textarea.Some?;
        && observing == ok
        && Snapshot() == (if ok then GuardedRender(old(Snapshot()), old(page).textarea.value) else old(Snapshot()))
        && polls == if ok || old(polls[i]) + 1 >= MaxAttempts then RemoveAt(old(polls), i)
                    else old(polls)[i := old(polls[i]) + 1]
      ensures currentUrl == old(currentUrl)
    {
      var attempts := polls[i] + 1;
      var ok := ObserveContentChanges();
      if ok {
        polls := RemoveAt(polls, i);
      } else if attempts >= MaxAttempts {
        polls := RemoveAt(polls, i);
      } else {
        polls := polls[i := attempts];
      }
    }

    /** `handleUrlChange()`: a poll is started on every `.mdc` URL, and nothing
        is undone on any other URL. */
    method HandleUrlChange()
      requires Valid()
      modifies this`polls
      ensures Valid()
      ensures polls == if MdcUrl.IsMdcUrl(page.url) then old(polls) + [0] else old(polls)
    {
      if MdcUrl.IsMdcUrl(page.url) {
        WaitForTextareaAndObserve();
      }
    }

    /** A notification of the document observer: a changed location is a navigation. */
    method OnDocumentMutation()
      requires Valid()
      modifies this
      ensures Valid()
      ensures currentUrl == page.url && page == old(page) && Snapshot() == old(Snapshot())
      ensures observing == old(observing)
      ensures polls == if page.url != old(currentUrl) && MdcUrl.IsMdcUrl(page.url) then old(polls) + [0] else old(polls)
    {
      if page.url != currentUrl {
        currentUrl := page.url;
        HandleUrlChange();
      }
    }

    /** The host page changes under the script (navigation, asynchronous
        loading); it never touches the script's own style elements. */
    method HostChange(p: Page)
      requires Valid() && p.styleSheets == page.styleSheets
      modifies this`page
      ensures Valid() && page == p
    {
      page := p;
    }
  }
}
