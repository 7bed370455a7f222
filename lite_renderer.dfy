/**
 * The lite userscript (mdc-render-lite.js) as a state machine.
 *
 * The page is abstracted to the handful of facts the script reads or
 * writes (`Page`); the script's module-level variables are the fields of
 * `LiteScript`. Each script function is a method; timer ticks, mutation
 * notifications and the host page's own changes are methods the
 * environment calls. Where a function's effect on the page is worth
 * stating on its own, a pure function gives it (`RenderOutcome`,
 * `ViewModeApplied`, `CleanedUp`) and the method is proved to apply it.
 */
module LiteRenderer {
  import opened Options
  import FrontMatter
  import MdcUrl
  import opened Polls

  /** `maxAttempts` of the activation poll. */
  const MaxAttempts := 50

  datatype Mode = Rendered | Source

  /** The toggle control: the selected class on each of its two items and
      the `aria-current` value of each item's button. */
  datatype Control = Control(renderedSelected: bool, renderedCurrent: bool, sourceSelected: bool, sourceCurrent: bool)

  /** The control with `mode`'s item selected and current and the other item not. */
  function ControlFor(mode: Mode): Control {
    Control(mode == Rendered, mode == Rendered, mode == Source, mode == Source)
  }

  /** `createToggleButton()`: a fresh control has the rendered item selected. */
  function NewControl(): (c: Control)
    ensures c == ControlFor(Rendered) && InLockStep(c)
  {
    Control(true, true, false, false)
  }

  /** Selection class and `aria-current` agree, and exactly one item carries them. */
  predicate InLockStep(c: Control) {
    c == ControlFor(Rendered) || c == ControlFor(Source)
  }

  /** The `#mdc-rendered` node: the markdown text handed to the parser, and whether it is displayed. */
  datatype RenderedNode = RenderedNode(markdown: string, shown: bool)

  /** What the script sees of the page. */
  datatype Page = Page(
    url: string,                     // location.href
    textarea: Option<string>,        // #read-only-cursor-text-area and its textContent
    inSection: bool,                 // the textarea has an enclosing <section> (the original view)
    sectionShown: bool,              // that section's display is not 'none'
    hasToolbar: bool,                // .react-blob-header-edit-and-raw-actions exists
    rendered: Option<RenderedNode>,  // #mdc-rendered
    controls: seq<Control>)          // .mdc-segmented-control elements, in document order

  /** `textarea?.closest('section')` is found. */
  predicate HasOriginal(p: Page) {
    p.textarea.Some? && p.inSection
  }

  /** `content.trim().length === 0`: `trim` strips exactly the characters of `\s`. */
  predicate IsBlank(t: string) {
    FrontMatter.AllWs(t)
  }

  // ---------------------------------------------------------------------
  // Effects on the page

  /** The effect of `renderMDC()`: whether it reports success, and the page after it. */
  function RenderOutcome(p: Page): (r: (bool, Page))
    ensures p.textarea.None? || IsBlank(p.textarea.value) ==> r == (false, p)
    ensures r.0 <==> p.textarea.Some? && !IsBlank(p.textarea.value) && p.inSection
    ensures r.0 ==> && r.1.rendered == Some(RenderedNode(FrontMatter.ProcessContent(p.textarea.value), true))
                    && !r.1.sectionShown
                    && (p.hasToolbar && p.controls == [] ==> r.1.controls == [NewControl()])
                    && (p.hasToolbar && p.controls == [] ==>
                          r.1.controls[0] == ControlFor(Rendered) && r.1.controls[0].renderedSelected == r.1.rendered.value.shown)
                    && (!p.hasToolbar || p.controls != [] ==> r.1.controls == p.controls)
    ensures p.textarea.Some? && !IsBlank(p.textarea.value) && !p.inSection ==> r.1 == p.(rendered := None)
    ensures |p.controls| <= 1 ==> |r.1.controls| <= 1
    ensures r.1.url == p.url && r.1.textarea == p.textarea && r.1.inSection == p.inSection && r.1.hasToolbar == p.hasToolbar
  {
    if p.textarea.None? || IsBlank(p.textarea.value) then (false, p)
    else
      var cleared := p.(rendered := None);
      if !p.inSection then (false, cleared)
      else
        var shown := cleared.(rendered := Some(RenderedNode(FrontMatter.ProcessContent(p.textarea.value), true)), sectionShown := false);
        if p.hasToolbar && p.controls == [] then (true, shown.(controls := [NewControl()] + shown.controls))
        else (true, shown)
  }

  /** `setViewMode` finds all four of its elements. */
  predicate CanSetViewMode(p: Page) {
    p.rendered.Some? && HasOriginal(p) && |p.controls| > 0
  }

  /** The effect of `setViewMode(mode)`. */
  function ViewModeApplied(p: Page, mode: Mode): (r: Page)
    ensures !CanSetViewMode(p) ==> r == p
    ensures CanSetViewMode(p) ==> && CanSetViewMode(r)
                                  && r.rendered.value.shown == (mode == Rendered)
                                  && r.sectionShown == (mode == Source)
                                  && r.controls[0] == ControlFor(mode)
                                  && r.rendered.value.markdown == p.rendered.value.markdown
                                  && r.controls[1..] == p.controls[1..]
    ensures r.url == p.url && r.textarea == p.textarea && r.inSection == p.inSection && r.hasToolbar == p.hasToolbar
  {
    if !CanSetViewMode(p) then p
    else p.(rendered := Some(p.rendered.value.(shown := mode == Rendered)),
            sectionShown := mode == Source,
            controls := [ControlFor(mode)] + p.controls[1..])
  }

  /** Exactly one of the two views is displayed. */
  predicate OneViewShown(p: Page)
    requires p.rendered.Some?
  {
    p.rendered.value.shown != p.sectionShown
  }

  /** The effect of `cleanup()` on the page. */
  function CleanedUp(p: Page): (r: Page)
    ensures r.rendered.None?
    ensures |r.controls| == if p.controls == [] then 0 else |p.controls| - 1
    ensures HasOriginal(p) ==> r.sectionShown
    ensures !HasOriginal(p) ==> r.sectionShown == p.sectionShown
    ensures r.url == p.url && r.textarea == p.textarea && r.inSection == p.inSection && r.hasToolbar == p.hasToolbar
  {
    p.(rendered := None,
       controls := if p.controls == [] then [] else p.controls[1..],
       sectionShown := if HasOriginal(p) then true else p.sectionShown)
  }

  // ---------------------------------------------------------------------
  // Properties of the effects

  /** Applying the same mode twice changes nothing further, and of two
      successive modes the last one decides the page. */
  lemma ViewModeLastWins(p: Page, first: Mode, second: Mode)
    ensures ViewModeApplied(ViewModeApplied(p, first), second) == ViewModeApplied(p, second)
  {
    if CanSetViewMode(p) {
      assert ViewModeApplied(p, first).controls[1..] == p.controls[1..];
    }
  }

  /** After `setViewMode` on a complete page exactly one view is displayed,
      and the control's selected, current item is the displayed view's. */
  lemma ViewModeKeepsViewAndControlInStep(p: Page, mode: Mode)
    requires CanSetViewMode(p)
    ensures var r := ViewModeApplied(p, mode);
      && OneViewShown(r)
      && InLockStep(r.controls[0])
      && r.controls[0].renderedSelected == r.rendered.value.shown
      && r.controls[0].sourceSelected == r.sectionShown
  {
  }

  /** A re-render displays the rendered view but leaves an existing control
      as it was: after the user chose the source view, the control keeps
      showing that choice while the rendered view is displayed. */
  lemma RerenderKeepsControlSelection(p: Page)
    requires CanSetViewMode(p) && !IsBlank(p.textarea.value)
    ensures var r := RenderOutcome(ViewModeApplied(p, Source)).1;
      r.rendered.value.shown && r.controls[0] == ControlFor(Source)
  {
  }

  /** After `cleanup` on a page with at most one control: no rendered view,
      no control, and the original view displayed. */
  lemma CleanupRemovesEverything(p: Page)
    requires |p.controls| <= 1 && HasOriginal(p)
    ensures var r := CleanedUp(p); r.rendered.None? && r.controls == [] && r.sectionShown
  {
  }

  // ---------------------------------------------------------------------
  // The script

  class LiteScript {
    var page: Page
    var currentUrl: string       // `currentUrl`
    var isActive: bool           // `isActive`
    var observing: bool          // `textareaObserver !== null`
    ghost var liveObservers: nat // textarea observers created and not yet disconnected
    var polls: seq<nat>          // `attempts` of each activation poll still running

    ghost predicate Valid()
      reads this
    {
      && |page.controls| <= 1
      && (forall c :: c in page.controls ==> InLockStep(c))
      && liveObservers == (if observing then 1 else 0)
      && (forall i :: 0 <= i < |polls| ==> polls[i] < MaxAttempts)
    }

    /** `init()` on a page the script has not touched yet: the initial
        variables, then `handlePageChange()`. */
    constructor (p: Page)
      requires p.rendered.None? && p.controls == []
      ensures Valid()
      ensures currentUrl == p.url
      ensures MdcUrl.IsMdcUrl(p.url) ==>
        var (ok, q) := RenderOutcome(p);
        && isActive && page == q
        && (ok ==> polls == [] && observing)
        && (!ok ==> polls == [0] && !observing)
      ensures !MdcUrl.IsMdcUrl(p.url) ==> page == p && !isActive && !observing && polls == []
    {
      page := p;
      currentUrl := p.url;
      isActive := false;
      observing := false;
      liveObservers := 0;
      polls := [];
      new;
      HandlePageChange();
    }

    /** `setViewMode(mode)`. */
    method SetViewMode(mode: Mode)
      requires Valid()
      modifies this`page
      ensures Valid()
      ensures page == ViewModeApplied(old(page), mode)
    {
      if page.rendered.None? || !HasOriginal(page) || |page.controls| == 0 {
        return;
      }
      var node := page.rendered.value;
      var item := page.controls[0];
      if mode == Rendered {
        page := page.(rendered := Some(node.(shown := true)), sectionShown := false);
        item := item.(renderedSelected := true, sourceSelected := false);
        item := item.(renderedCurrent := true, sourceCurrent := false);
      } else {
        page := page.(rendered := Some(node.(shown := false)), sectionShown := true);
        item := item.(renderedSelected := false, sourceSelected := true);
        item := item.(renderedCurrent := false, sourceCurrent := true);
      }
      page := page.(controls := [item] + page.controls[1..]);
    }

    /** `renderMDC()`. */
    method RenderMDC() returns (ok: bool)
      requires Valid()
      modifies this`page
      ensures Valid()
      ensures (ok, page) == RenderOutcome(old(page))
    {
      if page.textarea.None? {
        return false;
      }
      var content := page.textarea.value;
      if IsBlank(content) {
        return false;
      }
      page := page.(rendered := None);
      var processed := FrontMatter.ProcessContent(content);
      if page.inSection {
        page := page.(rendered := Some(RenderedNode(processed, true)));
        page := page.(sectionShown := false);
        if page.hasToolbar && |page.controls| == 0 {
          page := page.(controls := [NewControl()] + page.controls);
        }
        return true;
      }
      return false;
    }

    /** `cleanup()`. */
    method Cleanup()
      requires Valid()
      modifies this
      ensures Valid()
      ensures page == CleanedUp(old(page))
      ensures !isActive && !observing && liveObservers == 0
      ensures currentUrl == old(currentUrl) && polls == old(polls)
    {
      var hadOriginal := HasOriginal(page);
      page := page.(rendered := None);
      if |page.controls| > 0 {
        page := page.(controls := page.controls[1..]);
      }
      if hadOriginal {
        page := page.(sectionShown := true);
      }
      if observing {
        liveObservers := liveObservers - 1;
        observing := false;
      }
      isActive := false;
    }

    /** `setupTextareaObserver()`: the old observer is disconnected before a
        new one is created, so at most one is ever live. */
    method SetupTextareaObserver() returns (ok: bool)
      requires Valid()
      modifies this`observing, this`liveObservers
      ensures Valid()
      ensures ok == page.textarea.Some?
      ensures ok ==> observing && liveObservers == 1
      ensures !ok ==> observing == old(observing) && liveObservers == old(liveObservers)
    {
      if page.textarea.None? {
        return false;
      }
      if observing {
        liveObservers := liveObservers - 1;
      }
      observing := true;
      liveObservers := liveObservers + 1;
      return true;
    }

    /** `handlePageChange()`. */
    method HandlePageChange()
      requires Valid()
      modifies this
      ensures Valid()
      ensures currentUrl == old(currentUrl)
      ensures MdcUrl.IsMdcUrl(old(page).url) && !old(isActive) ==>
        var (ok, p) := RenderOutcome(old(page));
        && isActive && page == p
        && (ok ==> polls == old(polls) && (observing <==> old(observing) || p.textarea.Some?))
        && (!ok ==> polls == old(polls) + [0] && observing == old(observing))
      ensures MdcUrl.IsMdcUrl(old(page).url) && old(isActive) ==>
        && isActive && page == old(page) && polls == old(polls)
        && (observing <==> old(observing) || page.textarea.Some?)
      ensures !MdcUrl.IsMdcUrl(old(page).url) && old(isActive) ==>
        page == CleanedUp(old(page)) && !isActive && !observing && polls == old(polls)
      ensures !MdcUrl.IsMdcUrl(old(page).url) && !old(isActive) ==>
        page == old(page) && !isActive && observing == old(observing) && polls == old(polls)
    {
      if MdcUrl.IsMdcUrl(page.url) {
        if !isActive {
          isActive := true;
          var ok := RenderMDC();
          if ok {
            var _ := SetupTextareaObserver();
          } else {
            polls := polls + [0];
          }
        } else {
          var _ := SetupTextareaObserver();
        }
      } else if isActive {
        Cleanup();
      }
    }

    /** One run of the `setInterval` callback of activation poll `i`: count
        the attempt, stop at the first successful render (which then installs
        the observer) or once `MaxAttempts` attempts have been made. */
    method PollTick(i: nat)
      requires Valid() && i < |polls|
      modifies this
      ensures Valid()
      ensures var (ok, p) := RenderOutcome(old(page));
        && page == p
        && (ok ==> observing)
        && (!ok ==> observing == old(observing))
        && polls == if ok || old(polls[i]) + 1 >= MaxAttempts then RemoveAt(old(polls), i)
                    else old(polls)[i := old(polls[i]) + 1]
      ensures isActive == old(isActive) && currentUrl == old(currentUrl)
    {
      var attempts := polls[i] + 1;
      var ok := RenderMDC();
      if ok {
        polls := RemoveAt(polls, i);
        var _ := SetupTextareaObserver();
      } else if attempts >= MaxAttempts {
        polls := RemoveAt(polls, i);
      } else {
        polls := polls[i := attempts];
      }
    }

    /** A notification of the textarea observer: re-render. */
    method OnTextareaMutation() returns (ok: bool)
      requires Valid() && observing
      modifies this`page
      ensures Valid()
      ensures (ok, page) == RenderOutcome(old(page))
    {
      ok := RenderMDC();
    }

    /** A notification of the document observer: a changed location is a navigation. */
    method OnDocumentMutation()
      requires Valid()
      modifies this
      ensures Valid()
      ensures currentUrl == page.url
      ensures old(page).url == old(currentUrl) ==>
        page == old(page) && isActive == old(isActive) && observing == old(observing) && polls == old(polls)
      ensures old(page).url != old(currentUrl) && MdcUrl.IsMdcUrl(old(page).url) && !old(isActive) ==>
        var (ok, p) := RenderOutcome(old(page));
        && isActive && page == p
        && (ok ==> polls == old(polls) && (observing <==> old(observing) || p.textarea.Some?))
        && (!ok ==> polls == old(polls) + [0] && observing == old(observing))
      ensures old(page).url != old(currentUrl) && MdcUrl.IsMdcUrl(old(page).url) && old(isActive) ==>
        && isActive && page == old(page) && polls == old(polls)
        && (observing <==> old(observing) || page.textarea.Some?)
      ensures old(page).url != old(currentUrl) && !MdcUrl.IsMdcUrl(old(page).url) && old(isActive) ==>
        page == CleanedUp(old(page)) && !isActive && !observing && polls == old(polls)
      ensures old(page).url != old(currentUrl) && !MdcUrl.IsMdcUrl(old(page).url) && !old(isActive) ==>
        page == old(page) && !isActive && observing == old(observing) && polls == old(polls)
    {
      if page.url != currentUrl {
        currentUrl := page.url;
        HandlePageChange();
      }
    }

    /** The host page changes under the script (navigation, asynchronous
        loading); it may drop the script's nodes but never adds a control. */
    method HostChange(p: Page)
      requires Valid() && |p.controls| <= |page.controls|
      requires forall c :: c in p.controls ==> c in page.controls
      modifies this`page
      ensures Valid() && page == p
    {
      page := p;
    }
  }
}
