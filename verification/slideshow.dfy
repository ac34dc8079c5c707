/** The presentation as a whole: the navigation state together with the page
    it is rendered onto, driven by the events script.js listens to. Every
    transition that passes its guard re-renders; resizing re-renders without
    moving. */
module Slideshow {
  import opened Wrappers
  import opened Navigator
  import opened Input
  import opened View
  import opened Announce

  /** The inputs the script reacts to: a keydown, a completed touch (from its
      touchstart to its touchend `screenX`), a click on the previous or next
      button or on dot `index`, and a (debounced) window resize. */
  datatype Event =
    | KeyDown(key: string)
    | Swipe(startX: int, endX: int)
    | PrevClick
    | NextClick
    | DotClick(index: int)
    | Resize

  /** The navigation state, the page it is rendered onto, and whether the
      keyboard, button and dot listeners were attached at load. */
  datatype Deck = Deck(nav: Nav, page: Page, listening: bool)

  /** The state is in bounds and the page shows it. */
  predicate Consistent(d: Deck) {
    Valid(d.nav) && Shows(d.nav, d.page)
  }

  /** DOMContentLoaded: the first slide, rendered onto the markup as found.
      The render ends with the announcement, which reads the first slide
      element; on markup without slides that throws, after the page was
      written but before the keyboard, button and dot listeners are
      attached. */
  function Load(pg: Page): (d: Deck)
    ensures Consistent(d)
    ensures d.nav == Initial()
    ensures SameShape(d.page, pg)
    ensures d.listening <==> 0 < |pg.slides|
  {
    Deck(Initial(), Render(Initial(), pg), 0 < |pg.slides|)
  }

  /** The transition an event asks for. Click listeners exist only on the
      buttons and dots the markup has, so a click on a missing one is no
      event; keys and clicks do nothing at all when load did not attach
      their listeners. Swipe and resize listeners are always attached. */
  function StepFor(d: Deck, e: Event): (s: Step)
    ensures s.after.total == d.nav.total
    ensures !s.rerender ==> Ignored(d.nav, s)
    ensures Valid(d.nav) ==> Valid(s.after)
    ensures e.KeyDown? && d.listening ==> s == HandleKeyboard(d.nav, e.key).step
    ensures e.Swipe? ==> s == HandleSwipe(d.nav, e.startX, e.endX)
    ensures e == PrevClick && d.listening && d.page.prevBtn.Some? ==> s == PrevSlide(d.nav)
    ensures e == NextClick && d.listening && d.page.nextBtn.Some? ==> s == NextSlide(d.nav)
    ensures e == PrevClick && d.page.prevBtn.None? ==> Ignored(d.nav, s)
    ensures e == NextClick && d.page.nextBtn.None? ==> Ignored(d.nav, s)
    ensures e.DotClick? && d.listening && 0 <= e.index < |d.page.dots| ==> s == GoToSlide(d.nav, e.index)
    ensures e.DotClick? && !(0 <= e.index < |d.page.dots|) ==> Ignored(d.nav, s)
    ensures !d.listening && !e.Swipe? && e != Resize ==> Ignored(d.nav, s)
    ensures e == Resize ==> s == Step(d.nav, true)
  {
    match e
    case Swipe(startX, endX) => HandleSwipe(d.nav, startX, endX)
    case Resize => Step(d.nav, true)
    case _ =>
      if !d.listening then Step(d.nav, false)
      else match e
        case KeyDown(key) => HandleKeyboard(d.nav, key).step
        case PrevClick => if d.page.prevBtn.Some? then PrevSlide(d.nav) else Step(d.nav, false)
        case NextClick => if d.page.nextBtn.Some? then NextSlide(d.nav) else Step(d.nav, false)
        case DotClick(i) => if 0 <= i < |d.page.dots| then GoToSlide(d.nav, i) else Step(d.nav, false)
  }

  /** One event: when its transition passed the guard, the deck moves to the
      state the transition produced and the page is re-rendered from it;
      otherwise nothing changes. */
  function Handle(d: Deck, e: Event): (d': Deck)
    ensures SameShape(d'.page, d.page)
    ensures d'.nav.total == d.nav.total
    ensures d'.listening == d.listening
    ensures Consistent(d) ==> Consistent(d')
    ensures StepFor(d, e).rerender ==> d'.nav == StepFor(d, e).after && d'.page == Render(d'.nav, d.page)
    ensures !StepFor(d, e).rerender ==> d' == d
  {
    var s := StepFor(d, e);
    if s.rerender then d.(nav := s.after, page := Render(s.after, d.page)) else d
  }

  /** A sequence of events, handled one after the other. */
  function Run(d: Deck, events: seq<Event>): Deck
    decreases |events|
  {
    if events == [] then d else Run(Handle(d, events[0]), events[1..])
  }

  /** Whatever the events, the index stays in bounds, the page keeps its
      elements and keeps showing the current slide. */
  lemma {:induction false} RunPreservesConsistency(d: Deck, events: seq<Event>)
    requires Consistent(d)
    ensures Consistent(Run(d, events))
    ensures SameShape(Run(d, events).page, d.page)
    ensures Run(d, events).nav.total == d.nav.total
    ensures Run(d, events).listening == d.listening
    decreases |events|
  {
    if events != [] {
      RunPreservesConsistency(Handle(d, events[0]), events[1..]);
    }
  }

  /** Every state reachable from page load is in bounds and shown. */
  lemma ReachableIsConsistent(pg: Page, events: seq<Event>)
    ensures Consistent(Run(Load(pg), events))
    ensures Run(Load(pg), events).nav.total == TotalSlides
  {
    RunPreservesConsistency(Load(pg), events);
  }

  /** A button the page has is disabled exactly when clicking it would be
      ignored. */
  lemma ButtonsMatchGuards(d: Deck)
    requires Consistent(d)
    ensures d.page.prevBtn.Some? ==> (d.page.prevBtn.value.disabled <==> !PrevSlide(d.nav).rerender)
    ensures d.page.nextBtn.Some? ==> (d.page.nextBtn.value.disabled <==> !NextSlide(d.nav).rerender)
  {
  }

  /** A resize re-renders in place: the state and the page stay as they were. */
  lemma ResizeChangesNothing(d: Deck)
    requires Consistent(d)
    ensures Handle(d, Resize) == d
  {
  }

  /** Example: with both buttons present, five clicks on next from page load
      reach the sixth slide (index 5) with both buttons enabled. */
  lemma FiveNextClicks(pg: Page)
    requires 0 < |pg.slides| && pg.prevBtn.Some? && pg.nextBtn.Some?
    ensures Run(Load(pg), [NextClick, NextClick, NextClick, NextClick, NextClick]).nav.current == 5
    ensures Run(Load(pg), [NextClick, NextClick, NextClick, NextClick, NextClick]).page.prevBtn == Some(Button(false))
    ensures Run(Load(pg), [NextClick, NextClick, NextClick, NextClick, NextClick]).page.nextBtn == Some(Button(false))
  {
  }

  /** Example: on the last of the slides, next (button, arrow key, space or
      left swipe) changes nothing, not even the page. */
  lemma NextOnLastSlide(d: Deck)
    requires Consistent(d) && IsLast(d.nav)
    ensures Handle(d, NextClick) == d
    ensures Handle(d, KeyDown("ArrowRight")) == d
    ensures Handle(d, KeyDown(" ")) == d
    ensures Handle(d, Swipe(200, 100)) == d
  {
  }

  /** On markup without slides only swipes and resizes reach the state: the
      load threw before the keyboard, button and dot listeners existed. */
  lemma WithoutSlidesOnlySwipeAndResizeMove(pg: Page, e: Event)
    requires |pg.slides| == 0
    requires !e.Swipe? && e != Resize
    ensures Handle(Load(pg), e) == Load(pg)
  {
  }

  /** Every render ends with an announcement, where `headings` has one entry
      per slide element: at load it is made exactly when the markup has a
      slide (and the listeners were attached), and after an event that
      re-renders exactly when a slide element exists at the new index. */
  lemma RendersAreAnnounced(pg: Page, d: Deck, e: Event, headings: seq<Option<string>>)
    requires Consistent(d) && |headings| == |d.page.slides|
    ensures |headings| == |pg.slides| ==> (Announcement(Load(pg).nav, headings).Some? <==> Load(pg).listening)
    ensures StepFor(d, e).rerender ==>
      (Announcement(Handle(d, e).nav, headings).Some? <==> Handle(d, e).nav.current < |d.page.slides|)
    ensures StepFor(d, e).rerender && |d.page.slides| == d.nav.total ==> Announcement(Handle(d, e).nav, headings).Some?
  {
  }
}
