/** The render step of script.js (updateSlide together with updateARIA): a
    projection of the navigation state onto the page's slides, dots and
    previous/next buttons. The page is reduced to the flags and attribute
    values the script writes. */
module View {
  import opened Wrappers
  import opened Navigator

  /** How setAttribute writes a boolean value: as "true" or "false". */
  function AttrBool(b: bool): (s: string)
    ensures s == "true" <==> b
    ensures s == "false" <==> !b
  {
    if b then "true" else "false"
  }

  /** One `.slide` element: its `active` and `prev` classes and its
      `aria-hidden` and `tabindex` attributes. */
  datatype SlideView = SlideView(active: bool, prev: bool, ariaHidden: string, tabIndex: string)

  /** One `.dot` element: its `active` class and `aria-selected` attribute. */
  datatype DotView = DotView(active: bool, ariaSelected: string)

  /** A previous/next button: its `disabled` property. */
  datatype Button = Button(disabled: bool)

  /** The part of the page the script writes. Either button may be missing
      from the markup; the slide and dot lists are whatever the markup holds. */
  datatype Page = Page(slides: seq<SlideView>, dots: seq<DotView>, prevBtn: Option<Button>, nextBtn: Option<Button>)

  /** Two pages with the same elements, whatever their flags. */
  predicate SameShape(p: Page, q: Page) {
    && |p.slides| == |q.slides|
    && |p.dots| == |q.dots|
    && p.prevBtn.Some? == q.prevBtn.Some?
    && p.nextBtn.Some? == q.nextBtn.Some?
  }

  /** Slide `i` as it must look while slide `n.current` is shown: active and
      exposed to assistive technology iff it is the current one, marked
      `prev` iff it comes before it, focusable only when current. */
  predicate SlideShows(n: Nav, i: int, v: SlideView) {
    && (v.active <==> i == n.current)
    && (v.prev <==> i < n.current)
    && v.ariaHidden == AttrBool(i != n.current)
    && v.tabIndex == (if i == n.current then "0" else "-1")
  }

  /** Dot `i`: active and selected iff it is the current slide's dot. */
  predicate DotShows(n: Nav, i: int, d: DotView) {
    && (d.active <==> i == n.current)
    && d.ariaSelected == AttrBool(i == n.current)
  }

  /** A button that is present is disabled exactly when `disabled` holds. */
  predicate ButtonShows(b: Option<Button>, disabled: bool) {
    b.Some? ==> b.value.disabled == disabled
  }

  /** The whole page agrees with the navigation state. */
  predicate Shows(n: Nav, pg: Page) {
    && (forall i :: 0 <= i < |pg.slides| ==> SlideShows(n, i, pg.slides[i]))
    && (forall i :: 0 <= i < |pg.dots| ==> DotShows(n, i, pg.dots[i]))
    && ButtonShows(pg.prevBtn, IsFirst(n))
    && ButtonShows(pg.nextBtn, IsLast(n))
  }

  function SlideFor(n: Nav, i: int): (v: SlideView)
    ensures SlideShows(n, i, v)
  {
    SlideView(i == n.current, i != n.current && i < n.current,
              AttrBool(i != n.current), if i == n.current then "0" else "-1")
  }

  function DotFor(n: Nav, i: int): (d: DotView)
    ensures DotShows(n, i, d)
  {
    DotView(i == n.current, AttrBool(i == n.current))
  }

  /** Sets the `disabled` property of a present button; an absent one stays absent. */
  function SetDisabled(b: Option<Button>, disabled: bool): (r: Option<Button>)
    ensures r.Some? == b.Some?
    ensures ButtonShows(r, disabled)
  {
    match b
    case None => None
    case Some(_) => Some(Button(disabled))
  }

  /** Every element the page has is brought in line with the state, and no
      element is added or removed. */
  function Render(n: Nav, pg: Page): (r: Page)
    ensures SameShape(r, pg)
    ensures Shows(n, r)
  {
    Page(seq(|pg.slides|, i => SlideFor(n, i)),
         seq(|pg.dots|, i => DotFor(n, i)),
         SetDisabled(pg.prevBtn, IsFirst(n)),
         SetDisabled(pg.nextBtn, IsLast(n)))
  }

  /** A page that agrees with the state is determined by its shape alone. */
  lemma ShowsDeterminesPage(n: Nav, p: Page, q: Page)
    requires SameShape(p, q)
    requires Shows(n, p) && Shows(n, q)
    ensures p == q
  {
  }

  /** Rendering keeps no memory of what the page showed before, so rendering
      twice is rendering once, and a page that already agrees with the state
      is left exactly as it is (a resize re-render changes nothing). */
  lemma RenderIdempotent(n: Nav, pg: Page)
    ensures Render(n, Render(n, pg)) == Render(n, pg)
    ensures Shows(n, pg) ==> Render(n, pg) == pg
  {
  }

  /** Indices of the slides carrying the `active` class. */
  function ActiveSlides(pg: Page): set<int> {
    set i | 0 <= i < |pg.slides| && pg.slides[i].active
  }

  /** Indices of the dots carrying the `active` class. */
  function ActiveDots(pg: Page): set<int> {
    set i | 0 <= i < |pg.dots| && pg.dots[i].active
  }

  /** Indices of the slides carrying the `prev` class. */
  function PrevSlides(pg: Page): set<int> {
    set i | 0 <= i < |pg.slides| && pg.slides[i].prev
  }

  /** With one slide and one dot per position, a page that agrees with a
      valid state has exactly one active slide and exactly one active dot,
      both at the current index; the slides before it, and only those, are
      marked `prev`; and no slide is both active and `prev`. */
  lemma ExactlyOneActive(n: Nav, pg: Page)
    requires Valid(n) && Shows(n, pg)
    requires |pg.slides| == n.total && |pg.dots| == n.total
    ensures ActiveSlides(pg) == {n.current}
    ensures ActiveDots(pg) == {n.current}
    ensures forall i :: i in PrevSlides(pg) <==> 0 <= i < n.current
    ensures forall i :: 0 <= i < |pg.slides| ==> !(pg.slides[i].active && pg.slides[i].prev)
  {
  }

  /** The render step written as the script does it: a pass over the slides
      setting their classes, a pass over the dots, the two buttons, then the
      pass of updateARIA over the slides setting their attributes. */
  method UpdateSlide(n: Nav, pg: Page) returns (r: Page)
    ensures r == Render(n, pg)
  {
    var slides := pg.slides;
    var i := 0;
    while i < |slides|
      invariant 0 <= i <= |slides| == |pg.slides|
      invariant forall j :: 0 <= j < i ==>
        slides[j] == pg.slides[j].(active := j == n.current, prev := j != n.current && j < n.current)
      invariant forall j :: i <= j < |slides| ==> slides[j] == pg.slides[j]
    {
      slides := slides[i := slides[i].(active := i == n.current, prev := i != n.current && i < n.current)];
      i := i + 1;
    }
    var dots := pg.dots;
    i := 0;
    while i < |dots|
      invariant 0 <= i <= |dots| == |pg.dots|
      invariant forall j :: 0 <= j < i ==> dots[j] == DotFor(n, j)
    {
      dots := dots[i := DotView(i == n.current, AttrBool(i == n.current))];
      i := i + 1;
    }
    var prevBtn := pg.prevBtn;
    if prevBtn.Some? {
      prevBtn := Some(Button(n.current == 0));
    }
    var nextBtn := pg.nextBtn;
    if nextBtn.Some? {
      nextBtn := Some(Button(n.current == n.total - 1));
    }
    // updateARIA
    i := 0;
    while i < |slides|
      invariant 0 <= i <= |slides| == |pg.slides|
      invariant forall j :: 0 <= j < i ==> slides[j] == SlideFor(n, j)
      invariant forall j :: i <= j < |slides| ==>
        slides[j] == pg.slides[j].(active := j == n.current, prev := j != n.current && j < n.current)
    {
      var tabIndex := if i == n.current then "0" else "-1";
      slides := slides[i := slides[i].(ariaHidden := AttrBool(i != n.current), tabIndex := tabIndex)];
      i := i + 1;
    }
    r := Page(slides, dots, prevBtn, nextBtn);
    assert r.slides == Render(n, pg).slides;
    assert r.dots == Render(n, pg).dots;
  }
}
