/** The slide-navigation state machine of script.js: a current slide index
    out of a fixed number of slides, moved by next, previous and go-to. Each
    transition either passes its guard, changes the index and re-renders the
    page, or is silently ignored. */
module Navigator {

  /** The number of slides the script is built for. */
  const TotalSlides: nat := 10

  /** `current` is the script's `currentSlide`, `total` its `totalSlides`. */
  datatype Nav = Nav(current: int, total: int)

  /** The bounds invariant: at least one slide, and the index points at one of them. */
  predicate Valid(n: Nav) {
    0 < n.total && 0 <= n.current < n.total
  }

  predicate IsFirst(n: Nav) {
    n.current == 0
  }

  predicate IsLast(n: Nav) {
    n.current == n.total - 1
  }

  /** The state at page load: the first of TotalSlides slides. */
  function Initial(): (n: Nav)
    ensures Valid(n)
    ensures IsFirst(n) && n.total == TotalSlides
  {
    Nav(0, TotalSlides)
  }

  /** The state after a transition, and whether the transition re-rendered
      the page (called updateSlide). */
  datatype Step = Step(after: Nav, rerender: bool)

  /** A transition that passes its guard re-renders; one that does not
      leaves the state exactly as it was. */
  predicate Ignored(n: Nav, s: Step) {
    !s.rerender && s.after == n
  }

  function NextSlide(n: Nav): (s: Step)
    ensures s.after.total == n.total
    ensures s.rerender <==> n.current < n.total - 1
    ensures s.rerender ==> s.after.current == n.current + 1
    ensures !s.rerender ==> Ignored(n, s)
    ensures Valid(n) ==> Valid(s.after)
    ensures Valid(n) ==> (s.rerender <==> !IsLast(n))
  {
    if n.current < n.total - 1 then Step(n.(current := n.current + 1), true)
    else Step(n, false)
  }

  function PrevSlide(n: Nav): (s: Step)
    ensures s.after.total == n.total
    ensures s.rerender <==> n.current > 0
    ensures s.rerender ==> s.after.current == n.current - 1
    ensures !s.rerender ==> Ignored(n, s)
    ensures Valid(n) ==> Valid(s.after)
    ensures Valid(n) ==> (s.rerender <==> !IsFirst(n))
  {
    if n.current > 0 then Step(n.(current := n.current - 1), true)
    else Step(n, false)
  }

  /** Go-to accepts exactly the indices of existing slides; the state it
      leaves then depends only on the requested index, not on the slide it
      started from. */
  function GoToSlide(n: Nav, index: int): (s: Step)
    ensures s.after.total == n.total
    ensures s.rerender <==> 0 <= index < n.total
    ensures s.rerender ==> s.after.current == index
    ensures !s.rerender ==> Ignored(n, s)
    ensures Valid(n) ==> Valid(s.after)
  {
    if index >= 0 && index < n.total then Step(n.(current := index), true)
    else Step(n, false)
  }

  /** The three requests the inputs of the page turn into. */
  datatype Command = Next | Prev | GoTo(index: int)

  function Apply(n: Nav, c: Command): (s: Step)
    ensures s.after.total == n.total
    ensures !s.rerender ==> Ignored(n, s)
    ensures Valid(n) ==> Valid(s.after)
  {
    match c
    case Next => NextSlide(n)
    case Prev => PrevSlide(n)
    case GoTo(i) => GoToSlide(n, i)
  }

  /** Previous undoes a next that moved, and next undoes a previous that moved. */
  lemma NextPrevInverse(n: Nav)
    requires Valid(n)
    ensures NextSlide(n).rerender ==> PrevSlide(NextSlide(n).after).after == n
    ensures PrevSlide(n).rerender ==> NextSlide(PrevSlide(n).after).after == n
  {
  }

  /** Going to the slide already shown changes nothing but still re-renders. */
  lemma GoToCurrentRerenders(n: Nav)
    requires Valid(n)
    ensures GoToSlide(n, n.current) == Step(n, true)
  {
  }

  /** The state after `k` presses of next. */
  function NextTimes(n: Nav, k: nat): Nav
    decreases k
  {
    if k == 0 then n else NextTimes(NextSlide(n).after, k - 1)
  }

  function Min(a: int, b: int): int {
    if a <= b then a else b
  }

  /** From a valid state, `k` presses of next advance by `k` slides but stop
      at the last one. */
  lemma {:induction false} NextTimesClamps(n: Nav, k: nat)
    requires Valid(n)
    ensures NextTimes(n, k) == n.(current := Min(n.current + k, n.total - 1))
    decreases k
  {
    if k > 0 {
      NextTimesClamps(NextSlide(n).after, k - 1);
    }
  }

  /** The state after `k` presses of previous. */
  function PrevTimes(n: Nav, k: nat): Nav
    decreases k
  {
    if k == 0 then n else PrevTimes(PrevSlide(n).after, k - 1)
  }

  function Max(a: int, b: int): int {
    if a >= b then a else b
  }

  /** From a valid state, `k` presses of previous go back by `k` slides but
      stop at the first one. */
  lemma {:induction false} PrevTimesClamps(n: Nav, k: nat)
    requires Valid(n)
    ensures PrevTimes(n, k) == n.(current := Max(n.current - k, 0))
    decreases k
  {
    if k > 0 {
      PrevTimesClamps(PrevSlide(n).after, k - 1);
    }
  }
}
