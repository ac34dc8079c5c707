/** How the page's keyboard and touch input turn into navigation requests:
    the key dispatcher and the horizontal-swipe classifier of script.js. */
module Input {
  import opened Wrappers
  import opened Navigator

  /** The values of `KeyboardEvent.key` the dispatcher reacts to. */
  predicate IsNavigationKey(key: string) {
    key == "ArrowLeft" || key == "ArrowRight" || key == "Home" || key == "End" || key == " "
  }

  /** The request a key stands for on a presentation of `total` slides. */
  function KeyCommand(key: string, total: int): (r: Option<Command>)
    ensures r.Some? <==> IsNavigationKey(key)
    ensures key == "ArrowLeft" ==> r == Some(Prev)
    ensures key == "ArrowRight" || key == " " ==> r == Some(Next)
    ensures key == "Home" ==> r == Some(GoTo(0))
    ensures key == "End" ==> r == Some(GoTo(total - 1))
  {
    match key
    case "ArrowLeft" => Some(Prev)
    case "ArrowRight" => Some(Next)
    case "Home" => Some(GoTo(0))
    case "End" => Some(GoTo(total - 1))
    case " " => Some(Next)
    case _ => None
  }

  /** What a keydown does: the transition, and whether the browser's default
      action (scrolling) was suppressed. */
  datatype KeyOutcome = KeyOutcome(step: Step, preventDefault: bool)

  function HandleKeyboard(n: Nav, key: string): (o: KeyOutcome)
    ensures o.preventDefault <==> IsNavigationKey(key)
    ensures !IsNavigationKey(key) ==> Ignored(n, o.step)
    ensures Valid(n) ==> Valid(o.step.after)
    ensures Valid(n) && key == "Home" ==> o.step == Step(n.(current := 0), true)
    ensures Valid(n) && key == "End" ==> o.step == Step(n.(current := n.total - 1), true)
    ensures key == "ArrowLeft" ==> o.step == PrevSlide(n)
    ensures key == "ArrowRight" || key == " " ==> o.step == NextSlide(n)
  {
    match KeyCommand(key, n.total)
    case Some(c) => KeyOutcome(Apply(n, c), true)
    case None => KeyOutcome(Step(n, false), false)
  }

  /** Horizontal travel, in screen pixels, a touch must cover to count as a swipe. */
  const SwipeThreshold: nat := 50

  function Abs(x: int): (r: nat)
    ensures r == x || r == -x
  {
    if x < 0 then -x else x
  }

  /** A touch that ends left of where it started asks for the next slide, one
      that ends to the right asks for the previous one, and anything within
      the threshold, the threshold itself included, asks for nothing. */
  function SwipeCommand(startX: int, endX: int): (r: Option<Command>)
    ensures r.Some? <==> Abs(startX - endX) > SwipeThreshold
    ensures r == Some(Next) <==> startX - endX > SwipeThreshold
    ensures r == Some(Prev) <==> endX - startX > SwipeThreshold
  {
    var diff := startX - endX;
    if Abs(diff) > SwipeThreshold then
      if diff > 0 then Some(Next) else Some(Prev)
    else
      None
  }

  function HandleSwipe(n: Nav, startX: int, endX: int): (s: Step)
    ensures Abs(startX - endX) <= SwipeThreshold ==> Ignored(n, s)
    ensures startX - endX > SwipeThreshold ==> s == NextSlide(n)
    ensures endX - startX > SwipeThreshold ==> s == PrevSlide(n)
    ensures Valid(n) ==> Valid(s.after)
  {
    match SwipeCommand(startX, endX)
    case Some(c) => Apply(n, c)
    case None => Step(n, false)
  }

  /** Only the distance travelled matters: moving both ends of a touch by the
      same amount classifies it the same way, and a touch traced backwards
      asks for the opposite slide. */
  lemma SwipeDependsOnTravelOnly(startX: int, endX: int, shift: int)
    ensures SwipeCommand(startX + shift, endX + shift) == SwipeCommand(startX, endX)
    ensures SwipeCommand(startX, endX) == Some(Next) <==> SwipeCommand(endX, startX) == Some(Prev)
  {
  }

  /** Example: a swipe left of 60 pixels is one next; one of 30 pixels, or of
      exactly 50, does nothing. */
  lemma SwipeExamples(n: Nav)
    ensures HandleSwipe(n, 160, 100) == NextSlide(n)
    ensures HandleSwipe(n, 130, 100) == Step(n, false)
    ensures HandleSwipe(n, 150, 100) == Step(n, false)
    ensures HandleSwipe(n, 100, 151) == PrevSlide(n)
  {
  }
}
