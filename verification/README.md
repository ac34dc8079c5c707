# Slide navigator of a presentation page, in Dafny

A model of the client-side logic of a ten-slide presentation (`script.js`):
the slide-navigation state machine (`currentSlide` out of `totalSlides`,
moved by next, previous and go-to, each silently ignoring a request that
would leave the slides), the key and swipe dispatchers that feed it, the
render step that projects the current index onto the slides, the pagination
dots, the previous/next buttons and their accessibility attributes, the
screen-reader announcement "title. Slide k de N", and the percentage of the
checklist progress bar with its completion notification.

Modules, one per concern of the script:

- `Navigator`: the state `Nav(current, total)`, its bounds invariant, and the three transitions. Each returns a `Step` that says whether the page was re-rendered.
- `Input`: `KeyboardEvent.key` values and horizontal swipes mapped to transitions.
- `View`: the page as the script writes it, with the `active`/`prev` classes, `aria-hidden`, `tabindex`, dot selection and button `disabled`. It holds the functional `Render` and the loop-based `UpdateSlide`.
- `Announce`: the live-region message.
- `Checklist`: checked count, rounded percentage, progress text and completion.
- `Slideshow`: navigation state plus page, driven by a sequence of events from page load.
- `Decimal`: decimal numerals as template literals write them. `Wrappers`: `Option`.

Everything is pure: the page is a value. Clicks, keys, touches and resizes
are inputs to `Slideshow.Handle`. The text of each slide's first heading is
an input to `Announce.Announcement`.

## Model

| member | source | states |
|---|---|---|
| Navigator.Initial | script.js:2-3 | the presentation starts on the first of 10 slides, inside the bounds |
| Navigator.NextSlide | script.js:72-77 | next moves forward by exactly one slide and re-renders iff the current slide is not the last; otherwise the state is unchanged and nothing is rendered; bounds are preserved |
| Navigator.PrevSlide | script.js:79-84 | previous moves back by exactly one slide and re-renders iff the current slide is not the first; otherwise nothing changes; bounds are preserved |
| Navigator.GoToSlide | script.js:86-91 | go-to sets the index to `i` and re-renders iff `0 <= i < total`; a negative or too-large `i` is a no-op; bounds are preserved |
| Navigator.NextPrevInverse | script.js:72-84 | from a valid state, previous undoes a next that moved and next undoes a previous that moved |
| Navigator.GoToCurrentRerenders | script.js:86-91 | going to the slide already shown keeps the state but still re-renders |
| Navigator.NextTimesClamps | script.js:72-77 | k presses of next from a valid state land on `min(current + k, total - 1)` |
| Navigator.PrevTimesClamps | script.js:79-84 | k presses of previous from a valid state land on `max(current - k, 0)` |
| Input.KeyCommand | script.js:46-69 | exactly ArrowLeft, ArrowRight, Home, End and Space are navigation keys: ArrowLeft is previous, ArrowRight and Space are next, Home is go-to 0, End is go-to `total - 1` |
| Input.HandleKeyboard | script.js:46-69 | the default action is prevented iff the key is a navigation key; any other key leaves the state unchanged; from a valid state Home lands on 0 and End on the last slide; every key keeps the bounds |
| Input.SwipeCommand | script.js:402-415 | a touch navigates iff its horizontal travel exceeds 50: moving left is next, moving right is previous, and a travel of 50 or less asks for nothing |
| Input.HandleSwipe | script.js:402-415 | a swipe within the threshold is ignored, a left swipe is next, a right swipe is previous, and bounds are preserved |
| Input.SwipeDependsOnTravelOnly | script.js:402-415 | shifting both ends of a touch does not change its meaning; a touch traced backwards asks for the opposite direction |
| Input.SwipeExamples | script.js:402-415 | a 60-pixel left swipe is one next; 30 pixels, or exactly 50, change nothing; a 51-pixel right swipe is previous |
| View.SetDisabled | script.js:112-117 | a present button gets `disabled` set to the given condition; an absent button stays absent |
| View.Render | script.js:94-142 | rendering keeps every slide, dot and button. Slide `i` is active, not aria-hidden and has tabindex "0" iff it is current, and is `prev` iff it comes before the current one. Dot `i` is active and aria-selected iff it is current. Previous is disabled iff on the first slide, next iff on the last |
| View.ShowsDeterminesPage | script.js:94-142 | two pages with the same elements that both agree with the state are equal: render output does not depend on what the page showed before |
| View.RenderIdempotent | script.js:94-124 | rendering twice equals rendering once, and rendering a page that already shows the state leaves it unchanged |
| View.ExactlyOneActive | script.js:96-109 | with one slide and one dot per position, exactly one slide and one dot are active, both at the current index. The `prev` slides are exactly those before it, and no slide is both active and `prev` |
| View.UpdateSlide | script.js:94-142 | the script's passes (slide classes, dots, buttons, then the ARIA pass over the slides) compute the same page as `Render` |
| Announce.Title | script.js:147 | the title is the slide heading's text when it is present and non-empty, and otherwise "Slide k" where k is the one-based ordinal written without leading zeros |
| Announce.Announcement | script.js:146-148 | a message exists iff the slide list has an element at the current index (else the script throws); it is exactly the title followed by ". Slide k de N" |
| Announce.PositionReadsBack | script.js:148 | the position part reads back as the one-based ordinal `current + 1` and the slide count, with `1 <= k <= N` |
| Announce.AnnouncedWhenSlidesMatch | script.js:147 | with one slide element per position, every valid state is announced |
| Checklist.CountChecked | script.js:208 | the checked count is at most the number of boxes; it is 0 iff no box is checked and equals the number of boxes iff every box is checked |
| Checklist.Percentage | script.js:210 | the percentage is the integer nearest to `100 * checked / total`, with halves rounded up. It lies in [0, 100] when `checked <= total`, is 0 when nothing is checked and 100 when everything is |
| Checklist.PercentageMonotone | script.js:210 | checking more boxes never lowers the percentage |
| Checklist.FullOnlyWhenAllChecked | script.js:210-216 | with fewer than 200 boxes the percentage is 100 iff every box is checked |
| Checklist.LargeChecklistRoundsUp | script.js:210-216 | with 201 boxes, 200 checked already reads 100 and so triggers completion |
| Checklist.UpdateProgress | script.js:207-221 | a change event computes the rounded percentage of checked boxes and writes it as the fill width "p%" and the text "p% completado". Completion fires iff the percentage is 100: always when every box is checked, and, below 200 boxes, only then |
| Checklist.CountAfterSet | script.js:208 | setting one box changes the checked count by exactly that box's change |
| Checklist.NoCelebrationTwiceInARow | script.js:207-216 | completion fires on every change event at 100%; with fewer than 200 boxes the event after a completion cannot complete again |
| Decimal.NatToString | script.js:148 | a number is written as a non-empty string of digits with no leading zero |
| Decimal.ParseNatToString | script.js:148 | reading back a written number gives the number |
| Decimal.NatToStringInjective | script.js:148 | distinct numbers are written differently |
| Slideshow.Load | script.js:14-24 | page load starts on the first slide and renders it. The page keeps its elements and shows the state. The keyboard, button and dot listeners are attached iff the markup has a slide (otherwise the announcement throws first) |
| Slideshow.StepFor | script.js:26-43 | a key is its keyboard transition, a swipe its swipe transition, a click on a present button previous or next, a click on dot i go-to i, and a resize a re-render in place. A click on a missing button or dot is ignored, and so are keys and clicks when the listeners were never attached; bounds are preserved |
| Slideshow.Handle | script.js:72-91 | an event whose transition passed its guard moves to the state that transition produced and re-renders the page from it; any other event changes nothing. The page keeps its elements and keeps showing a valid state |
| Slideshow.RunPreservesConsistency | script.js:72-124 | after any sequence of events the index stays in bounds and the page shows it |
| Slideshow.ReachableIsConsistent | script.js:14-24 | every state reachable from page load is in `[0, 10)` and shown on the page |
| Slideshow.ButtonsMatchGuards | script.js:112-117 | on a page that shows the state, a present button is disabled exactly when its transition would be ignored |
| Slideshow.ResizeChangesNothing | script.js:431-436 | the resize re-render leaves the state and the page exactly as they were |
| Slideshow.FiveNextClicks | script.js:72-77 | five next clicks from page load reach index 5, with both buttons enabled |
| Slideshow.WithoutSlidesOnlySwipeAndResizeMove | script.js:21-23 | on markup without slides, keys and clicks leave the deck exactly as loaded |
| Slideshow.RendersAreAnnounced | script.js:123 | the load announces iff the markup has a slide; a re-rendering event announces iff a slide element exists at the new index, so always when there is one element per slide |
| Slideshow.NextOnLastSlide | script.js:72-77 | on the last slide, next by button, ArrowRight, Space or left swipe changes neither the state nor the page |

## Left out

- DOM access and mutation: element lookup, `classList`, `setAttribute` and creating or removing the announcer and notification nodes. The injected animation CSS is also left out. Only the written flag and attribute values are modelled.
- Timers: the 100 ms focus of the active slide's heading, the 1000 ms removal of the announcer, and the 2–3 s button-text and notification resets. These are scheduling, not sequential logic.
- Debouncing: the 250 ms debounce on resize is left out. A `Resize` event stands for the one re-render a burst of resizes produces.
- Clipboard handlers: `copyPrompt`, `copyUrl` and `copyMascotUrl` are thin wrappers over `navigator.clipboard` and `execCommand`.
- Zoom suppression: the Ctrl+wheel and multi-touch `preventDefault` depend on platform events. The double-tap suppression also reads the wall clock.
- Miscellaneous glue: the global error handler, the empty `preloadImages`, the `window.*` exports and the styling of notifications.
- Swipe coordinates: `touchStartX` and `touchEndX` are taken as integers and paired per gesture. A touchend without its own touchstart would reuse a stale start; that case is not modelled.
- Headings: the text of a slide's first `h1`/`h2` is an input, because the element lookup is not modelled.
- Checklist.Percentage: computed on exact rationals rather than IEEE doubles. The range and endpoint facts also hold for doubles. The `< 200` boundary results hold for doubles too, but the tie at exactly 99.5 is not claimed for them.
- Checklist.UpdateProgress: counts checked boxes in the same list it divides by. The script queries the checked boxes again on each change, so this assumes the checklist markup does not change after load.
- Notification: the completion notification is modelled only as the `celebrate` flag. Its message and the completed-fill gradient are not modelled.

- Checklist setup on markup without slides: the load throws before `setupChecklist` runs (script.js:21-23), so such a page has no working checklist. `Checklist` models the checklist itself, not whether it was set up.

The completion notification fires on every change event whose percentage is 100, not only on arrival at 100% (script.js:216). The number of slides is fixed at 10 (script.js:3).
