/** The screen-reader announcement emitted on every render (announceSlideChange
    in script.js): the current slide's title followed by its position,
    counted from one, out of the number of slides. */
module Announce {
  import opened Wrappers
  import opened Navigator
  import opened Decimal

  predicate StartsWith(s: string, prefix: string) {
    |prefix| <= |s| && s[..|prefix|] == prefix
  }

  predicate EndsWith(s: string, suffix: string) {
    |suffix| <= |s| && s[|s| - |suffix|..] == suffix
  }

  /** The position part of the message, "Slide k de N" after the title. */
  function Position(n: Nav): string
    requires Valid(n)
  {
    ". Slide " + NatToString(n.current + 1) + " de " + NatToString(n.total)
  }

  /** The slide's title: the text of its first heading when that is present
      and not empty, otherwise "Slide k". */
  function Title(heading: Option<string>, ordinal: nat): (t: string)
    ensures heading.Some? && heading.value != "" ==> t == heading.value
    ensures heading.None? || heading.value == "" ==>
      exists k :: t == "Slide " + k && AllDigits(k) && ParseNat(k) == ordinal
        && 0 < |k| && (k[0] == '0' ==> k == "0")
    ensures t != ""
  {
    if heading.Some? && heading.value != "" then heading.value
    else
      ParseNatToString(ordinal);
      "Slide " + NatToString(ordinal)
  }

  /** The message for the current slide, where `headings[i]` is the text of
      the first `h1`/`h2` of slide `i` (None when it has none). None stands
      for the TypeError the script raises when the slide list has no element
      at the current index. */
  function Announcement(n: Nav, headings: seq<Option<string>>): (r: Option<string>)
    requires Valid(n)
    ensures r.Some? <==> n.current < |headings|
    ensures r.Some? ==> r.value == Title(headings[n.current], n.current + 1) + Position(n)
    ensures r.Some? ==> EndsWith(r.value, Position(n))
    ensures r.Some? ==> StartsWith(r.value, Title(headings[n.current], n.current + 1))
  {
    if n.current < |headings| then
      var title := Title(headings[n.current], n.current + 1);
      assert (title + Position(n))[..|title|] == title;
      assert (title + Position(n))[|title|..] == Position(n);
      Some(title + Position(n))
    else
      None
  }

  /** The position part reads back as the one-based ordinal of the current
      slide and the number of slides, and the ordinal is between 1 and N. */
  lemma PositionReadsBack(n: Nav)
    requires Valid(n)
    ensures exists k, t ::
      && Position(n) == ". Slide " + k + " de " + t
      && AllDigits(k) && AllDigits(t)
      && ParseNat(k) == n.current + 1 && ParseNat(t) == n.total
      && 1 <= ParseNat(k) <= ParseNat(t)
  {
    var k := NatToString(n.current + 1);
    var t := NatToString(n.total);
    ParseNatToString(n.current + 1);
    ParseNatToString(n.total);
    assert Position(n) == ". Slide " + k + " de " + t;
  }

  /** With one slide element per position, every valid state is announced. */
  lemma AnnouncedWhenSlidesMatch(n: Nav, headings: seq<Option<string>>)
    requires Valid(n) && |headings| == n.total
    ensures Announcement(n, headings).Some?
  {
  }
}
