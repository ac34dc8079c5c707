/** The checklist progress bar of script.js (updateProgress): on every change
    of a checkbox the share of checked boxes is shown as a rounded
    percentage, and reaching 100% triggers the completion notification. */
module Checklist {
  import opened Decimal

  /** The number of checked boxes. */
  function CountChecked(boxes: seq<bool>): (c: nat)
    ensures c <= |boxes|
    ensures c == 0 <==> forall i :: 0 <= i < |boxes| ==> !boxes[i]
    ensures c == |boxes| <==> forall i :: 0 <= i < |boxes| ==> boxes[i]
    decreases |boxes|
  {
    if boxes == [] then 0
    else CountChecked(boxes[..|boxes| - 1]) + (if boxes[|boxes| - 1] then 1 else 0)
  }

  /** `Math.round(checked / total * 100)`, computed on exact rationals:
      the integer nearest to 100 * checked / total, halves rounded up. */
  function Percentage(checked: nat, total: nat): (p: nat)
    requires 0 < total
    ensures 2 * total * p <= 200 * checked + total < 2 * total * (p + 1)
    ensures checked <= total ==> p <= 100
    ensures checked == 0 ==> p == 0
    ensures checked == total ==> p == 100
  {
    RoundedShare(checked, total);
    (200 * checked + total) / (2 * total)
  }

  lemma MulMonotone(b: nat, x: int, y: int)
    requires x <= y
    ensures b * x <= b * y
  {
    assert b * y - b * x == b * (y - x);
  }

  /** Integer division is the unique quotient that brackets the dividend. */
  lemma DivUnique(a: int, b: int, q: int)
    requires 0 < b && b * q <= a < b * (q + 1)
    ensures a / b == q
  {
    var p := a / b;
    assert b * p <= a < b * p + b;
    if p < q {
      MulMonotone(b, p + 1, q);
    } else if p > q {
      MulMonotone(b, q + 1, p);
    }
  }

  lemma RoundedShare(c: nat, t: nat)
    requires 0 < t
    ensures var p := (200 * c + t) / (2 * t);
      && 2 * t * p <= 200 * c + t < 2 * t * (p + 1)
      && (c <= t ==> p <= 100)
      && (c == 0 ==> p == 0)
      && (c == t ==> p == 100)
  {
    var a, b := 200 * c + t, 2 * t;
    var p := a / b;
    assert b * p <= a < b * p + b;
    assert b * (p + 1) == b * p + b;
    if c <= t && p > 100 {
      MulMonotone(b, 101, p);
    }
    if c == 0 {
      DivUnique(a, b, 0);
    }
    if c == t {
      DivUnique(a, b, 100);
    }
  }

  /** Checking more boxes never lowers the percentage. */
  lemma PercentageMonotone(c1: nat, c2: nat, total: nat)
    requires 0 < total && c1 <= c2
    ensures Percentage(c1, total) <= Percentage(c2, total)
  {
  }

  /** With fewer than 200 boxes the percentage reads 100 only when every box
      is checked. */
  lemma FullOnlyWhenAllChecked(checked: nat, total: nat)
    requires 0 < total && checked <= total
    ensures total < 200 ==> (Percentage(checked, total) == 100 <==> checked == total)
  {
    if checked < total < 200 {
      PercentageMonotone(checked, total - 1, total);
      var p := Percentage(total - 1, total);
      assert 2 * total * p <= 200 * (total - 1) + total;
    }
  }

  /** With 201 boxes, 200 checked already rounds to 100. */
  lemma LargeChecklistRoundsUp()
    ensures Percentage(200, 201) == 100
  {
  }

  /** What one change event writes: the fill width, the progress text, and
      whether the completion notification and the completed-fill style fire. */
  datatype Progress = Progress(percent: nat, width: string, text: string, celebrate: bool)

  /** The listener is only attached when the checklist has at least one box. */
  function UpdateProgress(boxes: seq<bool>): (r: Progress)
    requires 0 < |boxes|
    ensures r.percent == Percentage(CountChecked(boxes), |boxes|)
    ensures r.percent <= 100
    ensures r.width == NatToString(r.percent) + "%"
    ensures r.text == NatToString(r.percent) + "% completado"
    ensures r.celebrate <==> r.percent == 100
    ensures (forall i :: 0 <= i < |boxes| ==> !boxes[i]) ==> r.percent == 0
    ensures (forall i :: 0 <= i < |boxes| ==> boxes[i]) ==> r.celebrate
    ensures |boxes| < 200 ==> (r.celebrate <==> forall i :: 0 <= i < |boxes| ==> boxes[i])
  {
    var p := Percentage(CountChecked(boxes), |boxes|);
    FullOnlyWhenAllChecked(CountChecked(boxes), |boxes|);
    Progress(p, NatToString(p) + "%", NatToString(p) + "% completado", p == 100)
  }

  /** Changing one box changes the count by exactly that box. */
  lemma {:induction false} CountAfterSet(boxes: seq<bool>, j: nat, v: bool)
    requires j < |boxes|
    ensures CountChecked(boxes[j := v]) + (if boxes[j] then 1 else 0)
         == CountChecked(boxes) + (if v then 1 else 0)
    decreases |boxes|
  {
    var b' := boxes[j := v];
    var last := |boxes| - 1;
    assert b'[..last] == if j == last then boxes[..last] else boxes[..last][j := v];
    if j < last {
      CountAfterSet(boxes[..last], j, v);
    }
  }

  /** A change event toggles one box. The notification fires on every event
      whose percentage is 100, but with fewer than 200 boxes two events in a
      row cannot both reach 100, so it fires once per arrival at 100%. */
  lemma NoCelebrationTwiceInARow(boxes: seq<bool>, j: nat)
    requires 0 < |boxes| < 200 && j < |boxes|
    requires UpdateProgress(boxes).celebrate
    ensures !UpdateProgress(boxes[j := !boxes[j]]).celebrate
  {
    assert boxes[j];
    CountAfterSet(boxes, j, false);
    var after := boxes[j := !boxes[j]];
    assert CountChecked(after) < |after|;
  }
}
