/**
 * What the gallery shows outside the main image: the prev/next buttons and the
 * thumbnail highlight (both driven by the `change` event) and the caption panel
 * (filled in when an image has finished loading).
 */
module Display {

  /** An image descriptor as handed to `images()`. */
  datatype Image = Image(full: string, thumb: string, caption: string, credit: string)

  /**
   * The state the `change` listeners maintain: whether the prev and next buttons
   * carry the `disabled` class, and, per thumbnail, whether it carries `selected`.
   */
  datatype View = View(prevDisabled: bool, nextDisabled: bool, selected: seq<bool>)

  /** The caption panel: caption text, "count of total", and the credit line. */
  datatype Caption = Caption(text: string, count: nat, total: nat, credit: string)

  /** Number of thumbnails that carry the `selected` class. */
  function CountSelected(sel: seq<bool>): nat
  {
    if sel == [] then 0
    else CountSelected(sel[..|sel| - 1]) + (if sel[|sel| - 1] then 1 else 0)
  }

  /** A highlight pattern that marks exactly position `i` marks one thumbnail, or none when `i` is out of range. */
  lemma {:induction false} CountOneHot(sel: seq<bool>, i: int)
    requires forall j :: 0 <= j < |sel| ==> (sel[j] <==> j == i)
    ensures CountSelected(sel) == if 0 <= i < |sel| then 1 else 0
  {
    if sel != [] {
      CountOneHot(sel[..|sel| - 1], i);
    }
  }

  /** The view as first rendered, before any `change`: nothing disabled, nothing selected. */
  function Initial(n: nat): (v: View)
    ensures |v.selected| == n
    ensures CountSelected(v.selected) == 0
    ensures !v.prevDisabled && !v.nextDisabled
  {
    var sel := seq(n, j => false);
    CountOneHot(sel, -1);
    View(false, false, sel)
  }

  /**
   * The view after `change(i)` in a gallery of `n` images: prev is disabled exactly
   * at the first image, next exactly at the last, and the one thumbnail selected is
   * thumbnail `i`.
   */
  function OnChange(i: int, n: nat): (v: View)
    ensures |v.selected| == n
    ensures v.prevDisabled <==> i == 0
    ensures v.nextDisabled <==> i == n - 1
    ensures forall j :: 0 <= j < n ==> (v.selected[j] <==> j == i)
    ensures CountSelected(v.selected) == if 0 <= i < n then 1 else 0
  {
    var sel := seq(n, j => j == i);
    CountOneHot(sel, i);
    View(i == 0, i == n - 1, sel)
  }

  /**
   * The caption panel for image `i`: its caption and credit, and the count "i+1 of n".
   * The count reaches the total exactly where the next button is disabled and is 1
   * exactly where the prev button is.
   */
  function CaptionFor(images: seq<Image>, i: nat): (c: Caption)
    requires i < |images|
    ensures c.text == images[i].caption && c.credit == images[i].credit
    ensures c.count == i + 1 && c.total == |images|
    ensures 1 <= c.count <= c.total
    ensures c.count == c.total <==> OnChange(i, |images|).nextDisabled
    ensures c.count == 1 <==> OnChange(i, |images|).prevDisabled
  {
    Caption(images[i].caption, i + 1, |images|, images[i].credit)
  }
}
