/** Clamping times into the visible window and deciding which items are
    visible in it (chart-renderer.js, clampTime, overlapsRange and
    detectTinyOverlaps). */
module RangeFilter {

  import opened Values
  import opened Intervals
  import opened Sequences

  /** The nudge that keeps a clamped time strictly below the window's upper bound (1e-9 Ma). */
  const Nudge: real := 0.000000001

  /** The overlap an item needs to be drawn (EPS_MA in overlapsRange, 0.05 Ma). */
  const VisibleEpsilon: real := 0.05

  /** The overlap under which detectTinyOverlaps reports an item (its own EPS_MA, 0.05 Ma). */
  const TinyEpsilon: real := 0.05

  /** clampTime: the value pulled into [min, max], then moved just below `max`
      when it lands on it, so that it lies in the half-open window [min, max). */
  function ClampTime(value: real, min: real, max: real): (r: real)
    ensures r < max
    ensures value >= max ==> r == max - Nudge
    ensures min <= value < max ==> r == value
    ensures value <= min < max ==> r == min
    ensures max - min >= Nudge ==> min <= r
  {
    var clamped := Min(Max(value, min), max);
    if clamped == max then max - Nudge else clamped
  }

  /** Clamping is idempotent once the window is at least as wide as the nudge;
      getBoxPosition clamps before timeToY clamps again, and relies on this. */
  lemma ClampTwice(value: real, min: real, max: real)
    requires max - min >= Nudge
    ensures ClampTime(ClampTime(value, min, max), min, max) == ClampTime(value, min, max)
  {
  }

  /** In a window narrower than the nudge, a value at or above the upper bound
      is pushed below the lower bound: the half-open guarantee needs
      max - min >= 1e-9. */
  lemma ClampNarrowWindow(value: real, min: real, max: real)
    requires min <= max < min + Nudge && value >= max
    ensures ClampTime(value, min, max) < min
  {
  }

  /** Clamping never reverses the order of two times, except for a time that
      lies less than the nudge below `max`, which stays where it is while `max`
      itself moves below it. */
  lemma ClampMonotone(v1: real, v2: real, min: real, max: real)
    requires max - min >= Nudge
    requires v1 <= v2
    requires v1 <= max - Nudge || v2 < max
    ensures ClampTime(v1, min, max) <= ClampTime(v2, min, max)
  {
  }

  /** The exception is real: a time inside the window that lies less than the
      nudge below `max` is left where it is, above the clamp of `max` itself,
      so a later time clamps lower than an earlier one. */
  lemma ClampInversionNearMax(t: real, min: real, max: real)
    requires min < t && max - Nudge < t < max
    ensures ClampTime(t, min, max) == t
    ensures ClampTime(t, min, max) > ClampTime(max, min, max)
  {
  }

  /** The length of the intersection of the item's span with [min, max];
      negative when they are apart. */
  function Overlap(it: Item, min: real, max: real): real {
    Min(ItemMax(it), max) - Max(ItemMin(it), min)
  }

  /** overlapsRange: the item is drawn when it overlaps the window by more than 0.05 Ma. */
  predicate OverlapsRange(it: Item, min: real, max: real) {
    Overlap(it, min, max) > VisibleEpsilon
  }

  /** An independent statement of visibility: every bound of the item lies
      more than 0.05 Ma inside the opposite bound of the window, and both the
      item and the window are longer than 0.05 Ma. */
  lemma OverlapsRangeIff(it: Item, min: real, max: real)
    ensures OverlapsRange(it, min, max) <==>
      && ItemMin(it) + VisibleEpsilon < max
      && min + VisibleEpsilon < ItemMax(it)
      && ItemMin(it) + VisibleEpsilon < ItemMax(it)
      && min + VisibleEpsilon < max
  {
  }

  /** The order of start and end does not matter for visibility. */
  lemma OverlapsRangeSwap(it: Item, min: real, max: real)
    ensures OverlapsRange(Swapped(it), min, max) == OverlapsRange(it, min, max)
  {
  }

  /** An item that only touches the window (or lies outside it) is never visible. */
  lemma TouchingNotVisible(it: Item, min: real, max: real)
    requires ItemMax(it) <= min || ItemMin(it) >= max
    ensures !OverlapsRange(it, min, max)
  {
  }

  /** What detectTinyOverlaps records for one item. */
  datatype TinyOverlap = TinyOverlap(id: string, name: Option<string>, start: real, end: real, overlap: real)

  /** The items detectTinyOverlaps reports: a positive overlap of at most 0.05 Ma. */
  predicate IsTiny(it: Item, min: real, max: real) {
    var overlap := Overlap(it, min, max);
    overlap > 0.0 && overlap <= TinyEpsilon
  }

  function Report(it: Item, min: real, max: real): TinyOverlap {
    TinyOverlap(it.id, it.name, it.start, it.end, Overlap(it, min, max))
  }

  /** The report of detectTinyOverlaps, item by item in input order. */
  function TinyOverlaps(items: seq<Item>, min: real, max: real): (r: seq<TinyOverlap>)
    ensures |r| <= |items|
  {
    if items == [] then []
    else
      var last := items[|items| - 1];
      TinyOverlaps(items[..|items| - 1], min, max)
        + (if IsTiny(last, min, max) then [Report(last, min, max)] else [])
  }

  /** The report holds exactly the tiny items, and none of them is visible:
      the diagnostic names items the filter drops, never one it draws. */
  lemma {:induction false} TinyOverlapsExact(items: seq<Item>, min: real, max: real, t: TinyOverlap)
    ensures t in TinyOverlaps(items, min, max) <==>
      exists i :: 0 <= i < |items| && IsTiny(items[i], min, max) && t == Report(items[i], min, max)
    ensures t in TinyOverlaps(items, min, max) ==>
      exists i :: 0 <= i < |items| && !OverlapsRange(items[i], min, max) && t == Report(items[i], min, max)
  {
    if items != [] {
      var init := items[..|items| - 1];
      TinyOverlapsExact(init, min, max, t);
      if t in TinyOverlaps(init, min, max) {
        var i :| 0 <= i < |init| && IsTiny(init[i], min, max) && t == Report(init[i], min, max);
        assert items[i] == init[i];
      }
      if exists i :: 0 <= i < |items| && IsTiny(items[i], min, max) && t == Report(items[i], min, max) {
        var i :| 0 <= i < |items| && IsTiny(items[i], min, max) && t == Report(items[i], min, max);
        if i < |init| {
          assert init[i] == items[i];
        }
      }
    }
  }

  /** detectTinyOverlaps: the loop that collects the reports (the console
      warning that prints them is not modelled). */
  method DetectTinyOverlaps(items: seq<Item>, min: real, max: real) returns (small: seq<TinyOverlap>)
    ensures small == TinyOverlaps(items, min, max)
  {
    small := [];
    for i := 0 to |items|
      invariant small == TinyOverlaps(items[..i], min, max)
    {
      var it := items[i];
      var itemMin := Min(it.start, it.end);
      var itemMax := Max(it.start, it.end);
      var overlap := Min(itemMax, max) - Max(itemMin, min);
      if overlap > 0.0 && overlap <= TinyEpsilon {
        small := small + [TinyOverlap(it.id, it.name, it.start, it.end, overlap)];
      }
      assert items[..i + 1][..i] == items[..i];
    }
    assert items[..|items|] == items;
  }
}
