/** Laying out the interval columns of the chart (chart-renderer.js,
    getBoxPosition, RANK_Z_INDEX, renderIcsColumn and renderBiozoneColumn):
    which items a column draws and in what order, and for each the box's
    position, height, stacking order, fill, text colour, border and label. */
module Layout {

  import opened Values
  import opened Intervals
  import opened Sequences
  import opened RangeFilter
  import opened ScaleEngine
  import opened Colors
  import opened ColorIndex
  import opened Columns

  // ---------------------------------------------------------------------
  // Box geometry
  // ---------------------------------------------------------------------

  /** The vertical extent getBoxPosition returns. */
  datatype BoxPosition = BoxPosition(top: real, height: real)

  /** The smallest box drawn: 8 px in proportional mode, 2 px otherwise. */
  function MinBoxHeight(mode: Mode): real {
    if mode == Proportional then 8.0 else 2.0
  }

  /** The pixel offset getBoxPosition computes for one bound of an item. */
  function BoundY(s: Scale, t: real, min: real, max: real): real
    requires WellFormed(s)
  {
    TimeToY(s, ClampTime(t, min, max))
  }

  /** getBoxPosition: the box starts at the upper of the two bounds' offsets
      and is as high as their distance, but never below the minimum height, so
      that it covers both offsets. */
  function GetBoxPosition(it: Item, s: Scale, min: real, max: real): (p: BoxPosition)
    requires WellFormed(s)
    ensures var yStart := BoundY(s, it.start, min, max);
      var yEnd := BoundY(s, it.end, min, max);
      && p.top <= yStart && p.top <= yEnd
      && (p.top == yStart || p.top == yEnd)
      && yStart <= p.top + p.height && yEnd <= p.top + p.height
      && p.height >= MinBoxHeight(s.mode)
      && (p.height == Abs(yEnd - yStart) || p.height == MinBoxHeight(s.mode))
  {
    var yStart := BoundY(s, it.start, min, max);
    var yEnd := BoundY(s, it.end, min, max);
    BoxPosition(Min(yStart, yEnd), Max(Abs(yEnd - yStart), MinBoxHeight(s.mode)))
  }

  /** The box does not depend on the order of the item's start and end. */
  lemma BoxPositionSwap(it: Item, s: Scale, min: real, max: real)
    requires WellFormed(s)
    ensures GetBoxPosition(Swapped(it), s, min, max) == GetBoxPosition(it, s, min, max)
  {
    var yStart := BoundY(s, it.start, min, max);
    var yEnd := BoundY(s, it.end, min, max);
    assert Abs(yStart - yEnd) == Abs(yEnd - yStart);
  }

  /** timeToY clamps its argument, so clamping first changes nothing once the
      window is at least as wide as the nudge. */
  lemma TimeToYOfClamped(s: Scale, t: real)
    requires WellFormed(s) && s.max - s.min >= Nudge
    ensures TimeToY(s, ClampTime(t, s.min, s.max)) == TimeToY(s, t)
  {
    ClampTwice(t, s.min, s.max);
  }

  /** On the scale's own window, clamping before timeToY changes nothing:
      timeToY clamps again, and clamping twice is clamping once. */
  lemma BoxOnOwnWindow(it: Item, s: Scale)
    requires WellFormed(s) && s.max - s.min >= Nudge
    ensures var yStart := TimeToY(s, it.start);
      var yEnd := TimeToY(s, it.end);
      GetBoxPosition(it, s, s.min, s.max)
        == BoxPosition(Min(yStart, yEnd), Max(Abs(yEnd - yStart), MinBoxHeight(s.mode)))
  {
    TimeToYOfClamped(s, it.start);
    TimeToYOfClamped(s, it.end);
    assert BoundY(s, it.start, s.min, s.max) == TimeToY(s, it.start);
    assert BoundY(s, it.end, s.min, s.max) == TimeToY(s, it.end);
  }

  /** In proportional mode every box starts inside the drawable band below the
      top padding. */
  lemma ProportionalBoxTop(it: Item, s: Scale, min: real, max: real)
    requires s.mapping.Linear? && s.mapping.effectiveHeight > 0.0 && s.max - s.min >= Nudge
    ensures TopPadding <= GetBoxPosition(it, s, min, max).top < TopPadding + s.mapping.effectiveHeight
  {
    LinearBounds(s, ClampTime(it.start, min, max));
    LinearBounds(s, ClampTime(it.end, min, max));
  }

  /** The default 0-66 Ma proportional chart runs at 45 px/Ma over 2970 px,
      2938 of them drawable. */
  lemma CenozoicScale(ln: real -> real)
    ensures BuildScale(0.0, 66.0, Proportional, [], ln) == Scale(Proportional, 0.0, 66.0, 2970.0, Linear(2938.0))
  {
    LinearTotals(0.0, 66.0, Proportional, [], ln);
  }

  /** The Paleogene box of that chart: the period's older bound 66 Ma is
      nudged just inside the window, and the box reaches from the 23 Ma line
      down to there. */
  lemma PaleogeneBox()
    ensures var s := Scale(Proportional, 0.0, 66.0, 2970.0, Linear(2938.0));
      var period := Item("paleogene", Some("Paleogene"), 66.0, 23.0, Some("#fd9a52"), Some("Period"), "ics");
      GetBoxPosition(period, s, 0.0, 66.0)
        == BoxPosition(12.0 + 23.0 / 66.0 * 2938.0, (43.0 - Nudge) / 66.0 * 2938.0)
  {
    var s := Scale(Proportional, 0.0, 66.0, 2970.0, Linear(2938.0));
    var yStart := TopPadding + (66.0 - Nudge) / 66.0 * 2938.0;
    var yEnd := TopPadding + 23.0 / 66.0 * 2938.0;
    assert ClampTime(66.0, 0.0, 66.0) == 66.0 - Nudge;
    assert ClampTime(23.0, 0.0, 66.0) == 23.0;
    assert BoundY(s, 66.0, 0.0, 66.0) == yStart;
    assert BoundY(s, 23.0, 0.0, 66.0) == yEnd;
    assert yStart - yEnd == (43.0 - Nudge) / 66.0 * 2938.0;
  }

  // ---------------------------------------------------------------------
  // Stacking order
  // ---------------------------------------------------------------------

  /** RANK_Z_INDEX. */
  function RankZ(rank: string): Option<int> {
    if rank == "Supereon" || rank == "Eon" then Some(10)
    else if rank == "Era" then Some(20)
    else if rank == "Period" then Some(30)
    else if rank == "Sub-Period" then Some(35)
    else if rank == "Epoch" || rank == "Series" then Some(40)
    else if rank == "Subseries" then Some(45)
    else if rank == "Age" || rank == "Stage" then Some(60)
    else None
  }

  /** `RANK_Z_INDEX[item.rank] || 30`: the table's value (never 0), or 30 for
      a rank the table lacks or no rank at all. */
  function ZIndex(rank: Option<string>): (z: int)
    ensures z > 0
    ensures rank.Some? && RankZ(rank.value).Some? ==> z == RankZ(rank.value).value
    ensures rank.None? || RankZ(rank.value).None? ==> z == 30
  {
    match rank
    case None => 30
    case Some(r) =>
      match RankZ(r)
      case Some(z) => if z != 0 then z else 30
      case None => 30
  }

  /** Every rank an ICS column draws is in the table, and a column further to
      the right (a finer rank) stacks its boxes strictly above those of every
      column to its left. */
  lemma ZIndexByColumn(i: nat, j: nat, r1: string, r2: string)
    requires 1 <= i < j < |ColumnBase|
    requires r1 in ColumnBase[i].kind.ranks && r2 in ColumnBase[j].kind.ranks
    ensures RankZ(r1).Some? && RankZ(r2).Some?
    ensures ZIndex(Some(r1)) < ZIndex(Some(r2))
  {
  }

  // ---------------------------------------------------------------------
  // Selection
  // ---------------------------------------------------------------------

  /** The ICS column's filter: a rank, one of the column's ranks, and visible. */
  predicate IcsKeeps(ranks: seq<string>, min: real, max: real, it: Item) {
    Truthy(it.rank) && it.rank.value in ranks && OverlapsRange(it, min, max)
  }

  /** The items the ICS column draws, by ascending start (older last). */
  function IcsRelevant(items: seq<Item>, ranks: seq<string>, min: real, max: real): seq<Item> {
    SortBy(Filter(items, it => IcsKeeps(ranks, min, max, it)), StartKey)
  }

  /** The items a biozone column draws: the visible ones, by ascending start. */
  function BiozoneRelevant(items: seq<Item>, min: real, max: real): seq<Item> {
    SortBy(Filter(items, it => OverlapsRange(it, min, max)), StartKey)
  }

  /** The ICS column draws exactly the visible items of its ranks, each as
      often as it occurs, ascending by start, items with equal starts in their
      input order. */
  lemma IcsSelection(items: seq<Item>, ranks: seq<string>, min: real, max: real, x: Item, k: real)
    ensures var kept := Filter(items, it => IcsKeeps(ranks, min, max, it));
      var r := IcsRelevant(items, ranks, min, max);
      && (x in r <==> x in items && Truthy(x.rank) && x.rank.value in ranks && OverlapsRange(x, min, max))
      && multiset(r) == multiset(kept)
      && SortedBy(r, StartKey)
      && WithKey(r, StartKey, k) == WithKey(kept, StartKey, k)
  {
    var kept := Filter(items, it => IcsKeeps(ranks, min, max, it));
    FilterMembers(items, it => IcsKeeps(ranks, min, max, it), x);
    SortByMembers(kept, StartKey, x);
    SortBySorted(kept, StartKey);
    SortByStable(kept, StartKey, k);
  }

  /** A biozone column draws exactly its visible items, each as often as it
      occurs, ascending by start, items with equal starts in their input order. */
  lemma BiozoneSelection(items: seq<Item>, min: real, max: real, x: Item, k: real)
    ensures var kept := Filter(items, it => OverlapsRange(it, min, max));
      var r := BiozoneRelevant(items, min, max);
      && (x in r <==> x in items && OverlapsRange(x, min, max))
      && multiset(r) == multiset(kept)
      && SortedBy(r, StartKey)
      && WithKey(r, StartKey, k) == WithKey(kept, StartKey, k)
  {
    var kept := Filter(items, it => OverlapsRange(it, min, max));
    FilterMembers(items, it => OverlapsRange(it, min, max), x);
    SortByMembers(kept, StartKey, x);
    SortBySorted(kept, StartKey);
    SortByStable(kept, StartKey, k);
  }

  // ---------------------------------------------------------------------
  // Boxes
  // ---------------------------------------------------------------------

  const IcsDefaultFill: string := "#b9c2d0"
  const BiozoneDefaultFill: string := "#dde6f6"
  /** The share by which a biozone's left border is darker than its fill. */
  const BorderDarkening: real := 0.35

  /** `item.label || '—'`: the label, or an em dash when there is none. */
  function Label(name: Option<string>): (text: string)
    ensures text != ""
  {
    if Truthy(name) then name.value else "\U{2014}"
  }

  /** `x || fallback` on an optional string. */
  function OrDefault(x: Option<string>, fallback: string): string {
    if Truthy(x) then x.value else fallback
  }

  datatype IcsBox = IcsBox(top: real, height: real, z: int, fill: string, text: string, caption: string)

  datatype BiozoneBox = BiozoneBox(top: real, height: real, fill: string, border: string, text: string, caption: string)

  function IcsBoxOf(it: Item, s: Scale, min: real, max: real): IcsBox
    requires WellFormed(s)
  {
    var p := GetBoxPosition(it, s, min, max);
    var fill := OrDefault(it.color, IcsDefaultFill);
    IcsBox(p.top, p.height, ZIndex(it.rank), fill, ContrastColor(fill), Label(it.name))
  }

  function BiozoneBoxOf(it: Item, s: Scale, min: real, max: real, index: seq<Entry>): BiozoneBox
    requires WellFormed(s)
  {
    var p := GetBoxPosition(it, s, min, max);
    var fill := OrDefault(ResolveGeoColor(it, index), BiozoneDefaultFill);
    BiozoneBox(p.top, p.height, fill, DarkenColor(fill, BorderDarkening), ContrastColor(fill), Label(it.name))
  }

  /** The boxes of an ICS column for the items `rs`, in order. */
  function IcsBoxes(rs: seq<Item>, s: Scale, min: real, max: real): (boxes: seq<IcsBox>)
    requires WellFormed(s)
    ensures |boxes| == |rs|
  {
    if rs == [] then []
    else IcsBoxes(rs[..|rs| - 1], s, min, max) + [IcsBoxOf(rs[|rs| - 1], s, min, max)]
  }

  /** The i-th box of an ICS column is the box of the i-th item. */
  lemma {:induction false} IcsBoxesAt(rs: seq<Item>, s: Scale, min: real, max: real, i: nat)
    requires WellFormed(s) && i < |rs|
    ensures IcsBoxes(rs, s, min, max)[i] == IcsBoxOf(rs[i], s, min, max)
  {
    var init := rs[..|rs| - 1];
    if i < |rs| - 1 {
      IcsBoxesAt(init, s, min, max, i);
      assert init[i] == rs[i];
    }
  }

  /** renderIcsColumn: one box per drawn item, in drawing order. */
  method RenderIcsColumn(items: seq<Item>, ranks: seq<string>, s: Scale, min: real, max: real)
    returns (boxes: seq<IcsBox>)
    requires WellFormed(s)
    ensures boxes == IcsBoxes(IcsRelevant(items, ranks, min, max), s, min, max)
  {
    var relevant := IcsRelevant(items, ranks, min, max);
    boxes := [];
    for i := 0 to |relevant|
      invariant boxes == IcsBoxes(relevant[..i], s, min, max)
    {
      assert relevant[..i + 1][..i] == relevant[..i];
      boxes := boxes + [IcsBoxOf(relevant[i], s, min, max)];
    }
    assert relevant[..|relevant|] == relevant;
  }

  /** The boxes of a biozone column for the items `rs`, in order. */
  function BiozoneBoxes(rs: seq<Item>, s: Scale, min: real, max: real, index: seq<Entry>): (boxes: seq<BiozoneBox>)
    requires WellFormed(s)
    ensures |boxes| == |rs|
  {
    if rs == [] then []
    else BiozoneBoxes(rs[..|rs| - 1], s, min, max, index) + [BiozoneBoxOf(rs[|rs| - 1], s, min, max, index)]
  }

  /** The i-th box of a biozone column is the box of the i-th item. */
  lemma {:induction false} BiozoneBoxesAt(rs: seq<Item>, s: Scale, min: real, max: real, index: seq<Entry>, i: nat)
    requires WellFormed(s) && i < |rs|
    ensures BiozoneBoxes(rs, s, min, max, index)[i] == BiozoneBoxOf(rs[i], s, min, max, index)
  {
    var init := rs[..|rs| - 1];
    if i < |rs| - 1 {
      BiozoneBoxesAt(init, s, min, max, index, i);
      assert init[i] == rs[i];
    }
  }

  /** renderBiozoneColumn: one box per drawn item, in drawing order. */
  method RenderBiozoneColumn(items: seq<Item>, s: Scale, min: real, max: real, index: seq<Entry>)
    returns (boxes: seq<BiozoneBox>)
    requires WellFormed(s)
    ensures boxes == BiozoneBoxes(BiozoneRelevant(items, min, max), s, min, max, index)
  {
    var relevant := BiozoneRelevant(items, min, max);
    boxes := [];
    for i := 0 to |relevant|
      invariant boxes == BiozoneBoxes(relevant[..i], s, min, max, index)
    {
      assert relevant[..i + 1][..i] == relevant[..i];
      boxes := boxes + [BiozoneBoxOf(relevant[i], s, min, max, index)];
    }
    assert relevant[..|relevant|] == relevant;
  }

  /** An ICS box is filled with the item's colour when it has one and with
      the default grey-blue otherwise, carries one of the two text colours
      (dark on the default fill), and never has an empty caption. */
  lemma IcsBoxColors(it: Item, s: Scale, min: real, max: real)
    requires WellFormed(s)
    ensures var b := IcsBoxOf(it, s, min, max);
      && b.fill != ""
      && (Truthy(it.color) ==> b.fill == it.color.value)
      && (!Truthy(it.color) ==> b.fill == IcsDefaultFill && b.text == DarkText)
      && (b.text == DarkText || b.text == LightText)
      && b.caption != ""
  {
    DefaultFillsTakeDarkText();
  }

  /** A biozone box takes the colour the index resolves whenever the index is
      not empty, and the pale default (with dark text) only when it is, provided
      every entry's colour is a non-empty string, as in every index
      buildGeoColorIndex builds. */
  lemma BiozoneBoxColors(index: seq<Entry>, it: Item, s: Scale, min: real, max: real)
    requires WellFormed(s)
    requires forall i :: 0 <= i < |index| ==> index[i].color != ""
    ensures var b := BiozoneBoxOf(it, s, min, max, index);
      && (index != [] ==> b.fill == ResolveGeoColor(it, index).value)
      && (index == [] ==> b.fill == BiozoneDefaultFill && b.text == DarkText)
      && b.caption != ""
  {
    var b := BiozoneBoxOf(it, s, min, max, index);
    assert b.fill == OrDefault(ResolveGeoColor(it, index), BiozoneDefaultFill);
    if index == [] {
      DefaultFillsTakeDarkText();
    }
  }

  /** A biozone box's text is one of the two text colours, and its border is
      the fill darkened by 35 % in rgb() form whenever the fill is a hex
      colour (the fill itself otherwise). */
  lemma BiozoneBoxBorder(index: seq<Entry>, it: Item, s: Scale, min: real, max: real)
    requires WellFormed(s)
    ensures var b := BiozoneBoxOf(it, s, min, max, index);
      && (b.text == DarkText || b.text == LightText)
      && (HexToRgb(b.fill).Some? ==> b.border[..4] == "rgb(" && b.border[|b.border| - 1] == ')')
      && (HexToRgb(b.fill).None? ==> b.border == b.fill)
  {
    var b := BiozoneBoxOf(it, s, min, max, index);
    assert b.border == DarkenColor(b.fill, BorderDarkening);
    assert b.text == ContrastColor(b.fill);
  }
}
