/** The scale builder of chart-renderer.js (buildScale): from a time window, a
    scale mode and the chronostratigraphic items, the mapping from a time in Ma
    to a vertical pixel offset, and the total height of the chart body.
    The three closures buildScale returns become the three cases of Mapping;
    timeToY dispatches on them. */
module ScaleEngine {

  import opened Values
  import opened Intervals
  import opened Sequences
  import opened RangeFilter

  /** The value of the scale-mode selector. The page offers the first three.
      `Other(name)` stands for any string that is none of 'proportional',
      'logarithmic' and 'equal' (those three strings are always the first
      three constructors, never `Other`); buildScale handles such a string
      like 'proportional', except for the minimum box height. */
  datatype Mode = Proportional | Logarithmic | Equal | Other(name: string)

  const SlotHeight: real := 90.0
  const MinEqualHeight: real := 600.0
  const MinTotalHeight: real := 700.0
  const TopPadding: real := 12.0
  const BottomPadding: real := 20.0
  const MinEffectiveHeight: real := 200.0
  const LinearRate: real := 32.0
  const LogRate: real := 45.0
  /** Windows up to 66 Ma (the Cenozoic) get the boosted rate. */
  const BoostSpan: real := 66.0
  const BoostFactor: real := 1.4
  /** Added before taking logarithms, so that 0 Ma has one. */
  const LogOffset: real := 0.05
  /** The tolerance of the slot search in equal mode (1e-6 Ma). */
  const SlotTolerance: real := 0.000001

  /** One entry of equal mode's ageBoundaries map: the slot [top, bottom) of an age. */
  datatype Boundary = Boundary(id: string, top: real, bottom: real, age: Item)

  /** The three timeToY closures buildScale can return. `ln` is Math.log,
      which has no counterpart over the reals and is therefore a parameter. */
  datatype Mapping =
    | Slotted(boundaries: seq<Boundary>)
    | Linear(effectiveHeight: real)
    | Log(effectiveHeight: real, logMin: real, logMax: real, ln: real -> real)

  /** The object buildScale returns: {mode, min, max, totalHeight, timeToY}. */
  datatype Scale = Scale(mode: Mode, min: real, max: real, totalHeight: real, mapping: Mapping)

  /** What timeToY needs of a scale: equal mode divides by the window's span. */
  predicate WellFormed(s: Scale) {
    s.mapping.Slotted? ==> s.min < s.max
  }

  /** The Age/Stage items that overlap the window: the anchors of equal mode. */
  function VisibleAges(items: seq<Item>, min: real, max: real): seq<Item> {
    Filter(Filter(items, IsAgeRank), it => OverlapsRange(it, min, max))
  }

  /** The item ids of a list are pairwise different (true of the items
      extracted from one TTL source, which are distinct concept URIs). */
  ghost predicate DistinctIds(s: seq<Item>) {
    forall i, j :: 0 <= i < j < |s| ==> s[i].id != s[j].id
  }

  /** The slot of the age at position `index` of the sorted anchors. */
  function SlotAt(ages: seq<Item>, index: nat): Boundary
    requires index < |ages|
  {
    var top := index as real * SlotHeight;
    Boundary(ages[index].id, top, top + SlotHeight, ages[index])
  }

  /** Map.prototype.set on the ageBoundaries map, keyed by id: an existing key
      keeps its position and takes the new value, a new key goes last. */
  function SetBoundary(bs: seq<Boundary>, b: Boundary): (r: seq<Boundary>)
    ensures |r| == |bs| || |r| == |bs| + 1
  {
    match FindFirst(bs, (x: Boundary) => x.id == b.id)
    case Some(i) => bs[i := b]
    case None => bs + [b]
  }

  /** Map.prototype.set, case by case: a key already present keeps the map's
      size and its value is replaced where the key first occurs; a new key
      goes last. */
  lemma SetBoundaryCases(bs: seq<Boundary>, b: Boundary)
    ensures (exists i :: 0 <= i < |bs| && bs[i].id == b.id) ==> |SetBoundary(bs, b)| == |bs|
    ensures forall i :: 0 <= i < |bs| && bs[i].id == b.id && (forall j :: 0 <= j < i ==> bs[j].id != b.id)
              ==> SetBoundary(bs, b) == bs[i := b]
    ensures (forall i :: 0 <= i < |bs| ==> bs[i].id != b.id) ==> SetBoundary(bs, b) == bs + [b]
  {
    var found := FindFirst(bs, (x: Boundary) => x.id == b.id);
    if found.Some? {
      forall i | 0 <= i < |bs| && bs[i].id == b.id && (forall j :: 0 <= j < i ==> bs[j].id != b.id)
        ensures SetBoundary(bs, b) == bs[i := b]
      {
        assert found.value == i;
      }
    }
  }

  /** The ageBoundaries map after the forEach over the sorted anchors, in the
      map's iteration order. */
  function Boundaries(ages: seq<Item>): seq<Boundary> {
    if ages == [] then []
    else SetBoundary(Boundaries(ages[..|ages| - 1]), SlotAt(ages, |ages| - 1))
  }

  /** The forEach of buildScale's equal branch that fills ageBoundaries. */
  method FillBoundaries(sorted: seq<Item>) returns (bs: seq<Boundary>)
    ensures bs == Boundaries(sorted)
  {
    bs := [];
    for index := 0 to |sorted|
      invariant bs == Boundaries(sorted[..index])
    {
      var age := sorted[index];
      var top := index as real * SlotHeight;
      bs := SetBoundary(bs, Boundary(age.id, top, top + SlotHeight, age));
      assert sorted[..index + 1][..index] == sorted[..index];
    }
    assert sorted[..|sorted|] == sorted;
  }

  /** The pixels per Ma of the non-equal modes: 45 for logarithmic; for the
      others 32, raised to Math.round(32 * 1.4) for windows of at most 66 Ma. */
  function PixelsPerMa(mode: Mode, span: real): real {
    var base := if mode.Logarithmic? then LogRate else LinearRate;
    if !mode.Logarithmic? && span > 0.0 && span <= BoostSpan then Round(base * BoostFactor) as real
    else base
  }

  /** buildScale. */
  function BuildScale(minMa: real, maxMa: real, mode: Mode, items: seq<Item>, ln: real -> real): (s: Scale)
    ensures s.min == Min(minMa, maxMa) && s.max == Max(minMa, maxMa)
    ensures s.mode == mode
    ensures s.mapping.Slotted? ==> s.min + VisibleEpsilon < s.max
    ensures WellFormed(s)
  {
    var min := Min(minMa, maxMa);
    var max := Max(minMa, maxMa);
    var visible := VisibleAges(items, min, max);
    if mode.Equal? && |visible| > 0 then
      assert OverlapsRange(visible[0], min, max);
      OverlapsRangeIff(visible[0], min, max);
      var sorted := SortBy(visible, EndKey);
      Scale(mode, min, max, Max(|sorted| as real * SlotHeight, MinEqualHeight), Slotted(Boundaries(sorted)))
    else
      var span := max - min;
      var total := Max(span * PixelsPerMa(mode, span), MinTotalHeight);
      var effective := Max(total - TopPadding - BottomPadding, MinEffectiveHeight);
      if mode.Logarithmic? then
        Scale(mode, min, max, total, Log(effective, ln(min + LogOffset), ln(max + LogOffset), ln))
      else
        Scale(mode, min, max, total, Linear(effective))
  }

  /** JavaScript's `x || 1` on a number: a zero divisor becomes 1. */
  function Divisor(x: real): (r: real)
    ensures r != 0.0
    ensures x != 0.0 ==> r == x
  {
    if x == 0.0 then 1.0 else x
  }

  /** The slot test of equal mode's timeToY: the age contains the time, within 1e-6 Ma. */
  predicate InSlot(b: Boundary, c: real) {
    c <= b.age.start + SlotTolerance && c >= b.age.end - SlotTolerance
  }

  /** The position of a time inside its slot, by linear interpolation over the
      age (an age whose start is not above its end puts it at the slot's top). */
  function PositionInSlot(b: Boundary, c: real): real {
    var span := b.age.start - b.age.end;
    var ratio := if span > 0.0 then (c - b.age.end) / span else 0.0;
    b.top + ratio * (b.bottom - b.top)
  }

  /** Equal mode's timeToY on a clamped time: the first slot that contains it,
      or the whole window stretched over the total height. */
  function EqualY(bs: seq<Boundary>, c: real, min: real, max: real, totalHeight: real): real
    requires min < max
  {
    match FindFirst(bs, (b: Boundary) => InSlot(b, c))
    case Some(i) => PositionInSlot(bs[i], c)
    case None => (c - min) / (max - min) * totalHeight
  }

  /** scale.timeToY(value). */
  function TimeToY(s: Scale, value: real): real
    requires WellFormed(s)
  {
    var c := ClampTime(value, s.min, s.max);
    match s.mapping
    case Slotted(bs) => EqualY(bs, c, s.min, s.max, s.totalHeight)
    case Linear(effective) => TopPadding + (c - s.min) / Divisor(s.max - s.min) * effective
    case Log(effective, logMin, logMax, ln) =>
      TopPadding + (ln(c + LogOffset) - logMin) / Divisor(logMax - logMin) * effective
  }

  /** The timeToY closure of equal mode: the scan over ageBoundaries. */
  method EqualTimeToY(s: Scale, value: real) returns (y: real)
    requires WellFormed(s) && s.mapping.Slotted?
    ensures y == TimeToY(s, value)
  {
    var clamped := ClampTime(value, s.min, s.max);
    var bs := s.mapping.boundaries;
    var i := 0;
    while i < |bs|
      invariant 0 <= i <= |bs|
      invariant forall j :: 0 <= j < i ==> !InSlot(bs[j], clamped)
    {
      var b := bs[i];
      if clamped <= b.age.start + SlotTolerance && clamped >= b.age.end - SlotTolerance {
        var span := b.age.start - b.age.end;
        var ratio := if span > 0.0 then (clamped - b.age.end) / span else 0.0;
        assert FindFirst(bs, (x: Boundary) => InSlot(x, clamped)) == Some(i);
        return b.top + ratio * (b.bottom - b.top);
      }
      i := i + 1;
    }
    assert FindFirst(bs, (x: Boundary) => InSlot(x, clamped)) == None;
    return (clamped - s.min) / (s.max - s.min) * s.totalHeight;
  }

  // ---------------------------------------------------------------------
  // Properties of the non-equal scales
  // ---------------------------------------------------------------------

  /** The rate is 45 px/Ma for logarithmic, 45 (Math.round(32 * 1.4)) for the
      other modes over a window of at most 66 Ma, and 32 otherwise. */
  lemma PixelsPerMaValues(mode: Mode, span: real)
    ensures PixelsPerMa(mode, span)
         == if mode.Logarithmic? then 45.0 else if 0.0 < span <= 66.0 then 45.0 else 32.0
  {
    assert (LinearRate * BoostFactor + 0.5).Floor == 45;
  }

  /** Outside a populated equal mode the body is span * rate px high but never
      under 700 px, and the drawable height is the total less the 12 + 20 px of
      padding: the 200 px floor never binds. */
  lemma LinearTotals(minMa: real, maxMa: real, mode: Mode, items: seq<Item>, ln: real -> real)
    ensures var s := BuildScale(minMa, maxMa, mode, items, ln);
      var span := s.max - s.min;
      var rate := if mode.Logarithmic? then 45.0 else if 0.0 < span <= 66.0 then 45.0 else 32.0;
      !s.mapping.Slotted? ==>
        && s.totalHeight == Max(span * rate, MinTotalHeight)
        && s.totalHeight >= 700.0
        && s.mapping.effectiveHeight == s.totalHeight - 32.0
  {
    var span := Max(minMa, maxMa) - Min(minMa, maxMa);
    PixelsPerMaValues(mode, span);
    var total := Max(span * PixelsPerMa(mode, span), MinTotalHeight);
    assert total >= 700.0;
    assert Max(total - TopPadding - BottomPadding, MinEffectiveHeight) == total - 32.0;
  }

  /** Proportional timeToY puts the window's lower bound at the top padding. */
  lemma LinearAtMin(s: Scale)
    requires s.mapping.Linear? && s.min < s.max
    ensures TimeToY(s, s.min) == TopPadding
  {
  }

  /** Proportional timeToY is strictly increasing over the window. */
  lemma LinearIncreasing(s: Scale, v1: real, v2: real)
    requires s.mapping.Linear? && s.mapping.effectiveHeight > 0.0
    requires s.min <= v1 < v2 < s.max
    ensures TimeToY(s, v1) < TimeToY(s, v2)
  {
    var span := s.max - s.min;
    var e := s.mapping.effectiveHeight;
    assert (v1 - s.min) / span < (v2 - s.min) / span;
    MulLess((v1 - s.min) / span, (v2 - s.min) / span, e);
  }

  lemma MulLess(a: real, b: real, e: real)
    requires a < b && e > 0.0
    ensures a * e < b * e
  {
  }

  lemma MulAtMost(a: real, b: real, e: real)
    requires a <= b && e >= 0.0
    ensures a * e <= b * e
  {
    if a < b && e > 0.0 {
      MulLess(a, b, e);
    }
  }

  lemma DivBounds(a: real, d: real)
    requires d > 0.0 && 0.0 <= a <= d
    ensures 0.0 <= a / d <= 1.0
    ensures a < d ==> a / d < 1.0
  {
    var q := a / d;
    assert q * d == a;
    if q < 0.0 {
      MulLess(q, 0.0, d);
    }
    if a < d && q >= 1.0 {
      if q > 1.0 {
        MulLess(1.0, q, d);
      }
    }
    if q > 1.0 {
      MulLess(1.0, q, d);
    }
  }

  /** Proportional timeToY sends every time into [12, 12 + effectiveHeight). */
  lemma LinearBounds(s: Scale, value: real)
    requires s.mapping.Linear? && s.mapping.effectiveHeight > 0.0
    requires s.max - s.min >= Nudge
    ensures TopPadding <= TimeToY(s, value) < TopPadding + s.mapping.effectiveHeight
  {
    var c := ClampTime(value, s.min, s.max);
    DivBounds(c - s.min, s.max - s.min);
    var f := (c - s.min) / (s.max - s.min);
    MulLess(f, 1.0, s.mapping.effectiveHeight);
    MulAtMost(0.0, f, s.mapping.effectiveHeight);
    assert TimeToY(s, value) == TopPadding + f * s.mapping.effectiveHeight;
  }

  /** What buildScale stores for the logarithmic mode: the logarithms of the
      window's bounds (shifted by 0.05) and a positive drawable height. */
  lemma LogScaleBuilt(minMa: real, maxMa: real, items: seq<Item>, ln: real -> real)
    ensures var s := BuildScale(minMa, maxMa, Logarithmic, items, ln);
      && s.mapping.Log?
      && s.mapping.ln == ln
      && s.mapping.logMin == ln(s.min + LogOffset)
      && s.mapping.logMax == ln(s.max + LogOffset)
      && s.mapping.effectiveHeight == s.totalHeight - 32.0 >= 668.0
  {
    LinearTotals(minMa, maxMa, Logarithmic, items, ln);
  }

  /** Facts about a logarithmic scale whose logarithm is strictly increasing
      and whose window lies above -0.05 Ma. */
  ghost predicate MonotoneLogScale(s: Scale) {
    && s.mapping.Log?
    && s.mapping.effectiveHeight > 0.0
    && s.min + LogOffset > 0.0
    && s.max - s.min >= Nudge
    && s.mapping.logMin == s.mapping.ln(s.min + LogOffset)
    && s.mapping.logMax == s.mapping.ln(s.max + LogOffset)
    && forall x, y :: 0.0 < x < y ==> s.mapping.ln(x) < s.mapping.ln(y)
  }

  /** The logarithmic scale sends every time into [12, 12 + effectiveHeight). */
  lemma LogBounds(s: Scale, value: real)
    requires MonotoneLogScale(s)
    ensures TopPadding <= TimeToY(s, value) < TopPadding + s.mapping.effectiveHeight
  {
    var ln := s.mapping.ln;
    var lo, hi := s.mapping.logMin, s.mapping.logMax;
    var c := ClampTime(value, s.min, s.max);
    assert lo < hi;
    assert lo <= ln(c + LogOffset) < hi by {
      if c > s.min {
        assert ln(s.min + LogOffset) < ln(c + LogOffset);
      }
      assert ln(c + LogOffset) < ln(s.max + LogOffset);
    }
    DivBounds(ln(c + LogOffset) - lo, hi - lo);
    var f := (ln(c + LogOffset) - lo) / (hi - lo);
    MulLess(f, 1.0, s.mapping.effectiveHeight);
    MulAtMost(0.0, f, s.mapping.effectiveHeight);
    assert TimeToY(s, value) == TopPadding + f * s.mapping.effectiveHeight;
  }

  /** The logarithmic scale is strictly increasing over the window. */
  lemma LogIncreasing(s: Scale, v1: real, v2: real)
    requires MonotoneLogScale(s)
    requires s.min <= v1 < v2 < s.max
    ensures TimeToY(s, v1) < TimeToY(s, v2)
  {
    var ln := s.mapping.ln;
    var lo, hi := s.mapping.logMin, s.mapping.logMax;
    assert lo < hi;
    assert ln(v1 + LogOffset) < ln(v2 + LogOffset);
    var d := hi - lo;
    var f1 := (ln(v1 + LogOffset) - lo) / d;
    var f2 := (ln(v2 + LogOffset) - lo) / d;
    assert f1 < f2 by {
      assert f1 * d == ln(v1 + LogOffset) - lo;
      assert f2 * d == ln(v2 + LogOffset) - lo;
      if f1 >= f2 {
        if f1 > f2 {
          MulLess(f2, f1, d);
        }
      }
    }
    MulLess(f1, f2, s.mapping.effectiveHeight);
  }

  // ---------------------------------------------------------------------
  // Properties of equal mode
  // ---------------------------------------------------------------------

  /** An item occurs at most once in a list with distinct ids. */
  lemma {:induction false} DistinctIdsCount(s: seq<Item>, x: Item)
    requires DistinctIds(s)
    ensures multiset(s)[x] <= 1
  {
    if s != [] {
      var init := s[..|s| - 1];
      assert s == init + [s[|s| - 1]];
      assert DistinctIds(init);
      DistinctIdsCount(init, x);
      if s[|s| - 1] == x {
        forall k | 0 <= k < |init| ensures init[k] != x {
          assert s[k].id != s[|s| - 1].id;
        }
        assert x !in init;
      }
    }
  }

  /** Filtering and sorting keep ids distinct. */
  lemma DistinctIdsOfSub(s: seq<Item>, t: seq<Item>)
    requires DistinctIds(s) && multiset(t) <= multiset(s)
    ensures DistinctIds(t)
  {
    forall i, j | 0 <= i < j < |t| ensures t[i].id != t[j].id {
      assert t[i] in multiset(s) && t[j] in multiset(s);
      var a :| 0 <= a < |s| && s[a] == t[i];
      var b :| 0 <= b < |s| && s[b] == t[j];
      if a == b {
        assert t == t[..j] + t[j..];
        assert t[i] in t[..j] && t[j] in t[j..];
        assert multiset(t)[t[i]] == multiset(t[..j])[t[i]] + multiset(t[j..])[t[i]];
        assert multiset(s)[t[i]] >= 2;
        DistinctIdsCount(s, t[i]);
        assert false;
      } else if a < b {
        assert s[a].id != s[b].id;
      } else {
        assert s[b].id != s[a].id;
      }
    }
  }

  /** With distinct ids the forEach never finds an existing key: slot i of the
      map belongs to the i-th sorted age. */
  lemma {:induction false} BoundariesOfDistinct(ages: seq<Item>)
    requires DistinctIds(ages)
    ensures |Boundaries(ages)| == |ages|
    ensures forall i :: 0 <= i < |ages| ==> Boundaries(ages)[i] == SlotAt(ages, i)
  {
    if ages != [] {
      var n := |ages| - 1;
      var init := ages[..n];
      assert DistinctIds(init);
      BoundariesOfDistinct(init);
      var bs := Boundaries(init);
      var b := SlotAt(ages, n);
      assert forall k :: 0 <= k < |bs| ==> bs[k].id == ages[k].id != b.id;
      SetBoundaryCases(bs, b);
    }
  }

  /** The ages of the slots, in the map's order. */
  function SlotAges(bs: seq<Boundary>): (ages: seq<Item>)
    ensures |ages| == |bs|
  {
    seq(|bs|, i requires 0 <= i < |bs| => bs[i].age)
  }

  /** Equal mode with n > 0 visible Age/Stage items (of distinct ids): slot i
      is [90i, 90i + 90) and belongs to the i-th of those items in ascending
      order of end, so the slots are contiguous and disjoint and follow the
      ages from youngest to oldest; ages with the same end (here the value k)
      keep their input order, as the stable sort leaves them; the body is
      max(90n, 600) px high. */
  lemma EqualSlots(minMa: real, maxMa: real, items: seq<Item>, ln: real -> real, k: real)
    requires DistinctIds(items)
    ensures var s := BuildScale(minMa, maxMa, Equal, items, ln);
      var visible := VisibleAges(items, s.min, s.max);
      var n := |visible|;
      n > 0 ==>
        && s.mapping.Slotted?
        && s.totalHeight == Max(n as real * 90.0, 600.0)
        && |s.mapping.boundaries| == n
        && multiset(SlotAges(s.mapping.boundaries)) == multiset(visible)
        && WithKey(SlotAges(s.mapping.boundaries), EndKey, k) == WithKey(visible, EndKey, k)
        && (forall i :: 0 <= i < n ==>
              && s.mapping.boundaries[i].top == 90.0 * i as real
              && s.mapping.boundaries[i].bottom == s.mapping.boundaries[i].top + 90.0)
        && (forall i, j :: 0 <= i < j < n ==>
              s.mapping.boundaries[i].age.end <= s.mapping.boundaries[j].age.end)
  {
    var s := BuildScale(minMa, maxMa, Equal, items, ln);
    var visible := VisibleAges(items, s.min, s.max);
    if |visible| > 0 {
      var sorted := SortBy(visible, EndKey);
      var ages := Filter(items, IsAgeRank);
      assert multiset(sorted) <= multiset(items) by {
        assert multiset(visible) <= multiset(ages) <= multiset(items);
      }
      DistinctIdsOfSub(items, sorted);
      assert s.mapping.boundaries == Boundaries(sorted);
      SlotsOfSorted(visible, k);
    }
  }

  /** The slots built from the ages sorted by end, when their ids are
      distinct: one per age, in sorted order, 90 px each from the top. */
  lemma SlotsOfSorted(visible: seq<Item>, k: real)
    requires DistinctIds(SortBy(visible, EndKey))
    ensures var bs := Boundaries(SortBy(visible, EndKey));
      && |bs| == |visible|
      && multiset(SlotAges(bs)) == multiset(visible)
      && WithKey(SlotAges(bs), EndKey, k) == WithKey(visible, EndKey, k)
      && (forall i :: 0 <= i < |bs| ==> bs[i].top == 90.0 * i as real && bs[i].bottom == bs[i].top + 90.0)
      && (forall i, j :: 0 <= i < j < |bs| ==> bs[i].age.end <= bs[j].age.end)
  {
    var sorted := SortBy(visible, EndKey);
    var bs := Boundaries(sorted);
    BoundariesOfDistinct(sorted);
    SortBySorted(visible, EndKey);
    SortByStable(visible, EndKey, k);
    assert SlotAges(bs) == sorted;
  }

  /** Equal mode with no visible Age/Stage item falls back to the linear
      scale, but the scale still reports mode 'equal'. */
  lemma EqualWithoutAnchors(minMa: real, maxMa: real, items: seq<Item>, ln: real -> real)
    requires VisibleAges(items, Min(minMa, maxMa), Max(minMa, maxMa)) == []
    ensures var s := BuildScale(minMa, maxMa, Equal, items, ln);
      s.mode == Equal && s.mapping.Linear? && s.totalHeight >= 700.0
  {
    LinearTotals(minMa, maxMa, Equal, items, ln);
  }

  /** Interpolating inside a slot stays inside the slot's pixels. */
  lemma PositionInSlotBounds(b: Boundary, c: real)
    requires b.top <= b.bottom && b.age.end <= c <= b.age.start
    ensures b.top <= PositionInSlot(b, c) <= b.bottom
  {
    var span := b.age.start - b.age.end;
    if span > 0.0 {
      DivBounds(c - b.age.end, span);
      var ratio := (c - b.age.end) / span;
      var h := b.bottom - b.top;
      MulAtMost(ratio, 1.0, h);
      MulAtMost(0.0, ratio, h);
      assert PositionInSlot(b, c) == b.top + ratio * h;
    }
  }

  /** In equal mode a time within 1e-6 Ma of the first slot that contains it
      is placed by linear interpolation over that slot's age; when the time
      lies inside the age itself, the result stays within the slot's pixels. */
  lemma EqualInsideSlot(s: Scale, value: real, i: nat)
    requires WellFormed(s) && s.mapping.Slotted?
    requires i < |s.mapping.boundaries|
    requires s.mapping.boundaries[i].top <= s.mapping.boundaries[i].bottom
    requires var c := ClampTime(value, s.min, s.max);
      && InSlot(s.mapping.boundaries[i], c)
      && forall j :: 0 <= j < i ==> !InSlot(s.mapping.boundaries[j], c)
    ensures TimeToY(s, value) == PositionInSlot(s.mapping.boundaries[i], ClampTime(value, s.min, s.max))
    ensures var c := ClampTime(value, s.min, s.max);
      s.mapping.boundaries[i].age.end <= c <= s.mapping.boundaries[i].age.start ==>
        s.mapping.boundaries[i].top <= TimeToY(s, value) <= s.mapping.boundaries[i].bottom
  {
    var bs := s.mapping.boundaries;
    var c := ClampTime(value, s.min, s.max);
    assert FindFirst(bs, (x: Boundary) => InSlot(x, c)) == Some(i);
    assert TimeToY(s, value) == PositionInSlot(bs[i], c);
    if bs[i].age.end <= c <= bs[i].age.start {
      PositionInSlotBounds(bs[i], c);
    }
  }

  /** In equal mode a time in no slot is placed proportionally over the whole
      body, without padding: at its fraction of the window times the total
      height, which lies in [0, totalHeight). */
  lemma EqualOutsideSlots(s: Scale, value: real)
    requires WellFormed(s) && s.mapping.Slotted? && s.totalHeight > 0.0
    requires s.max - s.min >= Nudge
    requires forall j :: 0 <= j < |s.mapping.boundaries| ==>
               !InSlot(s.mapping.boundaries[j], ClampTime(value, s.min, s.max))
    ensures TimeToY(s, value)
         == (ClampTime(value, s.min, s.max) - s.min) / (s.max - s.min) * s.totalHeight
    ensures 0.0 <= TimeToY(s, value) < s.totalHeight
  {
    var c := ClampTime(value, s.min, s.max);
    var bs := s.mapping.boundaries;
    assert FindFirst(bs, (x: Boundary) => InSlot(x, c)) == None;
    DivBounds(c - s.min, s.max - s.min);
    var f := (c - s.min) / (s.max - s.min);
    MulLess(f, 1.0, s.totalHeight);
  }
}
