/** The geological colour index of chart-renderer.js: the coloured ICS ages
    (buildGeoColorIndex) and the lookup that gives a biozone the colour of the
    age it falls in (resolveGeoColorForInterval). */
module ColorIndex {

  import opened Values
  import opened Intervals
  import opened Sequences

  /** One index entry: the age's older bound, its younger bound and its colour. */
  datatype Entry = Entry(start: real, end: real, color: string)

  /** The tolerance of the midpoint containment test (1e-6 Ma). */
  const MidTolerance: real := 0.000001

  /** The items the index keeps: ages or stages with a colour. */
  predicate Indexed(it: Item) {
    IsAgeRank(it) && Truthy(it.color)
  }

  /** The entry made of a kept item, its bounds in (older, younger) order. */
  function ToEntry(it: Item): (e: Entry)
    requires Truthy(it.color)
    ensures e.start >= e.end && e.color != ""
  {
    Entry(ItemMax(it), ItemMin(it), it.color.value)
  }

  function Entries(items: seq<Item>): (r: seq<Entry>)
    requires forall i :: 0 <= i < |items| ==> Truthy(items[i].color)
    ensures |r| == |items|
  {
    seq(|items|, i requires 0 <= i < |items| => ToEntry(items[i]))
  }

  function EndOf(e: Entry): real { e.end }

  /** buildGeoColorIndex: the kept items as entries, stably sorted by their
      younger bound. */
  function BuildGeoColorIndex(items: seq<Item>): seq<Entry> {
    SortBy(Entries(Filter(items, Indexed)), EndOf)
  }

  /** The index holds exactly the entries of the coloured ages and stages. */
  lemma GeoColorIndexMembers(items: seq<Item>, e: Entry)
    ensures e in BuildGeoColorIndex(items) <==> exists it :: it in items && Indexed(it) && e == ToEntry(it)
  {
    if e in BuildGeoColorIndex(items) {
      KeptOfEntry(items, e);
    }
    if exists it :: it in items && Indexed(it) && e == ToEntry(it) {
      var it :| it in items && Indexed(it) && e == ToEntry(it);
      EntryOfKept(items, it);
    }
  }

  /** Every coloured age or stage has its entry in the index. */
  lemma EntryOfKept(items: seq<Item>, it: Item)
    requires it in items && Indexed(it)
    ensures ToEntry(it) in BuildGeoColorIndex(items)
  {
    var kept := Filter(items, Indexed);
    var entries := Entries(kept);
    FilterMembers(items, Indexed, it);
    var i :| 0 <= i < |kept| && kept[i] == it;
    assert entries[i] == ToEntry(it);
    SortByMembers(entries, EndOf, ToEntry(it));
  }

  /** Every entry of the index is the entry of a coloured age or stage. */
  lemma KeptOfEntry(items: seq<Item>, e: Entry)
    requires e in BuildGeoColorIndex(items)
    ensures exists it :: it in items && Indexed(it) && e == ToEntry(it)
  {
    var kept := Filter(items, Indexed);
    var entries := Entries(kept);
    SortByMembers(entries, EndOf, e);
    var i :| 0 <= i < |entries| && entries[i] == e;
    FilterMembers(items, Indexed, kept[i]);
    assert kept[i] in items && Indexed(kept[i]) && e == ToEntry(kept[i]);
  }

  /** The index is a permutation of the entries of the kept items, the
      entries ascend by their younger bound, and entries with the same younger
      bound keep the order of the items they come from. */
  lemma GeoColorIndexShape(items: seq<Item>, k: real)
    ensures var index := BuildGeoColorIndex(items);
      && multiset(index) == multiset(Entries(Filter(items, Indexed)))
      && SortedBy(index, EndOf)
      && WithKey(index, EndOf, k) == WithKey(Entries(Filter(items, Indexed)), EndOf, k)
  {
    var entries := Entries(Filter(items, Indexed));
    SortBySorted(entries, EndOf);
    SortByStable(entries, EndOf, k);
  }

  /** Every entry of the index reads older-to-younger and has a non-empty
      colour. */
  lemma GeoColorIndexEntries(items: seq<Item>)
    ensures var index := BuildGeoColorIndex(items);
      forall i :: 0 <= i < |index| ==> index[i].start >= index[i].end && index[i].color != ""
  {
    var entries := Entries(Filter(items, Indexed));
    var index := BuildGeoColorIndex(items);
    forall i | 0 <= i < |index|
      ensures index[i].start >= index[i].end && index[i].color != ""
    {
      assert index[i] in multiset(entries);
      var j :| 0 <= j < |entries| && entries[j] == index[i];
    }
  }

  /** The midpoint test: the entry contains `mid`, within 1e-6 Ma. */
  predicate ContainsMid(e: Entry, mid: real) {
    mid <= e.start + MidTolerance && mid >= e.end - MidTolerance
  }

  /** The overlap test: the span from `lo` to `hi` meets the entry's (touching
      counts). */
  predicate Meets(lo: real, hi: real, e: Entry) {
    !(hi < e.end || lo > e.start)
  }

  /** resolveGeoColorForInterval: no colour for an empty index; otherwise the
      colour of the first entry containing the item's midpoint, else of the
      first entry the item meets, else of the last entry. */
  function ResolveGeoColor(it: Item, index: seq<Entry>): (r: Option<string>)
    ensures r.None? <==> index == []
    ensures r.Some? ==> exists i :: 0 <= i < |index| && r.value == index[i].color
  {
    if index == [] then None
    else
      var mid := (it.start + it.end) / 2.0;
      var lo := ItemMin(it);
      var hi := ItemMax(it);
      match FindFirst(index, e => ContainsMid(e, mid))
      case Some(i) => Some(index[i].color)
      case None =>
        match FindFirst(index, e => Meets(lo, hi, e))
        case Some(i) => Some(index[i].color)
        case None => Some(index[|index| - 1].color)
  }

  /** The order of preference, stated entry by entry: an entry containing the
      midpoint with none before it wins; failing any such entry, the first entry
      the item meets wins; failing both, the last entry does. */
  lemma ResolvePriority(it: Item, index: seq<Entry>, i: nat)
    requires i < |index|
    ensures var mid := (it.start + it.end) / 2.0;
      var lo := ItemMin(it);
      var hi := ItemMax(it);
      && (ContainsMid(index[i], mid) && (forall j :: 0 <= j < i ==> !ContainsMid(index[j], mid))
          ==> ResolveGeoColor(it, index) == Some(index[i].color))
      && ((forall j :: 0 <= j < |index| ==> !ContainsMid(index[j], mid))
          && Meets(lo, hi, index[i]) && (forall j :: 0 <= j < i ==> !Meets(lo, hi, index[j]))
          ==> ResolveGeoColor(it, index) == Some(index[i].color))
      && ((forall j :: 0 <= j < |index| ==> !ContainsMid(index[j], mid) && !Meets(lo, hi, index[j]))
          ==> ResolveGeoColor(it, index) == Some(index[|index| - 1].color))
  {
    var mid := (it.start + it.end) / 2.0;
    var f := FindFirst(index, e => ContainsMid(e, mid));
    if f.Some? {
      var k := f.value;
      assert ContainsMid(index[k], mid);
    }
    var lo := ItemMin(it);
    var hi := ItemMax(it);
    var g := FindFirst(index, e => Meets(lo, hi, e));
    if g.Some? {
      var k := g.value;
      assert Meets(lo, hi, index[k]);
    }
  }

  /** The lookup does not depend on the order of the item's start and end. */
  lemma ResolveSwap(it: Item, index: seq<Entry>)
    ensures ResolveGeoColor(Swapped(it), index) == ResolveGeoColor(it, index)
  {
    var mid := (it.start + it.end) / 2.0;
    assert (it.end + it.start) / 2.0 == mid;
    assert (e => ContainsMid(e, (it.end + it.start) / 2.0)) == (e => ContainsMid(e, mid));
  }

  /** When every entry containing the midpoint has the same colour and some
      entry does, that colour is the answer. */
  lemma ResolveContained(it: Item, index: seq<Entry>, k: nat, color: string)
    requires k < |index| && ContainsMid(index[k], (it.start + it.end) / 2.0)
    requires forall j :: 0 <= j < |index| && ContainsMid(index[j], (it.start + it.end) / 2.0) ==>
      index[j].color == color
    ensures ResolveGeoColor(it, index) == Some(color)
  {
    var mid := (it.start + it.end) / 2.0;
    var f := FindFirst(index, e => ContainsMid(e, mid));
    assert f.Some? by {
      assert (e => ContainsMid(e, mid))(index[k]);
    }
  }

  /** A biozone whose midpoint falls within coloured ages of a single colour
      takes that colour. */
  lemma ResolveWithinAge(items: seq<Item>, it: Item, age: Item)
    requires age in items && Indexed(age)
    requires ContainsMid(ToEntry(age), (it.start + it.end) / 2.0)
    requires forall other :: (other in items && Indexed(other) &&
      ContainsMid(ToEntry(other), (it.start + it.end) / 2.0)) ==> other.color == age.color
    ensures ResolveGeoColor(it, BuildGeoColorIndex(items)) == Some(age.color.value)
  {
    var index := BuildGeoColorIndex(items);
    var mid := (it.start + it.end) / 2.0;
    GeoColorIndexMembers(items, ToEntry(age));
    var k :| 0 <= k < |index| && index[k] == ToEntry(age);
    forall j | 0 <= j < |index| && ContainsMid(index[j], mid)
      ensures index[j].color == age.color.value
    {
      GeoColorIndexMembers(items, index[j]);
      var other :| other in items && Indexed(other) && index[j] == ToEntry(other);
    }
    ResolveContained(it, index, k, age.color.value);
  }

  /** Every colour resolved from a built index is a non-empty string, so the
      biozone column falls back to its default fill only when the index is
      empty. */
  lemma ResolvedColorIsTruthy(items: seq<Item>, it: Item)
    ensures var r := ResolveGeoColor(it, BuildGeoColorIndex(items));
      r.Some? ==> r.value != ""
  {
    GeoColorIndexEntries(items);
  }
}
