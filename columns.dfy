/** The columns of the chart (chart-renderer.js, COLUMN_BASE, BIOZONE_LABELS
    and getColumnDefinitions): the time axis, the five ICS rank columns, and one
    column per selected biozone scheme in a fixed order. */
module Columns {

  import opened Sequences

  /** What a column draws: the time axis, ICS intervals of the given ranks, or
      the intervals of one biozone scheme. */
  datatype Kind = Time | Ics(ranks: seq<string>) | Biozone

  datatype Column = Column(key: string, heading: string, width: nat, kind: Kind)

  /** COLUMN_BASE: the columns every chart has, left to right. */
  const ColumnBase: seq<Column> := [
    Column("time", "Age (Ma)", 90, Time),
    Column("eon", "Eonothem / Eon", 150, Ics(["Supereon", "Eon"])),
    Column("era", "Erathem / Era", 160, Ics(["Era"])),
    Column("period", "System / Period", 170, Ics(["Period", "Sub-Period"])),
    Column("epoch", "Series / Epoch", 170, Ics(["Epoch", "Subseries", "Series"])),
    Column("age", "Stage / Age", 170, Ics(["Age", "Stage"]))
  ]

  /** The order of the biozone columns, which keeps the two European schemes
      (ELMA and MP) side by side. */
  const BiozoneOrder: seq<string> := ["nalma", "salma", "elma", "mp", "alma"]

  const BiozoneWidth: nat := 180

  /** BIOZONE_LABELS. */
  function BiozoneLabel(key: string): (heading: string)
    requires key in BiozoneOrder
    ensures heading != ""
  {
    if key == "nalma" then "NALMA (Norteam\U{00E9}rica)"
    else if key == "salma" then "SALMA (Sudam\U{00E9}rica)"
    else if key == "elma" then "ELMA (Europa)"
    else if key == "alma" then "ALMA (Asia)"
    else "MP Zones (Europa)"
  }

  function BiozoneColumn(key: string): Column
    requires key in BiozoneOrder
  {
    Column(key, BiozoneLabel(key), BiozoneWidth, Biozone)
  }

  predicate Selected(selected: seq<string>, key: string) {
    key in selected
  }

  /** The biozone columns pushed for `keys`, one per selected key, in order. */
  function BiozoneColumns(keys: seq<string>, selected: seq<string>): (cols: seq<Column>)
    requires forall k :: k in keys ==> k in BiozoneOrder
    ensures |cols| <= |keys|
  {
    if keys == [] then []
    else
      var last := keys[|keys| - 1];
      BiozoneColumns(keys[..|keys| - 1], selected)
        + (if last in selected then [BiozoneColumn(last)] else [])
  }

  /** getColumnDefinitions: the base columns, then the selected biozones. */
  function GetColumnDefinitions(selected: seq<string>): seq<Column> {
    ColumnBase + BiozoneColumns(BiozoneOrder, selected)
  }

  function Keys(cols: seq<Column>): (keys: seq<string>)
    ensures |keys| == |cols|
  {
    seq(|cols|, i requires 0 <= i < |cols| => cols[i].key)
  }

  /** The pushed columns are biozone columns of width 180 with their labels,
      and their keys are the selected keys in the order of `keys`. */
  lemma {:induction false} BiozoneColumnsShape(keys: seq<string>, selected: seq<string>)
    requires forall k :: k in keys ==> k in BiozoneOrder
    ensures var cols := BiozoneColumns(keys, selected);
      && Keys(cols) == Filter(keys, k => Selected(selected, k))
      && forall i :: 0 <= i < |cols| ==> cols[i].key in BiozoneOrder && cols[i] == BiozoneColumn(cols[i].key)
  {
    if keys != [] {
      var init := keys[..|keys| - 1];
      var last := keys[|keys| - 1];
      assert forall k :: k in init ==> k in keys;
      BiozoneColumnsShape(init, selected);
      var cols := BiozoneColumns(keys, selected);
      var head := BiozoneColumns(init, selected);
      if last in selected {
        assert Keys(cols) == Keys(head) + [last];
      } else {
        assert cols == head;
      }
    }
  }

  /** Base columns followed by the columns pushed for `keys`: the base comes
      first, then biozone columns whose keys are the selected keys in order. */
  lemma AppendedColumns(base: seq<Column>, keys: seq<string>, selected: seq<string>)
    requires forall k :: k in keys ==> k in BiozoneOrder
    ensures var defs := base + BiozoneColumns(keys, selected);
      && defs[..|base|] == base
      && Keys(defs[|base|..]) == Filter(keys, k => Selected(selected, k))
      && (forall i :: |base| <= i < |defs| ==>
            defs[i].key in BiozoneOrder && defs[i] == BiozoneColumn(defs[i].key))
  {
    var tail := BiozoneColumns(keys, selected);
    var defs := base + tail;
    BiozoneColumnsShape(keys, selected);
    assert defs[..|base|] == base;
    assert defs[|base|..] == tail;
    forall i | |base| <= i < |defs|
      ensures defs[i].key in BiozoneOrder && defs[i] == BiozoneColumn(defs[i].key)
    {
      assert defs[i] == tail[i - |base|];
    }
  }

  /** A key has a pushed column exactly when it is one of `keys` and selected. */
  lemma AppendedColumnFor(keys: seq<string>, selected: seq<string>, key: string)
    requires forall k :: k in keys ==> k in BiozoneOrder
    ensures key in Keys(BiozoneColumns(keys, selected)) <==> key in keys && key in selected
  {
    BiozoneColumnsShape(keys, selected);
    FilterMembers(keys, k => Selected(selected, k), key);
  }

  /** The definitions start with the six base columns; what follows is one
      biozone column of width 180 per selected scheme, in the order nalma,
      salma, elma, mp, alma, and a scheme has a column exactly when it is
      selected. */
  lemma ColumnDefinitions(selected: seq<string>, key: string)
    ensures var defs := GetColumnDefinitions(selected);
      && defs[..|ColumnBase|] == ColumnBase
      && Keys(defs[|ColumnBase|..]) == Filter(BiozoneOrder, k => Selected(selected, k))
      && (forall i :: |ColumnBase| <= i < |defs| ==>
            defs[i].kind == Biozone && defs[i].width == BiozoneWidth && defs[i].key in BiozoneOrder
            && defs[i].heading == BiozoneLabel(defs[i].key))
      && (key in Keys(defs[|ColumnBase|..]) <==> key in BiozoneOrder && key in selected)
  {
    AppendedColumns(ColumnBase, BiozoneOrder, selected);
    AppendedColumnFor(BiozoneOrder, selected, key);
  }
}
