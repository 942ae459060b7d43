/** The renderer's time interval record: one concept of a chronostratigraphic
    chart or of a regional biozone scheme, as the TTL extraction hands it over.
    Only records with both a start and an end reach the renderer, so both are
    plain numbers here (ages in Ma, in either order). */
module Intervals {

  import opened Values

  datatype Item = Item(
    id: string,
    name: Option<string>,
    start: real,
    end: real,
    color: Option<string>,
    rank: Option<string>,
    source: string)

  /** A JavaScript string field used as a condition: present and non-empty. */
  predicate Truthy(s: Option<string>) {
    s.Some? && s.value != ""
  }

  /** The younger bound of the item, Math.min(start, end). */
  function ItemMin(it: Item): (r: real)
    ensures r <= it.start && r <= it.end
  {
    Min(it.start, it.end)
  }

  /** The older bound of the item, Math.max(start, end). */
  function ItemMax(it: Item): (r: real)
    ensures r >= it.start && r >= it.end
  {
    Max(it.start, it.end)
  }

  /** The finest chronostratigraphic rank: `rank === 'Age' || rank === 'Stage'`. */
  predicate IsAgeRank(it: Item) {
    it.rank == Some("Age") || it.rank == Some("Stage")
  }

  /** The same item with start and end exchanged. */
  function Swapped(it: Item): (r: Item)
    ensures ItemMin(r) == ItemMin(it) && ItemMax(r) == ItemMax(it)
  {
    it.(start := it.end, end := it.start)
  }

  function StartKey(it: Item): real { it.start }

  function EndKey(it: Item): real { it.end }
}
