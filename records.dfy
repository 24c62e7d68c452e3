/** The records that flow through the import: what a source adapter emits,
    what the local catalog holds, and what the merge produces. */
module Records {

  datatype Option<T> = None | Some(value: T)

  /** A JavaScript number as the import sees it: an integer, or NaN for a
      value that did not parse. */
  datatype Numeric = Num(n: int) | NaN

  /** One entry emitted by a source adapter: `{name, value, rarity, source}`;
      a missing rarity is `null`. */
  datatype SourceRecord = SourceRecord(name: string, value: Numeric, rarity: Option<string>, source: string)

  /** One local pet image: its display name, its join key and its image path. */
  datatype CatalogEntry = CatalogEntry(name: string, key: string, image: string)

  /** One pet of the output dataset. */
  datatype MergedRecord = MergedRecord(
    name: string, rarity: string, value: int, sources: map<string, int>, image: string)

  /** `Number(v) || 0`: NaN (and 0) become 0, every other number is kept. */
  function Coerce(v: Numeric): int {
    match v
    case Num(x) => x
    case NaN => 0
  }

  /** A rarity that JavaScript treats as true: present and not the empty
      string. */
  predicate Truthy(rarity: Option<string>) {
    rarity.Some? && rarity.value != ""
  }
}
