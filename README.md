# Pet value import: reconciliation model

This project models the value-reconciliation logic of the TapSim value-list
importer (`scripts/import-values.mjs`). The importer gathers pet values from
source adapters and joins them, by a normalised name, against a local catalog
of pet images. It then writes one record per catalog pet:
`{name, rarity, value, sources, image}`. The value is the median of the
positive values that the sources reported for that pet.

Four parts are modelled, one Dafny module each, plus a module of shared
record types (`Records`):

- `NameKey` (`name_key.dfy`) models `normalizeName`. It lower-cases the name,
  straightens the typographic apostrophe and replaces every other character
  by a space. Then it collapses white-space runs and trims. The result is the
  join key.
- `Aggregate` (`median.dfy`) models `median`: sort ascending, then take the
  middle element, or the mean of the two middle elements rounded half-up.
  An empty list gives 0.
- `ZackSource` (`zack.dfy`) models the Zack adapter after extraction. It reads
  each captured numeral by removing its commas, so "12,345" becomes 12345.
  It pairs the names with the values up to the length of the shorter list.
- `Reconciler` (`reconcile.dfy`) models the merge in `run`. It concatenates
  the adapter outputs in registration order and derives the catalog from the
  `.png` file names. It groups source records by key, skipping empty keys.
  Each catalog entry then gets its value (the median of the positive values),
  its `sources` map (the last value per source id wins) and its rarity (the
  first truthy one, else "Unknown").

The state-changing loops of the source stay loops here: `GroupByKey`,
`CollectSources`, `MergeCatalog` and `Run` in `Reconciler`, and `PairRecords` in
`ZackSource`. Each is a method proved against a specification function
(`GroupsOf`/`Matching`, `SourcesOf`, `Merge`, `Flatten`, `ZackRecord`). The
properties of those functions are proved as lemmas. The expression-only code
(`normalizeName`, `median`, the catalog `map`) is modelled as functions.

Three behaviours of the code are easy to misread, and the model follows the
code in each:

- Only ASCII letters and digits count as content of a key. A name made only
  of non-ASCII letters (say "Ñ") gets the empty key and never joins a record.
- The catalog takes only files whose names end in `.png`, in any letter
  case, not other image types.
- `median` drops NaN but not Infinity. Floating point is not modelled (see
  below).

## Model

| member | source | states |
|---|---|---|
| `NameKey.Normalize` | scripts/import-values.mjs:13-20 | the definition of the join key: ASCII lower-casing, `’` straightened, every other character outside `a-z0-9` and white space made a space, white-space runs collapsed, trimmed; its properties are the `NameKey.Normalize*` rows below |
| `NameKey.NormalizeIsKey` | scripts/import-values.mjs:13-20 | every key holds only `a-z`, `0-9` and single spaces, and does not start or end with a space |
| `NameKey.NormalizeKeepsLettersAndDigits` | scripts/import-values.mjs:15-19 | the key keeps every ASCII letter and digit of the name, lower-cased and in order; everything else in it is a space |
| `NameKey.NormalizeEmptyIff` | scripts/import-values.mjs:13-20 | the key is empty exactly when the name has no ASCII letter or digit |
| `NameKey.NormalizeFixesKeys` | scripts/import-values.mjs:13-20 | a well-formed key normalises to itself |
| `NameKey.NormalizeIdempotent` | scripts/import-values.mjs:13-20 | normalising twice equals normalising once |
| `NameKey.NormalizeSameShape` | scripts/import-values.mjs:15-17 | names that differ only in letter case, in `’` versus `'`, or in which separator character stands at a position get the same key |
| `NameKey.NormalizeSeparatorRun` | scripts/import-values.mjs:17-18 | two separators in a row give the same key as one |
| `NameKey.NormalizeLeadingSeparator` | scripts/import-values.mjs:17-19 | a separator before the name does not change the key |
| `NameKey.NormalizeTrailingSeparator` | scripts/import-values.mjs:17-19 | a separator after the name does not change the key |
| `NameKey.NormalizeExample` | scripts/import-values.mjs:13-20 | "Mega Neon Cat" and "mega-neon CAT!!" both get the key "mega neon cat" |
| `Aggregate.Sort` | scripts/import-values.mjs:24 | the sort's result is ascending and a permutation of its input |
| `Aggregate.SortedUnique` | scripts/import-values.mjs:24 | two ascending lists with the same elements are equal, so the result does not depend on the sorting algorithm |
| `Aggregate.RoundedMean` | scripts/import-values.mjs:27 | `Math.round` of the mean of two integers is the nearest integer, with halves rounded up |
| `Aggregate.MiddleOf` | scripts/import-values.mjs:25-27 | the median rule on an ascending list: 0 when empty, the middle element for an odd length, the rounded mean of the two middle elements otherwise |
| `Aggregate.Median` | scripts/import-values.mjs:23-28 | the definition of `median`: the median rule applied to the sorted values; its properties are `MedianOfAscending`, `MedianOrderFree`, `MedianBounds`, `MedianOddIsValue` and `MedianPositive` |
| `Aggregate.MedianOfAscending` | scripts/import-values.mjs:23-28 | for every ascending arrangement of the values, the median is 0 when there are none, the middle element for an odd count, and the rounded mean of the two middle elements for an even count |
| `Aggregate.MedianOrderFree` | scripts/import-values.mjs:24-27 | the median does not depend on the order of the values |
| `Aggregate.MedianBounds` | scripts/import-values.mjs:24-27 | a non-empty median lies between the least and the greatest value |
| `Aggregate.MedianOddIsValue` | scripts/import-values.mjs:26-27 | for an odd count the median is one of the values |
| `Aggregate.MedianPositive` | scripts/import-values.mjs:24-27 | the median of positive values is positive |
| `Aggregate.MedianSingle` | scripts/import-values.mjs:26-27 | one value is its own median |
| `Aggregate.MedianExamples` | scripts/import-values.mjs:25-27 | median of [] is 0, of [4] is 4, of [3,1] is 2, of [100,200] is 150 |
| `Aggregate.MedianEvenExample` | scripts/import-values.mjs:27 | median of [1,2,3,4] is 3 (half-up rounding of 2.5) |
| `ZackSource.StripCommas` | scripts/import-values.mjs:42 | removing commas from a captured numeral leaves only digits and no comma |
| `ZackSource.Numeral` | scripts/import-values.mjs:42 | the definition of `Number(m[1].replace(/,/g, ""))` on a captured numeral: the decimal value of its digits; its properties are `NumeralGrouped`, `NumeralIgnoresCommas` and `NumeralAllCommas` |
| `ZackSource.NumeralGrouped` | scripts/import-values.mjs:42 | a number written with thousands separators ("12,345") reads back as that number |
| `ZackSource.NumeralIgnoresCommas` | scripts/import-values.mjs:42 | a comma anywhere in a numeral does not change its value |
| `ZackSource.NumeralAllCommas` | scripts/import-values.mjs:42 | a numeral of commas only reads as 0 (`Number("")`) |
| `ZackSource.PairRecords` | scripts/import-values.mjs:44-47 | exactly min(#names, #values) records are kept; record i pairs `names[i]` with the value of `values[i]`, with no rarity and source "zack" |
| `Records.Coerce` | scripts/import-values.mjs:99-103 | the definition of the coercion `Number(e.value)` with 0 as fallback: NaN becomes 0, every other number is kept |
| `Reconciler.Flatten` | scripts/import-values.mjs:69-74 | the definition of the concatenation of the adapters' outputs in registration order; its properties are `FailedAdapterIgnored` and `GroupInAdapterOrder` |
| `Reconciler.FailedAdapterIgnored` | scripts/import-values.mjs:69-74 | an adapter that returns no records (as a failed one does) leaves the concatenated records unchanged |
| `Reconciler.GroupInAdapterOrder` | scripts/import-values.mjs:71-93 | a key's group lists the earlier adapters' records first, each adapter's in its own order |
| `Reconciler.EntryOf` | scripts/import-values.mjs:81-85 | an entry's name is the file name minus its `.png` extension (any case), its key is the name's key, its image is `pets/` plus the file name |
| `Reconciler.CatalogOf` | scripts/import-values.mjs:79-85 | every catalog entry is the entry of some `.png` file of the listing, and there are at most as many entries as files |
| `Reconciler.CatalogConcat` | scripts/import-values.mjs:79-85 | the catalog follows the listing's order |
| `Reconciler.CatalogOne` | scripts/import-values.mjs:79-85 | each `.png` file yields exactly one entry, and every other file yields none |
| `Reconciler.Matching` | scripts/import-values.mjs:88-94 | a key's group holds exactly the records whose name has that key |
| `Reconciler.MatchingConcat` | scripts/import-values.mjs:88-94 | grouping keeps the records' order |
| `Reconciler.GroupFor` | scripts/import-values.mjs:88-98 | the definition of `map.get(lp.key)` with the empty list as fallback: the empty key has no group, any other key the records that have it (`Matching`) |
| `Reconciler.GroupsOf` | scripts/import-values.mjs:88-94 | the definition of the grouping map, record by record; `GroupsOfMatching` states what it holds |
| `Reconciler.GroupsOfMatching` | scripts/import-values.mjs:88-94 | the grouping map has exactly the non-empty keys some record has, and maps each to its records in order |
| `Reconciler.GroupByKey` | scripts/import-values.mjs:88-94 | the grouping loop builds that map; records with an empty key are skipped |
| `Reconciler.PositiveValues` | scripts/import-values.mjs:99 | only positive coerced values go to the median |
| `Reconciler.PositiveValuesExact` | scripts/import-values.mjs:99 | the filter keeps every positive coerced value of the group, as often as it occurs, and nothing else |
| `Reconciler.ValueOf` | scripts/import-values.mjs:99-100 | the definition of `vals.length ? median(vals) : 0`; its properties are `ValueOfAscending`, `ValueOfRange` and `ValueIgnoresNonPositive` |
| `Reconciler.ValueOfAscending` | scripts/import-values.mjs:99-100 | the merged value is the median rule applied to any ascending arrangement of exactly the group's positive coerced values, and 0 when there are none |
| `Reconciler.ValueOfRange` | scripts/import-values.mjs:99-100 | the merged value is positive exactly when some matched record has a positive value, and then lies between two such values; otherwise it is 0 |
| `Reconciler.ValueIgnoresNonPositive` | scripts/import-values.mjs:99-100 | a record with value zero or NaN, wherever it stands, does not change the merged value |
| `Reconciler.SourcesOf` | scripts/import-values.mjs:102-103 | the definition of the `sources` object, record by record with overwriting; its properties are `SourcesOfKeys` and `SourcesOfLastWins` |
| `Reconciler.SourcesOfKeys` | scripts/import-values.mjs:102-103 | `sources` has one key per distinct source id in the group |
| `Reconciler.SourcesOfLastWins` | scripts/import-values.mjs:102-103 | each source id maps to the coerced value of the last record with that id, zeros included |
| `Reconciler.CollectSources` | scripts/import-values.mjs:102-103 | the loop that fills `sources` overwrites earlier values of a source id |
| `Reconciler.RarityOf` | scripts/import-values.mjs:105 | the rarity is that of the first record with a truthy rarity, or "Unknown" when there is none |
| `Reconciler.Merge` | scripts/import-values.mjs:97-114 | one merged record keeps the catalog entry's name and image; its value, sources and rarity are stated by `MergeFields` |
| `Reconciler.MergeEntry` | scripts/import-values.mjs:98-113 | the map callback, reading the group from the map the grouping loop built, produces exactly `Merge` of the entry |
| `Reconciler.MergeCatalog` | scripts/import-values.mjs:97-114 | the merge loop builds exactly `MergeAll`, the catalog mapped through `Merge` |
| `Reconciler.MapAt` | scripts/import-values.mjs:97 | a mapped sequence keeps the length, and its element at each index is the image of the element at that index |
| `Reconciler.MergeAllAt` | scripts/import-values.mjs:97-114 | the mapped catalog has one record per catalog entry, in catalog order, each the entry's `Merge` |
| `Reconciler.Reconcile` | scripts/import-values.mjs:88-114 | grouping then merging gives one record per catalog entry, in catalog order, each the entry's `Merge`, with the entry's name and image |
| `Reconciler.Run` | scripts/import-values.mjs:69-114 | the output is the merge of each catalog entry, in listing order, against the adapters' concatenated records |
| `Reconciler.MergeWithoutMatches` | scripts/import-values.mjs:98-105 | an entry that no record joins, or whose key is empty, gets value 0, empty sources and rarity "Unknown" |
| `Reconciler.MatchingNone` | scripts/import-values.mjs:88-98 | a key that no record's name has gets no group, so `map.get` falls back to the empty list |
| `Reconciler.GroupSkipsOtherKeys` | scripts/import-values.mjs:89-93 | a record whose key is empty or different does not enter a key's group, wherever it stands |
| `Reconciler.MergeIgnoresOtherKeys` | scripts/import-values.mjs:88-98 | a record whose key is empty or belongs to another entry does not affect the entry's merged record |
| `Reconciler.MergeFields` | scripts/import-values.mjs:97-114 | a merged record has the entry's name and image; its value is the median rule applied to the ascending positive coerced values of the joined records, positive exactly when one of them is, and then between two of them; its sources have one key per source id, each mapped to the value of that id's last record; its rarity is that of the first record with a truthy rarity, or "Unknown" when none has one |
| `Reconciler.MergeExample` | scripts/import-values.mjs:97-114 | "Cat" with values 100 from "a" and 200 from "b" merges to value 150, sources {a: 100, b: 200}, rarity "Unknown" |
| `Reconciler.MergeZeroExample` | scripts/import-values.mjs:99-100 | values 0 and 50 merge to 50 |

## Left out

- Fetching (`fetchText`, lines 3-7) and the adapter's `try/catch` (lines 51-54) are network I/O and are not modelled. A failed adapter is modelled only by what it returns, an empty list (`Reconciler.FailedAdapterIgnored`).
- The regular-expression extraction over the page's HTML (lines 41-42) is not modelled. The extracted names and captured numerals are the inputs of `ZackSource.PairRecords`. Its precondition says that each numeral holds only digits and commas, which is what the `[0-9,]+` pattern guarantees.
- The placeholder adapters (lines 60-62) return nothing. `Reconciler.Run` takes the adapters' outputs as a list, so they are empty entries of that list.
- The `await` sequencing of the adapters (lines 71-74) is modelled as list concatenation in registration order.
- Directory listing, `mkdirSync`, `writeFileSync`, `JSON.stringify`, the `updated` date and the `method: "median"` field (lines 79, 116-123) are file-system work, serialisation or clock reads. They are not modelled. The file listing is an input, in the order the directory returns it.
- Console logging is not modelled.
- `Aggregate.Median`: values are integers. JavaScript doubles are not modelled: NaN and Infinity in the filter on line 24, non-integer values, and precision loss above 2^53. So the `typeof`/`isNaN` filter in `median` has no effect in the model.
- `ZackSource.Numeral`: the numeral is read as an unbounded integer. `Number` on a numeral above 2^53 rounds to the nearest double ("9,007,199,254,740,993" reads as 9007199254740992), so `NumeralGrouped` holds exactly only below that bound in the code.
- `Records.Coerce`: `Number(v) || 0` is modelled only for a numeric value or NaN. Strings, `null` or other values in a record's `value` field are not modelled, because adapters emit numbers.
- `NameKey.Normalize`: `toLowerCase` is modelled for ASCII only, and a non-ASCII character lower-cases to itself. The few non-ASCII characters that lower-case to ASCII letters (the Kelvin sign, capital I with dot above) are therefore treated as separators. A UTF-16 surrogate pair is one character here. The code turns it into two spaces, which collapse to one, so the key is the same.
- `Reconciler.Merge`: `sources` is a map. The key order of the JavaScript object, which shows up only in the serialised output, is not modelled.
