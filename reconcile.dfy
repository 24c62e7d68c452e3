/** The merge at the heart of `run`: the adapters' outputs are concatenated in
    registration order, the local image files become catalog entries, the
    source records are grouped by join key, and every catalog entry becomes
    one merged record whose value is the median of its group's positive
    values. */
module Reconciler {
  import opened Records
  import opened NameKey
  import opened Aggregate

  // ---------------------------------------------------------------------
  // Adapter outputs, concatenated in registration order

  function Flatten(outs: seq<seq<SourceRecord>>): seq<SourceRecord> {
    if outs == [] then [] else Flatten(outs[..|outs| - 1]) + outs[|outs| - 1]
  }

  lemma {:induction false} FlattenConcat(a: seq<seq<SourceRecord>>, b: seq<seq<SourceRecord>>)
    ensures Flatten(a + b) == Flatten(a) + Flatten(b)
  {
    if b == [] {
      assert a + b == a;
    } else {
      assert (a + b)[..|a + b| - 1] == a + b[..|b| - 1];
      FlattenConcat(a, b[..|b| - 1]);
    }
  }

  /** An adapter that failed (and so returned no records) changes nothing. */
  lemma FailedAdapterIgnored(a: seq<seq<SourceRecord>>, b: seq<seq<SourceRecord>>)
    ensures Flatten(a + [[]] + b) == Flatten(a + b)
  {
    FlattenConcat(a + [[]], b);
    FlattenConcat(a, [[]]);
    FlattenConcat(a, b);
    assert Flatten([[]]) == Flatten([]) + [];
  }

  // ---------------------------------------------------------------------
  // The catalog: one entry per `.png` file, in directory order

  /** `f.toLowerCase().endsWith(".png")`. */
  predicate IsPng(f: string) {
    |f| >= 4 && Lower(f[|f| - 4..]) == ".png"
  }

  /** The entry for one image file: the name is the file name without its
      `.png` extension (in any case), the image path is under `pets/`. */
  function EntryOf(f: string): (e: CatalogEntry)
    requires IsPng(f)
    ensures exists ext :: Lower(ext) == ".png" && e.name + ext == f
    ensures e.key == Normalize(e.name)
    ensures e.image == "pets/" + f
  {
    var name := f[..|f| - 4];
    assert name + f[|f| - 4..] == f;
    CatalogEntry(name, Normalize(name), "pets/" + f)
  }

  function CatalogOf(files: seq<string>): (c: seq<CatalogEntry>)
    ensures |c| <= |files|
    ensures forall e :: e in c ==> exists f :: f in files && IsPng(f) && e == EntryOf(f)
  {
    if files == [] then []
    else
      var f := files[|files| - 1];
      assert forall g :: g in files[..|files| - 1] ==> g in files;
      CatalogOf(files[..|files| - 1]) + (if IsPng(f) then [EntryOf(f)] else [])
  }

  /** Directory order is kept: the catalog of a listing is the catalogs of
      its parts, one after the other. */
  lemma {:induction false} CatalogConcat(a: seq<string>, b: seq<string>)
    ensures CatalogOf(a + b) == CatalogOf(a) + CatalogOf(b)
  {
    if b == [] {
      assert a + b == a;
    } else {
      assert (a + b)[..|a + b| - 1] == a + b[..|b| - 1];
      assert (a + b)[|a + b| - 1] == b[|b| - 1];
      CatalogConcat(a, b[..|b| - 1]);
    }
  }

  /** Every `.png` file gets one entry; any other file gets none. */
  lemma CatalogOne(f: string)
    ensures CatalogOf([f]) == if IsPng(f) then [EntryOf(f)] else []
  {
    assert [f][..0] == [];
  }

  // ---------------------------------------------------------------------
  // Grouping source records by join key

  function KeyOf(r: SourceRecord): string {
    Normalize(r.name)
  }

  /** The records of `all` with join key `key`, in their order in `all`. */
  function Matching(all: seq<SourceRecord>, key: string): (g: seq<SourceRecord>)
    ensures forall r :: r in g <==> r in all && KeyOf(r) == key
  {
    if all == [] then []
    else
      var last := all[|all| - 1];
      assert all == all[..|all| - 1] + [last];
      Matching(all[..|all| - 1], key) + (if KeyOf(last) == key then [last] else [])
  }

  lemma {:induction false} MatchingConcat(a: seq<SourceRecord>, b: seq<SourceRecord>, key: string)
    ensures Matching(a + b, key) == Matching(a, key) + Matching(b, key)
  {
    if b == [] {
      assert a + b == a;
    } else {
      assert (a + b)[..|a + b| - 1] == a + b[..|b| - 1];
      assert (a + b)[|a + b| - 1] == b[|b| - 1];
      MatchingConcat(a, b[..|b| - 1], key);
    }
  }

  /** Group order is adapter order: the group of a key lists the first
      adapter's matching records, then the next adapter's, and so on. */
  lemma GroupInAdapterOrder(outs: seq<seq<SourceRecord>>, out: seq<SourceRecord>, key: string)
    ensures Matching(Flatten(outs + [out]), key) == Matching(Flatten(outs), key) + Matching(out, key)
  {
    assert (outs + [out])[..|outs|] == outs;
    MatchingConcat(Flatten(outs), out, key);
  }

  /** The records a catalog key joins: none when the key is empty. */
  function GroupFor(all: seq<SourceRecord>, key: string): seq<SourceRecord> {
    if key == "" then [] else Matching(all, key)
  }

  /** The map the grouping loop builds, record by record: a record with a
      non-empty key is appended to its key's list, one with an empty key is
      skipped. */
  function GroupsOf(all: seq<SourceRecord>): map<string, seq<SourceRecord>> {
    if all == [] then map[]
    else
      var groups := GroupsOf(all[..|all| - 1]);
      var entry := all[|all| - 1];
      var key := KeyOf(entry);
      if key == "" then groups
      else groups[key := (if key in groups then groups[key] else []) + [entry]]
  }

  /** The grouping map holds every non-empty key that some record has, and
      maps it to that key's records in order. */
  lemma {:induction false} GroupsOfMatching(all: seq<SourceRecord>)
    ensures forall k :: k in GroupsOf(all) <==> k != "" && Matching(all, k) != []
    ensures forall k :: k in GroupsOf(all) ==> GroupsOf(all)[k] == Matching(all, k)
  {
    if all != [] {
      var init := all[..|all| - 1];
      GroupsOfMatching(init);
      var entry := all[|all| - 1];
      forall k
        ensures Matching(all, k) == Matching(init, k) + (if KeyOf(entry) == k then [entry] else [])
      {
      }
    }
  }

  /** The grouping loop. */
  method GroupByKey(all: seq<SourceRecord>) returns (groups: map<string, seq<SourceRecord>>)
    ensures groups == GroupsOf(all)
    ensures forall k :: k in groups <==> k != "" && Matching(all, k) != []
    ensures forall k :: k in groups ==> groups[k] == Matching(all, k)
  {
    groups := map[];
    for i := 0 to |all|
      invariant groups == GroupsOf(all[..i])
    {
      var entry := all[i];
      assert all[..i + 1][..i] == all[..i];
      var key := Normalize(entry.name);
      if key != "" {
        if key !in groups {
          groups := groups[key := []];
        }
        groups := groups[key := groups[key] + [entry]];
      }
    }
    assert all[..|all|] == all;
    GroupsOfMatching(all);
  }

  // ---------------------------------------------------------------------
  // The parts of one merged record

  /** `entries.map(e => Number(e.value) || 0).filter(v => v > 0)`. */
  function PositiveValues(entries: seq<SourceRecord>): (vals: seq<int>)
    ensures forall i :: 0 <= i < |vals| ==> vals[i] > 0
  {
    if entries == [] then []
    else
      var v := Coerce(entries[0].value);
      (if v > 0 then [v] else []) + PositiveValues(entries[1..])
  }

  lemma {:induction false} PositiveValuesConcat(a: seq<SourceRecord>, b: seq<SourceRecord>)
    ensures PositiveValues(a + b) == PositiveValues(a) + PositiveValues(b)
  {
    if a == [] {
      assert a + b == b;
    } else {
      assert (a + b)[0] == a[0];
      assert (a + b)[1..] == a[1..] + b;
      PositiveValuesConcat(a[1..], b);
    }
  }

  /** Each positive value comes from a record of the group. */
  lemma {:induction false} PositiveValuesFrom(entries: seq<SourceRecord>, k: int)
    requires 0 <= k < |PositiveValues(entries)|
    ensures exists i :: 0 <= i < |entries| && Coerce(entries[i].value) == PositiveValues(entries)[k]
  {
    var v := Coerce(entries[0].value);
    if v > 0 && k == 0 {
      assert Coerce(entries[0].value) == PositiveValues(entries)[0];
    } else {
      var k' := if v > 0 then k - 1 else k;
      PositiveValuesFrom(entries[1..], k');
      var i :| 0 <= i < |entries[1..]| && Coerce(entries[1..][i].value) == PositiveValues(entries[1..])[k'];
      assert Coerce(entries[i + 1].value) == PositiveValues(entries)[k];
    }
  }

  /** A record with a positive value leaves the positive values non-empty. */
  lemma {:induction false} PositiveValuesNonEmpty(entries: seq<SourceRecord>, i: int)
    requires 0 <= i < |entries| && Coerce(entries[i].value) > 0
    ensures PositiveValues(entries) != []
  {
    if i > 0 && Coerce(entries[0].value) <= 0 {
      PositiveValuesNonEmpty(entries[1..], i - 1);
    }
  }

  /** `entries.map(e => Number(e.value) || 0)`: every record's coerced value,
      in order. */
  function Coerced(entries: seq<SourceRecord>): seq<int> {
    seq(|entries|, i requires 0 <= i < |entries| => Coerce(entries[i].value))
  }

  /** The filter keeps every positive coerced value of the group, as often as
      it occurs, and nothing else. */
  lemma {:induction false} PositiveValuesExact(entries: seq<SourceRecord>)
    ensures forall v ::
      multiset(PositiveValues(entries))[v] == (if v > 0 then multiset(Coerced(entries))[v] else 0)
  {
    if entries != [] {
      PositiveValuesExact(entries[1..]);
      var x := Coerce(entries[0].value);
      assert Coerced(entries) == [x] + Coerced(entries[1..]);
      assert PositiveValues(entries) == (if x > 0 then [x] else []) + PositiveValues(entries[1..]);
    }
  }

  /** `a` is an ascending arrangement of exactly the positive coerced values of
      the group. */
  ghost predicate ArrangesPositives(a: seq<int>, entries: seq<SourceRecord>) {
    && Sorted(a)
    && forall v :: multiset(a)[v] == (if v > 0 then multiset(Coerced(entries))[v] else 0)
  }

  /** `vals.length ? median(vals) : 0`. */
  function ValueOf(entries: seq<SourceRecord>): int {
    var vals := PositiveValues(entries);
    if |vals| > 0 then Median(vals) else 0
  }

  /** The merged value is the median rule applied to the group's positive
      coerced values, in ascending order: 0 when there are none. */
  lemma ValueOfAscending(entries: seq<SourceRecord>, a: seq<int>)
    requires ArrangesPositives(a, entries)
    ensures ValueOf(entries) == MiddleOf(a)
  {
    var vals := PositiveValues(entries);
    PositiveValuesExact(entries);
    assert multiset(a) == multiset(vals);
    if |vals| > 0 {
      MedianOfAscending(vals, a);
    } else {
      assert |a| == |multiset(a)| == 0;
    }
  }

  /** The merged value is positive exactly when some record of the group has
      a positive value, and then lies between two of those values; otherwise
      it is 0. */
  lemma ValueOfRange(entries: seq<SourceRecord>)
    ensures ValueOf(entries) >= 0
    ensures ValueOf(entries) > 0 <==> exists i :: 0 <= i < |entries| && Coerce(entries[i].value) > 0
    ensures ValueOf(entries) > 0 ==>
      (exists i :: 0 <= i < |entries| && 0 < Coerce(entries[i].value) <= ValueOf(entries)) &&
      (exists j :: 0 <= j < |entries| && ValueOf(entries) <= Coerce(entries[j].value))
  {
    var vals := PositiveValues(entries);
    if |vals| > 0 {
      MedianPositive(vals);
      MedianBounds(vals);
      var lo :| 0 <= lo < |vals| && vals[lo] <= Median(vals);
      var hi :| 0 <= hi < |vals| && Median(vals) <= vals[hi];
      PositiveValuesFrom(entries, lo);
      PositiveValuesFrom(entries, hi);
    } else if i :| 0 <= i < |entries| && Coerce(entries[i].value) > 0 {
      PositiveValuesNonEmpty(entries, i);
    }
  }

  /** Zero, negative and unparsed values are dropped before the median: such
      a record, wherever it stands, does not change the value. */
  lemma ValueIgnoresNonPositive(pre: seq<SourceRecord>, r: SourceRecord, post: seq<SourceRecord>)
    requires Coerce(r.value) <= 0
    ensures ValueOf(pre + [r] + post) == ValueOf(pre + post)
  {
    PositiveValuesSkip(pre, r, post);
  }

  lemma PositiveValuesSkip(pre: seq<SourceRecord>, r: SourceRecord, post: seq<SourceRecord>)
    requires Coerce(r.value) <= 0
    ensures PositiveValues(pre + [r] + post) == PositiveValues(pre + post)
  {
    PositiveValuesConcat(pre + [r], post);
    PositiveValuesConcat(pre, [r]);
    PositiveValuesConcat(pre, post);
    PositiveValuesDropped(r);
    assert PositiveValues(pre + [r]) == PositiveValues(pre);
  }

  lemma PositiveValuesDropped(r: SourceRecord)
    requires Coerce(r.value) <= 0
    ensures PositiveValues([r]) == []
  {
    assert [r][1..] == [];
  }

  /** The sources object: one key per source id, the value of the last record
      with that id winning. */
  function SourcesOf(entries: seq<SourceRecord>): map<string, int> {
    if entries == [] then map[]
    else
      var last := entries[|entries| - 1];
      SourcesOf(entries[..|entries| - 1])[last.source := Coerce(last.value)]
  }

  /** No later record of `entries` has the source id of `entries[i]`. */
  predicate LastOfSource(entries: seq<SourceRecord>, i: int)
    requires 0 <= i < |entries|
  {
    forall j :: i < j < |entries| ==> entries[j].source != entries[i].source
  }

  /** The keys of the sources object are exactly the group's source ids. */
  lemma {:induction false} SourcesOfKeys(entries: seq<SourceRecord>)
    ensures SourcesOf(entries).Keys == set i | 0 <= i < |entries| :: entries[i].source
  {
    if entries != [] {
      var n := |entries| - 1;
      var init := entries[..n];
      SourcesOfKeys(init);
      assert (set i | 0 <= i < |entries| :: entries[i].source) ==
        (set i | 0 <= i < n :: init[i].source) + {entries[n].source};
    }
  }

  /** Each source id maps to the coerced value of the last record with that
      id (zeros included). */
  lemma {:induction false} SourcesOfLastWins(entries: seq<SourceRecord>)
    ensures forall i :: 0 <= i < |entries| && LastOfSource(entries, i) ==>
      entries[i].source in SourcesOf(entries) &&
      SourcesOf(entries)[entries[i].source] == Coerce(entries[i].value)
  {
    if entries != [] {
      var n := |entries| - 1;
      var init := entries[..n];
      SourcesOfLastWins(init);
      forall i | 0 <= i < |entries| && LastOfSource(entries, i)
        ensures entries[i].source in SourcesOf(entries)
        ensures SourcesOf(entries)[entries[i].source] == Coerce(entries[i].value)
      {
        if i < n {
          assert init[i] == entries[i];
          assert LastOfSource(init, i);
        }
      }
    }
  }

  /** The loop that fills the sources object. */
  method CollectSources(entries: seq<SourceRecord>) returns (sources: map<string, int>)
    ensures sources == SourcesOf(entries)
  {
    sources := map[];
    for i := 0 to |entries|
      invariant sources == SourcesOf(entries[..i])
    {
      assert entries[..i + 1][..i] == entries[..i];
      sources := sources[entries[i].source := Coerce(entries[i].value)];
    }
    assert entries[..|entries|] == entries;
  }

  /** `entries[j]` is the first record of the group with a truthy rarity. */
  predicate FirstTruthy(entries: seq<SourceRecord>, j: int) {
    && 0 <= j < |entries|
    && Truthy(entries[j].rarity)
    && forall i :: 0 <= i < j ==> !Truthy(entries[i].rarity)
  }

  /** `entries.find(e => e.rarity)?.rarity || "Unknown"`. */
  function RarityOf(entries: seq<SourceRecord>): (r: string)
    ensures (forall i :: 0 <= i < |entries| ==> !Truthy(entries[i].rarity)) ==> r == "Unknown"
    ensures forall j :: FirstTruthy(entries, j) ==> r == entries[j].rarity.value
  {
    if entries == [] then "Unknown"
    else if Truthy(entries[0].rarity) then entries[0].rarity.value
    else
      assert forall j :: FirstTruthy(entries, j) ==> FirstTruthy(entries[1..], j - 1);
      RarityOf(entries[1..])
  }

  // ---------------------------------------------------------------------
  // The merge

  /** The merged record of one catalog entry. */
  function Merge(lp: CatalogEntry, all: seq<SourceRecord>): (m: MergedRecord)
    ensures m.name == lp.name && m.image == lp.image
  {
    var entries := GroupFor(all, lp.key);
    MergedRecord(lp.name, RarityOf(entries), ValueOf(entries), SourcesOf(entries), lp.image)
  }

  /** The callback of the merge: one catalog entry's record, read from the
      grouping map that `GroupByKey` built. */
  method MergeEntry(lp: CatalogEntry, all: seq<SourceRecord>, groups: map<string, seq<SourceRecord>>)
    returns (m: MergedRecord)
    requires groups == GroupsOf(all)
    ensures m == Merge(lp, all)
  {
    GroupsOfMatching(all);
    var entries := if lp.key in groups then groups[lp.key] else [];
    assert entries == GroupFor(all, lp.key);
    var vals := PositiveValues(entries);
    var finalValue := if |vals| > 0 then Median(vals) else 0;
    var sources := CollectSources(entries);
    var rarity := RarityOf(entries);
    m := MergedRecord(lp.name, rarity, finalValue, sources, lp.image);
  }

  /** `s.map(f)`, built from the end like the other prefix definitions. */
  function Map<A, B>(f: A -> B, s: seq<A>): seq<B> {
    if s == [] then [] else Map(f, s[..|s| - 1]) + [f(s[|s| - 1])]
  }

  /** The mapped sequence has one image per element, in order. */
  lemma {:induction false} MapAt<A, B>(f: A -> B, s: seq<A>)
    ensures |Map(f, s)| == |s|
    ensures forall j :: 0 <= j < |s| ==> Map(f, s)[j] == f(s[j])
  {
    if s != [] {
      var init := s[..|s| - 1];
      MapAt(f, init);
      assert forall j :: 0 <= j < |init| ==> init[j] == s[j];
    }
  }

  /** `localPets.map(lp => ...)`: every catalog entry's merged record. */
  function MergeAll(catalog: seq<CatalogEntry>, all: seq<SourceRecord>): seq<MergedRecord> {
    Map(lp => Merge(lp, all), catalog)
  }

  /** One merged record per catalog entry, in catalog order. */
  lemma MergeAllAt(catalog: seq<CatalogEntry>, all: seq<SourceRecord>)
    ensures |MergeAll(catalog, all)| == |catalog|
    ensures forall j :: 0 <= j < |catalog| ==> MergeAll(catalog, all)[j] == Merge(catalog[j], all)
  {
    MapAt(lp => Merge(lp, all), catalog);
  }

  /** The merge loop over the catalog (`localPets.map(...)`), given the
      grouping map. */
  method MergeCatalog(catalog: seq<CatalogEntry>, all: seq<SourceRecord>, groups: map<string, seq<SourceRecord>>)
    returns (merged: seq<MergedRecord>)
    requires groups == GroupsOf(all)
    ensures merged == MergeAll(catalog, all)
  {
    merged := [];
    for i := 0 to |catalog|
      invariant merged == MergeAll(catalog[..i], all)
    {
      var m := MergeEntry(catalog[i], all, groups);
      assert catalog[..i + 1][..i] == catalog[..i];
      merged := merged + [m];
    }
    assert catalog[..|catalog|] == catalog;
  }

  /** Grouping, then the merge of every catalog entry. */
  method Reconcile(catalog: seq<CatalogEntry>, all: seq<SourceRecord>) returns (merged: seq<MergedRecord>)
    ensures |merged| == |catalog|
    ensures forall i :: 0 <= i < |catalog| ==>
      merged[i] == Merge(catalog[i], all) &&
      merged[i].name == catalog[i].name && merged[i].image == catalog[i].image
  {
    var groups := GroupByKey(all);
    merged := MergeCatalog(catalog, all, groups);
    MergeAllAt(catalog, all);
  }

  /** `run` without its I/O: concatenate the adapters' outputs, derive the
      catalog from the file listing, merge. */
  method Run(outputs: seq<seq<SourceRecord>>, files: seq<string>) returns (pets: seq<MergedRecord>)
    ensures |pets| == |CatalogOf(files)|
    ensures forall i :: 0 <= i < |pets| ==> pets[i] == Merge(CatalogOf(files)[i], Flatten(outputs))
  {
    var all := [];
    for i := 0 to |outputs|
      invariant all == Flatten(outputs[..i])
    {
      assert outputs[..i + 1][..i] == outputs[..i];
      all := all + outputs[i];
    }
    assert outputs[..|outputs|] == outputs;
    var localPets := CatalogOf(files);
    pets := Reconcile(localPets, all);
  }

  // ---------------------------------------------------------------------
  // Properties of the merge

  /** A catalog entry that no source record joins (or whose key is empty)
      gets value 0, no sources and rarity "Unknown". */
  lemma MergeWithoutMatches(lp: CatalogEntry, all: seq<SourceRecord>)
    requires lp.key == "" || forall r :: r in all ==> KeyOf(r) != lp.key
    ensures Merge(lp, all) == MergedRecord(lp.name, "Unknown", 0, map[], lp.image)
  {
    if lp.key != "" {
      MatchingNone(all, lp.key);
    }
    assert GroupFor(all, lp.key) == [];
    assert PositiveValues([]) == [];
  }

  lemma {:induction false} MatchingNone(all: seq<SourceRecord>, key: string)
    requires forall r :: r in all ==> KeyOf(r) != key
    ensures Matching(all, key) == []
  {
    if all != [] {
      MatchingNone(all[..|all| - 1], key);
      assert all[|all| - 1] in all;
    }
  }

  lemma {:induction false} MatchingAll(all: seq<SourceRecord>, key: string)
    requires forall r :: r in all ==> KeyOf(r) == key
    ensures Matching(all, key) == all
  {
    if all != [] {
      var init := all[..|all| - 1];
      var last := all[|all| - 1];
      assert all == init + [last];
      MatchingAll(init, key);
      MatchingConcat(init, [last], key);
      MatchingOne(last, key);
    }
  }

  lemma MatchingOne(r: SourceRecord, key: string)
    requires KeyOf(r) == key
    ensures Matching([r], key) == [r]
  {
    assert [r][..0] == [];
  }

  /** A source record whose key is empty, or is not the entry's key, does not
      affect the entry's merged record, wherever it stands among the records. */
  lemma MergeIgnoresOtherKeys(lp: CatalogEntry, pre: seq<SourceRecord>, r: SourceRecord, post: seq<SourceRecord>)
    requires KeyOf(r) == "" || KeyOf(r) != lp.key
    ensures Merge(lp, pre + [r] + post) == Merge(lp, pre + post)
  {
    GroupSkipsOtherKeys(lp.key, pre, r, post);
  }

  lemma GroupSkipsOtherKeys(key: string, pre: seq<SourceRecord>, r: SourceRecord, post: seq<SourceRecord>)
    requires KeyOf(r) == "" || KeyOf(r) != key
    ensures GroupFor(pre + [r] + post, key) == GroupFor(pre + post, key)
  {
    if key != "" {
      MatchingConcat(pre + [r], post, key);
      MatchingConcat(pre, [r], key);
      MatchingConcat(pre, post, key);
      assert [r][..0] == [];
      assert Matching([r], key) == [];
    }
  }

  /** The merged record's value, sources and rarity, read off the records
      that join its entry. */
  lemma MergeFields(lp: CatalogEntry, all: seq<SourceRecord>)
    ensures var m := Merge(lp, all); var g := GroupFor(all, lp.key);
      && m.name == lp.name && m.image == lp.image
      && (forall a :: ArrangesPositives(a, g) ==> m.value == MiddleOf(a))
      && (m.value > 0 <==> exists i :: 0 <= i < |g| && Coerce(g[i].value) > 0)
      && (m.value > 0 ==>
           (exists i :: 0 <= i < |g| && 0 < Coerce(g[i].value) <= m.value) &&
           (exists j :: 0 <= j < |g| && m.value <= Coerce(g[j].value)))
      && m.sources.Keys == (set i | 0 <= i < |g| :: g[i].source)
      && (forall i :: 0 <= i < |g| && LastOfSource(g, i) ==> m.sources[g[i].source] == Coerce(g[i].value))
      && (forall j :: FirstTruthy(g, j) ==> m.rarity == g[j].rarity.value)
      && ((forall i :: 0 <= i < |g| ==> !Truthy(g[i].rarity)) ==> m.rarity == "Unknown")
  {
    var g := GroupFor(all, lp.key);
    forall a | ArrangesPositives(a, g)
      ensures ValueOf(g) == MiddleOf(a)
    {
      ValueOfAscending(g, a);
    }
    ValueOfRange(g);
    SourcesOfKeys(g);
    SourcesOfLastWins(g);
  }

  /** Two sources reporting 100 and 200 for "Cat" merge into the value 150,
      with both sources listed and the rarity "Unknown". */
  lemma MergeExample(lp: CatalogEntry, all: seq<SourceRecord>)
    requires lp == CatalogEntry("Cat", Normalize("Cat"), "pets/Cat.png")
    requires all == [SourceRecord("Cat", Num(100), None, "a"), SourceRecord("Cat", Num(200), None, "b")]
    ensures Merge(lp, all) == MergedRecord("Cat", "Unknown", 150, map["a" := 100, "b" := 200], "pets/Cat.png")
  {
    ExampleGroup(lp.key, all);
    var g := GroupFor(all, lp.key);
    ExampleValue(g);
    ExampleSources(g);
    assert !Truthy(g[0].rarity) && !Truthy(g[1].rarity);
    assert RarityOf(g) == "Unknown";
  }

  lemma ExampleGroup(key: string, all: seq<SourceRecord>)
    requires key == Normalize("Cat")
    requires all == [SourceRecord("Cat", Num(100), None, "a"), SourceRecord("Cat", Num(200), None, "b")]
    ensures GroupFor(all, key) == all
  {
    CatKey();
    forall r | r in all
      ensures KeyOf(r) == "cat"
    {
      assert r.name == "Cat";
    }
    MatchingAll(all, "cat");
  }

  lemma ExampleValue(all: seq<SourceRecord>)
    requires all == [SourceRecord("Cat", Num(100), None, "a"), SourceRecord("Cat", Num(200), None, "b")]
    ensures ValueOf(all) == 150
  {
    assert all[1..] == [all[1]] && all[1..][1..] == [];
    assert PositiveValues(all[1..]) == [200];
    var vals := PositiveValues(all);
    assert vals == [100, 200];
    assert Sorted(vals);
    MedianOfAscending(vals, vals);
  }

  lemma ExampleSources(all: seq<SourceRecord>)
    requires all == [SourceRecord("Cat", Num(100), None, "a"), SourceRecord("Cat", Num(200), None, "b")]
    ensures SourcesOf(all) == map["a" := 100, "b" := 200]
  {
    assert all[..1][..0] == [];
    assert SourcesOf(all[..1]) == map["a" := 100];
  }

  lemma CatKey()
    ensures Normalize("Cat") == "cat"
  {
    assert IsKey("cat");
    NormalizeFixesKeys("cat");
    NormalizeSameShape("Cat", "cat");
  }

  /** A zero next to 50 merges to 50, not to the median of both. */
  lemma MergeZeroExample(lp: CatalogEntry, all: seq<SourceRecord>)
    requires lp == CatalogEntry("Cat", Normalize("Cat"), "pets/Cat.png")
    requires all == [SourceRecord("Cat", Num(0), None, "a"), SourceRecord("Cat", Num(50), None, "b")]
    ensures Merge(lp, all).value == 50
  {
    CatKey();
    MatchingAll(all, "cat");
    var g := GroupFor(all, lp.key);
    assert g == all;
    ExampleZeroValue(g);
  }

  lemma ExampleZeroValue(all: seq<SourceRecord>)
    requires all == [SourceRecord("Cat", Num(0), None, "a"), SourceRecord("Cat", Num(50), None, "b")]
    ensures ValueOf(all) == 50
  {
    assert all[1..] == [all[1]] && all[1..][1..] == [];
    assert PositiveValues(all[1..]) == [50];
    var vals := PositiveValues(all);
    assert vals == [50];
    MedianSingle(vals);
  }
}
