/**
 * `parseInstagramExportZip`: the parser's entry point. It lists the archive's JSON
 * files, tries the saved-collections reader on the saved-collections file and
 * returns its collections when it recognises any; otherwise it scans every JSON
 * file with the schema-free reader (files whose names hint at saved posts
 * first), keeps the first item for every link, files the items by collection and
 * sorts each collection by title.
 */
module Archive {
  import opened Wrappers
  import opened Text
  import opened JsonValue
  import opened Seqs
  import opened Assoc
  import opened Export
  import opened SavedCollections
  import opened GenericScan

  /** A file of the archive: its name and its content parsed as JSON, or `None`
    * when it cannot be read or is not valid JSON. */
  datatype ZipEntry = ZipEntry(name: string, content: Option<Json>)

  /** `Object.keys(zip.files)`. */
  function EntryNames(zip: seq<ZipEntry>): (r: seq<string>)
    ensures |r| == |zip| && forall i | 0 <= i < |zip| :: r[i] == zip[i].name
  {
    seq(|zip|, i requires 0 <= i < |zip| => zip[i].name)
  }

  /** `n.toLowerCase().endsWith(".json")`. */
  predicate IsJsonName(n: string) {
    EndsWithIgnoringCase(n, ".json")
  }

  /** The names of the archive's JSON files, in archive order. */
  function JsonNames(zip: seq<ZipEntry>): seq<string> {
    Filter(EntryNames(zip), IsJsonName)
  }

  /** The parsed content of the file named `name`, or `None` when there is no such
    * file or it cannot be read or parsed. */
  function Read(zip: seq<ZipEntry>, name: string): Option<Json> {
    if zip == [] then None
    else if zip[0].name == name then zip[0].content
    else Read(zip[1..], name)
  }

  // ----- Choosing the saved-collections file -----

  /** `/saved_collections\.json$/i`. */
  predicate IsSavedFile(n: string) {
    EndsWithIgnoringCase(n, "saved_collections.json")
  }

  /** `/saved_collections/i`. */
  predicate MentionsSaved(n: string) {
    ContainsIgnoringCase(n, "saved_collections")
  }

  /** The first name ending in `saved_collections.json`, else the first name
    * mentioning `saved_collections`, ignoring case. */
  function SavedPath(names: seq<string>): Option<string> {
    match Find(names, IsSavedFile)
    case Some(n) => Some(n)
    case None => Find(names, MentionsSaved)
  }

  // ----- The saved-collections path -----

  /** The sort key of a collection name. */
  function NameKey(n: string): string {
    n
  }

  /** `urls.map(u => ({ collection: c, title: u, url: u }))`. */
  function UrlItems(c: string, urls: seq<string>): seq<Item> {
    seq(|urls|, i requires 0 <= i < |urls| => Item(c, urls[i], urls[i]))
  }

  /** The collections built for the names `names`, in that order. */
  function SchemaCollections(names: seq<string>, m: seq<Group<string>>): seq<Group<Item>> {
    if names == [] then []
    else
      var c := names[|names| - 1];
      SchemaCollections(names[..|names| - 1], m) + [Group(c, UrlItems(c, Lookup(m, c)))]
  }

  /** The result of the saved-collections path for the recognised record `m`. */
  function SchemaExport(m: seq<Group<string>>): ParsedExport {
    var cols := SchemaCollections(SortBy(Names(m), NameKey), m);
    ParsedExport(cols, Flatten(cols), [])
  }

  /** The loop over the sorted collection names that builds the result. */
  method BuildSchemaExport(m: seq<Group<string>>) returns (r: ParsedExport)
    ensures r == SchemaExport(m)
  {
    var names := SortBy(Names(m), NameKey);
    var collections: seq<Group<Item>> := [];
    var allItems: seq<Item> := [];
    var i := 0;
    while i < |names|
      invariant 0 <= i <= |names|
      invariant collections == SchemaCollections(names[..i], m)
      invariant allItems == Flatten(collections)
    {
      var c := names[i];
      var items := UrlItems(c, Lookup(m, c));
      assert names[..i + 1][..i] == names[..i];
      FlattenSnoc(collections, Group(c, items));
      collections := collections + [Group(c, items)];
      allItems := allItems + items;
      i := i + 1;
    }
    assert names[..i] == names;
    r := ParsedExport(collections, allItems, []);
  }

  // ----- The generic fallback -----

  /** `/save|saved|collection|bookmark/i`. */
  predicate IsHinted(n: string) {
    || ContainsIgnoringCase(n, "save")
    || ContainsIgnoringCase(n, "saved")
    || ContainsIgnoringCase(n, "collection")
    || ContainsIgnoringCase(n, "bookmark")
  }

  /** The hinted names, then the others, each in their original order. */
  function Prioritized(names: seq<string>): seq<string> {
    Filter(names, IsHinted) + Filter(names, Not(IsHinted))
  }

  /** The items the schema-free reader finds in the file `name`; none when the
    * file cannot be read or parsed. */
  function FileItems(zip: seq<ZipEntry>, name: string): seq<Item> {
    match Read(zip, name)
    case None => []
    case Some(data) => ExtractItems(data, name)
  }

  /** The items of the files `names`, one file after another. */
  function ScannedItems(zip: seq<ZipEntry>, names: seq<string>): seq<Item> {
    if names == [] then []
    else ScannedItems(zip, names[..|names| - 1]) + FileItems(zip, names[|names| - 1])
  }

  /** The links of `items`. */
  function Urls(items: seq<Item>): set<string> {
    set i | 0 <= i < |items| :: items[i].url
  }

  /** The first item for every link, in order. */
  function FirstPerUrl(items: seq<Item>): seq<Item> {
    if items == [] then []
    else
      var kept, it := FirstPerUrl(items[..|items| - 1]), items[|items| - 1];
      if it.url in Urls(kept) then kept else kept + [it]
  }

  /** `it.collection || "Unsorted"`. */
  function CollectionOf(it: Item): string {
    if it.collection == [] then Unsorted else it.collection
  }

  /** Every item paired with the collection it is filed under. */
  function ByCollection(items: seq<Item>): seq<(string, Item)> {
    if items == [] then []
    else
      var it := items[|items| - 1];
      ByCollection(items[..|items| - 1]) + [(CollectionOf(it), it)]
  }

  /** The sort key of an item. */
  function TitleKey(it: Item): string {
    it.title
  }

  /** Every list of `g` sorted by title. */
  function SortedGroups(g: seq<Group<Item>>): (r: seq<Group<Item>>)
    ensures |r| == |g|
  {
    seq(|g|, i requires 0 <= i < |g| => Group(g[i].name, SortBy(g[i].items, TitleKey)))
  }

  /** The kept items filed by collection, each list sorted by title. */
  function Filed(deduped: seq<Item>): seq<Group<Item>> {
    SortedGroups(GroupAll(ByCollection(deduped)))
  }

  /** The result of the fallback, after the warnings `warnings0`. */
  function FallbackExport(zip: seq<ZipEntry>, names: seq<string>, warnings0: seq<Warning>): ParsedExport {
    var items := ScannedItems(zip, Prioritized(names));
    var deduped := FirstPerUrl(items);
    ParsedExport(
      Filed(deduped),
      deduped,
      warnings0 + (if items == [] then [NoPostLinks] else []))
  }

  /** The fallback: scan, warn when nothing was found, keep the first item per
    * link, file by collection, sort each collection by title. */
  method ScanFallback(zip: seq<ZipEntry>, names: seq<string>, warnings0: seq<Warning>) returns (r: ParsedExport)
    ensures r == FallbackExport(zip, names, warnings0)
  {
    var prioritized := Prioritized(names);
    var items, hitCount := ScanFiles(zip, prioritized);
    var warnings := warnings0;
    if hitCount == 0 {
      warnings := warnings + [NoPostLinks];
    }
    var deduped := KeepFirstPerUrl(items);
    var collections := GroupByCollection(deduped);
    collections := SortEachByTitle(collections);
    r := ParsedExport(collections, deduped, warnings);
  }

  /** The scan loop: the items of every readable file, and their count. */
  method ScanFiles(zip: seq<ZipEntry>, prioritized: seq<string>) returns (items: seq<Item>, hitCount: nat)
    ensures items == ScannedItems(zip, prioritized)
    ensures hitCount == |items|
  {
    items := [];
    hitCount := 0;
    var i := 0;
    while i < |prioritized|
      invariant 0 <= i <= |prioritized|
      invariant items == ScannedItems(zip, prioritized[..i])
      invariant hitCount == |items|
    {
      var name := prioritized[i];
      ScannedItemsStep(zip, prioritized, i);
      var extracted := ReadFileItems(zip, name);
      items, hitCount := Collect(items, hitCount, extracted);
      i := i + 1;
    }
    assert prioritized[..i] == prioritized;
  }

  /** One pass of the scan loop's `try` block: the items of the file `name`, none
    * when it cannot be read or parsed. */
  method ReadFileItems(zip: seq<ZipEntry>, name: string) returns (extracted: seq<Item>)
    ensures extracted == FileItems(zip, name)
  {
    var data := Read(zip, name);
    if data.Some? {
      extracted := ExtractItemsFromUnknownJson(data.value, name);
    } else {
      extracted := [];
    }
  }

  /** The end of the `try` block: counts the file's items when there are any and
    * pushes them. */
  method Collect(items0: seq<Item>, hitCount0: nat, extracted: seq<Item>) returns (items: seq<Item>, hitCount: nat)
    ensures items == items0 + extracted
    ensures hitCount == hitCount0 + |extracted|
  {
    hitCount := hitCount0;
    if |extracted| > 0 {
      hitCount := hitCount + |extracted|;
    }
    items := items0 + extracted;
  }

  /** One more file adds its items. */
  lemma ScannedItemsStep(zip: seq<ZipEntry>, names: seq<string>, i: nat)
    requires i < |names|
    ensures ScannedItems(zip, names[..i + 1]) == ScannedItems(zip, names[..i]) + FileItems(zip, names[i])
  {
    assert names[..i + 1][..i] == names[..i];
  }

  /** The `seen` loop: keeps an item only when its link is new. */
  method KeepFirstPerUrl(items: seq<Item>) returns (deduped: seq<Item>)
    ensures deduped == FirstPerUrl(items)
  {
    var seen: set<string> := {};
    deduped := [];
    var i := 0;
    while i < |items|
      invariant 0 <= i <= |items|
      invariant deduped == FirstPerUrl(items[..i])
      invariant seen == Urls(deduped)
    {
      var it := items[i];
      assert items[..i + 1][..i] == items[..i];
      if it.url !in seen {
        UrlsSnoc(deduped, it);
        seen := seen + {it.url};
        deduped := deduped + [it];
      }
      i := i + 1;
    }
    assert items[..i] == items;
  }

  lemma UrlsSnoc(items: seq<Item>, it: Item)
    ensures Urls(items + [it]) == Urls(items) + {it.url}
  {
    var s := items + [it];
    forall u | u in Urls(s) ensures u in Urls(items) + {it.url} {
      var i :| 0 <= i < |s| && s[i].url == u;
      if i < |items| { assert items[i] == s[i]; }
    }
    forall u | u in Urls(items) ensures u in Urls(s) {
      var i :| 0 <= i < |items| && items[i].url == u;
      assert s[i] == items[i];
    }
    assert s[|items|] == it;
  }

  /** The filing loop: pushes every item onto its collection's list. */
  method GroupByCollection(deduped: seq<Item>) returns (collections: seq<Group<Item>>)
    ensures collections == GroupAll(ByCollection(deduped))
  {
    collections := [];
    var i := 0;
    while i < |deduped|
      invariant 0 <= i <= |deduped|
      invariant collections == GroupAll(ByCollection(deduped[..i]))
    {
      var it := deduped[i];
      assert deduped[..i + 1][..i] == deduped[..i];
      var c := if it.collection == [] then Unsorted else it.collection;
      collections := Append(collections, c, it);
      i := i + 1;
    }
    assert deduped[..i] == deduped;
  }

  /** The sorting loop: sorts every collection's list by title. */
  method SortEachByTitle(g: seq<Group<Item>>) returns (r: seq<Group<Item>>)
    ensures r == SortedGroups(g)
  {
    r := g;
    var i := 0;
    while i < |r|
      invariant 0 <= i <= |r| == |g|
      invariant forall k | 0 <= k < i :: r[k] == SortedGroups(g)[k]
      invariant forall k | i <= k < |r| :: r[k] == g[k]
    {
      r := r[i := Group(r[i].name, SortBy(r[i].items, TitleKey))];
      i := i + 1;
    }
  }

  // ----- The whole parser -----

  /** The record the saved-collections reader makes of the saved-collections file,
    * when there is such a file among `names` and it can be read. */
  function SavedRecord(zip: seq<ZipEntry>, names: seq<string>): Option<seq<Group<string>>> {
    match SavedPath(names)
    case None => None
    case Some(path) =>
      match Read(zip, path)
      case None => None
      case Some(data) => Some(SavedGroups(data))
  }

  /** The warnings the saved-collections path leaves for the fallback: the file
    * could not be read, or nothing in it was recognised. */
  function EarlyWarnings(zip: seq<ZipEntry>, names: seq<string>): seq<Warning> {
    match SavedPath(names)
    case None => []
    case Some(path) =>
      if Read(zip, path).None? then [SavedCollectionsUnreadable]
      else if SavedRecord(zip, names).value == [] then [SavedCollectionsUnrecognised]
      else []
  }

  /** What `parseInstagramExportZip(zip)` returns (the item ids left out). */
  function ParseExport(zip: seq<ZipEntry>): ParsedExport {
    var names := JsonNames(zip);
    if names == [] then ParsedExport([], [], [NoJsonFiles])
    else
      var record := SavedRecord(zip, names);
      if record.Some? && record.value != [] then SchemaExport(record.value)
      else FallbackExport(zip, names, EarlyWarnings(zip, names))
  }

  /** `parseInstagramExportZip(zip)`. */
  method ParseInstagramExportZip(zip: seq<ZipEntry>) returns (r: ParsedExport)
    ensures r == ParseExport(zip)
  {
    var warnings: seq<Warning> := [];
    var jsonNames := JsonNames(zip);
    if |jsonNames| == 0 {
      return ParsedExport([], [], [NoJsonFiles]);
    }
    var savedPath := SavedPath(jsonNames);
    if savedPath.Some? {
      var data := Read(zip, savedPath.value);
      if data.None? {
        warnings := warnings + [SavedCollectionsUnreadable];
      } else {
        var m := ParseSavedCollectionsJson(data.value);
        assert SavedRecord(zip, jsonNames) == Some(m);
        if |m| == 0 {
          warnings := warnings + [SavedCollectionsUnrecognised];
        } else {
          r := BuildSchemaExport(m);
          return;
        }
      }
    }
    assert warnings == EarlyWarnings(zip, jsonNames);
    r := ScanFallback(zip, jsonNames, warnings);
  }

  // ----- Early exits -----

  /** The saved-collections path is taken: there are JSON files, one of them is
    * the saved-collections file, it can be read, and the reader recognises at
    * least one collection in it. */
  predicate UsesSchema(zip: seq<ZipEntry>) {
    var names := JsonNames(zip);
    names != [] && SavedRecord(zip, names).Some? && SavedRecord(zip, names).value != []
  }

  /** A JSON file is one whose name ends in `.json`, ignoring case. */
  lemma JsonNamesSpec(zip: seq<ZipEntry>, n: string)
    ensures n in JsonNames(zip) <==> IsJsonName(n) && exists i | 0 <= i < |zip| :: zip[i].name == n
  {
    FilterSpec(EntryNames(zip), IsJsonName, n);
    if exists i | 0 <= i < |zip| :: zip[i].name == n {
      var i :| 0 <= i < |zip| && zip[i].name == n;
      assert EntryNames(zip)[i] == n;
    }
  }

  /** Without JSON files the result is empty with the single warning about it, and
    * that warning appears in no other case. */
  lemma NoJsonFilesResult(zip: seq<ZipEntry>)
    ensures JsonNames(zip) == [] ==> ParseExport(zip) == ParsedExport([], [], [NoJsonFiles])
    ensures NoJsonFiles in ParseExport(zip).warnings <==> JsonNames(zip) == []
  {
  }

  /** The saved-collections file is the first name ending in
    * `saved_collections.json`; when there is none, the first name mentioning
    * `saved_collections`; when there is neither, there is none. */
  lemma SavedPathSpec(names: seq<string>)
    ensures (exists i | 0 <= i < |names| :: IsSavedFile(names[i])) ==>
      && SavedPath(names).Some?
      && exists i | 0 <= i < |names| ::
        && names[i] == SavedPath(names).value && IsSavedFile(names[i])
        && forall j | 0 <= j < i :: !IsSavedFile(names[j])
    ensures (forall i | 0 <= i < |names| :: !IsSavedFile(names[i])) ==>
      && (SavedPath(names).None? <==> forall i | 0 <= i < |names| :: !MentionsSaved(names[i]))
      && (SavedPath(names).Some? ==> exists i | 0 <= i < |names| ::
        && names[i] == SavedPath(names).value && MentionsSaved(names[i])
        && forall j | 0 <= j < i :: !MentionsSaved(names[j]))
  {
    FindSpec(names, IsSavedFile);
    FindSpec(names, MentionsSaved);
  }

  /** The collections built for `names` are named `names`, in order, and each holds
    * one item per link of its record list, with the link as title. */
  lemma {:induction false} SchemaCollectionsSpec(names: seq<string>, m: seq<Group<string>>)
    ensures var cols := SchemaCollections(names, m);
      && |cols| == |names|
      && forall i | 0 <= i < |cols| :: cols[i] == Group(names[i], UrlItems(names[i], Lookup(m, names[i])))
  {
    if names != [] {
      var n := |names| - 1;
      SchemaCollectionsSpec(names[..n], m);
    }
  }

  /** When the saved-collections path is taken, the result depends on the
    * saved-collections file alone: its collections under their names in sorted
    * order, every item in `allItems` collection after collection, and no warning. */
  lemma SchemaPathSpec(zip: seq<ZipEntry>)
    requires UsesSchema(zip)
    ensures var m := SavedGroups(Read(zip, SavedPath(JsonNames(zip)).value).value);
      var r := ParseExport(zip);
      && SavedRecord(zip, JsonNames(zip)) == Some(m)
      && r == SchemaExport(m)
      && r.warnings == []
      && SortedBy(Names(r.collections), NameKey)
      && multiset(Names(r.collections)) == multiset(Names(m))
      && r.allItems == Flatten(r.collections)
  {
    var m := SavedGroups(Read(zip, SavedPath(JsonNames(zip)).value).value);
    var names := SortBy(Names(m), NameKey);
    var cols := SchemaCollections(names, m);
    SortBySorted(Names(m), NameKey);
    SchemaCollectionsSpec(names, m);
    assert Names(cols) == names;
  }

  /** On the saved-collections path each collection name appears once, and each
    * collection holds one item per link of its non-empty record list, in order,
    * with the link as title. */
  lemma SchemaPathLists(zip: seq<ZipEntry>)
    requires UsesSchema(zip)
    ensures var m := SavedGroups(Read(zip, SavedPath(JsonNames(zip)).value).value);
      var r := ParseExport(zip);
      && UniqueNames(r.collections)
      && forall i | 0 <= i < |r.collections| ::
        var c, urls := r.collections[i].name, Lookup(m, r.collections[i].name);
        && urls != []
        && |r.collections[i].items| == |urls|
        && forall j | 0 <= j < |urls| :: r.collections[i].items[j] == Item(c, urls[j], urls[j])
  {
    var data := Read(zip, SavedPath(JsonNames(zip)).value).value;
    SavedCollectionsGroups(data);
    SchemaExportLists(SavedGroups(data));
  }

  /** The collections built from a record of non-empty lists under distinct names
    * use each name once, and hold one item per link of the name's list. */
  lemma SchemaExportLists(m: seq<Group<string>>)
    requires UniqueNames(m) && forall i | 0 <= i < |m| :: m[i].items != []
    ensures var cols := SchemaExport(m).collections;
      && UniqueNames(cols)
      && forall i | 0 <= i < |cols| ::
        var c, urls := cols[i].name, Lookup(m, cols[i].name);
        && urls != []
        && |cols[i].items| == |urls|
        && forall j | 0 <= j < |urls| :: cols[i].items[j] == Item(c, urls[j], urls[j])
  {
    var names := SortBy(Names(m), NameKey);
    var cols := SchemaCollections(names, m);
    SortBySorted(Names(m), NameKey);
    SchemaCollectionsSpec(names, m);
    forall i, j | 0 <= i < j < |cols| ensures cols[i].name != cols[j].name {
      MultisetUnique(Names(m), names, i, j);
    }
    forall i | 0 <= i < |cols| ensures Lookup(m, cols[i].name) != [] {
      assert names[i] in multiset(names);
      var k :| 0 <= k < |m| && Names(m)[k] == cols[i].name;
      LookupAt(m, k);
    }
  }

  /** A list without repeats holds every value at most once. */
  lemma {:induction false} NoDuplicatesCount(a: seq<string>, x: string)
    requires NoDuplicates(a)
    ensures multiset(a)[x] <= 1
  {
    if a != [] {
      NoDuplicatesCount(a[1..], x);
      assert a == [a[0]] + a[1..];
      if a[0] == x {
        assert x !in a[1..];
      }
    }
  }

  /** A permutation of a list without repeats has none either. */
  lemma MultisetUnique(a: seq<string>, b: seq<string>, i: nat, j: nat)
    requires NoDuplicates(a) && multiset(a) == multiset(b) && i < j < |b|
    ensures b[i] != b[j]
  {
    NoDuplicatesCount(a, b[j]);
    assert b == b[..j] + [b[j]] + b[j + 1..];
    assert b[..j][i] == b[i];
  }

  // ----- The fallback -----

  /** The scan order puts every hinted name before every other name, keeps each
    * kind in its original order, and scans every JSON file exactly once. */
  lemma PrioritizedSpec(names: seq<string>)
    ensures var r := Prioritized(names);
      && multiset(r) == multiset(names)
      && (forall i, j | 0 <= i < j < |r| :: IsHinted(r[j]) ==> IsHinted(r[i]))
      && Filter(r, IsHinted) == Filter(names, IsHinted)
      && Filter(r, Not(IsHinted)) == Filter(names, Not(IsHinted))
  {
    FilterSplit(names, IsHinted);
    PartitionOrder(names, IsHinted);
    PartitionSides(names, IsHinted);
  }

  /** The scan finds nothing exactly when no file yields an item. */
  lemma {:induction false} ScannedItemsEmpty(zip: seq<ZipEntry>, names: seq<string>)
    ensures ScannedItems(zip, names) == [] <==> forall n | n in names :: FileItems(zip, n) == []
  {
    if names != [] {
      var init, last := names[..|names| - 1], names[|names| - 1];
      ScannedItemsEmpty(zip, init);
      assert names == init + [last];
    }
  }

  /** Every scanned item has a non-empty collection (so it is filed under its own
    * collection), a canonical link and a tidy title of at most `MaxTitle + 1`
    * characters. */
  lemma {:induction false} ScannedItemsShape(zip: seq<ZipEntry>, names: seq<string>, it: Item)
    requires it in ScannedItems(zip, names)
    ensures it.collection != [] && CollectionOf(it) == it.collection
    ensures it.url != [] && it.url[|it.url| - 1] == '/' && '?' !in it.url
    ensures Fields.Tidy(it.title) && |it.title| <= Fields.MaxTitle + 1 && it.title != []
  {
    var n := |names| - 1;
    if it in ScannedItems(zip, names[..n]) {
      ScannedItemsShape(zip, names[..n], it);
    } else {
      ExtractedItemsShape(Read(zip, names[n]).value, names[n], it);
    }
  }

  /** Keeping the first item per link leaves every link once, keeps only scanned
    * items, and loses no link. */
  lemma {:induction false} FirstPerUrlSpec(items: seq<Item>)
    ensures var d := FirstPerUrl(items);
      && (forall i, j | 0 <= i < j < |d| :: d[i].url != d[j].url)
      && (forall it | it in d :: it in items)
      && Urls(d) == Urls(items)
  {
    if items != [] {
      var n := |items| - 1;
      var init, it := items[..n], items[n];
      FirstPerUrlSpec(init);
      var kept := FirstPerUrl(init);
      assert items == init + [it];
      UrlsSnoc(init, it);
      if it.url !in Urls(kept) {
        UrlsSnoc(kept, it);
        var d := kept + [it];
        forall i, j | 0 <= i < j < |d| ensures d[i].url != d[j].url {
          if j == |kept| {
            assert d[i] == kept[i];
          }
        }
      }
    }
  }

  /** The item kept for a link is the first item that has it. */
  lemma {:induction false} FirstPerUrlFirst(items: seq<Item>)
    ensures var d := FirstPerUrl(items);
      forall k | 0 <= k < |d| :: exists i | 0 <= i < |items| ::
        && items[i] == d[k]
        && forall j | 0 <= j < i :: items[j].url != d[k].url
  {
    if items != [] {
      var n := |items| - 1;
      var init, it := items[..n], items[n];
      FirstPerUrlFirst(init);
      FirstPerUrlSpec(init);
      var kept := FirstPerUrl(init);
      forall k | 0 <= k < |kept| ensures exists i | 0 <= i < |items| ::
        items[i] == kept[k] && forall j | 0 <= j < i :: items[j].url != kept[k].url
      {
        var i :| 0 <= i < |init| && init[i] == kept[k] && forall j | 0 <= j < i :: init[j].url != kept[k].url;
        assert items[i] == init[i];
        assert forall j | 0 <= j < i :: items[j] == init[j];
      }
      if it.url !in Urls(kept) {
        forall j | 0 <= j < n ensures items[j].url != it.url {
          assert items[j] == init[j];
          assert init[j].url in Urls(init);
        }
        assert (kept + [it])[|kept|] == items[n];
      }
    }
  }

  /** An item is paired with exactly its own collection. */
  lemma {:induction false} ByCollectionSpec(items: seq<Item>, c: string, it: Item)
    ensures (c, it) in ByCollection(items) <==> it in items && c == CollectionOf(it)
  {
    if items != [] {
      var n := |items| - 1;
      ByCollectionSpec(items[..n], c, it);
      SplitLast(items);
    }
  }

  /** Sorting every list keeps the names and sorts the list under each name. */
  lemma {:induction false} SortedGroupsSpec(g: seq<Group<Item>>, c: string)
    ensures Names(SortedGroups(g)) == Names(g)
    ensures Lookup(SortedGroups(g), c) == SortBy(Lookup(g, c), TitleKey)
  {
    if g != [] {
      SortedGroupsSpec(g[1..], c);
      assert SortedGroups(g)[1..] == SortedGroups(g[1..]);
    }
  }

  /** Every list is non-empty and sorted by title. */
  predicate SortedLists(g: seq<Group<Item>>) {
    forall i | 0 <= i < |g| :: g[i].items != [] && SortedBy(g[i].items, TitleKey)
  }

  /** Filing and sorting make one non-empty list per collection, in the order the
    * collections are first used, each sorted by title. */
  lemma FilingShape(items: seq<Item>)
    ensures var ps := ByCollection(items);
      var g := SortedGroups(GroupAll(ps));
      && Names(g) == Distinct(Keys(ps))
      && UniqueNames(g)
      && SortedLists(g)
  {
    var ps := ByCollection(items);
    var g0 := GroupAll(ps);
    var g := SortedGroups(g0);
    GroupAllSpec(ps);
    SortedGroupsSpec(g0, Unsorted);
    forall i, j | 0 <= i < j < |g| ensures g[i].name != g[j].name {
      assert g[i].name == g0[i].name && g[j].name == g0[j].name;
    }
    forall i | 0 <= i < |g| ensures g[i].items != [] && SortedBy(g[i].items, TitleKey) {
      SortBySorted(g0[i].items, TitleKey);
    }
  }

  /** The list of a collection holds its items, each as often as the export does. */
  lemma FilingCounts(items: seq<Item>, c: string)
    ensures var ps := ByCollection(items);
      multiset(Lookup(SortedGroups(GroupAll(ps)), c)) == multiset(ValuesFor(ps, c))
  {
    var ps := ByCollection(items);
    SortedGroupsSpec(GroupAll(ps), c);
    GroupAllLookup(ps, c);
    SortBySorted(ValuesFor(ps, c), TitleKey);
  }

  /** Every item sits in the list of its own collection and in no other. */
  lemma FilingMember(items: seq<Item>, c: string, it: Item)
    ensures it in Lookup(SortedGroups(GroupAll(ByCollection(items))), c) <==>
      it in items && c == CollectionOf(it)
  {
    var ps := ByCollection(items);
    var l := Lookup(SortedGroups(GroupAll(ps)), c);
    FilingCounts(items, c);
    assert it in l <==> it in multiset(l);
    assert it in ValuesFor(ps, c) <==> it in multiset(ValuesFor(ps, c));
    ByCollectionSpec(items, c, it);
    if it in ValuesFor(ps, c) { ValuesForIn(ps, c, it); }
    if (c, it) in ps { ValuesForHas(ps, c, it); }
  }

  // ----- What the fallback produces -----

  /** When the saved-collections path is not taken, the fallback runs after
    * exactly one warning about the saved-collections file when there is one (it
    * could not be read, or nothing in it was recognised) and none otherwise. */
  lemma FallbackWarnings(zip: seq<ZipEntry>)
    requires JsonNames(zip) != [] && !UsesSchema(zip)
    ensures var names := JsonNames(zip);
      var path := SavedPath(names);
      var w := EarlyWarnings(zip, names);
      && ParseExport(zip) == FallbackExport(zip, names, w)
      && (path.None? ==> w == [])
      && (path.Some? && Read(zip, path.value).None? ==> w == [SavedCollectionsUnreadable])
      && (path.Some? && Read(zip, path.value).Some? ==> w == [SavedCollectionsUnrecognised])
  {
  }

  /** The warning that no post link was found is given exactly when the fallback
    * runs and no JSON file yields an item. */
  lemma NoPostLinksWarning(zip: seq<ZipEntry>)
    ensures var names := JsonNames(zip);
      NoPostLinks in ParseExport(zip).warnings <==>
        names != [] && !UsesSchema(zip) && forall n | n in names :: FileItems(zip, n) == []
  {
    var names := JsonNames(zip);
    if names != [] && !UsesSchema(zip) {
      FallbackWarnings(zip);
      PrioritizedScanEmpty(zip, names);
    }
  }

  /** Scanning in priority order finds nothing exactly when no file yields an item. */
  lemma PrioritizedScanEmpty(zip: seq<ZipEntry>, names: seq<string>)
    ensures ScannedItems(zip, Prioritized(names)) == [] <==> forall n | n in names :: FileItems(zip, n) == []
  {
    var order := Prioritized(names);
    ScannedItemsEmpty(zip, order);
    PrioritizedSpec(names);
    assert forall n :: n in order <==> n in multiset(order);
  }

  /** The fallback keeps every link once, with the first item found for it. */
  lemma FallbackItems(zip: seq<ZipEntry>, names: seq<string>, warnings0: seq<Warning>)
    ensures var r := FallbackExport(zip, names, warnings0);
      var items := ScannedItems(zip, Prioritized(names));
      && r.allItems == FirstPerUrl(items)
      && (forall i, j | 0 <= i < j < |r.allItems| :: r.allItems[i].url != r.allItems[j].url)
      && Urls(r.allItems) == Urls(items)
      && forall it | it in r.allItems :: it in items
  {
    FirstPerUrlSpec(ScannedItems(zip, Prioritized(names)));
  }

  /** The fallback files the kept items under the collections they name, every
    * item in the list of its own collection and in no other. */
  lemma FallbackFiling(zip: seq<ZipEntry>, names: seq<string>, warnings0: seq<Warning>, c: string, it: Item)
    ensures var r := FallbackExport(zip, names, warnings0);
      it in Lookup(r.collections, c) <==> it in r.allItems && c == it.collection
  {
    var items := ScannedItems(zip, Prioritized(names));
    var d := FirstPerUrl(items);
    assert FallbackExport(zip, names, warnings0).collections == Filed(d);
    assert FallbackExport(zip, names, warnings0).allItems == d;
    FilingMember(d, c, it);
    if it in d {
      FirstPerUrlSpec(items);
      ScannedItemsShape(zip, Prioritized(names), it);
    }
  }

  /** The fallback makes one list per collection. */
  lemma FallbackRecord(zip: seq<ZipEntry>, names: seq<string>, warnings0: seq<Warning>)
    ensures UniqueNames(FallbackExport(zip, names, warnings0).collections)
  {
    FilingShape(FirstPerUrl(ScannedItems(zip, Prioritized(names))));
  }

  /** Every list of the fallback is non-empty and sorted by title. */
  lemma FallbackSorted(zip: seq<ZipEntry>, names: seq<string>, warnings0: seq<Warning>)
    ensures SortedLists(FallbackExport(zip, names, warnings0).collections)
  {
    FilingShape(FirstPerUrl(ScannedItems(zip, Prioritized(names))));
  }
}

