/**
 * `parseSavedCollectionsJson`: the reader for the archive's saved-collections file.
 *
 * The file is a list of entries. A marker entry (title "collection") names the
 * collection that the entries after it belong to; every other entry may carry a
 * post link, which is filed under the collection named last. Each collection keeps
 * each canonical link once, in the order first seen.
 */
module SavedCollections {
  import opened Wrappers
  import opened Text
  import opened JsonValue
  import opened Seqs
  import opened Assoc
  import opened IgUrl
  import opened Export

  /** The entry list: `saved_saved_collections` when it is an array, else the whole
    * value when it is an array, else nothing. */
  function EntryList(data: Json): (r: seq<Json>)
    ensures Get(Some(data), "saved_saved_collections").Some? &&
            Get(Some(data), "saved_saved_collections").value.JArr? ==>
              r == Get(Some(data), "saved_saved_collections").value.elems
    ensures data.JArr? ==> r == data.elems
    ensures !data.JArr? && !data.JObj? ==> r == []
    ensures var nested := Get(Some(data), "saved_saved_collections");
      data.JObj? && !(nested.Some? && nested.value.JArr?) ==> r == []
  {
    var nested := Get(Some(data), "saved_saved_collections");
    if nested.Some? && nested.value.JArr? then nested.value.elems
    else if data.JArr? then data.elems
    else []
  }

  /** What an entry does to the walk. */
  datatype Entry =
    | Skip
      /** A collection marker, with its name when that is a non-blank string. */
    | Marker(name: Option<string>)
      /** An entry whose link mentions `instagram.com/`. */
    | Link(href: string)

  /** The string at `entry.string_map_data.Name[key]`, if there is one. */
  function NameField(e: Json, key: string): Option<string> {
    GetString(Get(Get(Some(e), "string_map_data"), "Name"), key)
  }

  /** How the walk reads one entry. */
  function Classify(e: Json): Entry {
    if !(e.JObj? || e.JArr?) then Skip
    else
      var title := GetString(Some(e), "title");
      if title.Some? && EqualsIgnoringCase(title.value, "collection") then
        var name := NameField(e, "value");
        Marker(if name.Some? && !IsBlank(name.value) then Some(Trim(name.value)) else None)
      else
        var href := NameField(e, "href");
        if href.Some? && Contains(href.value, "instagram.com/") then Link(href.value) else Skip
  }

  /** An entry is a marker exactly when it is an object whose `title` is
    * "collection" in any case; a marker carries its trimmed name when that is a
    * non-blank string; any other entry carries its link exactly when that is a
    * string mentioning `instagram.com/`. */
  lemma ClassifySpec(e: Json)
    ensures var title := GetString(Some(e), "title");
      Classify(e).Marker? <==>
        (e.JObj? || e.JArr?) && title.Some? && EqualsIgnoringCase(title.value, "collection")
    ensures var name := NameField(e, "value");
      Classify(e).Marker? ==>
        (Classify(e).name.Some? <==> name.Some? && !IsBlank(name.value)) &&
        (Classify(e).name.Some? ==> Classify(e).name.value == Trim(name.value) && Classify(e).name.value != [])
    ensures var href := NameField(e, "href");
      !Classify(e).Marker? && (e.JObj? || e.JArr?) ==>
        (Classify(e).Link? <==> href.Some? && Contains(href.value, "instagram.com/")) &&
        (Classify(e).Link? ==> Classify(e).href == href.value)
  {
  }

  /** The entries as the walk reads them. */
  function Kinds(es: seq<Json>): (r: seq<Entry>)
    ensures |r| == |es| && forall i | 0 <= i < |es| :: r[i] == Classify(es[i])
  {
    seq(|es|, i requires 0 <= i < |es| => Classify(es[i]))
  }

  /** A marker that names a collection. */
  predicate IsNamedMarker(k: Entry) {
    k.Marker? && k.name.Some?
  }

  /** The collection in force after walking `ks`: the name of the last marker that
    * has one, or `Unsorted`. */
  function CursorAfter(ks: seq<Entry>): string {
    if ks == [] then Unsorted
    else if IsNamedMarker(ks[|ks| - 1]) then ks[|ks| - 1].name.value
    else CursorAfter(ks[..|ks| - 1])
  }

  /** The canonical form the walk files a link under. */
  function Canonical(href: string): string {
    NormalizeIg(CoerceIgUrl(href))
  }

  /** The `(collection, link)` pairs the walk meets, in order; the walk files each
    * link in its canonical form. */
  function Links(ks: seq<Entry>): seq<(string, string)> {
    if ks == [] then []
    else
      var init, k := ks[..|ks| - 1], ks[|ks| - 1];
      Links(init) + (if k.Link? then [(CursorAfter(init), k.href)] else [])
  }

  /** What `parseSavedCollectionsJson(data)` returns. */
  function SavedGroups(data: Json): seq<Group<string>> {
    GroupDistinct(MapValues(Links(Kinds(EntryList(data))), Canonical))
  }

  /** `parseSavedCollectionsJson(data)`: walks the entries with the collection
    * cursor, filing each new canonical link under it. */
  method ParseSavedCollectionsJson(data: Json) returns (results: seq<Group<string>>)
    ensures results == GroupDistinct(MapValues(Links(Kinds(EntryList(data))), Canonical))
  {
    var list := EntryList(data);
    ghost var kinds := Kinds(list);
    results := [];
    var current := Unsorted;
    var i := 0;
    while i < |list|
      invariant 0 <= i <= |list|
      invariant current == CursorAfter(kinds[..i])
      invariant results == GroupDistinct(MapValues(Links(kinds[..i]), Canonical))
    {
      var entry := Classify(list[i]);
      ghost var results0, current0 := results, current;
      results, current := WalkEntry(results, current, entry);
      TakeSnoc(kinds, i);
      WalkStateStep(kinds[..i], entry, results0, current0, results, current);
      i := i + 1;
    }
    assert kinds[..i] == kinds;
  }

  /** One pass of the walk's loop body: a named marker moves the cursor, a link is
    * added under it, and any other entry is skipped. */
  method WalkEntry(results0: seq<Group<string>>, current0: string, entry: Entry)
    returns (results: seq<Group<string>>, current: string)
    ensures current == if IsNamedMarker(entry) then entry.name.value else current0
    ensures results == if entry.Link? then AppendNew(results0, current0, Canonical(entry.href)) else results0
  {
    results, current := results0, current0;
    if entry.Marker? {
      if entry.name.Some? {
        current := entry.name.value;
      }
    } else if entry.Link? {
      results := Add(results, current, entry.href);
    }
  }

  /** The walk's state after `ks + [k]` follows from its state after `ks`. */
  lemma WalkStateStep(ks: seq<Entry>, k: Entry, results0: seq<Group<string>>, current0: string,
                      results: seq<Group<string>>, current: string)
    requires current0 == CursorAfter(ks)
    requires results0 == GroupDistinct(MapValues(Links(ks), Canonical))
    requires current == if IsNamedMarker(k) then k.name.value else current0
    requires results == if k.Link? then AppendNew(results0, current0, Canonical(k.href)) else results0
    ensures current == CursorAfter(ks + [k])
    ensures results == GroupDistinct(MapValues(Links(ks + [k]), Canonical))
  {
    WalkStep(ks, k);
    FiledStep(ks, k);
  }

  /** One more entry moves the cursor when it is a named marker, and adds a pair
    * when it carries a link. */
  lemma WalkStep(ks: seq<Entry>, k: Entry)
    ensures CursorAfter(ks + [k]) == if IsNamedMarker(k) then k.name.value else CursorAfter(ks)
    ensures k.Link? ==> Links(ks + [k]) == Links(ks) + [(CursorAfter(ks), k.href)]
    ensures !k.Link? ==> Links(ks + [k]) == Links(ks)
  {
    assert (ks + [k])[..|ks|] == ks;
    assert Links(ks) + [] == Links(ks);
  }

  /** One more entry files its link, when it carries one, under the cursor. */
  lemma FiledStep(ks: seq<Entry>, k: Entry)
    ensures GroupDistinct(MapValues(Links(ks + [k]), Canonical)) ==
      if k.Link? then AppendNew(GroupDistinct(MapValues(Links(ks), Canonical)), CursorAfter(ks), Canonical(k.href))
      else GroupDistinct(MapValues(Links(ks), Canonical))
  {
    WalkStep(ks, k);
    if k.Link? {
      MapValuesSnoc(Links(ks), (CursorAfter(ks), k.href), Canonical);
      GroupDistinctSnoc(MapValues(Links(ks), Canonical), (CursorAfter(ks), Canonical(k.href)));
    }
  }

  /** The walk's `add(collection, href)`: file the canonical link under `collection`
    * unless it is already there. */
  method Add(results: seq<Group<string>>, collection: string, href: string) returns (r: seq<Group<string>>)
    ensures r == AppendNew(results, collection, Canonical(href))
    ensures var u, old_list := Canonical(href), Lookup(results, collection);
      Lookup(r, collection) == if u in old_list then old_list else old_list + [u]
    ensures forall n | n != collection :: Lookup(r, n) == Lookup(results, n)
    ensures Names(r) == if collection in Names(results) then Names(results) else Names(results) + [collection]
    ensures NoDuplicates(Lookup(results, collection)) ==> NoDuplicates(Lookup(r, collection))
  {
    var u := Canonical(href);
    if u in Lookup(results, collection) {
      if collection !in Names(results) {
        LookupMissing(results, collection);
      }
      r := results;
    } else {
      r := Append(results, collection, u);
    }
  }

  // ----- What the walk produces -----

  /** Every pair's link is the canonical form of a link some entry carries, and its
    * collection is the cursor at that entry. */
  lemma {:induction false} LinksFromEntries(ks: seq<Entry>, p: (string, string))
    requires p in Links(ks)
    ensures exists i | 0 <= i < |ks| ::
      && ks[i].Link?
      && p == (CursorAfter(ks[..i]), ks[i].href)
  {
    var n := |ks| - 1;
    var init := ks[..n];
    assert ks == init + [ks[n]];
    WalkStep(init, ks[n]);
    if p in Links(init) {
      LinksFromEntries(init, p);
      var i :| 0 <= i < |init| && init[i].Link? && p == (CursorAfter(init[..i]), init[i].href);
      assert init[..i] == ks[..i] && init[i] == ks[i];
    } else {
      assert ks[..n] == init;
    }
  }

  /** Every link an entry carries is met by the walk, under the cursor at that entry. */
  lemma {:induction false} EntriesGiveLinks(ks: seq<Entry>, i: nat)
    requires i < |ks| && ks[i].Link?
    ensures (CursorAfter(ks[..i]), ks[i].href) in Links(ks)
  {
    var n := |ks| - 1;
    var init := ks[..n];
    assert ks == init + [ks[n]];
    WalkStep(init, ks[n]);
    if i < n {
      EntriesGiveLinks(init, i);
      assert init[..i] == ks[..i] && init[i] == ks[i];
    }
  }

  /** The cursor is `Unsorted` while no marker has named a collection. */
  lemma {:induction false} CursorUnsorted(ks: seq<Entry>)
    requires forall i | 0 <= i < |ks| :: !IsNamedMarker(ks[i])
    ensures CursorAfter(ks) == Unsorted
  {
    if ks != [] {
      CursorUnsorted(ks[..|ks| - 1]);
    }
  }

  /** After a marker names a collection, the cursor is that name until the next
    * marker that names one. */
  lemma {:induction false} CursorIsLastName(ks: seq<Entry>, i: nat)
    requires i < |ks| && IsNamedMarker(ks[i])
    requires forall j | i < j < |ks| :: !IsNamedMarker(ks[j])
    ensures CursorAfter(ks) == ks[i].name.value
  {
    var n := |ks| - 1;
    if i < n {
      CursorIsLastName(ks[..n], i);
    }
  }

  /** The walk files its links as a record of non-empty lists: one per collection
    * that received a link, in the order the collections were first used, each
    * holding the collection's links once each, in the order first seen. */
  lemma SavedCollectionsGroups(data: Json)
    ensures var ps := MapValues(Links(Kinds(EntryList(data))), Canonical);
      var g := GroupDistinct(ps);
      && Names(g) == Distinct(Keys(ps))
      && (forall k :: Lookup(g, k) == Distinct(ValuesFor(ps, k)))
      && UniqueNames(g)
      && (forall i | 0 <= i < |g| :: g[i].items != [] && NoDuplicates(g[i].items))
  {
    var ps := MapValues(Links(Kinds(EntryList(data))), Canonical);
    var g := GroupDistinct(ps);
    GroupDistinctSpec(ps);
    forall i | 0 <= i < |g| ensures NoDuplicates(g[i].items) {
      LookupAt(g, i);
    }
  }

  /** Every filed link is canonical: it ends in `/` and holds no `?`. */
  lemma SavedCollectionsCanonical(data: Json)
    ensures var g := GroupDistinct(MapValues(Links(Kinds(EntryList(data))), Canonical));
      forall i, u | 0 <= i < |g| && u in g[i].items ::
        u != [] && u[|u| - 1] == '/' && '?' !in u
  {
    var ps := MapValues(Links(Kinds(EntryList(data))), Canonical);
    var g := GroupDistinct(ps);
    GroupDistinctSpec(ps);
    forall i, u | 0 <= i < |g| && u in g[i].items
      ensures u != [] && u[|u| - 1] == '/' && '?' !in u
    {
      LookupAt(g, i);
      GroupDistinctLookup(ps, g[i].name);
      ValuesForIn(ps, g[i].name, u);
      CanonicalShape(Links(Kinds(EntryList(data))), (g[i].name, u));
    }
  }

  /** A mapped pair's value is a canonical link. */
  lemma CanonicalShape(raw: seq<(string, string)>, q: (string, string))
    requires q in MapValues(raw, Canonical)
    ensures q.1 != [] && q.1[|q.1| - 1] == '/' && '?' !in q.1
  {
    MapValuesIn(raw, Canonical, q);
  }
}
