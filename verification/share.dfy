/**
 * Sharing a selection of collections: the payload a share link carries
 * (`buildSharePayload`), the check a received payload must pass (`decodeShare`),
 * and the export rebuilt from a received payload (`payloadToParsed`).
 *
 * The payload is compressed into the link by LZString, which is not part of this
 * model: the model starts from the decompressed text and a JSON parser.
 */
module Share {
  import opened Wrappers
  import opened JsonValue
  import opened Seqs
  import opened Assoc
  import opened Export
  import SavedCollections
  import Archive

  /** One shared post. */
  datatype ShareEntry = ShareEntry(title: string, url: string)

  /** A payload of version 1, the only version. Its optional display name is never
    * set by the builder nor read by the receiver, and is left out. */
  datatype SharePayload = SharePayload(collections: seq<Group<ShareEntry>>)

  /** `{ title: it.title, url: it.url }`. */
  function EntryOf(it: Item): ShareEntry {
    ShareEntry(it.title, it.url)
  }

  /** The entries of a list of items, in order. */
  function Entries(items: seq<Item>): (r: seq<ShareEntry>)
    ensures |r| == |items| && forall i | 0 <= i < |items| :: r[i] == EntryOf(items[i])
  {
    seq(|items|, i requires 0 <= i < |items| => EntryOf(items[i]))
  }

  /** The test `selected.has(name)`. */
  function InSet(selected: set<string>): string -> bool {
    n => n in selected
  }

  // ----- buildSharePayload -----

  /** The payload's collections after the loop has visited `names`: each selected
    * name is assigned the entries of the export's list of that name. */
  function Shared(g: seq<Group<Item>>, names: seq<string>, selected: set<string>): seq<Group<ShareEntry>> {
    if names == [] then []
    else
      var r, n := Shared(g, names[..|names| - 1], selected), names[|names| - 1];
      if n in selected then Put(r, n, Entries(Lookup(g, n))) else r
  }

  /** One more visited name. */
  lemma SharedStep(g: seq<Group<Item>>, names: seq<string>, i: nat, selected: set<string>)
    requires i < |names|
    ensures Shared(g, names[..i + 1], selected) ==
      if names[i] in selected then Put(Shared(g, names[..i], selected), names[i], Entries(Lookup(g, names[i])))
      else Shared(g, names[..i], selected)
  {
    assert names[..i + 1][..i] == names[..i];
  }

  /** What `buildSharePayload(parsed, selected)` returns. */
  function PayloadOf(parsed: ParsedExport, selected: set<string>): SharePayload {
    SharePayload(Shared(parsed.collections, Names(parsed.collections), selected))
  }

  /** `buildSharePayload(parsed, selected)`: the selected collections of the export,
    * each as the titles and links of its items. */
  method BuildSharePayload(parsed: ParsedExport, selected: set<string>) returns (p: SharePayload)
    ensures p == PayloadOf(parsed, selected)
  {
    var names := Names(parsed.collections);
    var collections: seq<Group<ShareEntry>> := [];
    var i := 0;
    while i < |names|
      invariant 0 <= i <= |names|
      invariant collections == Shared(parsed.collections, names[..i], selected)
    {
      var name := names[i];
      SharedStep(parsed.collections, names, i, selected);
      if name in selected {
        collections := Put(collections, name, Entries(Lookup(parsed.collections, name)));
      }
      i := i + 1;
    }
    assert names[..i] == names;
    p := SharePayload(collections);
  }

  /** The loop keeps the selected names among those it visits, once each, in the
    * order first visited. */
  lemma {:induction false} SharedNames(g: seq<Group<Item>>, names: seq<string>, selected: set<string>)
    ensures Names(Shared(g, names, selected)) == Distinct(Filter(names, InSet(selected)))
  {
    if names != [] {
      var m := |names| - 1;
      var init, n := names[..m], names[m];
      SharedNames(g, init, selected);
      SharedStep(g, names, m, selected);
      assert names[..m + 1] == names;
      var f := Filter(init, InSet(selected));
      if n in selected {
        FilterSpec(init, InSet(selected), n);
        assert Filter(names, InSet(selected)) == f + [n];
        DistinctSnoc(f, n);
      } else {
        assert Filter(names, InSet(selected)) == f + [] == f;
        assert Shared(g, names, selected) == Shared(g, init, selected);
      }
    }
  }

  /** The loop gives each selected name it visits the entries of that name's list,
    * and nothing to any other name. */
  lemma {:induction false} SharedLookup(g: seq<Group<Item>>, names: seq<string>, selected: set<string>, k: string)
    ensures Lookup(Shared(g, names, selected), k) ==
      if k in names && k in selected then Entries(Lookup(g, k)) else []
  {
    if names != [] {
      var init, n := names[..|names| - 1], names[|names| - 1];
      SharedLookup(g, init, selected, k);
      assert names == init + [n];
      if n in selected {
        PutLookup(Shared(g, init, selected), n, Entries(Lookup(g, n)), k);
      }
    }
  }

  /** The payload holds exactly the export's collections that are selected, in the
    * export's order, once each, each with the titles and links of its items. */
  lemma BuildSharePayloadSpec(parsed: ParsedExport, selected: set<string>)
    ensures var c := PayloadOf(parsed, selected).collections;
      var g := parsed.collections;
      && Names(c) == Distinct(Filter(Names(g), InSet(selected)))
      && UniqueNames(c)
      && (forall k :: k in Names(c) <==> k in Names(g) && k in selected)
      && forall k :: Lookup(c, k) == if k in Names(g) && k in selected then Entries(Lookup(g, k)) else []
  {
    var g := parsed.collections;
    var c := PayloadOf(parsed, selected).collections;
    SharedNames(g, Names(g), selected);
    forall k ensures k in Names(c) <==> k in Names(g) && k in selected {
      FilterSpec(Names(g), InSet(selected), k);
    }
    forall k ensures Lookup(c, k) == if k in Names(g) && k in selected then Entries(Lookup(g, k)) else [] {
      SharedLookup(g, Names(g), selected, k);
    }
    forall i, j | 0 <= i < j < |c| ensures c[i].name != c[j].name {
      assert Names(c)[i] == c[i].name && Names(c)[j] == c[j].name;
    }
  }

  // ----- The payload as JSON -----

  /** `{ "title": …, "url": … }`. */
  function EntryJson(e: ShareEntry): Json {
    JObj([Member("title", JStr(e.title)), Member("url", JStr(e.url))])
  }

  /** The array of a list's entries. */
  function ListJson(es: seq<ShareEntry>): Json {
    JArr(seq(|es|, i requires 0 <= i < |es| => EntryJson(es[i])))
  }

  /** The object of the payload's collections. */
  function CollectionsJson(g: seq<Group<ShareEntry>>): seq<Member> {
    seq(|g|, i requires 0 <= i < |g| => Member(g[i].name, ListJson(g[i].items)))
  }

  /** The JSON value `JSON.stringify` writes for a payload: `v` first, then the
    * collections. */
  function PayloadJson(p: SharePayload): Json {
    JObj([Member("v", JNum(1.0)), Member("collections", JObj(CollectionsJson(p.collections)))])
  }

  /** The entry an array element stands for, when it has a string title and link. */
  function EntryFromJson(x: Json): Option<ShareEntry> {
    var t, u := GetString(Some(x), "title"), GetString(Some(x), "url");
    if t.Some? && u.Some? then Some(ShareEntry(t.value, u.value)) else None
  }

  /** The entries an array stands for, when every element is one. */
  function ListFromJson(xs: seq<Json>): Option<seq<ShareEntry>> {
    if xs == [] then Some([])
    else
      match (EntryFromJson(xs[0]), ListFromJson(xs[1..]))
      case (Some(e), Some(es)) => Some([e] + es)
      case _ => None
  }

  /** The collections an object stands for, when every member is an array of entries. */
  function GroupsFromJson(ms: seq<Member>): Option<seq<Group<ShareEntry>>> {
    if ms == [] then Some([])
    else
      var m := ms[0];
      match (if m.value.JArr? then ListFromJson(m.value.elems) else None, GroupsFromJson(ms[1..]))
      case (Some(es), Some(gs)) => Some([Group(m.key, es)] + gs)
      case _ => None
  }

  /** The payload a value that passes the receiver's check stands for, when it has
    * the payload's shape (the source trusts that it has). */
  function PayloadFromJson(x: Json): Option<SharePayload> {
    if !AcceptsPayload(x) then None
    else
      match Get(Some(x), "collections")
      case Some(JObj(ms)) =>
        (match GroupsFromJson(ms)
         case Some(gs) => Some(SharePayload(gs))
         case None => None)
      case _ => None
  }

  // ----- decodeShare -----

  /** `payload && payload.v === 1 && payload.collections`. */
  predicate AcceptsPayload(x: Json) {
    var v, c := Get(Some(x), "v"), Get(Some(x), "collections");
    Truthy(x) && v == Some(JNum(1.0)) && c.Some? && Truthy(c.value)
  }

  /** How `decodeShare` ends: it returns `null`, it returns the parsed value, or
    * `JSON.parse` throws, which nothing around the call catches. */
  datatype Decoded = Null | Accepted(value: Json) | Throws

  /** `decodeShare(data)`, from the decompressed text (`None` when there is none) and
    * the JSON parser (`None` when the text is not JSON): `null` for missing or empty
    * text, a throw when the text is not JSON, the parsed value when it passes the
    * check, and `null` otherwise. */
  function DecodeShare(json: Option<string>, parse: string -> Option<Json>): (r: Decoded)
    ensures r.Throws? <==> json.Some? && json.value != [] && parse(json.value).None?
    ensures r.Accepted? <==>
      json.Some? && json.value != [] && parse(json.value).Some? && AcceptsPayload(parse(json.value).value)
    ensures r.Accepted? ==> Some(r.value) == parse(json.value)
    ensures r.Accepted? ==> r.value.JObj? && Get(Some(r.value), "v") == Some(JNum(1.0))
  {
    if json.None? || json.value == [] then Null
    else
      match parse(json.value)
      case None => Throws
      case Some(payload) => if !AcceptsPayload(payload) then Null else Accepted(payload)
  }

  lemma EntryJsonRoundTrip(e: ShareEntry)
    ensures EntryFromJson(EntryJson(e)) == Some(e)
  {
    var ms := EntryJson(e).members;
    assert Field(ms, "title") == Some(JStr(e.title));
    assert ms[1..] == [Member("url", JStr(e.url))];
    assert Field(ms, "url") == Some(JStr(e.url));
  }

  lemma {:induction false} ListJsonRoundTrip(es: seq<ShareEntry>)
    ensures ListFromJson(ListJson(es).elems) == Some(es)
  {
    if es != [] {
      ListJsonRoundTrip(es[1..]);
      EntryJsonRoundTrip(es[0]);
      assert ListJson(es).elems[1..] == ListJson(es[1..]).elems;
      assert es == [es[0]] + es[1..];
    }
  }

  lemma {:induction false} CollectionsJsonRoundTrip(g: seq<Group<ShareEntry>>)
    ensures GroupsFromJson(CollectionsJson(g)) == Some(g)
  {
    if g != [] {
      CollectionsJsonRoundTrip(g[1..]);
      ListJsonRoundTrip(g[0].items);
      assert CollectionsJson(g)[1..] == CollectionsJson(g[1..]);
      assert g == [Group(g[0].name, g[0].items)] + g[1..];
    }
  }

  /** Every payload, written as JSON, passes the receiver's check and reads back as
    * itself. */
  lemma PayloadJsonRoundTrip(p: SharePayload)
    ensures AcceptsPayload(PayloadJson(p))
    ensures PayloadFromJson(PayloadJson(p)) == Some(p)
  {
    var ms := CollectionsJson(p.collections);
    var members := PayloadJson(p).members;
    assert "v" != "collections" by { assert |"v"| != |"collections"|; }
    assert members[1..] == [Member("collections", JObj(ms))];
    assert Field(members[1..], "collections") == Some(JObj(ms));
    assert Field(members, "collections") == Field(members[1..], "collections");
    assert Get(Some(PayloadJson(p)), "collections") == Some(JObj(ms));
    CollectionsJsonRoundTrip(p.collections);
  }

  /** A link whose text decompresses and parses back to the payload it was built
    * from is accepted, and stands for that payload. */
  lemma SharedLinkAccepted(text: string, parse: string -> Option<Json>, p: SharePayload)
    requires text != [] && parse(text) == Some(PayloadJson(p))
    ensures DecodeShare(Some(text), parse) == Accepted(PayloadJson(p))
    ensures PayloadFromJson(DecodeShare(Some(text), parse).value) == Some(p)
  {
    PayloadJsonRoundTrip(p);
  }

  // ----- payloadToParsed -----

  /** The item a received entry becomes in collection `c`: its title, or its link
    * when the title is empty (`x.title || x.url`). The source also gives it a random
    * `id`, which is left out. */
  function ItemOf(c: string, e: ShareEntry): Item {
    Item(c, if e.title == [] then e.url else e.title, e.url)
  }

  /** The items a received list becomes in collection `c`, in order. */
  function ItemsOf(c: string, es: seq<ShareEntry>): (r: seq<Item>)
    ensures |r| == |es| && forall i | 0 <= i < |es| :: r[i] == ItemOf(c, es[i])
  {
    seq(|es|, i requires 0 <= i < |es| => ItemOf(c, es[i]))
  }

  /** The rebuilt collections after the loop has visited `g`: each name is assigned
    * the items of its list. */
  function ReceivedCollections(g: seq<Group<ShareEntry>>): seq<Group<Item>> {
    if g == [] then []
    else
      var x := g[|g| - 1];
      Put(ReceivedCollections(g[..|g| - 1]), x.name, ItemsOf(x.name, x.items))
  }

  /** The items pushed while visiting `g`, in order. */
  function ReceivedItems(g: seq<Group<ShareEntry>>): seq<Item> {
    if g == [] then []
    else
      var x := g[|g| - 1];
      ReceivedItems(g[..|g| - 1]) + ItemsOf(x.name, x.items)
  }

  /** What `payloadToParsed(payload)` returns. */
  function ReceivedExport(p: SharePayload): ParsedExport {
    ParsedExport(ReceivedCollections(p.collections), ReceivedItems(p.collections), [])
  }

  /** `payloadToParsed(payload)`: every received list becomes the items of its
    * collection, each also pushed onto the list of all items; no warnings. */
  method PayloadToParsed(payload: SharePayload) returns (r: ParsedExport)
    ensures r == ReceivedExport(payload)
  {
    var groups := payload.collections;
    var collections: seq<Group<Item>> := [];
    var allItems: seq<Item> := [];
    var i := 0;
    while i < |groups|
      invariant 0 <= i <= |groups|
      invariant collections == ReceivedCollections(groups[..i])
      invariant allItems == ReceivedItems(groups[..i])
    {
      var cName, list := groups[i].name, groups[i].items;
      var mapped: seq<Item> := [];
      var j := 0;
      while j < |list|
        invariant 0 <= j <= |list|
        invariant mapped == ItemsOf(cName, list[..j])
        invariant allItems == ReceivedItems(groups[..i]) + mapped
      {
        var x := list[j];
        var it := Item(cName, if x.title == [] then x.url else x.title, x.url);
        ItemsOfStep(cName, list, j);
        allItems := allItems + [it];
        mapped := mapped + [it];
        j := j + 1;
      }
      assert list[..j] == list;
      TakeSnoc(groups, i);
      ReceivedSnoc(groups[..i], groups[i]);
      collections := Put(collections, cName, mapped);
      i := i + 1;
    }
    assert groups[..i] == groups;
    r := ParsedExport(collections, allItems, []);
  }

  lemma ItemsOfStep(c: string, es: seq<ShareEntry>, j: nat)
    requires j < |es|
    ensures ItemsOf(c, es[..j + 1]) == ItemsOf(c, es[..j]) + [ItemOf(c, es[j])]
  {
    assert ItemsOf(c, es[..j + 1])[j] == ItemOf(c, es[j]);
  }

  /** Receiving one more list assigns its items to its name. */
  lemma ReceivedSnoc(g: seq<Group<ShareEntry>>, x: Group<ShareEntry>)
    ensures ReceivedCollections(g + [x]) == Put(ReceivedCollections(g), x.name, ItemsOf(x.name, x.items))
    ensures ReceivedItems(g + [x]) == ReceivedItems(g) + ItemsOf(x.name, x.items)
  {
    assert (g + [x])[..|g|] == g;
  }

  /** Rebuilding keeps every received name once, in the order first received. */
  lemma {:induction false} ReceivedNames(g: seq<Group<ShareEntry>>)
    ensures Names(ReceivedCollections(g)) == Distinct(Names(g))
  {
    if g != [] {
      var n := |g| - 1;
      ReceivedNames(g[..n]);
      SplitLast(g);
      ReceivedSnoc(g[..n], g[n]);
      NamesSnoc(g[..n], g[n]);
      DistinctSnoc(Names(g[..n]), g[n].name);
    }
  }

  /** Every rebuilt item carries the collection it is filed under, the received
    * link, and a non-empty title when its link is non-empty. */
  lemma {:induction false} ReceivedItemShape(g: seq<Group<ShareEntry>>, k: string, it: Item)
    requires it in Lookup(ReceivedCollections(g), k)
    ensures it.collection == k && (it.url != [] ==> it.title != [])
  {
    var n := |g| - 1;
    PutLookup(ReceivedCollections(g[..n]), g[n].name, ItemsOf(g[n].name, g[n].items), k);
    if k != g[n].name {
      ReceivedItemShape(g[..n], k, it);
    }
  }

  /** In a payload whose names are distinct, each received name holds the items
    * made of its entries, in order. */
  lemma {:induction false} ReceivedLookup(g: seq<Group<ShareEntry>>, k: string)
    requires UniqueNames(g)
    ensures Lookup(ReceivedCollections(g), k) == ItemsOf(k, Lookup(g, k))
  {
    if g != [] {
      var n := |g| - 1;
      var init, x := g[..n], g[n];
      UniqueNamesInit(g);
      ReceivedLookup(init, k);
      SplitLast(g);
      ReceivedSnoc(init, x);
      PutLookup(ReceivedCollections(init), x.name, ItemsOf(x.name, x.items), k);
      LookupSnocNew(init, x, k);
    }
  }

  /** In a payload whose names are distinct, the pushed items are the received
    * collections' items one collection after another. */
  lemma {:induction false} ReceivedItemsFlatten(g: seq<Group<ShareEntry>>)
    requires UniqueNames(g)
    ensures ReceivedItems(g) == Flatten(ReceivedCollections(g))
  {
    if g != [] {
      var n := |g| - 1;
      var init, x := g[..n], g[n];
      var y := Group(x.name, ItemsOf(x.name, x.items));
      UniqueNamesInit(g);
      ReceivedItemsFlatten(init);
      ReceivedNames(init);
      SplitLast(g);
      ReceivedSnoc(init, x);
      PutNew(ReceivedCollections(init), x.name, y.items);
      FlattenSnoc(ReceivedCollections(init), y);
    }
  }

  // ----- Sharing and receiving -----

  /** An export's list that survives sharing unchanged: every item carries the
    * list's name as its collection and has a non-empty title. */
  predicate Reshareable(x: Group<Item>) {
    forall it | it in x.items :: it.collection == x.name && it.title != []
  }

  /** The test `selected.has(c.name)` on a list. */
  function NameIn(selected: set<string>): Group<Item> -> bool {
    (x: Group<Item>) => x.name in selected
  }

  /** The lists of an export as shared entries. */
  function EntryGroups(h: seq<Group<Item>>): (r: seq<Group<ShareEntry>>)
    ensures |r| == |h| && forall i | 0 <= i < |h| :: r[i] == Group(h[i].name, Entries(h[i].items))
  {
    seq(|h|, i requires 0 <= i < |h| => Group(h[i].name, Entries(h[i].items)))
  }

  /** For a record, the loop over its first `i` names shares exactly the selected
    * lists among its first `i` lists. */
  lemma {:induction false} SharedPrefix(g: seq<Group<Item>>, i: nat, selected: set<string>)
    requires UniqueNames(g) && i <= |g|
    ensures Shared(g, Names(g)[..i], selected) == EntryGroups(Filter(g[..i], NameIn(selected)))
  {
    if i > 0 {
      var k := i - 1;
      SharedPrefix(g, k, selected);
      assert Names(g)[..i][..k] == Names(g)[..k];
      assert g[..i][..k] == g[..k];
      var f := Filter(g[..k], NameIn(selected));
      if g[k].name in selected {
        LookupAt(g, k);
        SharedNameFresh(g, k, selected);
        PutNew(EntryGroups(f), g[k].name, Entries(g[k].items));
        assert Filter(g[..i], NameIn(selected)) == f + [g[k]];
      } else {
        assert Filter(g[..i], NameIn(selected)) == f + [];
      }
    }
  }

  /** In a record, the lists selected before position `k` do not use the name of
    * list `k`. */
  lemma SharedNameFresh(g: seq<Group<Item>>, k: nat, selected: set<string>)
    requires UniqueNames(g) && k < |g|
    ensures g[k].name !in Names(EntryGroups(Filter(g[..k], NameIn(selected))))
  {
    var f := Filter(g[..k], NameIn(selected));
    forall m | 0 <= m < |f| ensures f[m].name != g[k].name {
      FilterSpec(g[..k], NameIn(selected), f[m]);
      var q :| 0 <= q < k && g[..k][q] == f[m];
    }
  }

  /** The items a reshareable list's entries become are its items. */
  lemma ItemsOfEntries(x: Group<Item>)
    requires Reshareable(x)
    ensures ItemsOf(x.name, Entries(x.items)) == x.items
  {
    forall i | 0 <= i < |x.items| ensures ItemOf(x.name, EntryOf(x.items[i])) == x.items[i] {
      assert x.items[i] in x.items;
    }
  }

  /** Receiving the shared lists of a record that are all reshareable rebuilds the
    * record. */
  lemma {:induction false} ReceiveSharedCollections(h: seq<Group<Item>>)
    requires UniqueNames(h) && forall i | 0 <= i < |h| :: Reshareable(h[i])
    ensures ReceivedCollections(EntryGroups(h)) == h
  {
    if h != [] {
      var n := |h| - 1;
      UniqueNamesInit(h);
      ReceiveSharedCollections(h[..n]);
      ReceiveSharedLast(h);
    }
  }

  /** The step of `ReceiveSharedCollections`: once the lists before the last are
    * rebuilt, receiving the last one appends it. */
  lemma ReceiveSharedLast(h: seq<Group<Item>>)
    requires h != [] && Reshareable(h[|h| - 1])
    requires h[|h| - 1].name !in Names(h[..|h| - 1])
    requires ReceivedCollections(EntryGroups(h[..|h| - 1])) == h[..|h| - 1]
    ensures ReceivedCollections(EntryGroups(h)) == h
  {
    var n := |h| - 1;
    var init, x := h[..n], h[n];
    ReceivedEntriesSnoc(h);
    ItemsOfEntries(x);
    PutNew(init, x.name, x.items);
    SplitLast(h);
  }

  /** Receiving the entries of one more list assigns that list's items to its name. */
  lemma ReceivedEntriesSnoc(h: seq<Group<Item>>)
    requires h != []
    ensures var x := h[|h| - 1];
      ReceivedCollections(EntryGroups(h)) ==
        Put(ReceivedCollections(EntryGroups(h[..|h| - 1])), x.name, ItemsOf(x.name, Entries(x.items)))
  {
    var x := h[|h| - 1];
    EntryGroupsSnoc(h);
    ReceivedSnoc(EntryGroups(h[..|h| - 1]), Group(x.name, Entries(x.items)));
  }

  /** The shared entries of one more list come last. */
  lemma EntryGroupsSnoc(h: seq<Group<Item>>)
    requires h != []
    ensures EntryGroups(h) == EntryGroups(h[..|h| - 1]) + [Group(h[|h| - 1].name, Entries(h[|h| - 1].items))]
  {
  }

  /** Receiving such lists pushes their items one list after another. */
  lemma {:induction false} ReceiveSharedItems(h: seq<Group<Item>>)
    requires forall i | 0 <= i < |h| :: Reshareable(h[i])
    ensures ReceivedItems(EntryGroups(h)) == Flatten(h)
  {
    if h != [] {
      var n := |h| - 1;
      var init, x := h[..n], h[n];
      assert EntryGroups(h)[..n] == EntryGroups(init);
      ReceiveSharedItems(init);
      ItemsOfEntries(x);
      assert h == init + [x];
      FlattenSnoc(init, x);
    }
  }

  /** Sharing a selection of an export whose lists are all reshareable and
    * receiving it gives back exactly the selected lists, in the export's order,
    * their items one after another, and no warnings. */
  lemma ShareRoundTrip(parsed: ParsedExport, selected: set<string>)
    requires UniqueNames(parsed.collections)
    requires forall i | 0 <= i < |parsed.collections| :: Reshareable(parsed.collections[i])
    ensures var r := ReceivedExport(PayloadOf(parsed, selected));
      var kept := Filter(parsed.collections, NameIn(selected));
      && r.collections == kept
      && r.allItems == Flatten(kept)
      && r.warnings == []
  {
    var g := parsed.collections;
    var kept := Filter(g, NameIn(selected));
    SharedPrefix(g, |g|, selected);
    assert Names(g)[..|g|] == Names(g) && g[..|g|] == g;
    UniqueNamesFilter(g, NameIn(selected));
    forall i | 0 <= i < |kept| ensures Reshareable(kept[i]) {
      FilterSpec(g, NameIn(selected), kept[i]);
    }
    ReceiveSharedCollections(kept);
    ReceiveSharedItems(kept);
  }

  /** Sharing every list of such an export and receiving it gives back the export's
    * collections and items unchanged. */
  lemma ShareAllRoundTrip(parsed: ParsedExport, selected: set<string>)
    requires UniqueNames(parsed.collections)
    requires forall i | 0 <= i < |parsed.collections| :: Reshareable(parsed.collections[i])
    requires forall k | k in Names(parsed.collections) :: k in selected
    ensures var r := ReceivedExport(PayloadOf(parsed, selected));
      r.collections == parsed.collections && r.allItems == Flatten(parsed.collections)
  {
    var g := parsed.collections;
    ShareRoundTrip(parsed, selected);
    forall i | 0 <= i < |g| ensures NameIn(selected)(g[i]) {
      assert Names(g)[i] == g[i].name;
    }
    FilterKeepsAll(g, NameIn(selected));
  }

  /** Every export the archive reader makes can be shared: each list name appears
    * once, and every item carries its list's name and a non-empty title. */
  lemma ParsedExportReshareable(zip: seq<Archive.ZipEntry>)
    ensures var cols := Archive.ParseExport(zip).collections;
      UniqueNames(cols) && forall i | 0 <= i < |cols| :: Reshareable(cols[i])
  {
    var names := Archive.JsonNames(zip);
    if names != [] {
      if Archive.UsesSchema(zip) {
        SchemaReshareable(zip);
      } else {
        FallbackReshareable(zip, names, Archive.EarlyWarnings(zip, names));
      }
    }
  }

  /** On the saved-collections path every item is a link filed under its list,
    * with the link as title. */
  lemma SchemaReshareable(zip: seq<Archive.ZipEntry>)
    requires Archive.UsesSchema(zip)
    ensures var cols := Archive.ParseExport(zip).collections;
      UniqueNames(cols) && forall i | 0 <= i < |cols| :: Reshareable(cols[i])
  {
    var data := Archive.Read(zip, Archive.SavedPath(Archive.JsonNames(zip)).value).value;
    var m := SavedCollections.SavedGroups(data);
    assert Archive.ParseExport(zip) == Archive.SchemaExport(m);
    SavedCollections.SavedCollectionsGroups(data);
    SavedCollections.SavedCollectionsCanonical(data);
    RecordReshareable(m);
  }

  /** The lists built from a record of non-empty lists of non-empty links under
    * distinct names can be shared. */
  lemma RecordReshareable(m: seq<Group<string>>)
    requires UniqueNames(m) && forall i | 0 <= i < |m| :: m[i].items != []
    requires forall i, u | 0 <= i < |m| && u in m[i].items :: u != []
    ensures var cols := Archive.SchemaExport(m).collections;
      UniqueNames(cols) && forall i | 0 <= i < |cols| :: Reshareable(cols[i])
  {
    var cols := Archive.SchemaExport(m).collections;
    Archive.SchemaExportLists(m);
    forall i | 0 <= i < |cols| ensures Reshareable(cols[i]) {
      var c := cols[i].name;
      if c !in Names(m) {
        LookupMissing(m, c);
      }
      var k :| 0 <= k < |m| && Names(m)[k] == c;
      LookupAt(m, k);
      LinkItemsReshareable(c, Lookup(m, c), cols[i].items);
    }
  }

  /** A list holding one item per non-empty link, titled with the link, can be shared. */
  lemma LinkItemsReshareable(c: string, urls: seq<string>, items: seq<Item>)
    requires |items| == |urls| && forall j | 0 <= j < |urls| :: items[j] == Item(c, urls[j], urls[j])
    requires forall u | u in urls :: u != []
    ensures Reshareable(Group(c, items))
  {
    forall it | it in items ensures it.collection == c && it.title != [] {
      var j :| 0 <= j < |items| && items[j] == it;
      assert urls[j] in urls;
    }
  }

  /** On the fallback path every kept item was scanned, so it names its list and
    * has a title. */
  lemma FallbackReshareable(zip: seq<Archive.ZipEntry>, names: seq<string>, warnings0: seq<Warning>)
    ensures var cols := Archive.FallbackExport(zip, names, warnings0).collections;
      UniqueNames(cols) && forall i | 0 <= i < |cols| :: Reshareable(cols[i])
  {
    var r := Archive.FallbackExport(zip, names, warnings0);
    var cols := r.collections;
    Archive.FallbackRecord(zip, names, warnings0);
    Archive.FallbackItems(zip, names, warnings0);
    forall i | 0 <= i < |cols| ensures Reshareable(cols[i]) {
      LookupAt(cols, i);
      forall it | it in cols[i].items ensures it.collection == cols[i].name && it.title != [] {
        Archive.FallbackFiling(zip, names, warnings0, cols[i].name, it);
        Archive.ScannedItemsShape(zip, Archive.Prioritized(names), it);
      }
    }
  }

  /** Sharing a selection of any export the archive reader makes and receiving it
    * gives back exactly the selected lists, their items and no warnings. */
  lemma ParsedShareRoundTrip(zip: seq<Archive.ZipEntry>, selected: set<string>)
    ensures var parsed := Archive.ParseExport(zip);
      var r := ReceivedExport(PayloadOf(parsed, selected));
      var kept := Filter(parsed.collections, NameIn(selected));
      && r.collections == kept
      && r.allItems == Flatten(kept)
      && r.warnings == []
  {
    ParsedExportReshareable(zip);
    ShareRoundTrip(Archive.ParseExport(zip), selected);
  }
}
