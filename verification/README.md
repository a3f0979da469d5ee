# igviewer export parser and share links, in Dafny

igviewer is a web page that reads the ZIP archive Instagram gives you when you
export your account data. It lists the posts you saved, collection by collection.
You can also pass a selection of collections to someone else as a link that
carries the selection compressed into its URL.

This project models the part of the page that does the work, `app/page.tsx`
lines 417–699. It covers:

- **The archive parser** (`parseInstagramExportZip`, module `Archive`). It picks the
  archive's JSON files. It then tries the saved-collections file: the first name
  ending in `saved_collections.json`, or else the first name that mentions
  `saved_collections`. If that file can be read and some collection is recognised
  in it, the result is that file's collections, sorted by name, with every link
  as an item. Otherwise the parser falls back to a schema-free scan of every JSON
  file:
  - files whose names hint at saved posts come first;
  - every link is kept once, with the first item found for it;
  - items are filed by collection;
  - every collection is sorted by title.

  Each degraded path leaves a warning. The archive is a list of
  `ZipEntry(name, content)` records. `content` is the file's parsed JSON value, or
  `None` when the file cannot be read or is not valid JSON.
- **The saved-collections reader** (`parseSavedCollectionsJson`, module
  `SavedCollections`). It walks the file's entries with a "current collection"
  cursor. A marker entry (title `collection`) moves the cursor. Every other entry
  that links to `instagram.com/` is filed, in canonical form, under the cursor,
  once per collection.
- **The schema-free reader** (`extractItemsFromUnknownJson`, module `GenericScan`).
  It gathers every object of a JSON value in depth-first pre-order. From each
  object it takes the strings among its member values and in the arrays among
  them. Every string holding a post link becomes an item. The item's collection
  and title come from the object's alias keys; failing those, the collection is
  `Unsorted` and the title is the file name plus the link.
- **The field helpers** `pickString` and `cleanTitle` (module `Fields`).
- **The link helpers** (module `IgUrl`):
  - `normalizeIg` (trim, drop the query, end in `/`);
  - `coerceIgUrl` (make root-relative and bare post paths absolute);
  - `extractFirstIgUrl` (leftmost post link in a string);
  - `parseIg` (post type and code of a link).
- **Share links** (module `Share`):
  - `buildSharePayload` (the selected collections as titles and links);
  - the JSON text of a payload and the receiver's acceptance check in
    `decodeShare`, which gives `null`, the accepted value, or the parser's
    exception;
  - `payloadToParsed` (the received payload as an export).

Where the source changes state step by step, the model does too. The loops of the
parser, of the two readers, of the scan and of the share functions are methods
with `while` loops. Each is proved equal to a specification function. The
properties the page relies on are lemmas about those functions:

- Each collection name is used once.
- Every link is canonical.
- Every link is kept once, as its first item.
- Every item sits in its own collection and in no other.
- Lists are sorted.
- Warnings appear exactly on the degraded paths.
- A payload's JSON reads back as itself.
- Sharing an export and receiving it gives the shared collections back.

Supporting modules:

- `Wrappers`: `Option`.
- `Json`: the JSON value, objects with their members in order.
- `Text`: ECMAScript white space, trimming, ASCII case folding, splitting.
- `Seqs`: filters, first matches, distinct, insertion sort by a key.
- `Assoc`: records as ordered lists of named lists, `Group(name, items)`. A JS
  object keyed by collection name becomes such a list, with its names kept in
  insertion order.
- `Export`: the parser's result type and its warnings.

## Model

| member | source | states |
|---|---|---|
| Archive.ParseInstagramExportZip | app/page.tsx:417-507 | The parser's result is `ParseExport(zip)`: no JSON files gives the empty result with one warning; a readable saved-collections file with a recognised collection gives that file's export; anything else gives the fallback scan after the early warnings |
| Archive.JsonNamesSpec | app/page.tsx:420 | A name is scanned exactly when it is an archive entry whose name ends in `.json`, ignoring case |
| Archive.NoJsonFilesResult | app/page.tsx:421 | Without JSON files the result is empty with the single "no .json files" warning, and that warning appears in no other case |
| Archive.SavedPathSpec | app/page.tsx:423-424 | The saved-collections file is the first name ending in `saved_collections.json`, else the first mentioning `saved_collections` (ignoring case), else there is none |
| Archive.BuildSchemaExport | app/page.tsx:438-455 | The loop over the sorted names builds `SchemaExport(m)`: one list of items per name, and every item also in `allItems` |
| Archive.SchemaCollectionsSpec | app/page.tsx:441-453 | The built collections carry the given names in order, each holding one item per link of its list, with the link as title and as url |
| Archive.SchemaPathSpec | app/page.tsx:426-456 | On the saved-collections path the result depends only on the saved-collections record: its names in sorted order, `allItems` the collections' items one after another, and no warning |
| Archive.SchemaPathLists | app/page.tsx:438-455 | On that path each collection name appears once, and each collection is non-empty and holds one item per link of its record list, in order |
| Archive.SchemaExportLists | app/page.tsx:441-453 | A record of non-empty lists under distinct names gives collections that use each name once and hold one item per link |
| Archive.FallbackWarnings | app/page.tsx:426-463 | When the saved-collections path is not taken, the fallback runs after exactly one warning when a saved-collections file exists (unreadable, or nothing recognised) and none when there is no such file |
| Archive.PrioritizedSpec | app/page.tsx:468-471 | The scan order is a permutation of the JSON names; every hinted name comes before every other; each kind keeps its original order |
| Archive.ScanFiles | app/page.tsx:473-485 | The scan loop collects the items of every readable file in scan order, and `hitCount` equals their number |
| Archive.ReadFileItems | app/page.tsx:476-484 | A file contributes the schema-free reader's items when it can be read and parsed, and nothing otherwise |
| Archive.ScannedItemsEmpty | app/page.tsx:473-487 | The scan finds nothing exactly when no file yields an item |
| Archive.PrioritizedScanEmpty | app/page.tsx:468-487 | Scanning in priority order finds nothing exactly when no JSON file yields an item |
| Archive.NoPostLinksWarning | app/page.tsx:487 | The "no post links" warning is given exactly when the fallback runs and no JSON file yields an item |
| Archive.ScannedItemsShape | app/page.tsx:473-485 | Every scanned item has a non-empty collection, a canonical link, and a non-empty tidy title of at most 141 characters |
| Archive.KeepFirstPerUrl | app/page.tsx:489-495 | The `seen` loop returns `FirstPerUrl(items)` |
| Archive.UrlsSnoc | app/page.tsx:492-493 | Adding an item adds its link to the set of links seen |
| Archive.FirstPerUrlSpec | app/page.tsx:489-495 | After deduplication every link appears once, only scanned items are kept, and no link is lost |
| Archive.FirstPerUrlFirst | app/page.tsx:489-495 | The item kept for a link is the first scanned item with that link |
| Archive.GroupByCollection | app/page.tsx:497-502 | The filing loop pushes every item, in order, onto the list of its collection (`Unsorted` when it names none) |
| Archive.ByCollectionSpec | app/page.tsx:499 | An item is paired with exactly its own collection, or `Unsorted` when that is empty |
| Archive.SortEachByTitle | app/page.tsx:504 | The sort loop replaces every list by that list sorted by title and keeps the names |
| Archive.SortedGroupsSpec | app/page.tsx:504 | Sorting keeps the names and replaces the list under each name by that list sorted by title |
| Archive.FilingShape | app/page.tsx:497-504 | Filing and sorting make one non-empty list per collection, in order of first use, each sorted by title |
| Archive.FilingCounts | app/page.tsx:497-504 | A collection's list holds each of its items exactly as often as the kept items do |
| Archive.FilingMember | app/page.tsx:497-504 | Every item sits in the list of its own collection and in no other |
| Archive.ScanFallback | app/page.tsx:465-506 | The fallback returns `FallbackExport`: the filed and sorted kept items, the kept items as `allItems`, and the warnings so far plus "no post links" when the scan found nothing |
| Archive.FallbackItems | app/page.tsx:489-506 | The fallback's `allItems` holds every scanned link once, with the first item found for it |
| Archive.FallbackFiling | app/page.tsx:497-506 | The fallback files every kept item in the list of its own collection and in no other |
| Archive.FallbackRecord | app/page.tsx:497-506 | The fallback's collection names are distinct |
| Archive.FallbackSorted | app/page.tsx:497-506 | Every fallback list is non-empty and sorted by title |
| Archive.MultisetUnique | app/page.tsx:504 | A permutation of a list without repeats has no repeats either |
| SavedCollections.EntryList | app/page.tsx:510-514 | The entries are `saved_saved_collections` when that is an array, else the value itself when it is an array, else none |
| SavedCollections.ClassifySpec | app/page.tsx:528-537 | An entry is a marker exactly when it is an object whose title is "collection" (any case); a marker carries its trimmed name when that is a non-blank string; any other object carries its `href` exactly when that is a string mentioning `instagram.com/` |
| SavedCollections.ParseSavedCollectionsJson | app/page.tsx:509-542 | The walk returns the distinct-grouping of the canonical `(cursor, link)` pairs it meets |
| SavedCollections.Add | app/page.tsx:519-525 | After `add`, the collection's list is its old list, extended by the canonical link when that link was not in it; every other collection's list is unchanged; the names gain the collection when it is new; a list without repeats stays without repeats |
| SavedCollections.WalkStep | app/page.tsx:527-538 | A named marker moves the cursor; a link entry adds one pair under the cursor; anything else changes nothing |
| SavedCollections.FiledStep | app/page.tsx:527-538 | One more entry files its canonical link under the cursor, when it has one and the link is new there |
| SavedCollections.LinksFromEntries | app/page.tsx:527-538 | Every pair the walk meets comes from a link entry, under the cursor in force at that entry |
| SavedCollections.EntriesGiveLinks | app/page.tsx:527-538 | Every link entry gives a pair under the cursor in force at it |
| SavedCollections.CursorUnsorted | app/page.tsx:517 | The cursor is `Unsorted` while no marker has named a collection |
| SavedCollections.CursorIsLastName | app/page.tsx:530-534 | After a named marker the cursor is its name until the next named marker |
| SavedCollections.SavedCollectionsGroups | app/page.tsx:516-541 | The result names each used collection once, in order of first use; each list is non-empty and holds that collection's canonical links once each, in order of first appearance |
| SavedCollections.SavedCollectionsCanonical | app/page.tsx:521 | Every filed link is non-empty, ends in `/` and holds no `?` |
| SavedCollections.CanonicalShape | app/page.tsx:521 | A canonicalised pair's link ends in `/` and holds no `?` |
| GenericScan.Children | app/page.tsx:551-557 | `visit` descends into an array's elements or an object's member values, in order, and into nothing else |
| GenericScan.Visit | app/page.tsx:548-559 | `visit` appends the object nodes of its argument, in depth-first pre-order, to those gathered so far |
| GenericScan.VisitChildren | app/page.tsx:551-557 | The loop over the children appends the nodes of every child, one child after another |
| GenericScan.ChildNodesStep | app/page.tsx:551-557 | One more child appends its nodes |
| GenericScan.ObjectNodesWithin | app/page.tsx:548-559 | Every gathered node is an object: the value itself or a part of it |
| GenericScan.ObjectNodesReach | app/page.tsx:548-559 | An object is its own first node, and every child's nodes are among its parent's, so every object reached through arrays and member values is gathered |
| GenericScan.CandidateStrings | app/page.tsx:563-567 | The loop over `Object.values(obj)` collects `Candidates` of the member values |
| GenericScan.StringsInSpec | app/page.tsx:565-566 | A member value offers exactly itself when it is a string, and its string elements when it is an array |
| GenericScan.CandidatesSpec | app/page.tsx:563-567 | A string is a candidate exactly when some member value is that string or an array holding it |
| GenericScan.StringElemsSpec | app/page.tsx:566 | An array contributes exactly its string elements |
| GenericScan.ItemForSpec | app/page.tsx:569-581 | A candidate yields an item exactly when it holds a post link; the item's link is the canonical form of the leftmost link, its collection the first usable collection alias or `Unsorted`, its title the cleaned first usable title alias or else the file name and link, never empty |
| GenericScan.ExtractItemsFromUnknownJson | app/page.tsx:544-586 | The reader returns `ExtractItems`: the items of the nodes gathered by `visit`, node after node |
| GenericScan.ScanNodes | app/page.tsx:562-583 | The outer loop appends every node's items, in node order |
| GenericScan.PushNodeItems | app/page.tsx:569-582 | The inner loop appends one item per candidate string that yields one, in order |
| GenericScan.NodeItemsCount | app/page.tsx:569-582 | A node gives as many items as it has candidate strings that yield one |
| GenericScan.ItemsOfNodesFrom | app/page.tsx:562-583 | Every extracted item is made from a candidate string of some node |
| GenericScan.ItemsOfNodesTo | app/page.tsx:562-583 | Every item of a node is among the extracted items |
| GenericScan.ExtractedItemsShape | app/page.tsx:573-580 | Every extracted item has a canonical link, a non-empty collection and a non-empty tidy title of at most 141 characters |
| GenericScan.TitleNotBlank | app/page.tsx:576 | The text a title is cleaned from is never blank: a usable title alias is trimmed and non-empty, and the fallback holds `:` |
| GenericScan.ExtractedItemsComplete | app/page.tsx:562-583 | Every candidate string of every gathered object that holds a post link yields an item that is extracted |
| Fields.PickString | app/page.tsx:588-594 | The result is the trimmed value at the first key whose value is a non-blank string; none exactly when no key has one; never empty |
| Fields.NonBlankAt | app/page.tsx:590-591 | A key is usable exactly when its value is a string that is not blank; its value is then trimmed and non-empty |
| Fields.CleanTitle | app/page.tsx:596-599 | A cleaned title is at most 141 characters long |
| Fields.CleanTitleCut | app/page.tsx:598 | A collapsed and trimmed title of at most 140 characters is kept whole; a longer one keeps its first 140 characters followed by `…` |
| Fields.CleanTitleTidy | app/page.tsx:597-598 | A cleaned title neither starts nor ends with white space, holds no white space but the plain space, and has no two spaces in a row |
| Fields.CleanTitleKeepsText | app/page.tsx:597 | A title short enough to keep loses only white space |
| Fields.CleanTitleIdempotent | app/page.tsx:596-599 | Cleaning a cleaned title changes nothing |
| Fields.CleanTitleNonEmpty | app/page.tsx:596-599 | A title that is not blank cleans to a non-empty one |
| Text.NonSpaceNotBlank | app/page.tsx:591 | A string that is not blank keeps some character once its white space is removed |
| Text.Trim | app/page.tsx:591 | A trimmed string neither starts nor ends with white space, and is empty exactly when the input is blank |
| Text.TrimKeepsText | app/page.tsx:591 | Trimming removes only white space |
| Text.CollapseSpacesSingle | app/page.tsx:597 | After collapsing, the only white space is the plain space and no two are adjacent |
| Text.CollapseSpacesKeepsText | app/page.tsx:597 | Collapsing removes only white space |
| Text.BeforeFirst | app/page.tsx:607 | `split(c)[0]` is the longest prefix without `c`, followed in the input by `c` when it is shorter |
| Text.AfterLastSuffix | app/page.tsx:574 | `split("/").pop()` is a suffix without `/`, preceded in the input by `/` when it is shorter |
| IgUrl.NormalizeIg | app/page.tsx:606-610 | A normalized link is non-empty, ends in `/`, holds no `?` and does not start with white space |
| IgUrl.NormalizeIgIdempotent | app/page.tsx:606-610 | Normalizing a normalized link changes nothing |
| IgUrl.NormalizeIgDropsQuery | app/page.tsx:607 | A canonical link followed by `?` and a query normalizes to the link |
| IgUrl.CoerceIgUrlSpec | app/page.tsx:612-618 | Coercing trims; gives the empty string exactly for blank input; prefixes the origin to a root-relative path and the origin and `/` to a bare `p/`, `reel/` or `tv/` path; leaves anything else as the trimmed string |
| IgUrl.SpanEndSpec | app/page.tsx:602 | A `[…]+` run ends at the first character outside the class |
| IgUrl.ExtractFirstIgUrl | app/page.tsx:601-604 | The result is none exactly when no position starts a post link; otherwise it is the link at the leftmost such position, up to the first space, line break, tab or `"` |
| IgUrl.PostRefAt | app/page.tsx:696-698 | A match names a non-empty code without `/` made of the input's characters |
| IgUrl.ParseIg | app/page.tsx:694-699 | The code is non-empty and holds no `/` or `?`; the result is none exactly when the trimmed, query-less input has no `instagram.com/(p\|reel\|tv)/code` match; otherwise it is the leftmost match |
| IgUrl.ParseIgPostLink | app/page.tsx:694-699 | `parseIg` reads back the type and code of the link `https://www.instagram.com/<type>/<code>/`, whatever query string follows it, including one that ends in white space |
| IgUrl.ParseIgExample | app/page.tsx:694-699 | `parseIg("https://www.instagram.com/reel/XYZ/?a=b")` is the reel `XYZ` |
| IgUrl.ParseIgTrailingSpaceExample | app/page.tsx:694-699 | `parseIg("https://www.instagram.com/p/abc/?a= ")` is the post `abc`: the trailing space goes with the trim |
| Share.BuildSharePayload | app/page.tsx:646-659 | The loop over the export's names builds `PayloadOf(parsed, selected)` |
| Share.SharedStep | app/page.tsx:651-657 | One more visited name adds its entries when it is selected and changes nothing otherwise |
| Share.SharedNames | app/page.tsx:651-657 | The payload holds the selected names among those visited, once each, in the order first visited |
| Share.SharedLookup | app/page.tsx:651-657 | Each selected visited name holds the entries of that name's list; any other name holds nothing |
| Share.BuildSharePayloadSpec | app/page.tsx:646-659 | The payload holds exactly the export's collections that are selected, in export order, under distinct names, each with its items' titles and links |
| Share.SharedPrefix | app/page.tsx:651-657 | On a record, the loop over its first `i` names shares exactly the selected lists among its first `i` lists |
| Share.DecodeShare | app/page.tsx:666-672 | The check throws exactly when the text is non-empty and does not parse; it accepts exactly when the text is non-empty and its parse is truthy, has `v` equal to 1 and a truthy `collections`, and the accepted value is then that parse, an object; otherwise it gives `null` |
| Share.EntryJsonRoundTrip | app/page.tsx:653-656 | An entry's JSON object reads back as the entry |
| Share.ListJsonRoundTrip | app/page.tsx:653-656 | A list's JSON array reads back as the list |
| Share.CollectionsJsonRoundTrip | app/page.tsx:650-657 | The collections' JSON object reads back as the collections |
| Share.PayloadJsonRoundTrip | app/page.tsx:658-671 | Every payload's JSON passes the receiver's check and reads back as the payload |
| Share.SharedLinkAccepted | app/page.tsx:661-671 | Text that parses to a payload's JSON is accepted and stands for that payload |
| Share.PayloadToParsed | app/page.tsx:674-692 | The loop returns `ReceivedExport(payload)`: every list as the items of its collection, those items pushed onto `allItems`, and no warnings |
| Share.ItemsOfStep | app/page.tsx:679-688 | One more entry appends its item |
| Share.ReceivedSnoc | app/page.tsx:678-689 | Receiving one more list assigns its items to its name and appends them to `allItems` |
| Share.ReceivedNames | app/page.tsx:678-689 | The rebuilt export keeps every received name once, in order of first appearance |
| Share.ReceivedItemShape | app/page.tsx:680-685 | Every rebuilt item carries its collection's name and the received link, and its title is non-empty when its link is |
| Share.ReceivedLookup | app/page.tsx:678-689 | With distinct names, each received name holds the items made of its entries, in order |
| Share.ReceivedItemsFlatten | app/page.tsx:678-691 | With distinct names, `allItems` is the rebuilt collections' items one collection after another |
| Share.ItemsOfEntries | app/page.tsx:653-688 | A reshareable list's entries become its items again |
| Share.ReceiveSharedCollections | app/page.tsx:646-692 | Receiving the shared lists of a record of reshareable lists rebuilds the record |
| Share.ReceiveSharedItems | app/page.tsx:646-692 | Receiving such lists pushes their items one list after another |
| Share.ShareRoundTrip | app/page.tsx:646-692 | Sharing a selection of an export of reshareable lists and receiving it gives exactly the selected lists, in export order, their items one after another, and no warnings |
| Share.ShareAllRoundTrip | app/page.tsx:646-692 | Sharing every list of such an export and receiving it gives back its collections and items unchanged |
| Share.ParsedExportReshareable | app/page.tsx:417-507 | Every export the archive reader returns has distinct collection names and reshareable lists |
| Share.SchemaReshareable | app/page.tsx:438-455 | On the saved-collections path every item is filed under its list's name with its non-empty link as title |
| Share.RecordReshareable | app/page.tsx:441-453 | The lists built from a record of non-empty lists of non-empty links under distinct names are reshareable and use each name once |
| Share.LinkItemsReshareable | app/page.tsx:443-452 | A list of one item per non-empty link, titled with the link and filed under the list's name, is reshareable |
| Share.FallbackReshareable | app/page.tsx:497-506 | The fallback's lists use each name once, and every item in them names its list and has a non-empty title |
| Share.ParsedShareRoundTrip | app/page.tsx:646-692 | Sharing a selection of any export the archive reader returns and receiving it gives exactly the selected lists, in export order, their items one after another, and no warnings |

## Left out

- The page's UI (lines 22–413) and `InstagramEmbed` (lines 620–637): rendering and
  browser state. `parseIg` is modelled; the embed URL built from its result is not.
- Reading the archive (JSZip, `async`): the archive is a list of name and content
  pairs. A file that cannot be read and a file whose text is not valid JSON are
  both `None`, which is how the `try`/`catch` blocks treat them.
- `JSON.parse`: files hold already-parsed values. `Json` objects keep their members
  in order and are taken to have distinct keys.
- Archive.SchemaPathSpec, Archive.FilingShape, SavedCollections.SavedCollectionsGroups,
  Share.SharedNames, Share.ReceivedNames: the model's records keep their names in
  the order they were added. A JavaScript object lists integer-like keys (a
  collection named `2023`, say) first, in numeric order, and only then the others
  in insertion order. So where these members state "sorted order" or "order of
  first use" for the names of a record, the source's `Object.keys` and
  `Object.entries` give that order only when no name is integer-like. The same
  holds for the member order of parsed JSON objects.
- Share-link compression (`encodeShare`, lines 661–664, and the decompression at
  line 667): `DecodeShare` takes the decompressed text as a parameter (`None`
  when there is none) and the parser as a function. The exception `JSON.parse`
  throws at line 669 is the result `Throws`; the page code that calls
  `decodeShare` is not part of this model, so what becomes of the exception is
  not modelled. `PayloadJson` is the value
  `JSON.stringify` writes.
- Item `id`s, which come from `Math.random` and `Date.now`: items carry no id.
- `localeCompare`: collection names and titles are sorted by plain lexicographic
  order on characters. The sortedness stated by `Archive.SchemaPathSpec` and
  `Archive.FallbackSorted` is sortedness in that order, not in the browser's
  collation; the statements that the sort keeps every name and item hold for any
  order.
- Regular expressions: written as scans over the string. Case-insensitive
  matching folds ASCII letters only, which is all the patterns need.
- Export.Message: the unreadable-file warning omits the JSON parser's error text
  that the source appends to it at line 460.
- The empty-link check at line 522 and the `Unsorted` deletion at line 540 are not
  modelled, because neither can fire: a normalized link always ends in `/`, and
  a collection's list is created only when a link is pushed onto it.
- Fields.CleanTitle: lengths, and the cut after 140 characters, count Unicode
  code points, as all of `Text` does. The source counts UTF-16 code units, so a
  character outside the Basic Multilingual Plane (an emoji, say) counts two
  there: a title of 100 such characters is cut to 70 and `…` by the source and
  kept whole here.
- Archive.GroupByCollection, Archive.ScanFallback, Archive.FallbackExport,
  Archive.BuildSchemaExport, SavedCollections.Add,
  SavedCollections.ParseSavedCollectionsJson, Share.BuildSharePayload,
  Share.PayloadToParsed: the source's records are plain JavaScript objects, and
  the model's lists under names treat every name alike. A name that is also an
  inherited property of `Object.prototype` (`constructor`, `toString`,
  `hasOwnProperty`, `__proto__`, …) behaves differently in the source: as a
  fallback collection name it makes `push` throw at lines 500–501; as a
  saved-collections name it makes `add` throw at lines 523–524, which the
  `catch` at line 457 turns into the unreadable-file warning and the fallback;
  and `__proto__` assigned at lines 443, 653 or 679 sets the record's prototype
  instead of adding a list. The model files such names as ordinary lists.
- Share.DecodeShare: returns the accepted JSON value. The source's unchecked cast
  at line 671 is modelled by `PayloadFromJson`, which gives nothing for a value
  that passes the check but lacks the payload's shape. The source would pass such
  a value on as it is.
- The payload's optional `name` (line 642) is never written by `buildSharePayload`
  and is not modelled.
- Share.ShareRoundTrip, Share.ShareAllRoundTrip: require distinct collection names
  and reshareable lists (every item filed under its own list's name, with a
  non-empty title). These are what a received item needs to equal the original
  one; items without ids are otherwise equal.
- IgUrl.ExtractFirstIgUrl: only links on `instagram.com` (with or without `www.`)
  are recognised, as in the code at line 602; links on any other host are not.
