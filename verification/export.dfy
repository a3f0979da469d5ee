/**
 * The parser's result: collections of items, every item flattened into one list,
 * and the warnings met on the way.
 */
module Export {
  import opened Assoc

  /** The collection an item is filed under when nothing names one. */
  const Unsorted := "Unsorted"

  /** One saved post. The source also gives every item a random or time-based
    * `id`, which is left out. */
  datatype Item = Item(collection: string, title: string, url: string)

  /** The degraded paths the parser reports. */
  datatype Warning =
    | NoJsonFiles
    | SavedCollectionsUnrecognised
    | SavedCollectionsUnreadable
    | NoPostLinks

  /** The text shown for each warning. The source appends the JSON parser's error
    * message to the unreadable-file warning; that detail is not modelled. */
  function Message(w: Warning): string {
    match w
    case NoJsonFiles => "No .json files found in ZIP"
    case SavedCollectionsUnrecognised =>
      "Found saved_collections.json but couldn’t detect your collection structure. Falling back to generic scan."
    case SavedCollectionsUnreadable => "Failed to read saved_collections.json. Falling back to generic scan. "
    case NoPostLinks => "No instagram.com/p or instagram.com/reel links were found in the export ZIP."
  }

  datatype ParsedExport = ParsedExport(
    collections: seq<Group<Item>>,
    allItems: seq<Item>,
    warnings: seq<Warning>)

}
