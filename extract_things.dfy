/** `extractThings`: where a reported path really lives. The inventory is
    asked for the item that owns the path; the path, the document and the
    source range fall back to the closest existing path, the root document
    and `DEFAULT_RANGE`. */
module Things {
  import opened Dicts
  import opened Model

  /** `IThings`. */
  datatype Things = Things(associatedItem: Option<Item>, path: JsonPath, range: Range)

  /** `extractThings(inventory, initialPath, resolved)`; `closest` is
      `getClosestJsonPath`. */
  function ExtractThings(inventory: Inventory, closest: (Json, JsonPath) -> JsonPath,
                         initialPath: JsonPath, resolved: bool): Things
  {
    var item := inventory.findItem(initialPath, resolved);
    var path := if item.Some? then item.value.path else closest(inventory.resolved, initialPath);
    var document := if item.Some? then item.value.document else inventory.document;
    var range := match document.rangeFor(path) case Some(r) => r case None => DefaultRange;
    Things(item, path, range)
  }

  /** The document a path belongs to: the item's, else the root document. */
  function OwningDocument(inventory: Inventory, item: Option<Item>): Document
  {
    if item.Some? then item.value.document else inventory.document
  }

  /** The item is the inventory's answer for the path. When there is one,
      its path (even an empty one) and its document are used; when there is
      none, the closest existing path in the resolved tree and the root
      document. The range is that document's range for the path, and
      `DEFAULT_RANGE` exactly when the document has none. */
  lemma ExtractThingsFallbacks(inventory: Inventory, closest: (Json, JsonPath) -> JsonPath,
                               initialPath: JsonPath, resolved: bool)
    ensures var t := ExtractThings(inventory, closest, initialPath, resolved);
            var document := OwningDocument(inventory, t.associatedItem);
            && t.associatedItem == inventory.findItem(initialPath, resolved)
            && (t.associatedItem.Some? ==> t.path == t.associatedItem.value.path)
            && (t.associatedItem.None? ==> t.path == closest(inventory.resolved, initialPath))
            && (document.rangeFor(t.path).Some? ==> t.range == document.rangeFor(t.path).value)
            && (document.rangeFor(t.path).None? ==> t.range == DefaultRange)
  {
  }
}
