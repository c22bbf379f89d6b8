/** The server's read accessors over the sectors document
    (`getAllSectors`, `getSectorById`). The document is what
    `readJsonFile` returned, passed in; both accessors only read it. */
module SectorsCrud {

  import opened Wrappers
  import opened Values
  import opened Store

  /** The member of the sectors document that holds the list. */
  const SectorsKey := "sectors"

  /** What `getSectorById` throws: the document could not be read, so
      `null.sectors` raises a `TypeError` (or the member is missing, and
      `undefined.find` does). */
  datatype Thrown = NoSectorList

  /** `getAllSectors()`: the stored array itself, as stored, or `None`
      (`null`) when the document could not be read. */
  function GetAllSectors(doc: Option<Document>): (r: Option<seq<Record>>)
    ensures doc.None? ==> r.None?
    ensures doc.Some? && SectorsKey in doc.value.lists ==> r == Some(doc.value.lists[SectorsKey])
  {
    ListIn(doc, SectorsKey)
  }

  /** `getSectorById(id)`, with `parsedId` the result of `parseInt(id)`
      (`None` for `NaN`). A non-numeric id gives `null` whatever the store
      holds; otherwise an unreadable store throws, and a readable one gives
      the first sector whose `id` is that number, or `null`. */
  function GetSectorById(parsedId: Option<int>, doc: Option<Document>): (r: Result<Option<Record>, Thrown>)
    ensures parsedId.None? ==> r == Success(None)
    ensures parsedId.Some? && GetAllSectors(doc).None? ==> r == Failure(NoSectorList)
    ensures parsedId.Some? && GetAllSectors(doc).Some? ==>
      var list, id := GetAllSectors(doc).value, parsedId.value;
      && r.Success?
      && (r.value.None? <==> forall j :: 0 <= j < |list| ==> !HasId(list[j], id))
      && (r.value.Some? ==> exists j :: 0 <= j < |list| && list[j] == r.value.value && IsFirstWithId(list, id, j))
  {
    match parsedId
    case None => Success(None)
    case Some(id) =>
      match GetAllSectors(doc)
      case None => Failure(NoSectorList)
      case Some(list) => Success(Find(list, id))
  }

  /** A sector found by id is one of the sectors `getAllSectors`
      lists, and carries that id. */
  lemma FoundSectorIsListed(id: int, doc: Option<Document>)
    requires GetSectorById(Some(id), doc).Success? && GetSectorById(Some(id), doc).value.Some?
    ensures var p := GetSectorById(Some(id), doc).value.value;
      GetAllSectors(doc).Some? && p in GetAllSectors(doc).value && HasId(p, id)
  {
    var list := GetAllSectors(doc).value;
    var j :| 0 <= j < |list| && list[j] == GetSectorById(Some(id), doc).value.value && IsFirstWithId(list, id, j);
    assert list[j] in list;
  }
}
