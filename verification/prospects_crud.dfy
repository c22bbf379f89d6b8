/** The server's read accessors over the prospects document
    (`getAllProspects`, `getProspectById`). The document is what
    `readJsonFile` returned, passed in; both accessors only read it. */
module ProspectsCrud {

  import opened Wrappers
  import opened Values
  import opened Store

  /** The member of the prospects document that holds the list. */
  const ProspectsKey := "prospects"

  /** What `getProspectById` throws: the document could not be read, so
      `null.prospects` raises a `TypeError` (or the member is missing, and
      `undefined.find` does). */
  datatype Thrown = NoProspectList

  /** `getAllProspects()`: the stored array itself, as stored, or `None`
      (`null`) when the document could not be read. */
  function GetAllProspects(doc: Option<Document>): (r: Option<seq<Record>>)
    ensures doc.None? ==> r.None?
    ensures doc.Some? && ProspectsKey in doc.value.lists ==> r == Some(doc.value.lists[ProspectsKey])
  {
    ListIn(doc, ProspectsKey)
  }

  /** `getProspectById(id)`, with `parsedId` the result of `parseInt(id)`
      (`None` for `NaN`). A non-numeric id gives `null` whatever the store
      holds; otherwise an unreadable store throws, and a readable one gives
      the first prospect whose `id` is that number, or `null`. */
  function GetProspectById(parsedId: Option<int>, doc: Option<Document>): (r: Result<Option<Record>, Thrown>)
    ensures parsedId.None? ==> r == Success(None)
    ensures parsedId.Some? && GetAllProspects(doc).None? ==> r == Failure(NoProspectList)
    ensures parsedId.Some? && GetAllProspects(doc).Some? ==>
      var list, id := GetAllProspects(doc).value, parsedId.value;
      && r.Success?
      && (r.value.None? <==> forall j :: 0 <= j < |list| ==> !HasId(list[j], id))
      && (r.value.Some? ==> exists j :: 0 <= j < |list| && list[j] == r.value.value && IsFirstWithId(list, id, j))
  {
    match parsedId
    case None => Success(None)
    case Some(id) =>
      match GetAllProspects(doc)
      case None => Failure(NoProspectList)
      case Some(list) => Success(Find(list, id))
  }

  /** A prospect found by id is one of the prospects `getAllProspects`
      lists, and carries that id. */
  lemma FoundProspectIsListed(id: int, doc: Option<Document>)
    requires GetProspectById(Some(id), doc).Success? && GetProspectById(Some(id), doc).value.Some?
    ensures var p := GetProspectById(Some(id), doc).value.value;
      GetAllProspects(doc).Some? && p in GetAllProspects(doc).value && HasId(p, id)
  {
    var list := GetAllProspects(doc).value;
    var j :| 0 <= j < |list| && list[j] == GetProspectById(Some(id), doc).value.value && IsFirstWithId(list, id, j);
    assert list[j] in list;
  }
}
