/** The JSON documents the server reads its lists from, and the search by
    identifier that both of its lookups perform. */
module Store {

  import opened Wrappers
  import opened Values

  /** A parsed JSON document: an object whose array members are lists of
      records, such as `{ "prospects": [...] }`. */
  datatype Document = Document(lists: map<string, seq<Record>>)

  /** `doc.key` after `readJsonFile`: `None` when the file could not be read
      or parsed (`readJsonFile` gives `null`) or has no such member. */
  function ListIn(doc: Option<Document>, key: string): (r: Option<seq<Record>>)
    ensures r.Some? <==> doc.Some? && key in doc.value.lists
    ensures r.Some? ==> r.value == doc.value.lists[key]
  {
    match doc
    case None => None
    case Some(d) => if key in d.lists then Some(d.lists[key]) else None
  }

  /** `record.id === id`: strict equality, so an identifier stored as the
      string `"3"` does not match the number 3. */
  predicate HasId(r: Record, id: int) {
    Get(r, Id) == Some(Num(id))
  }

  /** `list.findIndex(r => r.id === id)` with `None` for -1: the position
      of the first record carrying `id`. */
  function FindById(list: seq<Record>, id: int): (r: Option<nat>)
    ensures r.Some? ==> r.value < |list| && HasId(list[r.value], id)
    ensures r.Some? ==> forall j :: 0 <= j < r.value ==> !HasId(list[j], id)
    ensures r.None? <==> forall j :: 0 <= j < |list| ==> !HasId(list[j], id)
  {
    if list == [] then None
    else if HasId(list[0], id) then Some(0)
    else match FindById(list[1..], id)
      case None => None
      case Some(i) => Some(i + 1)
  }

  /** `list.find(r => r.id === id)`, with `None` for `undefined`. */
  function Find(list: seq<Record>, id: int): (r: Option<Record>)
    ensures r.Some? <==> exists j :: 0 <= j < |list| && HasId(list[j], id)
    ensures r.Some? ==> exists j :: 0 <= j < |list| && list[j] == r.value && IsFirstWithId(list, id, j)
  {
    match FindById(list, id)
    case None => None
    case Some(i) => assert IsFirstWithId(list, id, i); Some(list[i])
  }

  /** `list[j]` is the first record of `list` carrying `id`. */
  predicate IsFirstWithId(list: seq<Record>, id: int, j: int) {
    && 0 <= j < |list| && HasId(list[j], id)
    && forall k :: 0 <= k < j ==> !HasId(list[k], id)
  }

  /** When identifiers are unique in the list, the record found is the one
      with that identifier. */
  lemma FindUnique(list: seq<Record>, id: int, j: nat)
    requires j < |list| && HasId(list[j], id)
    requires forall a, b :: 0 <= a < b < |list| && HasId(list[a], id) ==> !HasId(list[b], id)
    ensures Find(list, id) == Some(list[j])
  {
    var i := FindById(list, id).value;
    assert i == j;
  }

  /** A record appended at the end is found by its identifier unless an
      earlier record already carries it; the records before it are found as
      before. */
  lemma {:induction false} FindAfterAppend(list: seq<Record>, p: Record, id: int)
    ensures FindById(list + [p], id) ==
      match FindById(list, id)
      case Some(i) => Some(i)
      case None => if HasId(p, id) then Some(|list|) else None
    decreases |list|
  {
    if list != [] {
      assert (list + [p])[1..] == list[1..] + [p];
      FindAfterAppend(list[1..], p, id);
    }
  }
}
