/** The browser's local list of prospects and its three mutators
    (`addProspect`, `updateProspect`, `deleteProspect`), as functions from
    the list before to the list after. */
module ProspectList {

  import opened Values

  /** `{ ...old, ...patch }`: every property of either object, with the
      patch's value wherever the patch has the property. */
  function Merge(prior: Record, patch: Record): (r: Record)
    ensures forall k :: k in r <==> k in prior || k in patch
    ensures forall k :: k in patch ==> r[k] == patch[k]
    ensures forall k :: k in prior && k !in patch ==> r[k] == prior[k]
  {
    prior + patch
  }

  /** `prospects.push(p)`: the list grows by one, at the end. */
  function AddProspect(ps: seq<Record>, p: Record): (r: seq<Record>)
    ensures |r| == |ps| + 1
    ensures r[..|ps|] == ps && r[|ps|] == p
  {
    ps + [p]
  }

  /** `if (prospects[index]) prospects[index] = { ...prospects[index], ...patch }`.
      A record is an object and so always truthy: the guard holds exactly
      when `index` names an element, and an index outside the list (negative
      ones included) changes nothing. */
  function UpdateProspect(ps: seq<Record>, index: int, patch: Record): (r: seq<Record>)
    ensures |r| == |ps|
    ensures 0 <= index < |ps| ==> r[index] == Merge(ps[index], patch)
    ensures forall i :: 0 <= i < |ps| && i != index ==> r[i] == ps[i]
    ensures !(0 <= index < |ps|) ==> r == ps
  {
    if 0 <= index < |ps| then ps[index := Merge(ps[index], patch)] else ps
  }

  /** Where `splice` starts for a list of `len` elements: a negative start
      counts from the end and stops at 0, a start past the end is the end. */
  function SpliceStart(len: nat, start: int): (s: nat)
    ensures s <= len
  {
    if start < 0 then (if len + start < 0 then 0 else len + start)
    else if start > len then len
    else start
  }

  /** `prospects.splice(index, 1)`: the element at the splice start, if there
      is one, is removed. */
  function DeleteProspect(ps: seq<Record>, index: int): (r: seq<Record>)
    ensures 0 <= index < |ps| ==>
      && |r| == |ps| - 1
      && (forall i :: 0 <= i < index ==> r[i] == ps[i])
      && (forall i :: index <= i < |r| ==> r[i] == ps[i + 1])
    ensures index >= |ps| ==> r == ps
  {
    var s := SpliceStart(|ps|, index);
    if s < |ps| then ps[..s] + ps[s + 1..] else ps
  }

  /** A negative index counts from the end: `-1` is the last element, and
      one reaching before the start removes the first element. */
  lemma DeleteNegativeIndex(ps: seq<Record>, index: int)
    requires index < 0
    ensures DeleteProspect(ps, index) == DeleteProspect(ps, if |ps| + index < 0 then 0 else |ps| + index)
  {
  }

  /** Deleting removes exactly one occurrence of the element at the splice
      start from the list's contents, and nothing else. */
  lemma DeleteRemovesOne(ps: seq<Record>, index: int)
    requires ps != [] && index < |ps|
    ensures var s := SpliceStart(|ps|, index);
      s < |ps| && multiset(DeleteProspect(ps, index)) + multiset{ps[s]} == multiset(ps)
  {
    var s := SpliceStart(|ps|, index);
    assert ps == ps[..s] + [ps[s]] + ps[s + 1..];
  }

  /** Deleting the element just added, by its position or as `-1`, gives
      the list back. */
  lemma DeleteUndoesAdd(ps: seq<Record>, p: Record)
    ensures DeleteProspect(AddProspect(ps, p), |ps|) == ps
    ensures DeleteProspect(AddProspect(ps, p), -1) == ps
  {
    var qs := AddProspect(ps, p);
    assert qs[..|ps|] == ps;
  }

  /** A patch applied twice is applied once. */
  lemma UpdateIdempotent(ps: seq<Record>, index: int, patch: Record)
    ensures UpdateProspect(UpdateProspect(ps, index, patch), index, patch) == UpdateProspect(ps, index, patch)
  {
    if 0 <= index < |ps| {
      var once := Merge(ps[index], patch);
      assert Merge(once, patch) == once;
    }
  }

  /** An empty patch changes nothing. */
  lemma UpdateEmptyPatch(ps: seq<Record>, index: int)
    ensures UpdateProspect(ps, index, map[]) == ps
  {
    if 0 <= index < |ps| {
      assert Merge(ps[index], map[]) == ps[index];
    }
  }

  /** Two updates of one element are one update with the two patches merged,
      the second taking precedence. */
  lemma UpdatesCompose(ps: seq<Record>, index: int, first: Record, second: Record)
    ensures UpdateProspect(UpdateProspect(ps, index, first), index, second)
         == UpdateProspect(ps, index, Merge(first, second))
  {
    if 0 <= index < |ps| {
      assert Merge(Merge(ps[index], first), second) == Merge(ps[index], Merge(first, second));
    }
  }

  /** Updating an element and then deleting it is just deleting it. */
  lemma DeleteAfterUpdate(ps: seq<Record>, index: int, patch: Record)
    requires 0 <= index < |ps|
    ensures DeleteProspect(UpdateProspect(ps, index, patch), index) == DeleteProspect(ps, index)
  {
    var qs := UpdateProspect(ps, index, patch);
    assert qs[..index] == ps[..index];
    assert qs[index + 1..] == ps[index + 1..];
  }
}
