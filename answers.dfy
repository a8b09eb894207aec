/** Answers and `mergeAnswers`, the field-scoped merge used when the active
    template changes. */
module Answers {

  /** An answer as the form stores it: text and select inputs give strings,
      multi-selects give arrays of strings, saved numeric answers may be
      numbers, and a property may hold `null` or `undefined` explicitly. */
  datatype Value = Undefined | Null | Num(n: int) | Str(s: string) | List(items: seq<string>)

  /** A record from field id to answer; `id in a` is
      `Object.prototype.hasOwnProperty.call(a, id)`. */
  type Answers = map<string, Value>

  /** The answers restricted to the given field ids. */
  function Restrict(a: Answers, ids: set<string>): (r: Answers)
    ensures r.Keys == a.Keys * ids
    ensures forall id :: id in r ==> r[id] == a[id]
  {
    map id | id in a && id in ids :: a[id]
  }

  /** The merge as a value: for every field id, the current answer if there
      is one, else the previous answer if there is one, else nothing. */
  function Merged(prev: Answers, current: Answers, ids: set<string>): Answers {
    map id | id in ids && (id in current || id in prev) :: if id in current then current[id] else prev[id]
  }

  /** `new Set(ids)`: the distinct ids, in order of first occurrence. */
  method DistinctIds(fieldIds: seq<string>) returns (ids: seq<string>)
    ensures forall id :: id in ids <==> id in fieldIds
    ensures forall i, j :: 0 <= i < j < |ids| ==> ids[i] != ids[j]
  {
    ids := [];
    for k := 0 to |fieldIds|
      invariant forall id :: id in ids <==> id in fieldIds[..k]
      invariant forall i, j :: 0 <= i < j < |ids| ==> ids[i] != ids[j]
    {
      assert fieldIds[..k + 1] == fieldIds[..k] + [fieldIds[k]];
      if fieldIds[k] !in ids {
        ids := ids + [fieldIds[k]];
      }
    }
    assert fieldIds[..|fieldIds|] == fieldIds;
  }

  /** `mergeAnswers(prevAnswers, currentAnswers, fields)`, given the ids of
      `fields`: the ids are collected into a set, then the output is filled
      key by key. */
  method MergeAnswers(prev: Answers, current: Answers, fieldIds: seq<string>) returns (out: Answers)
    ensures out == Merged(prev, current, set id | id in fieldIds)
    ensures out.Keys == set id | id in fieldIds && (id in current || id in prev)
    ensures forall id :: id in out && id in current ==> out[id] == current[id]
    ensures forall id :: id in out && id !in current ==> out[id] == prev[id]
  {
    var ids := DistinctIds(fieldIds);
    out := map[];
    for k := 0 to |ids|
      invariant forall id :: id in out <==> id in ids[..k] && (id in current || id in prev)
      invariant forall id :: id in out ==> out[id] == if id in current then current[id] else prev[id]
    {
      var id := ids[k];
      assert ids[..k + 1] == ids[..k] + [id];
      if id in current {
        out := out[id := current[id]];
      } else if id in prev {
        out := out[id := prev[id]];
      }
    }
    assert ids[..|ids|] == ids;
  }

  /** Merging a map with itself keeps exactly its answers for the fields. */
  lemma MergeSelf(a: Answers, ids: set<string>)
    ensures Merged(a, a, ids) == Restrict(a, ids)
  {
  }

  /** With no current answers the previous ones are kept for the fields. */
  lemma MergeNoCurrent(prev: Answers, ids: set<string>)
    ensures Merged(prev, map[], ids) == Restrict(prev, ids)
  {
  }

  /** Without fields the merge is empty. */
  lemma MergeNoFields(prev: Answers, current: Answers)
    ensures Merged(prev, current, {}) == map[]
  {
  }

  /** Merging again with the same current answers changes nothing: the
      merge is idempotent in its previous answers. */
  lemma MergeIdempotent(prev: Answers, current: Answers, ids: set<string>)
    ensures Merged(Merged(prev, current, ids), current, ids) == Merged(prev, current, ids)
  {
  }
}
