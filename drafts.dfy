/**
 * Item drafts the browser keeps in local storage: a JSON array of objects
 * under one key, read whole and written back whole by every operation.
 */
module Drafts {
  import opened Types
  import opened JsNumbers

  /** A draft is a JSON object: the form's fields plus `id`, `created_at` and `updated_at`. */
  type Draft = map<string, Json>

  /** `d.id === draftId`: strict equality, so only a string id can match. */
  predicate HasId(d: Draft, draftId: string) {
    "id" in d && d["id"] == JStr(draftId)
  }

  /** findIndex: the first position holding a draft with the id, or None (JavaScript's -1). */
  function FirstWithId(drafts: seq<Draft>, draftId: string): (r: Option<nat>)
    ensures r.None? <==> forall i :: 0 <= i < |drafts| ==> !HasId(drafts[i], draftId)
    ensures r.Some? ==> r.value < |drafts| && HasId(drafts[r.value], draftId)
                        && forall i :: 0 <= i < r.value ==> !HasId(drafts[i], draftId)
  {
    if drafts == [] then None
    else if HasId(drafts[0], draftId) then Some(0)
    else
      var r := FirstWithId(drafts[1..], draftId);
      assert forall i :: 1 <= i < |drafts| ==> drafts[i] == drafts[1..][i - 1];
      if r.Some? then Some(r.value + 1) else None
  }

  /** filter: the drafts without the id, in their order. */
  function WithoutId(drafts: seq<Draft>, draftId: string): (r: seq<Draft>)
    ensures forall d :: d in r <==> d in drafts && !HasId(d, draftId)
    ensures |r| <= |drafts|
    ensures |r| == |drafts| <==> forall i :: 0 <= i < |drafts| ==> !HasId(drafts[i], draftId)
    ensures |r| == |drafts| ==> r == drafts
  {
    if drafts == [] then []
    else
      var rest := WithoutId(drafts[1..], draftId);
      assert drafts == [drafts[0]] + drafts[1..];
      assert forall i :: 1 <= i < |drafts| ==> drafts[i] == drafts[1..][i - 1];
      if HasId(drafts[0], draftId) then rest else [drafts[0]] + rest
  }

  /** The id a draft saved at `now` is given. */
  function DraftId(now: nat): string {
    "draft_" + NatToString(now)
  }

  /** save: the fields spread over the generated id, then both timestamps set to now. */
  function NewDraft(draftData: Draft, now: nat): Draft {
    map["id" := JStr(DraftId(now))] + draftData + map["created_at" := JInt(now), "updated_at" := JInt(now)]
  }

  /** update: the fields spread over the stored draft, then `updated_at` set to now. */
  function Merged(d: Draft, draftData: Draft, now: nat): Draft {
    d + draftData + map["updated_at" := JInt(now)]
  }

  /**
   * A saved draft holds every given field except the two timestamps, which
   * are both now; its id is the generated one unless the fields carry an id.
   */
  lemma NewDraftFields(draftData: Draft, now: nat)
    ensures var d := NewDraft(draftData, now);
            && d.Keys == draftData.Keys + {"id", "created_at", "updated_at"}
            && d["created_at"] == d["updated_at"] == JInt(now)
            && (forall k :: k in draftData && k != "created_at" && k != "updated_at" ==> d[k] == draftData[k])
            && ("id" !in draftData ==> HasId(d, DraftId(now)))
  {
  }

  /**
   * An updated draft takes every given field, keeps every other field it
   * had, and its `updated_at` is now.
   */
  lemma MergedFields(d: Draft, draftData: Draft, now: nat)
    ensures var m := Merged(d, draftData, now);
            && m.Keys == d.Keys + draftData.Keys + {"updated_at"}
            && m["updated_at"] == JInt(now)
            && (forall k :: k in draftData && k != "updated_at" ==> m[k] == draftData[k])
            && (forall k :: k in d && k !in draftData && k != "updated_at" ==> m[k] == d[k])
  {
  }

  /** The drafts in local storage: None while the key is absent. */
  class DraftStore {
    var stored: Option<seq<Draft>>

    constructor ()
      ensures stored == None
    {
      stored := None;
    }

    /** getAll: the stored array, or [] when nothing is stored. */
    function GetAll(): (r: seq<Draft>)
      reads this
      ensures stored.None? ==> r == []
      ensures stored.Some? ==> r == stored.value
    {
      match stored
      case None => []
      case Some(drafts) => drafts
    }

    /** getOne: the first stored draft with the id, or null. */
    function GetOne(draftId: string): (r: Option<Draft>)
      reads this
      ensures r.None? <==> forall i :: 0 <= i < |GetAll()| ==> !HasId(GetAll()[i], draftId)
      ensures r.Some? ==> exists i :: 0 <= i < |GetAll()| && r.value == GetAll()[i] && HasId(r.value, draftId)
                                       && forall j :: 0 <= j < i ==> !HasId(GetAll()[j], draftId)
    {
      match FirstWithId(GetAll(), draftId)
      case None => None
      case Some(i) => Some(GetAll()[i])
    }

    /** save: append one new draft at the end and write the array back. */
    method Save(draftData: Draft, now: nat) returns (draft: Draft)
      modifies this
      ensures draft == NewDraft(draftData, now)
      ensures stored == Some(old(GetAll()) + [draft])
    {
      var drafts := GetAll();
      draft := NewDraft(draftData, now);
      drafts := drafts + [draft];
      stored := Some(drafts);
    }

    /**
     * update: null and no write when no draft has the id; otherwise the
     * first such draft is replaced by the merge, the array is written back
     * and the merged draft returned.
     */
    method Update(draftId: string, draftData: Draft, now: nat) returns (r: Option<Draft>)
      modifies this
      ensures FirstWithId(old(GetAll()), draftId).None? ==> r == None && stored == old(stored)
      ensures FirstWithId(old(GetAll()), draftId).Some? ==>
                var i := FirstWithId(old(GetAll()), draftId).value;
                && r == Some(Merged(old(GetAll())[i], draftData, now))
                && stored == Some(old(GetAll())[i := r.value])
    {
      var drafts := GetAll();
      var index := FirstWithId(drafts, draftId);
      if index.None? {
        return None;
      }
      drafts := drafts[index.value := Merged(drafts[index.value], draftData, now)];
      stored := Some(drafts);
      r := Some(drafts[index.value]);
    }

    /**
     * delete: drop every draft with the id; false and no write when none
     * had it, otherwise write the rest back and answer true.
     */
    method Delete(draftId: string) returns (ok: bool)
      modifies this
      ensures ok <==> exists i :: 0 <= i < |old(GetAll())| && HasId(old(GetAll())[i], draftId)
      ensures !ok ==> stored == old(stored)
      ensures ok ==> stored == Some(WithoutId(old(GetAll()), draftId))
    {
      var drafts := GetAll();
      var filtered := WithoutId(drafts, draftId);
      if |filtered| == |drafts| {
        return false;
      }
      stored := Some(filtered);
      ok := true;
    }

    /** clearAll: remove the key. */
    method ClearAll()
      modifies this
      ensures stored == None && GetAll() == []
    {
      stored := None;
    }
  }

  /**
   * A draft saved with a fresh id is found again by that id, at the end of
   * the list.
   */
  lemma SavedDraftIsFound(drafts: seq<Draft>, draftData: Draft, now: nat)
    requires "id" !in draftData
    requires forall i :: 0 <= i < |drafts| ==> !HasId(drafts[i], DraftId(now))
    ensures FirstWithId(drafts + [NewDraft(draftData, now)], DraftId(now)) == Some(|drafts|)
  {
    var all := drafts + [NewDraft(draftData, now)];
    NewDraftFields(draftData, now);
    assert HasId(all[|drafts|], DraftId(now));
    assert forall i :: 0 <= i < |drafts| ==> all[i] == drafts[i];
  }

  /**
   * Updating a draft without touching its id leaves it the first draft with
   * that id, now carrying the merged fields.
   */
  lemma UpdatedDraftIsFound(drafts: seq<Draft>, draftId: string, draftData: Draft, now: nat)
    requires "id" !in draftData
    requires FirstWithId(drafts, draftId).Some?
    ensures var i := FirstWithId(drafts, draftId).value;
            var after := drafts[i := Merged(drafts[i], draftData, now)];
            FirstWithId(after, draftId) == Some(i) && HasId(after[i], draftId)
  {
    var i := FirstWithId(drafts, draftId).value;
    var after := drafts[i := Merged(drafts[i], draftData, now)];
    MergedFields(drafts[i], draftData, now);
    assert HasId(after[i], draftId);
    assert forall j :: 0 <= j < i ==> after[j] == drafts[j];
  }

  /** After a delete no draft has the id, and every draft with another id is still there. */
  lemma DeletedDraftIsGone(drafts: seq<Draft>, draftId: string)
    ensures FirstWithId(WithoutId(drafts, draftId), draftId).None?
    ensures forall d :: d in drafts && !HasId(d, draftId) ==> d in WithoutId(drafts, draftId)
  {
    var r := WithoutId(drafts, draftId);
    assert forall i :: 0 <= i < |r| ==> r[i] in r;
  }
}
