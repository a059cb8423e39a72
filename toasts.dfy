/**
 * The client's toast notifications: one shared list of toasts and a counter
 * that numbers them.
 */
module Toasts {
  import opened Types

  /** A toast as shown; `duration` is in milliseconds, 0 meaning it stays until closed. */
  datatype Toast = Toast(id: nat, message: string, kind: string, duration: int)

  /** Toast ids strictly increase along the list. */
  predicate IdsIncreasing(ts: seq<Toast>) {
    forall i, j :: 0 <= i < j < |ts| ==> ts[i].id < ts[j].id
  }

  /** findIndex by id: the first position holding the toast, or -1. */
  function IndexOfId(ts: seq<Toast>, id: nat): (r: int)
    ensures -1 <= r < |ts|
    ensures r == -1 <==> forall i :: 0 <= i < |ts| ==> ts[i].id != id
    ensures r > -1 ==> ts[r].id == id && forall i :: 0 <= i < r ==> ts[i].id != id
  {
    if ts == [] then -1
    else if ts[0].id == id then 0
    else
      var r := IndexOfId(ts[1..], id);
      assert forall i :: 1 <= i < |ts| ==> ts[i] == ts[1..][i - 1];
      if r == -1 then -1 else r + 1
  }

  /** The list after a toast's close: spliced out at its index when present. */
  function Closed(ts: seq<Toast>, id: nat): seq<Toast> {
    var index := IndexOfId(ts, id);
    if index > -1 then ts[..index] + ts[index + 1..] else ts
  }

  /** Close keeps the toasts before the index and shifts the rest down by one. */
  lemma ClosedShifts(ts: seq<Toast>, id: nat)
    ensures var index := IndexOfId(ts, id);
            index > -1 ==>
              && |Closed(ts, id)| == |ts| - 1
              && (forall i :: 0 <= i < index ==> Closed(ts, id)[i] == ts[i])
              && (forall i :: index <= i < |ts| - 1 ==> Closed(ts, id)[i] == ts[i + 1])
  {
  }

  /**
   * In a list with increasing ids, close removes exactly the toast with the
   * id: every other toast stays, and the list shrinks by one when it was
   * there.
   */
  lemma ClosedRemovesOnlyThatToast(ts: seq<Toast>, id: nat)
    requires IdsIncreasing(ts)
    ensures forall t :: t in Closed(ts, id) <==> t in ts && t.id != id
    ensures |Closed(ts, id)| == if exists i :: 0 <= i < |ts| && ts[i].id == id then |ts| - 1 else |ts|
  {
    if IndexOfId(ts, id) > -1 {
      ClosedShifts(ts, id);
      ClosedDropsOnlyId(ts, id);
      ClosedKeepsOthers(ts, id);
    }
  }

  /** Every toast left after a close was there before and has another id. */
  lemma ClosedDropsOnlyId(ts: seq<Toast>, id: nat)
    requires IdsIncreasing(ts) && IndexOfId(ts, id) > -1
    ensures forall t :: t in Closed(ts, id) ==> t in ts && t.id != id
  {
    var index, r := IndexOfId(ts, id), Closed(ts, id);
    ClosedShifts(ts, id);
    forall t | t in r ensures t in ts && t.id != id {
      var k :| 0 <= k < |r| && r[k] == t;
      if k < index {
        assert t == ts[k];
      } else {
        assert t == ts[k + 1] && ts[index].id < ts[k + 1].id;
      }
    }
  }

  /** Every toast with another id is still there after a close. */
  lemma ClosedKeepsOthers(ts: seq<Toast>, id: nat)
    requires IndexOfId(ts, id) > -1
    ensures forall t :: t in ts && t.id != id ==> t in Closed(ts, id)
  {
    var index, r := IndexOfId(ts, id), Closed(ts, id);
    ClosedShifts(ts, id);
    forall t | t in ts && t.id != id ensures t in r {
      var k :| 0 <= k < |ts| && ts[k] == t;
      if k < index {
        assert r[k] == t;
      } else {
        assert r[k - 1] == t;
      }
    }
  }

  /** Close keeps the ids increasing. */
  lemma ClosedKeepsOrder(ts: seq<Toast>, id: nat)
    requires IdsIncreasing(ts)
    ensures IdsIncreasing(Closed(ts, id))
  {
    ClosedShifts(ts, id);
  }

  /** Closing a toast a second time changes nothing. */
  lemma CloseTwiceIsNoOp(ts: seq<Toast>, id: nat)
    requires IdsIncreasing(ts)
    ensures Closed(Closed(ts, id), id) == Closed(ts, id)
  {
    ClosedRemovesOnlyThatToast(ts, id);
    var r := Closed(ts, id);
    assert forall i :: 0 <= i < |r| ==> r[i] in r;
  }

  /**
   * Closing the toast just shown, whose id is above every earlier one,
   * gives back the list as it was before it was shown.
   */
  lemma CloseUndoesShow(ts: seq<Toast>, toast: Toast)
    requires forall i :: 0 <= i < |ts| ==> ts[i].id < toast.id
    ensures Closed(ts + [toast], toast.id) == ts
  {
    var all := ts + [toast];
    assert forall i :: 0 <= i < |ts| ==> all[i] == ts[i];
    assert all[|ts|] == toast;
    assert IndexOfId(all, toast.id) == |ts|;
    assert all[..|ts|] == ts;
  }

  /** The toast list and the counter that numbers toasts. */
  class ToastCenter {
    var toasts: seq<Toast>
    var nextId: nat

    /** Every listed toast has an id below the counter, in increasing order. */
    ghost predicate Valid()
      reads this
    {
      IdsIncreasing(toasts) && forall i :: 0 <= i < |toasts| ==> toasts[i].id < nextId
    }

    constructor ()
      ensures toasts == [] && nextId == 0 && Valid()
    {
      toasts := [];
      nextId := 0;
    }

    /**
     * showToast: number the toast with the counter, bump it and append the
     * toast. A missing type is 'success' and a missing duration 3000.
     */
    method ShowToast(message: string, kind: Option<string>, duration: Option<int>) returns (toast: Toast)
      requires Valid()
      modifies this
      ensures Valid()
      ensures toast == Toast(old(nextId), message, kind.GetOr("success"), duration.GetOr(3000))
      ensures nextId == old(nextId) + 1
      ensures toasts == old(toasts) + [toast]
      ensures forall i :: 0 <= i < |old(toasts)| ==> old(toasts)[i].id < toast.id
    {
      var id := nextId;
      nextId := nextId + 1;
      toast := Toast(id, message, kind.GetOr("success"), duration.GetOr(3000));
      toasts := toasts + [toast];
    }

    /** A toast's close: find it by id and splice it out; nothing when it is gone. */
    method Close(id: nat)
      requires Valid()
      modifies this
      ensures Valid()
      ensures toasts == Closed(old(toasts), id) && nextId == old(nextId)
    {
      ClosedShifts(toasts, id);
      ClosedKeepsOrder(toasts, id);
      var index := IndexOfId(toasts, id);
      if index > -1 {
        toasts := toasts[..index] + toasts[index + 1..];
      }
    }

    /** success: a toast of type 'success'. */
    method Success(message: string, duration: Option<int>) returns (toast: Toast)
      requires Valid()
      modifies this
      ensures Valid()
      ensures toast == Toast(old(nextId), message, "success", duration.GetOr(3000))
      ensures nextId == old(nextId) + 1 && toasts == old(toasts) + [toast]
    {
      toast := ShowToast(message, Some("success"), duration);
    }

    /** error: a toast of type 'error'. */
    method Error(message: string, duration: Option<int>) returns (toast: Toast)
      requires Valid()
      modifies this
      ensures Valid()
      ensures toast == Toast(old(nextId), message, "error", duration.GetOr(3000))
      ensures nextId == old(nextId) + 1 && toasts == old(toasts) + [toast]
    {
      toast := ShowToast(message, Some("error"), duration);
    }

    /** info: a toast of type 'info'. */
    method Info(message: string, duration: Option<int>) returns (toast: Toast)
      requires Valid()
      modifies this
      ensures Valid()
      ensures toast == Toast(old(nextId), message, "info", duration.GetOr(3000))
      ensures nextId == old(nextId) + 1 && toasts == old(toasts) + [toast]
    {
      toast := ShowToast(message, Some("info"), duration);
    }

    /** warning: a toast of type 'warning'. */
    method Warning(message: string, duration: Option<int>) returns (toast: Toast)
      requires Valid()
      modifies this
      ensures Valid()
      ensures toast == Toast(old(nextId), message, "warning", duration.GetOr(3000))
      ensures nextId == old(nextId) + 1 && toasts == old(toasts) + [toast]
    {
      toast := ShowToast(message, Some("warning"), duration);
    }
  }
}
