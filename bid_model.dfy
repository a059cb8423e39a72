/** Queries over the bids relation: the highest amount and the history of an item. */
module BidModel {
  import opened Types
  import Sorting

  /**
   * getHighestBid: the largest amount among the bids on `itemId`, or None
   * when the item has no bids.
   */
  function HighestBid(bids: seq<Bid>, itemId: int): (r: Option<int>)
    ensures r.None? <==> forall k :: 0 <= k < |bids| ==> bids[k].itemId != itemId
    ensures r.Some? ==> exists k :: 0 <= k < |bids| && bids[k].itemId == itemId && bids[k].amount == r.value
    ensures r.Some? ==> forall k :: 0 <= k < |bids| && bids[k].itemId == itemId ==> bids[k].amount <= r.value
  {
    if bids == [] then None
    else
      var init, last := bids[..|bids| - 1], bids[|bids| - 1];
      assert forall k :: 0 <= k < |init| ==> init[k] == bids[k];
      var r := HighestBid(init, itemId);
      if last.itemId != itemId then r
      else if r.Some? && r.value >= last.amount then r
      else Some(last.amount)
  }

  /** A bid on another item leaves the highest bid of `itemId` as it was. */
  lemma HighestBidIgnoresOtherItems(bids: seq<Bid>, b: Bid, itemId: int)
    requires b.itemId != itemId
    ensures HighestBid(bids + [b], itemId) == HighestBid(bids, itemId)
  {
    assert (bids + [b])[..|bids|] == bids;
  }

  /** Whether `userId` has placed a bid on `itemId`. */
  predicate HasBidBy(t: Tables, itemId: int, userId: int) {
    exists b :: b in t.bids && b.itemId == itemId && b.userId == userId
  }

  /** A history row: the bid with its bidder's names. */
  function RowOf(t: Tables, b: Bid): HistoryRow
    requires IsUserId(t, b.userId)
  {
    HistoryRow(b.itemId, b.userId, b.amount, b.timestamp, UserOf(t, b.userId).firstName, UserOf(t, b.userId).lastName)
  }

  /**
   * `bids JOIN users WHERE bids.item_id = itemId`, in insertion order: the
   * item's bids whose bidder exists, each with the bidder's names.
   */
  function JoinedBids(t: Tables, bids: seq<Bid>, itemId: int): (r: seq<HistoryRow>)
    ensures forall i :: 0 <= i < |r| ==> r[i].itemId == itemId
    ensures forall k :: 0 <= k < |bids| && bids[k].itemId == itemId && IsUserId(t, bids[k].userId) ==>
              RowOf(t, bids[k]) in r
    ensures forall i :: 0 <= i < |r| ==>
              exists k :: 0 <= k < |bids| && bids[k].itemId == itemId && IsUserId(t, bids[k].userId)
                          && r[i] == RowOf(t, bids[k])
  {
    if bids == [] then []
    else
      var init, last := bids[..|bids| - 1], bids[|bids| - 1];
      assert forall k :: 0 <= k < |init| ==> init[k] == bids[k];
      var rest := JoinedBids(t, init, itemId);
      assert forall i :: 0 <= i < |rest| ==>
               exists k :: 0 <= k < |bids| && bids[k].itemId == itemId && IsUserId(t, bids[k].userId)
                           && rest[i] == RowOf(t, bids[k]) by {
        forall i | 0 <= i < |rest|
          ensures exists k :: 0 <= k < |bids| && bids[k].itemId == itemId && IsUserId(t, bids[k].userId)
                              && rest[i] == RowOf(t, bids[k])
        {
          var k :| 0 <= k < |init| && init[k].itemId == itemId && IsUserId(t, init[k].userId)
                   && rest[i] == RowOf(t, init[k]);
          assert bids[k] == init[k];
        }
      }
      if last.itemId == itemId && IsUserId(t, last.userId) then rest + [RowOf(t, last)] else rest
  }

  function AmountDesc(): (HistoryRow, HistoryRow) -> bool {
    (a: HistoryRow, b: HistoryRow) => a.amount >= b.amount
  }

  /**
   * getHistory: the item's bids joined with their bidders, highest amount
   * first (rows with equal amounts may come in any order).
   */
  function History(t: Tables, itemId: int): (r: seq<HistoryRow>)
    ensures multiset(r) == multiset(JoinedBids(t, t.bids, itemId))
    ensures forall i, j :: 0 <= i < j < |r| ==> r[i].amount >= r[j].amount
    ensures forall i :: 0 <= i < |r| ==> r[i].itemId == itemId
  {
    var rows := JoinedBids(t, t.bids, itemId);
    Sorting.SortSorted(rows, AmountDesc());
    var r := Sorting.Sort(rows, AmountDesc());
    forall i | 0 <= i < |r| ensures r[i].itemId == itemId {
      assert r[i] in multiset(rows);
    }
    r
  }

  /** A bid on another item leaves the history of `itemId` as it was. */
  lemma HistoryIgnoresOtherItems(t: Tables, b: Bid, itemId: int)
    requires b.itemId != itemId
    ensures History(t.(bids := t.bids + [b]), itemId) == History(t, itemId)
  {
    var t' := t.(bids := t.bids + [b]);
    assert (t.bids + [b])[..|t.bids|] == t.bids;
    assert JoinedBids(t', t'.bids, itemId) == JoinedBids(t', t.bids, itemId);
    JoinedBidsUsersOnly(t, t', t.bids, itemId);
  }

  lemma {:induction false} JoinedBidsUsersOnly(t: Tables, t': Tables, bids: seq<Bid>, itemId: int)
    requires t'.users == t.users
    ensures JoinedBids(t', bids, itemId) == JoinedBids(t, bids, itemId)
  {
    if bids != [] {
      JoinedBidsUsersOnly(t, t', bids[..|bids| - 1], itemId);
    }
  }
}
