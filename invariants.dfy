/**
 * What holds of the store between requests: the table constraints the schema
 * declares, and the business rules the request handlers enforce.
 */
module Invariants {
  import opened Types
  import CategoryModel

  /** users.email is UNIQUE. */
  predicate EmailsUnique(t: Tables) {
    forall i, j :: 0 <= i < j < |t.users| ==> t.users[i].email != t.users[j].email
  }

  /** (item_id, category_id) is the primary key of item_categories. */
  predicate CategoryPairsUnique(t: Tables) {
    CategoryModel.PairsUnique(t.itemCategories)
  }

  /** Categories are only ever attached to items that exist. */
  predicate CategoryPairsNameItems(t: Tables) {
    forall p :: p in t.itemCategories ==> IsItemId(t, p.0)
  }

  /** Every item has a positive starting bid and was created by a registered user. */
  predicate ItemsWellFormed(t: Tables) {
    forall k :: 0 <= k < |t.items| ==> t.items[k].startingBid >= 1 && IsUserId(t, t.items[k].creatorId)
  }

  /**
   * Every bid is on an existing item, by a registered user who is not the
   * item's creator, and exceeds the item's starting bid.
   */
  predicate BidsWellFormed(t: Tables) {
    forall k :: 0 <= k < |t.bids| ==>
      && IsItemId(t, t.bids[k].itemId)
      && IsUserId(t, t.bids[k].userId)
      && t.bids[k].userId != ItemOf(t, t.bids[k].itemId).creatorId
      && t.bids[k].amount > ItemOf(t, t.bids[k].itemId).startingBid
  }

  /** The bids on one item strictly increase in the order they were placed. */
  predicate BidsIncrease(t: Tables) {
    forall i, j :: 0 <= i < j < |t.bids| && t.bids[i].itemId == t.bids[j].itemId ==>
      t.bids[i].amount < t.bids[j].amount
  }

  /** Every question is about an existing item and was asked by someone other than its creator. */
  predicate QuestionsWellFormed(t: Tables) {
    forall k :: 0 <= k < |t.questions| ==>
      && IsItemId(t, t.questions[k].itemId)
      && IsUserId(t, t.questions[k].askedBy)
      && t.questions[k].askedBy != ItemOf(t, t.questions[k].itemId).creatorId
  }

  predicate Consistent(t: Tables) {
    && EmailsUnique(t)
    && CategoryPairsUnique(t)
    && CategoryPairsNameItems(t)
    && ItemsWellFormed(t)
    && BidsWellFormed(t)
    && BidsIncrease(t)
    && QuestionsWellFormed(t)
  }
}
