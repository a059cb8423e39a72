/** Placing a bid and reading an item's bid history. */
module BidController {
  import opened Types
  import opened JsNumbers
  import opened Validators
  import opened BidModel
  import ItemModel
  import Invariants
  import Store

  /** A body the bid schema accepts carries a positive integer amount. */
  lemma ValidBidBody(body: Body, env: Env)
    requires Validate(BidCreateSchema, body, env).None?
    ensures "amount" in body && AsNumber(body["amount"]).Some? && AsNumber(body["amount"]).value >= 1
  {
    assert FieldOk(BidCreateSchema[0], body, env);
  }

  /** The amount of a body the bid schema accepts. */
  function Amount(body: Body, env: Env): (r: int)
    requires Validate(BidCreateSchema, body, env).None?
    ensures r >= 1
  {
    ValidBidBody(body, env);
    AsNumber(body["amount"]).value
  }

  /** `highestBid || item.starting_bid`: no bid (or a zero amount) falls back to the starting bid. */
  function CurrentBid(t: Tables, itemId: int): int
    requires IsItemId(t, itemId)
  {
    match HighestBid(t.bids, itemId)
    case Some(v) => if v != 0 then v else ItemOf(t, itemId).startingBid
    case None => ItemOf(t, itemId).startingBid
  }

  /**
   * In a consistent store the current bid is the highest bid when there is
   * one, and the starting bid otherwise; it is at least the starting bid and
   * at least every bid on the item.
   */
  lemma CurrentBidBounds(t: Tables, itemId: int)
    requires Invariants.Consistent(t) && IsItemId(t, itemId)
    ensures CurrentBid(t, itemId) == HighestBid(t.bids, itemId).GetOr(ItemOf(t, itemId).startingBid)
    ensures CurrentBid(t, itemId) >= ItemOf(t, itemId).startingBid
    ensures forall k :: 0 <= k < |t.bids| && t.bids[k].itemId == itemId ==> t.bids[k].amount <= CurrentBid(t, itemId)
  {
    var hb := HighestBid(t.bids, itemId);
    if hb.Some? {
      var k :| 0 <= k < |t.bids| && t.bids[k].itemId == itemId && t.bids[k].amount == hb.value;
      assert t.bids[k].amount > ItemOf(t, itemId).startingBid;
    }
  }

  /**
   * The guard chain of bid create, in order: a non-numeric item id (404), a
   * body the schema refuses (400), a key other than `amount` (400), an
   * unknown item (404), the bidder being the item's creator (403), and an
   * amount not above the current bid (400). There is no end-date check.
   * When every check passes the bid to store is returned.
   */
  function CheckBid(t: Tables, itemParam: string, body: Body, userId: int, env: Env): (d: Decision<Bid>)
    ensures d.Proceed? <==>
              && ParseInt(itemParam).Int?
              && Validate(BidCreateSchema, body, env).None?
              && IsItemId(t, ParseInt(itemParam).n)
              && ItemOf(t, ParseInt(itemParam).n).creatorId != userId
              && Amount(body, env) > CurrentBid(t, ParseInt(itemParam).n)
    ensures d.Proceed? ==> d.value == Bid(ParseInt(itemParam).n, userId, Amount(body, env), env.now)
    ensures ParseInt(itemParam).NaN? ==> d == Respond(Response(404, ErrorMessage("Item not found!")))
    ensures ParseInt(itemParam).Int? && Validate(BidCreateSchema, body, env).Some? ==>
              d == Respond(Response(400, SchemaRejected(Validate(BidCreateSchema, body, env).value)))
    ensures ParseInt(itemParam).Int? && Validate(BidCreateSchema, body, env).None? && IsItemId(t, ParseInt(itemParam).n)
            && ItemOf(t, ParseInt(itemParam).n).creatorId == userId ==>
              d == Respond(Response(403, ErrorMessage("Cannot bid on your own item, why would you do this?")))
    ensures ParseInt(itemParam).Int? && Validate(BidCreateSchema, body, env).None? && !IsItemId(t, ParseInt(itemParam).n) ==>
              d == Respond(Response(404, ErrorMessage("Item not found!")))
    ensures ParseInt(itemParam).Int? && Validate(BidCreateSchema, body, env).None? && IsItemId(t, ParseInt(itemParam).n)
            && ItemOf(t, ParseInt(itemParam).n).creatorId != userId
            && Amount(body, env) <= CurrentBid(t, ParseInt(itemParam).n) ==>
              d == Respond(Response(400, ErrorMessage("Bid must be higher than current bid, duh!")))
    ensures d.Respond? ==> d.response.status in {400, 403, 404}
  {
    match ParseInt(itemParam)
    case NaN => Respond(Response(404, ErrorMessage("Item not found!")))
    case Int(itemId) =>
      match Validate(BidCreateSchema, body, env)
      case Some(e) => Respond(Response(400, SchemaRejected(e)))
      case None =>
        if HasExtraFields(body, ["amount"]) then Respond(Response(400, ErrorMessage("Extra fields not allowed!")))
        else match ItemModel.FindItem(t, itemId)
          case None => Respond(Response(404, ErrorMessage("Item not found!")))
          case Some(item) =>
            if item.creatorId == userId then
              Respond(Response(403, ErrorMessage("Cannot bid on your own item, why would you do this?")))
            else if Amount(body, env) <= CurrentBid(t, itemId) then
              Respond(Response(400, ErrorMessage("Bid must be higher than current bid, duh!")))
            else Proceed(Bid(itemId, userId, Amount(body, env), env.now))
  }

  /**
   * An accepted bid keeps the store consistent: it is on an existing item,
   * by a registered user other than the creator, above the starting bid and
   * above every earlier bid on the item. So no stored bid has its key.
   */
  lemma AcceptedBidKeepsConsistent(t: Tables, itemParam: string, body: Body, userId: int, env: Env)
    requires Invariants.Consistent(t) && IsUserId(t, userId)
    requires CheckBid(t, itemParam, body, userId, env).Proceed?
    ensures var b := CheckBid(t, itemParam, body, userId, env).value;
            && Invariants.Consistent(t.(bids := t.bids + [b]))
            && forall k :: 0 <= k < |t.bids| ==> (t.bids[k].itemId, t.bids[k].userId, t.bids[k].amount) != (b.itemId, b.userId, b.amount)
  {
    var b := CheckBid(t, itemParam, body, userId, env).value;
    CurrentBidBounds(t, b.itemId);
    AppendBidKeepsConsistent(t, b);
  }

  /** Appending a bid that tops every bid on its item, by someone else than the creator. */
  lemma AppendBidKeepsConsistent(t: Tables, b: Bid)
    requires Invariants.Consistent(t) && IsUserId(t, b.userId) && IsItemId(t, b.itemId)
    requires b.userId != ItemOf(t, b.itemId).creatorId && b.amount > ItemOf(t, b.itemId).startingBid
    requires forall k :: 0 <= k < |t.bids| && t.bids[k].itemId == b.itemId ==> t.bids[k].amount < b.amount
    ensures Invariants.Consistent(t.(bids := t.bids + [b]))
    ensures forall k :: 0 <= k < |t.bids| ==> (t.bids[k].itemId, t.bids[k].userId, t.bids[k].amount) != (b.itemId, b.userId, b.amount)
  {
    var t' := t.(bids := t.bids + [b]);
    assert Invariants.BidsWellFormed(t') by {
      forall k | 0 <= k < |t'.bids|
        ensures IsItemId(t', t'.bids[k].itemId) && IsUserId(t', t'.bids[k].userId)
                && t'.bids[k].userId != ItemOf(t', t'.bids[k].itemId).creatorId
                && t'.bids[k].amount > ItemOf(t', t'.bids[k].itemId).startingBid
      {
        if k < |t.bids| { assert t'.bids[k] == t.bids[k]; }
      }
    }
    assert Invariants.BidsIncrease(t') by {
      forall i, j | 0 <= i < j < |t'.bids| && t'.bids[i].itemId == t'.bids[j].itemId
        ensures t'.bids[i].amount < t'.bids[j].amount
      {
        assert t'.bids[i] == t.bids[i];
        if j < |t.bids| { assert t'.bids[j] == t.bids[j]; }
      }
    }
    assert Invariants.QuestionsWellFormed(t');
    assert Invariants.ItemsWellFormed(t');
  }

  /**
   * bid create: run the guard chain; on success store the bid and answer
   * 201. The insert's own failure (the bid's key already stored) would give
   * 500, but in a consistent store it cannot happen.
   */
  method PlaceBid(db: Store.Db, itemParam: string, body: Body, userId: int, env: Env) returns (resp: Response)
    requires db.Valid() && IsUserId(db.State(), userId)
    modifies db
    ensures db.Valid()
    ensures var d := CheckBid(old(db.State()), itemParam, body, userId, env);
            if d.Proceed? then
              resp == Response(201, Message("Bid placed successfully"))
              && db.State() == old(db.State()).(bids := old(db.State()).bids + [d.value])
            else resp == d.response && db.State() == old(db.State())
  {
    var d := CheckBid(db.State(), itemParam, body, userId, env);
    if d.Respond? {
      return d.response;
    }
    AcceptedBidKeepsConsistent(db.State(), itemParam, body, userId, env);
    var ok := db.InsertBid(d.value);
    resp := if ok then Response(201, Message("Bid placed successfully"))
            else Response(500, ErrorMessage("Internal server error"));
  }

  /**
   * After an accepted bid, the item's detail view shows that bid as the
   * current bid, held by the bidder.
   */
  lemma AcceptedBidBecomesCurrent(t: Tables, itemParam: string, body: Body, userId: int, env: Env)
    requires Invariants.Consistent(t) && IsUserId(t, userId)
    requires CheckBid(t, itemParam, body, userId, env).Proceed?
    ensures var b := CheckBid(t, itemParam, body, userId, env).value;
            var d := ItemModel.Details(t.(bids := t.bids + [b]), b.itemId);
            && d.Some? && d.value.currentBid == b.amount
            && d.value.currentBidHolder == Some(BidHolder(userId, UserOf(t, userId).firstName, UserOf(t, userId).lastName))
  {
    var b := CheckBid(t, itemParam, body, userId, env).value;
    var t' := t.(bids := t.bids + [b]);
    AcceptedBidKeepsConsistent(t, itemParam, body, userId, env);
    CurrentBidBounds(t, b.itemId);
    var d := ItemModel.Details(t', b.itemId).value;
    assert t'.bids[|t.bids|] == b;
    assert IsUserId(t', t'.bids[|t.bids|].userId);
    var k :| 0 <= k < |t'.bids| && t'.bids[k].itemId == b.itemId && IsUserId(t', t'.bids[k].userId)
             && t'.bids[k].amount == d.currentBid
             && d.currentBidHolder.value == BidHolder(t'.bids[k].userId, UserOf(t', t'.bids[k].userId).firstName,
                                                      UserOf(t', t'.bids[k].userId).lastName);
    assert d.currentBid >= b.amount;
    assert k == |t.bids|;
  }

  /** One bid request: the item id as text, the body, the authenticated bidder and the clocks. */
  datatype BidRequest = BidRequest(itemParam: string, body: Body, userId: int, env: Env)

  /** The store after serving one bid request: the accepted bid appended, or no change. */
  function Step(t: Tables, r: BidRequest): Tables {
    var d := CheckBid(t, r.itemParam, r.body, r.userId, r.env);
    if d.Proceed? then t.(bids := t.bids + [d.value]) else t
  }

  /** Serving one request by a registered user keeps the store consistent and touches only bids. */
  lemma StepKeepsConsistent(t: Tables, r: BidRequest)
    requires Invariants.Consistent(t) && IsUserId(t, r.userId)
    ensures Invariants.Consistent(Step(t, r)) && Step(t, r).users == t.users && Step(t, r).items == t.items
  {
    if CheckBid(t, r.itemParam, r.body, r.userId, r.env).Proceed? {
      AcceptedBidKeepsConsistent(t, r.itemParam, r.body, r.userId, r.env);
    }
  }

  /** The bids table after serving `reqs` one after another, from `t`. */
  function RunBids(t: Tables, reqs: seq<BidRequest>): Tables
    decreases |reqs|
  {
    if reqs == [] then t else RunBids(Step(t, reqs[0]), reqs[1..])
  }

  /**
   * In any sequential run of bid requests by registered users, the store
   * stays consistent: on every item the bids strictly increase in the order
   * they were placed, and each exceeds the item's starting bid.
   */
  lemma {:induction false} RunKeepsBidsIncreasing(t: Tables, reqs: seq<BidRequest>)
    requires Invariants.Consistent(t)
    requires forall i :: 0 <= i < |reqs| ==> IsUserId(t, reqs[i].userId)
    ensures var t' := RunBids(t, reqs);
            && Invariants.Consistent(t')
            && t'.users == t.users && t'.items == t.items
            && (forall i, j :: 0 <= i < j < |t'.bids| && t'.bids[i].itemId == t'.bids[j].itemId ==>
                  t'.bids[i].amount < t'.bids[j].amount)
            && (forall k :: 0 <= k < |t'.bids| ==> t'.bids[k].amount > ItemOf(t', t'.bids[k].itemId).startingBid)
    decreases |reqs|
  {
    if reqs != [] {
      StepKeepsConsistent(t, reqs[0]);
      RunKeepsBidsIncreasing(Step(t, reqs[0]), reqs[1..]);
    }
  }

  /**
   * getHistory: 404 for a non-numeric or unknown item, otherwise 200 with
   * the item's bids, highest first.
   */
  function GetHistory(t: Tables, itemParam: string): (resp: Response)
    ensures resp.status == 200 <==> ParseInt(itemParam).Int? && IsItemId(t, ParseInt(itemParam).n)
    ensures resp.status != 200 ==> resp == Response(404, ErrorMessage("Item not found"))
    ensures resp.status == 200 ==>
              resp.reply.BidHistory?
              && (forall i :: 0 <= i < |resp.reply.history| ==> resp.reply.history[i].itemId == ParseInt(itemParam).n)
              && (forall i, j :: 0 <= i < j < |resp.reply.history| ==>
                    resp.reply.history[i].amount >= resp.reply.history[j].amount)
              && multiset(resp.reply.history) == multiset(JoinedBids(t, t.bids, ParseInt(itemParam).n))
  {
    match ParseInt(itemParam)
    case NaN => Response(404, ErrorMessage("Item not found"))
    case Int(itemId) =>
      if ItemModel.FindItem(t, itemId).None? then Response(404, ErrorMessage("Item not found"))
      else Response(200, BidHistory(History(t, itemId)))
  }
}
