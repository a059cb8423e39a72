/** Creating an item, its detail view and the search. */
module ItemController {
  import opened Types
  import opened JsNumbers
  import opened Validators
  import Profanity
  import BidModel
  import ItemModel
  import CategoryModel
  import Invariants
  import Store

  // ---- create ----

  /**
   * The schema item create validates with: itemCreateSchema as written, which
   * has no `categories` key, or the corrected one that accepts the list.
   */
  predicate ItemSchema(schema: Schema) {
    schema == ItemCreateSchemaAsWritten || schema == ItemCreateSchema
  }

  /**
   * What an item schema guarantees about a body it accepts. Only the
   * corrected schema lets `categories` through, and then as a list of ids.
   */
  lemma ValidItemBody(schema: Schema, body: Body, env: Env)
    requires ItemSchema(schema) && Validate(schema, body, env).None?
    ensures "name" in body && body["name"].JStr? && |body["name"].s| >= 1
    ensures "description" in body && body["description"].JStr? && |body["description"].s| >= 1
    ensures "starting_bid" in body && AsNumber(body["starting_bid"]).Some? && AsNumber(body["starting_bid"]).value >= 1
    ensures "end_date" in body && AsNumber(body["end_date"]).Some?
    ensures "categories" in body ==>
              && schema == ItemCreateSchema && body["categories"].JArr?
              && forall k :: 0 <= k < |body["categories"].elems| ==> body["categories"].elems[k].JInt?
  {
    assert FieldOk(schema[0], body, env);
    assert FieldOk(schema[1], body, env);
    assert FieldOk(schema[2], body, env);
    assert FieldOk(schema[3], body, env);
    if schema == ItemCreateSchema {
      assert FieldOk(schema[4], body, env);
    } else {
      assert "categories" !in Keys(schema);
    }
  }

  /**
   * The end date the controller stores: a string is run through parseInt,
   * a number is kept. Either way it is the number the schema checked.
   */
  function EndDate(schema: Schema, body: Body, env: Env): (r: int)
    requires ItemSchema(schema) && Validate(schema, body, env).None?
    ensures r == Num(body, "end_date")
  {
    ValidItemBody(schema, body, env);
    var j := body["end_date"];
    if j.JStr? then
      ParseIntOfDigits(j.s);
      ParseInt(j.s).n
    else j.i
  }

  /** The ids of a non-empty `categories` array; empty when there is none. */
  function CategoryIds(body: Body): (ids: seq<int>)
    ensures "categories" in body && body["categories"].JArr? && (forall k :: 0 <= k < |body["categories"].elems| ==> body["categories"].elems[k].JInt?) ==>
              |ids| == |body["categories"].elems| && forall k :: 0 <= k < |ids| ==> body["categories"].elems[k] == JInt(ids[k])
    ensures "categories" !in body ==> ids == []
  {
    if "categories" in body && body["categories"].JArr? then
      var es := body["categories"].elems;
      seq(|es|, k requires 0 <= k < |es| => if es[k].JInt? then es[k].i else 0)
    else []
  }

  /** The row to insert and the category ids to attach to it. */
  datatype NewItem = NewItem(item: Item, categories: seq<int>)

  /** The message naming the first of the name and the description that holds a profane word. */
  function ProfanityMessage(name: string, description: string, profane: string -> bool): (r: Option<string>)
    ensures r.None? <==> !Profanity.ContainsProfanity(name, profane) && !Profanity.ContainsProfanity(description, profane)
    ensures Profanity.ContainsProfanity(name, profane) ==> r == Some("Inappropriate language detected in name!")
    ensures !Profanity.ContainsProfanity(name, profane) && Profanity.ContainsProfanity(description, profane) ==>
              r == Some("Inappropriate language detected in description!")
  {
    var fields := [("name", name), ("description", description)];
    Profanity.NameCheckedFirst(name, description, profane);
    InappropriateMessages();
    var first := Profanity.FirstProfaneField(fields, profane);
    if first.None? then
      assert !Profanity.ContainsProfanity(fields[1].1, profane);
      None
    else Some("Inappropriate language detected in " + first.value + "!")
  }

  lemma InappropriateMessages()
    ensures "Inappropriate language detected in " + "name" + "!" == "Inappropriate language detected in name!"
    ensures "Inappropriate language detected in " + "description" + "!" == "Inappropriate language detected in description!"
  {
  }

  /**
   * The guard chain of item create, in order: the schema (400), a key not
   * allowed (400), an end date not after the clock (400), and profanity in
   * the name, then the description (400). The new row starts now and is
   * created by the authenticated user. With the schema as written no body
   * that goes ahead carries categories.
   */
  function CheckCreate(schema: Schema, body: Body, userId: int, env: Env): (d: Decision<NewItem>)
    requires ItemSchema(schema)
    ensures d.Proceed? <==>
              && Validate(schema, body, env).None?
              && EndDate(schema, body, env) > env.now
              && !Profanity.ContainsProfanity(Str(body, "name"), env.profane)
              && !Profanity.ContainsProfanity(Str(body, "description"), env.profane)
    ensures d.Proceed? ==>
              && d.value.item == Item(Str(body, "name"), Str(body, "description"), Num(body, "starting_bid"),
                                      env.now, Num(body, "end_date"), userId)
              && d.value.item.startingBid >= 1 && d.value.item.endDate > env.now
              && d.value.categories == CategoryIds(body)
    ensures d.Proceed? && schema == ItemCreateSchemaAsWritten ==> d.value.categories == []
    ensures Validate(schema, body, env).Some? ==>
              d == Respond(Response(400, SchemaRejected(Validate(schema, body, env).value)))
    ensures Validate(schema, body, env).None? && EndDate(schema, body, env) <= env.now ==>
              d == Respond(Response(400, ErrorMessage("End date must be in the future!")))
    ensures Validate(schema, body, env).None? && EndDate(schema, body, env) > env.now
            && Profanity.ContainsProfanity(Str(body, "name"), env.profane) ==>
              d == Respond(Response(400, ErrorMessage("Inappropriate language detected in name!")))
    ensures d.Respond? ==> d.response.status == 400
  {
    match Validate(schema, body, env)
    case Some(e) => Respond(Response(400, SchemaRejected(e)))
    case None =>
      ValidItemBody(schema, body, env);
      if HasExtraFields(body, ["name", "description", "starting_bid", "end_date", "categories"]) then
        Respond(Response(400, ErrorMessage("Extra fields not allowed!")))
      else
        var endDate := EndDate(schema, body, env);
        if endDate <= env.now then Respond(Response(400, ErrorMessage("End date must be in the future!")))
        else
          var name, description := body["name"].s, body["description"].s;
          match ProfanityMessage(name, description, env.profane)
          case Some(message) => Respond(Response(400, ErrorMessage(message)))
          case None =>
            Proceed(NewItem(Item(name, description, AsNumber(body["starting_bid"]).value, env.now, endDate, userId),
                            CategoryIds(body)))
  }

  /**
   * The handler as written refuses every body that lists categories, with
   * the schema's 400, so item create never reaches its category step.
   */
  lemma CreateAsWrittenRefusesCategories(body: Body, userId: int, env: Env)
    requires "categories" in body
    ensures Validate(ItemCreateSchemaAsWritten, body, env).Some?
    ensures CheckCreate(ItemCreateSchemaAsWritten, body, userId, env)
            == Respond(Response(400, SchemaRejected(Validate(ItemCreateSchemaAsWritten, body, env).value)))
  {
    ItemSchemaAsWrittenRejectsCategories(body, env);
  }

  /**
   * With the corrected schema, a body the written handler would accept once
   * its `categories` list is removed goes ahead with the same row and with
   * exactly the listed ids to attach.
   */
  lemma CorrectedCreateAcceptsCategories(body: Body, userId: int, env: Env)
    requires CheckCreate(ItemCreateSchemaAsWritten, body - {"categories"}, userId, env).Proceed?
    requires "categories" in body && body["categories"].JArr?
    requires forall k :: 0 <= k < |body["categories"].elems| ==> body["categories"].elems[k].JInt?
    ensures var d := CheckCreate(ItemCreateSchema, body, userId, env);
            && d.Proceed?
            && d.value.item == CheckCreate(ItemCreateSchemaAsWritten, body - {"categories"}, userId, env).value.item
            && |d.value.categories| == |body["categories"].elems|
            && forall k :: 0 <= k < |d.value.categories| ==> body["categories"].elems[k] == JInt(d.value.categories[k])
  {
    var rest := body - {"categories"};
    ValidItemBody(ItemCreateSchemaAsWritten, rest, env);
    ItemSchemaAcceptsCategories(body, env);
    assert EndDate(ItemCreateSchema, body, env) == EndDate(ItemCreateSchemaAsWritten, rest, env) by {
      assert body["end_date"] == rest["end_date"];
    }
    assert Str(body, "name") == Str(rest, "name") && Str(body, "description") == Str(rest, "description");
    assert Num(body, "starting_bid") == Num(rest, "starting_bid") && Num(body, "end_date") == Num(rest, "end_date");
  }

  /** A new item by a registered user with a positive starting bid keeps the store consistent. */
  lemma AppendItemKeepsConsistent(t: Tables, it: Item)
    requires Invariants.Consistent(t) && it.startingBid >= 1 && IsUserId(t, it.creatorId)
    ensures Invariants.Consistent(t.(items := t.items + [it]))
  {
    var t' := t.(items := t.items + [it]);
    assert forall k :: 0 <= k < |t.items| ==> t'.items[k] == t.items[k];
    assert Invariants.BidsWellFormed(t');
    assert Invariants.QuestionsWellFormed(t');
  }

  /** Replacing an item's category pairs keeps the store consistent. */
  lemma ReplacePairsKeepsConsistent(t: Tables, itemId: int, ids: seq<int>)
    requires Invariants.Consistent(t) && IsItemId(t, itemId)
    ensures Invariants.Consistent(t.(itemCategories := CategoryModel.ReplacePairs(t.itemCategories, itemId, ids)))
  {
    CategoryModel.ReplacePairsKeepsOthers(t.itemCategories, itemId, ids);
    CategoryModel.ReplacePairsUnique(t.itemCategories, itemId, ids);
  }

  /**
   * item create: run the guard chain, insert the item, then attach the
   * categories when the body lists some; answer 201 with the new id even
   * when attaching a category fails. As written, a body with categories is
   * answered 400 and nothing is stored.
   */
  method CreateItem(db: Store.Db, schema: Schema, body: Body, userId: int, env: Env) returns (resp: Response)
    requires db.Valid() && IsUserId(db.State(), userId) && ItemSchema(schema)
    modifies db
    ensures db.Valid()
    ensures var d := CheckCreate(schema, body, userId, env);
            var t := old(db.State());
            if d.Proceed? then
              var id := |t.items| + 1;
              var t1 := t.(items := t.items + [d.value.item]);
              resp == Response(201, ItemCreated(id))
              && db.State() == if d.value.categories == [] then t1
                               else t1.(itemCategories := CategoryModel.ReplacePairs(t.itemCategories, id, d.value.categories))
            else resp == d.response && db.State() == t
    ensures schema == ItemCreateSchemaAsWritten && "categories" in body ==>
              resp.status == 400 && db.State() == old(db.State())
  {
    var d := CheckCreate(schema, body, userId, env);
    if "categories" in body && schema == ItemCreateSchemaAsWritten {
      CreateAsWrittenRefusesCategories(body, userId, env);
    }
    if d.Respond? {
      return d.response;
    }
    AppendItemKeepsConsistent(db.State(), d.value.item);
    var id := db.InsertItem(d.value.item);
    if |d.value.categories| > 0 {
      ReplacePairsKeepsConsistent(db.State(), id, d.value.categories);
      var _ := db.AddCategoriesToItem(id, d.value.categories);
    }
    resp := Response(201, ItemCreated(id));
  }

  /**
   * A freshly created item shows no bids: its current bid is its starting
   * bid and nobody holds it. Its categories are exactly the existing ones
   * the body listed, which under the schema as written is none.
   */
  lemma NewItemDetails(t: Tables, schema: Schema, body: Body, userId: int, env: Env)
    requires Invariants.Consistent(t) && IsUserId(t, userId) && ItemSchema(schema)
    requires CheckCreate(schema, body, userId, env).Proceed?
    ensures var n := CheckCreate(schema, body, userId, env).value;
            var id := |t.items| + 1;
            var t1 := t.(items := t.items + [n.item]);
            var t2 := if n.categories == [] then t1
                      else t1.(itemCategories := CategoryModel.ReplacePairs(t.itemCategories, id, n.categories));
            var d := ItemModel.Details(t2, id);
            && d.Some? && d.value.currentBid == n.item.startingBid && d.value.currentBidHolder.None?
            && (forall c :: IsCategoryId(t, c) ==>
                 (CategoryModel.RowOf(t2, c) in CategoryModel.ByItem(t2, id) <==> c in n.categories))
            && (schema == ItemCreateSchemaAsWritten ==> CategoryModel.ByItem(t2, id) == [])
  {
    var n := CheckCreate(schema, body, userId, env).value;
    var id := |t.items| + 1;
    var t1 := t.(items := t.items + [n.item]);
    var t2 := if n.categories == [] then t1
              else t1.(itemCategories := CategoryModel.ReplacePairs(t.itemCategories, id, n.categories));
    assert forall k :: 0 <= k < |t.bids| ==> t2.bids[k].itemId != id;
    forall c | IsCategoryId(t, c)
      ensures CategoryModel.RowOf(t2, c) in CategoryModel.ByItem(t2, id) <==> c in n.categories
    {
      CategoryModel.ByItemMembership(t2, id, c);
      if n.categories == [] {
        assert (id, c) !in t.itemCategories;
      } else {
        CategoryModel.ReplacePairsNamesIds(t.itemCategories, id, n.categories);
      }
    }
    if schema == ItemCreateSchemaAsWritten {
      FreshItemHasNoCategories(t, n.item);
    }
  }

  /** No category is paired yet with a freshly inserted item. */
  lemma FreshItemHasNoCategories(t: Tables, it: Item)
    requires Invariants.Consistent(t)
    ensures CategoryModel.ByItem(t.(items := t.items + [it]), |t.items| + 1) == []
  {
    var t1, id := t.(items := t.items + [it]), |t.items| + 1;
    var rows := CategoryModel.Joined(t1, t1.itemCategories, id);
    assert forall p :: p in t.itemCategories ==> p.0 != id by {
      assert Invariants.CategoryPairsNameItems(t);
    }
    assert |rows| > 0 ==> (id, rows[0].categoryId) in t.itemCategories;
  }

  // ---- getOne ----

  /**
   * getOne: 404 for a non-numeric id or an item the detail query does not
   * find; otherwise 200 with the details and the item's categories, or
   * without them when fetching the categories fails.
   */
  function GetOne(t: Tables, itemParam: string, categoriesFail: bool): (resp: Response)
    ensures resp.status == 200 <==> ParseInt(itemParam).Int? && ItemModel.Details(t, ParseInt(itemParam).n).Some?
    ensures resp.status != 200 ==> resp == Response(404, ErrorMessage("Item not found!"))
    ensures resp.status == 200 ==>
              resp.reply.ItemDetail?
              && resp.reply.details == ItemModel.Details(t, ParseInt(itemParam).n).value
              && (resp.reply.categories.None? <==> categoriesFail)
              && (resp.reply.categories.Some? ==>
                    forall c :: IsCategoryId(t, c) ==>
                      (CategoryModel.RowOf(t, c) in resp.reply.categories.value <==> (ParseInt(itemParam).n, c) in t.itemCategories))
  {
    match ParseInt(itemParam)
    case NaN => Response(404, ErrorMessage("Item not found!"))
    case Int(itemId) =>
      match ItemModel.Details(t, itemId)
      case None => Response(404, ErrorMessage("Item not found!"))
      case Some(d) =>
        if categoriesFail then Response(200, ItemDetail(d, None))
        else
          assert forall c :: IsCategoryId(t, c) ==>
                   (CategoryModel.RowOf(t, c) in CategoryModel.ByItem(t, itemId) <==> (itemId, c) in t.itemCategories) by {
            forall c | IsCategoryId(t, c) {
              CategoryModel.ByItemMembership(t, itemId, c);
            }
          }
          Response(200, ItemDetail(d, Some(CategoryModel.ByItem(t, itemId))))
  }

  // ---- search ----

  /** The query string of a search; an absent parameter is None. */
  datatype SearchQuery = SearchQuery(status: Option<string>, q: Option<string>, limit: Option<string>,
                                     offset: Option<string>, category: Option<string>)

  function TextOf(s: Option<string>): string {
    if Truthy(s) then s.value else ""
  }

  /** `limit ? parseInt(limit, 10) : 10`, and likewise for the offset with 0. */
  function NumberOr(s: Option<string>, default: int): (r: JsInt)
    ensures !Truthy(s) ==> r == Int(default)
    ensures Truthy(s) ==> r == ParseInt(s.value)
  {
    if Truthy(s) then ParseInt(s.value) else Int(default)
  }

  /** The search the controller hands to the item model. The category is parsed but not used. */
  function ParamsOf(query: SearchQuery, userId: Option<int>): ItemModel.SearchParams {
    ItemModel.SearchParams(ItemModel.Filter(TextOf(query.status), TextOf(query.q), userId),
                           NumberOr(query.limit, 10), NumberOr(query.offset, 0))
  }

  /**
   * search: 400 for a status other than OPEN, BID and ARCHIVE, 400 when
   * OPEN or BID is asked without a signed-in user; otherwise 200 with one
   * page of matching items, each meaning what its status asks for.
   */
  function SearchItems(t: Tables, query: SearchQuery, userId: Option<int>, now: int): (resp: Response)
    ensures Truthy(query.status) && query.status.value !in {"OPEN", "BID", "ARCHIVE"} ==>
              resp == Response(400, ErrorMessage("Invalid status!"))
    ensures query.status in {Some("OPEN"), Some("BID")} && userId.None? ==>
              resp == Response(400, ErrorMessage("Authentication required for this status!"))
    ensures resp.status == 200 <==>
              (!Truthy(query.status) || query.status.value in {"OPEN", "BID", "ARCHIVE"})
              && !(query.status in {Some("OPEN"), Some("BID")} && userId.None?)
    ensures resp.status == 200 ==>
              var p := ParamsOf(query, userId);
              && resp.reply.SearchResults?
              && (forall i :: 0 <= i < |resp.reply.results| ==> ItemModel.HitMeaning(t, p.filter, resp.reply.results[i], now))
              && (forall i, j :: 0 <= i < j < |resp.reply.results| ==> resp.reply.results[i].itemId < resp.reply.results[j].itemId)
              && (ItemModel.EffectiveLimit(p.limit) > 0 ==> |resp.reply.results| <= ItemModel.EffectiveLimit(p.limit))
  {
    if Truthy(query.status) && query.status.value !in {"OPEN", "BID", "ARCHIVE"} then
      Response(400, ErrorMessage("Invalid status!"))
    else if query.status in {Some("OPEN"), Some("BID")} && userId.None? then
      Response(400, ErrorMessage("Authentication required for this status!"))
    else
      var p := ParamsOf(query, userId);
      ItemModel.SearchStatusMeaning(t, p, now);
      Response(200, SearchResults(ItemModel.Search(t, p, now)))
  }
}
