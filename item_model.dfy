/** Queries over the items relation: lookup, the detail view and the search. */
module ItemModel {
  import opened Types
  import opened BidModel
  import Invariants

  /** findById: the item row with this id, if any. */
  function FindItem(t: Tables, itemId: int): (r: Option<Item>)
    ensures r.Some? <==> IsItemId(t, itemId)
    ensures r.Some? ==> r.value == ItemOf(t, itemId)
  {
    if IsItemId(t, itemId) then Some(ItemOf(t, itemId)) else None
  }

  // ---- getDetails ----

  /**
   * getDetails: None when there is no item with this id or when its creator
   * is not a user (the query joins on users); otherwise the item with its
   * creator's names and the top row of the item's bid history: the current
   * bid is that row's amount (the starting bid when there is none) and the
   * holder is that row's bidder.
   */
  function Details(t: Tables, itemId: int): (r: Option<ItemDetails>)
    ensures r.Some? <==> IsItemId(t, itemId) && IsUserId(t, ItemOf(t, itemId).creatorId)
    ensures r.Some? ==>
              var it := ItemOf(t, itemId);
              && r.value.itemId == itemId && r.value.name == it.name && r.value.description == it.description
              && r.value.startingBid == it.startingBid && r.value.startDate == it.startDate
              && r.value.endDate == it.endDate && r.value.creatorId == it.creatorId
              && r.value.firstName == UserOf(t, it.creatorId).firstName
              && r.value.lastName == UserOf(t, it.creatorId).lastName
    // no joined bid: the starting bid, nobody holds it
    ensures r.Some? && (forall k :: 0 <= k < |t.bids| ==> !(t.bids[k].itemId == itemId && IsUserId(t, t.bids[k].userId))) ==>
              r.value.currentBid == ItemOf(t, itemId).startingBid && r.value.currentBidHolder.None?
    // otherwise the largest joined amount, held by one of the bidders who offered it
    ensures r.Some? && r.value.currentBidHolder.Some? ==>
              && (forall k :: 0 <= k < |t.bids| && t.bids[k].itemId == itemId && IsUserId(t, t.bids[k].userId) ==>
                    t.bids[k].amount <= r.value.currentBid)
              && exists k :: 0 <= k < |t.bids| && t.bids[k].itemId == itemId && IsUserId(t, t.bids[k].userId)
                             && t.bids[k].amount == r.value.currentBid
                             && r.value.currentBidHolder.value
                                == BidHolder(t.bids[k].userId, UserOf(t, t.bids[k].userId).firstName,
                                             UserOf(t, t.bids[k].userId).lastName)
    ensures r.Some? ==> (r.value.currentBidHolder.None? <==>
              forall k :: 0 <= k < |t.bids| ==> !(t.bids[k].itemId == itemId && IsUserId(t, t.bids[k].userId)))
  {
    if !IsItemId(t, itemId) || !IsUserId(t, ItemOf(t, itemId).creatorId) then None
    else
      var it := ItemOf(t, itemId);
      var creator := UserOf(t, it.creatorId);
      var h := History(t, itemId);
      var rows := JoinedBids(t, t.bids, itemId);
      if h == [] then
        assert |multiset(rows)| == 0;
        assert rows == [];
        Some(ItemDetails(itemId, it.name, it.description, it.startingBid, it.startDate, it.endDate,
                         it.creatorId, creator.firstName, creator.lastName, it.startingBid, None))
      else
        var top := h[0];
        assert top in multiset(rows);
        forall k | 0 <= k < |t.bids| && t.bids[k].itemId == itemId && IsUserId(t, t.bids[k].userId)
          ensures t.bids[k].amount <= top.amount
        {
          assert RowOf(t, t.bids[k]) in multiset(h);
          var j :| 0 <= j < |h| && h[j] == RowOf(t, t.bids[k]);
        }
        Some(ItemDetails(itemId, it.name, it.description, it.startingBid, it.startDate, it.endDate,
                         it.creatorId, creator.firstName, creator.lastName,
                         top.amount, Some(BidHolder(top.userId, top.firstName, top.lastName))))
  }

  /**
   * In a consistent store the detail view's current bid is the item's
   * highest bid, or its starting bid when nobody has bid.
   */
  lemma DetailsCurrentBidIsHighest(t: Tables, itemId: int)
    requires Invariants.Consistent(t) && IsItemId(t, itemId)
    ensures Details(t, itemId).Some?
    ensures Details(t, itemId).value.currentBid == HighestBid(t.bids, itemId).GetOr(ItemOf(t, itemId).startingBid)
  {
    var d := Details(t, itemId).value;
    var hb := HighestBid(t.bids, itemId);
    if hb.Some? {
      var k :| 0 <= k < |t.bids| && t.bids[k].itemId == itemId && t.bids[k].amount == hb.value;
      assert IsUserId(t, t.bids[k].userId);
      assert d.currentBidHolder.Some?;
    }
  }

  // ---- search ----

  /** SQLite's LIKE folds ASCII letters only. */
  function FoldChar(c: char): (r: char)
    ensures 'A' <= c <= 'Z' ==> r as int == c as int + 32
    ensures !('A' <= c <= 'Z') ==> r == c
  {
    if 'A' <= c <= 'Z' then (c as int + 32) as char else c
  }

  function Fold(s: string): (r: string)
    ensures |r| == |s| && forall i :: 0 <= i < |s| ==> r[i] == FoldChar(s[i])
  {
    seq(|s|, i requires 0 <= i < |s| => FoldChar(s[i]))
  }

  /** `text LIKE '%q%'` when `q` holds no wildcard: `q` occurs in `text`, ignoring ASCII case. */
  predicate ContainsFolded(text: string, q: string) {
    exists i :: 0 <= i <= |text| - |q| && OccursAt(text, q, i)
  }

  predicate OccursAt(text: string, q: string, i: int)
    requires 0 <= i <= |text| - |q|
  {
    Fold(text)[i..i + |q|] == Fold(q)
  }

  /** Folding twice is folding once, so a pattern matches exactly when its folded form does. */
  lemma MatchIgnoresCaseOfPattern(text: string, q: string)
    ensures ContainsFolded(text, q) <==> ContainsFolded(text, Fold(q))
  {
    assert Fold(Fold(q)) == Fold(q);
    if ContainsFolded(text, q) {
      var i :| 0 <= i <= |text| - |q| && OccursAt(text, q, i);
      assert OccursAt(text, Fold(q), i);
    }
    if ContainsFolded(text, Fold(q)) {
      var i :| 0 <= i <= |text| - |Fold(q)| && OccursAt(text, Fold(q), i);
      assert OccursAt(text, q, i);
    }
  }

  /**
   * The conditions of a search: the status, the text and the viewer. An
   * absent status or q is the empty string: both are falsy, so the query
   * treats them alike.
   */
  datatype Filter = Filter(status: string, q: string, userId: Option<int>)

  /** The parameters the item controller hands to the search. */
  datatype SearchParams = SearchParams(filter: Filter, limit: JsInt, offset: JsInt)

  /**
   * The status condition of item `k`. A status other than the three known
   * ones adds no condition (the controller never passes one).
   */
  predicate StatusHolds(t: Tables, p: Filter, k: nat, now: int)
    requires k < |t.items|
  {
    var it := t.items[k];
    if p.status == "" then it.endDate > now
    else if p.status == "OPEN" then p.userId == Some(it.creatorId) && it.endDate > now
    else if p.status == "BID" then p.userId.Some? && HasBidBy(t, k + 1, p.userId.value) && it.endDate > now
    else if p.status == "ARCHIVE" then it.endDate <= now
    else true
  }

  predicate QueryHolds(t: Tables, p: Filter, k: nat)
    requires k < |t.items|
  {
    p.q == "" || ContainsFolded(t.items[k].name, p.q) || ContainsFolded(t.items[k].description, p.q)
  }

  /** Item `k` is a search hit: its creator joins, and the status and text conditions hold. */
  predicate Selected(t: Tables, p: Filter, k: nat, now: int)
    requires k < |t.items|
  {
    IsUserId(t, t.items[k].creatorId) && StatusHolds(t, p, k, now) && QueryHolds(t, p, k)
  }

  function SearchRowOf(t: Tables, k: nat): SearchRow
    requires k < |t.items| && IsUserId(t, t.items[k].creatorId)
  {
    var it := t.items[k];
    SearchRow(k + 1, it.name, it.description, it.startingBid, it.endDate, it.creatorId,
              UserOf(t, it.creatorId).firstName, UserOf(t, it.creatorId).lastName,
              HighestBid(t.bids, k + 1))
  }

  /** The hits among the first `n` items, one row per item, ordered by item id. */
  function Hits(t: Tables, p: Filter, now: int, n: nat): seq<SearchRow>
    requires n <= |t.items|
  {
    if n == 0 then []
    else
      var rest := Hits(t, p, now, n - 1);
      if Selected(t, p, n - 1, now) then rest + [SearchRowOf(t, n - 1)] else rest
  }

  /** Every hit among the first `n` items is one of them, selected, shown as stored. */
  lemma {:induction false} HitsRows(t: Tables, p: Filter, now: int, n: nat)
    requires n <= |t.items|
    ensures |Hits(t, p, now, n)| <= n
    ensures forall i :: 0 <= i < |Hits(t, p, now, n)| ==>
              var row := Hits(t, p, now, n)[i];
              1 <= row.itemId <= n && Selected(t, p, row.itemId - 1, now) && row == SearchRowOf(t, row.itemId - 1)
  {
    if n > 0 {
      HitsRows(t, p, now, n - 1);
    }
  }

  /** The hits are in strictly increasing item id order. */
  lemma {:induction false} HitsIncreasing(t: Tables, p: Filter, now: int, n: nat)
    requires n <= |t.items|
    ensures forall i, j :: 0 <= i < j < |Hits(t, p, now, n)| ==> Hits(t, p, now, n)[i].itemId < Hits(t, p, now, n)[j].itemId
  {
    if n > 0 {
      HitsRows(t, p, now, n - 1);
      HitsIncreasing(t, p, now, n - 1);
    }
  }

  /** No selected item among the first `n` is missing from the hits. */
  lemma {:induction false} HitsComplete(t: Tables, p: Filter, now: int, n: nat)
    requires n <= |t.items|
    ensures forall k :: 0 <= k < n && Selected(t, p, k, now) ==> SearchRowOf(t, k) in Hits(t, p, now, n)
  {
    if n > 0 {
      HitsComplete(t, p, now, n - 1);
    }
  }

  /** `params.limit || 10`: NaN and 0 are falsy. */
  function EffectiveLimit(limit: JsInt): (r: int)
    ensures r != 0
    ensures limit.Int? && limit.n != 0 ==> r == limit.n
    ensures limit.NaN? || limit == Int(0) ==> r == 10
  {
    match limit
    case NaN => 10
    case Int(n) => if n == 0 then 10 else n
  }

  /** `params.offset || 0`. */
  function EffectiveOffset(offset: JsInt): (r: int)
    ensures offset.Int? ==> r == offset.n
    ensures offset.NaN? ==> r == 0
  {
    match offset
    case NaN => 0
    case Int(n) => n
  }

  /**
   * `LIMIT limit OFFSET offset` as SQLite applies it: a negative offset
   * skips nothing and a negative limit keeps every remaining row.
   */
  function Window<T>(rows: seq<T>, limit: int, offset: int): (r: seq<T>)
    ensures var start := if offset < 0 then 0 else if offset > |rows| then |rows| else offset;
            && |r| == (if limit < 0 || limit > |rows| - start then |rows| - start else limit)
            && forall i :: 0 <= i < |r| ==> r[i] == rows[start + i]
  {
    var start := if offset < 0 then 0 else if offset > |rows| then |rows| else offset;
    var rest := rows[start..];
    if limit < 0 || limit > |rest| then rest else rest[..limit]
  }

  /** A window that starts at the beginning and is at least as long as the rows holds them all. */
  lemma WholeWindow<T>(rows: seq<T>, limit: int, offset: int)
    requires offset <= 0 && (limit < 0 || limit >= |rows|)
    ensures Window(rows, limit, offset) == rows
  {
  }

  /** Two consecutive pages of the same query make up one page of their combined size. */
  lemma PagesConcatenate<T>(rows: seq<T>, offset: nat, first: nat, second: nat)
    requires first > 0 && second > 0
    ensures Window(rows, first, offset) + Window(rows, second, offset + first)
            == Window(rows, first + second, offset)
  {
    var a, b, c := Window(rows, first, offset), Window(rows, second, offset + first), Window(rows, first + second, offset);
    assert |a + b| == |c|;
    forall i | 0 <= i < |c| ensures (a + b)[i] == c[i] {
      if i >= |a| {
        assert (a + b)[i] == b[i - |a|];
      }
    }
  }

  /**
   * search: the hits in item id order, cut to the requested page. Each row
   * carries the item's highest bid, or null when nobody has bid.
   */
  function Search(t: Tables, p: SearchParams, now: int): (r: seq<SearchRow>)
    ensures forall i :: 0 <= i < |r| ==>
              1 <= r[i].itemId <= |t.items| && Selected(t, p.filter, r[i].itemId - 1, now)
              && r[i] == SearchRowOf(t, r[i].itemId - 1)
    ensures forall i, j :: 0 <= i < j < |r| ==> r[i].itemId < r[j].itemId
    ensures EffectiveLimit(p.limit) > 0 ==> |r| <= EffectiveLimit(p.limit)
  {
    HitsRows(t, p.filter, now, |t.items|);
    HitsIncreasing(t, p.filter, now, |t.items|);
    Window(Hits(t, p.filter, now, |t.items|), EffectiveLimit(p.limit), EffectiveOffset(p.offset))
  }

  /** Every row of a search page means what its status asks for. */
  lemma SearchStatusMeaning(t: Tables, p: SearchParams, now: int)
    ensures forall i :: 0 <= i < |Search(t, p, now)| ==> HitMeaning(t, p.filter, Search(t, p, now)[i], now)
  {
    var r, f := Search(t, p, now), p.filter;
    forall i | 0 <= i < |r| ensures HitMeaning(t, f, r[i], now) {
      assert Selected(t, f, r[i].itemId - 1, now);
    }
  }

  /**
   * What a row of a search means for each status: without a status an
   * open auction; OPEN the viewer's own open auction; BID an open auction
   * the viewer bid on; ARCHIVE an ended auction. The current bid is the
   * item's highest bid.
   */
  predicate HitMeaning(t: Tables, f: Filter, row: SearchRow, now: int) {
    && (f.status == "" ==> row.endDate > now)
    && (f.status == "OPEN" ==> f.userId == Some(row.creatorId) && row.endDate > now)
    && (f.status == "BID" ==> f.userId.Some? && HasBidBy(t, row.itemId, f.userId.value) && row.endDate > now)
    && (f.status == "ARCHIVE" ==> row.endDate <= now)
    && row.currentBid == HighestBid(t.bids, row.itemId)
  }

  /**
   * A first page at least as large as the store (or a negative limit)
   * holds every hit: no matching item with a registered creator is missed.
   */
  lemma SearchComplete(t: Tables, p: SearchParams, now: int, k: nat)
    requires EffectiveOffset(p.offset) <= 0
    requires EffectiveLimit(p.limit) < 0 || EffectiveLimit(p.limit) >= |t.items|
    requires k < |t.items| && Selected(t, p.filter, k, now)
    ensures SearchRowOf(t, k) in Search(t, p, now)
  {
    var hits := Hits(t, p.filter, now, |t.items|);
    HitsComplete(t, p.filter, now, |t.items|);
    HitsRows(t, p.filter, now, |t.items|);
    WholeWindow(hits, EffectiveLimit(p.limit), EffectiveOffset(p.offset));
  }

  /** Paging through the search with a fixed page size visits consecutive runs of the same hits. */
  lemma SearchPagesConcatenate(t: Tables, f: Filter, now: int, offset: nat, first: nat, second: nat)
    requires first > 0 && second > 0
    ensures Search(t, SearchParams(f, Int(first), Int(offset)), now)
            + Search(t, SearchParams(f, Int(second), Int(offset + first)), now)
            == Search(t, SearchParams(f, Int(first + second), Int(offset)), now)
  {
    PagesConcatenate(Hits(t, f, now, |t.items|), offset, first, second);
  }
}
