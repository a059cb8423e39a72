/** Queries over the categories and the item-category pairs. */
module CategoryModel {
  import opened Types
  import Sorting

  function RowOf(t: Tables, id: int): CategoryRow
    requires IsCategoryId(t, id)
  {
    CategoryRow(id, CategoryOf(t, id).name, CategoryOf(t, id).description)
  }

  function NameLe(): (CategoryRow, CategoryRow) -> bool {
    (a: CategoryRow, b: CategoryRow) => Sorting.TextLe(a.name, b.name)
  }

  lemma NameLeTotalPreorder()
    ensures Sorting.TotalPreorder(NameLe())
  {
    forall a: CategoryRow, b: CategoryRow ensures NameLe()(a, b) || NameLe()(b, a) {
      Sorting.TextLeTotal(a.name, b.name);
    }
    forall a: CategoryRow, b: CategoryRow, c: CategoryRow | NameLe()(a, b) && NameLe()(b, c)
      ensures NameLe()(a, c)
    {
      Sorting.TextLeTransitive(a.name, b.name, c.name);
    }
  }

  /** The rows of the first `n` categories, in id order. */
  function Rows(t: Tables, n: nat): (r: seq<CategoryRow>)
    requires n <= |t.categories|
    ensures |r| == n && forall i :: 0 <= i < n ==> r[i] == RowOf(t, i + 1)
  {
    if n == 0 then [] else Rows(t, n - 1) + [RowOf(t, n)]
  }

  /** getAll: every category, in name order. */
  function AllCategories(t: Tables): (r: seq<CategoryRow>)
    ensures multiset(r) == multiset(Rows(t, |t.categories|))
    ensures forall i, j :: 0 <= i < j < |r| ==> Sorting.TextLe(r[i].name, r[j].name)
  {
    var rows := Rows(t, |t.categories|);
    NameLeTotalPreorder();
    Sorting.SortSorted(rows, NameLe());
    Sorting.Sort(rows, NameLe())
  }

  /** Every category is listed by getAll, and nothing else is. */
  lemma AllCategoriesListsEach(t: Tables)
    ensures forall id :: IsCategoryId(t, id) ==> RowOf(t, id) in AllCategories(t)
    ensures forall row :: row in AllCategories(t) ==> IsCategoryId(t, row.categoryId) && row == RowOf(t, row.categoryId)
  {
    var rows, r := Rows(t, |t.categories|), AllCategories(t);
    forall id | IsCategoryId(t, id) ensures RowOf(t, id) in r {
      assert rows[id - 1] == RowOf(t, id);
      assert RowOf(t, id) in multiset(rows);
    }
    forall row | row in r ensures IsCategoryId(t, row.categoryId) && row == RowOf(t, row.categoryId) {
      assert row in multiset(rows);
    }
  }

  /** findById: the category with this id, if any. */
  function FindCategory(t: Tables, id: int): (r: Option<CategoryRow>)
    ensures r.Some? <==> IsCategoryId(t, id)
    ensures r.Some? ==> r.value.categoryId == id && r.value.name == CategoryOf(t, id).name
                        && r.value.description == CategoryOf(t, id).description
  {
    if IsCategoryId(t, id) then Some(RowOf(t, id)) else None
  }

  /**
   * `categories JOIN item_categories WHERE item_id = itemId`, in pair order:
   * a pair naming a category that does not exist joins nothing.
   */
  function Joined(t: Tables, pairs: seq<(int, int)>, itemId: int): (r: seq<CategoryRow>)
    ensures forall i :: 0 <= i < |r| ==> IsCategoryId(t, r[i].categoryId) && r[i] == RowOf(t, r[i].categoryId)
                                         && (itemId, r[i].categoryId) in pairs
    ensures forall c :: (itemId, c) in pairs && IsCategoryId(t, c) ==> RowOf(t, c) in r
  {
    if pairs == [] then []
    else
      var init, last := pairs[..|pairs| - 1], pairs[|pairs| - 1];
      assert pairs == init + [last];
      var rest := Joined(t, init, itemId);
      if last.0 == itemId && IsCategoryId(t, last.1) then rest + [RowOf(t, last.1)] else rest
  }

  /** getByItem: the categories of the item, in name order. */
  function ByItem(t: Tables, itemId: int): (r: seq<CategoryRow>)
    ensures multiset(r) == multiset(Joined(t, t.itemCategories, itemId))
    ensures forall i, j :: 0 <= i < j < |r| ==> Sorting.TextLe(r[i].name, r[j].name)
  {
    var rows := Joined(t, t.itemCategories, itemId);
    NameLeTotalPreorder();
    Sorting.SortSorted(rows, NameLe());
    Sorting.Sort(rows, NameLe())
  }

  /** A category is listed for an item exactly when it exists and is paired with the item. */
  lemma ByItemMembership(t: Tables, itemId: int, c: int)
    ensures IsCategoryId(t, c) && (itemId, c) in t.itemCategories <==>
            IsCategoryId(t, c) && RowOf(t, c) in ByItem(t, itemId)
  {
    var rows, r := Joined(t, t.itemCategories, itemId), ByItem(t, itemId);
    if IsCategoryId(t, c) && RowOf(t, c) in r {
      assert RowOf(t, c) in multiset(rows);
      var i :| 0 <= i < |rows| && rows[i] == RowOf(t, c);
    }
    if IsCategoryId(t, c) && (itemId, c) in t.itemCategories {
      assert RowOf(t, c) in multiset(r);
    }
  }

  // ---- addToItem ----

  /** The ids in order of first occurrence, each once. */
  function Distinct(ids: seq<int>): (r: seq<int>)
    ensures forall x :: x in r <==> x in ids
    ensures forall i, j :: 0 <= i < j < |r| ==> r[i] != r[j]
  {
    if ids == [] then []
    else
      var init, last := ids[..|ids| - 1], ids[|ids| - 1];
      assert ids == init + [last];
      if last in init then Distinct(init) else Distinct(init) + [last]
  }

  predicate HasDuplicate(ids: seq<int>) {
    exists i, j :: 0 <= i < j < |ids| && ids[i] == ids[j]
  }

  /** A list has a duplicate exactly when removing repeats shortens it. */
  lemma {:induction false} DistinctShorterIffDuplicate(ids: seq<int>)
    ensures |Distinct(ids)| <= |ids|
    ensures HasDuplicate(ids) <==> |Distinct(ids)| < |ids|
  {
    if ids != [] {
      var init, last := ids[..|ids| - 1], ids[|ids| - 1];
      assert ids == init + [last];
      DistinctShorterIffDuplicate(init);
      if HasDuplicate(init) {
        var i, j :| 0 <= i < j < |init| && init[i] == init[j];
        assert ids[i] == ids[j];
      }
      if last in init {
        var i :| 0 <= i < |init| && init[i] == last;
        assert ids[i] == ids[|ids| - 1];
      } else if HasDuplicate(ids) {
        var i, j :| 0 <= i < j < |ids| && ids[i] == ids[j];
        assert ids[i] == init[i];
        if j < |ids| - 1 {
          assert init[i] == init[j];
        }
      }
    }
  }

  predicate PairsUnique(pairs: seq<(int, int)>) {
    forall i, j :: 0 <= i < j < |pairs| ==> pairs[i] != pairs[j]
  }

  /** `DELETE FROM item_categories WHERE item_id = itemId`: the pairs of every other item, in order. */
  function WithoutItem(pairs: seq<(int, int)>, itemId: int): (r: seq<(int, int)>)
    ensures forall p :: p in r <==> p in pairs && p.0 != itemId
    ensures PairsUnique(pairs) ==> PairsUnique(r)
  {
    if pairs == [] then []
    else
      var init, last := pairs[..|pairs| - 1], pairs[|pairs| - 1];
      assert pairs == init + [last];
      assert PairsUnique(pairs) ==> PairsUnique(init) && last !in init;
      if last.0 == itemId then WithoutItem(init, itemId) else WithoutItem(init, itemId) + [last]
  }

  function PairsFor(itemId: int, ids: seq<int>): (r: seq<(int, int)>)
    ensures |r| == |ids| && forall i :: 0 <= i < |ids| ==> r[i] == (itemId, ids[i])
  {
    if ids == [] then [] else PairsFor(itemId, ids[..|ids| - 1]) + [(itemId, ids[|ids| - 1])]
  }

  /** The item-category pairs after addToItem ran every insert of a non-empty list. */
  function ReplacePairs(pairs: seq<(int, int)>, itemId: int, ids: seq<int>): seq<(int, int)> {
    WithoutItem(pairs, itemId) + PairsFor(itemId, Distinct(ids))
  }

  /** After addToItem the item is paired with exactly the given ids. */
  lemma ReplacePairsNamesIds(pairs: seq<(int, int)>, itemId: int, ids: seq<int>)
    ensures forall c :: (itemId, c) in ReplacePairs(pairs, itemId, ids) <==> c in ids
  {
    var w, d := WithoutItem(pairs, itemId), Distinct(ids);
    var ps := PairsFor(itemId, d);
    forall c ensures (itemId, c) in w + ps <==> c in ids {
      if c in ids {
        var i :| 0 <= i < |d| && d[i] == c;
        assert ps[i] == (itemId, c);
      }
      if (itemId, c) in ps {
        var i :| 0 <= i < |ps| && ps[i] == (itemId, c);
        assert d[i] == c;
      }
    }
  }

  /** After addToItem every other item keeps exactly its pairs. */
  lemma ReplacePairsKeepsOthers(pairs: seq<(int, int)>, itemId: int, ids: seq<int>)
    ensures forall o, c :: o != itemId ==> ((o, c) in ReplacePairs(pairs, itemId, ids) <==> (o, c) in pairs)
  {
    var ps := PairsFor(itemId, Distinct(ids));
    forall o, c | o != itemId ensures (o, c) in WithoutItem(pairs, itemId) + ps <==> (o, c) in pairs {
      assert (o, c) !in ps;
    }
  }

  /** addToItem never stores the same pair twice. */
  lemma ReplacePairsUnique(pairs: seq<(int, int)>, itemId: int, ids: seq<int>)
    requires PairsUnique(pairs)
    ensures PairsUnique(ReplacePairs(pairs, itemId, ids))
  {
    var w, ps := WithoutItem(pairs, itemId), PairsFor(itemId, Distinct(ids));
    var r := w + ps;
    forall i, j | 0 <= i < j < |r| ensures r[i] != r[j] {
      if j >= |w| && i >= |w| {
        assert ps[i - |w|] != ps[j - |w|];
      } else if j >= |w| {
        assert r[i] in w;
      }
    }
  }
}
