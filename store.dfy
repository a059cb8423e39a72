/**
 * The SQLite store as one object: a table per field, each write a method.
 *
 * Inserts append a row whose id is the new length of its table (the tables
 * are AUTOINCREMENT and nothing is ever deleted). Constraints the database
 * enforces itself (UNIQUE email, the bids and item-category primary keys)
 * make the write fail and leave the table as it was. Foreign keys are not
 * enforced: SQLite leaves them off unless a connection turns them on.
 */
module Store {
  import opened Types
  import Invariants
  import UserModel
  import CategoryModel

  /** The categories seeded when the categories table is first created, in insertion order. */
  const DefaultCategories: seq<Category> := [
    Category("Alkali Metals", "Highly reactive metals in Group 1 of the periodic table"),
    Category("Alkaline Earth Metals", "Reactive metals in Group 2 of the periodic table"),
    Category("Transition Metals", "Metals in Groups 3\U{2013}12 with variable oxidation states"),
    Category("Post-Transition Metals", "Metals with lower melting points and higher electronegativity"),
    Category("Metalloids", "Elements with properties of both metals and nonmetals"),
    Category("Nonmetals", "Elements that lack metallic characteristics"),
    Category("Halogens", "Highly reactive nonmetals in Group 17"),
    Category("Noble Gases", "Inert gases with full valence electron shells"),
    Category("Lanthanides", "Rare earth elements with atomic numbers 57\U{2013}71"),
    Category("Actinides", "Radioactive elements with atomic numbers 89\U{2013}103")
  ]

  /** Every user holding `token` loses it; everybody else is untouched. */
  function ClearToken(users: seq<User>, token: string): (r: seq<User>)
    ensures |r| == |users|
    ensures forall k :: 0 <= k < |users| ==>
              r[k] == if users[k].sessionToken == Some(token) then users[k].(sessionToken := None) else users[k]
  {
    seq(|users|, k requires 0 <= k < |users| =>
      if users[k].sessionToken == Some(token) then users[k].(sessionToken := None) else users[k])
  }

  class Db {
    var users: seq<User>
    var items: seq<Item>
    var bids: seq<Bid>
    var questions: seq<Question>
    var categories: seq<Category>
    var itemCategories: seq<(int, int)>

    /** The contents of every table. */
    function State(): Tables
      reads this
    {
      Tables(users, items, bids, questions, categories, itemCategories)
    }

    ghost predicate Valid()
      reads this
    {
      Invariants.Consistent(State())
    }

    /** A fresh database: the tables are created and the default categories seeded. */
    constructor ()
      ensures State() == Tables([], [], [], [], DefaultCategories, [])
      ensures Valid()
    {
      users, items, bids, questions := [], [], [], [];
      categories, itemCategories := DefaultCategories, [];
    }

    /** user create: a new user with no token, or None when the e-mail is taken. */
    method InsertUser(u: User) returns (id: Option<int>)
      modifies this
      ensures UserModel.FindByEmail(old(State()), u.email).Some? ==> id.None? && State() == old(State())
      ensures UserModel.FindByEmail(old(State()), u.email).None? ==>
                id == Some(|old(users)| + 1)
                && State() == old(State()).(users := old(users) + [u.(sessionToken := None)])
    {
      if UserModel.FindByEmail(State(), u.email).Some? {
        id := None;
      } else {
        users := users + [u.(sessionToken := None)];
        id := Some(|users|);
      }
    }

    /** updateSessionToken: set the token of that user only (no row when the id is unknown). */
    method UpdateSessionToken(userId: int, token: string)
      modifies this
      ensures IsUserId(old(State()), userId) ==>
                State() == old(State()).(users := old(users)[userId - 1 := old(users)[userId - 1].(sessionToken := Some(token))])
      ensures !IsUserId(old(State()), userId) ==> State() == old(State())
    {
      if 1 <= userId <= |users| {
        users := users[userId - 1 := users[userId - 1].(sessionToken := Some(token))];
      }
    }

    /** clearSessionToken: null the token of every user holding it; true iff a row changed. */
    method ClearSessionToken(token: string) returns (changed: bool)
      modifies this
      ensures State() == old(State()).(users := ClearToken(old(users), token))
      ensures changed <==> UserModel.FindBySessionToken(old(State()), token).Some?
    {
      changed := UserModel.FindBySessionToken(State(), token).Some?;
      users := ClearToken(users, token);
    }

    /** item create: the new item's id; `startDate` is the clock at insertion. */
    method InsertItem(it: Item) returns (id: int)
      modifies this
      ensures id == |old(items)| + 1
      ensures State() == old(State()).(items := old(items) + [it])
    {
      items := items + [it];
      id := |items|;
    }

    /** bid create: append the bid, or fail when the same (item, user, amount) is stored. */
    method InsertBid(b: Bid) returns (ok: bool)
      modifies this
      ensures ok <==> forall k :: 0 <= k < |old(bids)| ==>
                        (old(bids)[k].itemId, old(bids)[k].userId, old(bids)[k].amount) != (b.itemId, b.userId, b.amount)
      ensures ok ==> State() == old(State()).(bids := old(bids) + [b])
      ensures !ok ==> State() == old(State())
    {
      ok := forall k :: 0 <= k < |bids| ==> (bids[k].itemId, bids[k].userId, bids[k].amount) != (b.itemId, b.userId, b.amount);
      if ok {
        bids := bids + [b];
      }
    }

    /** question create: the new question's id. */
    method InsertQuestion(q: Question) returns (id: int)
      modifies this
      ensures id == |old(questions)| + 1
      ensures State() == old(State()).(questions := old(questions) + [q])
    {
      questions := questions + [q];
      id := |questions|;
    }

    /** answer: overwrite that question's answer; true iff the question exists. */
    method SetAnswer(questionId: int, text: string) returns (changed: bool)
      modifies this
      ensures changed <==> IsQuestionId(old(State()), questionId)
      ensures changed ==>
                State() == old(State()).(questions := old(questions)[questionId - 1 := old(questions)[questionId - 1].(answer := Some(text))])
      ensures !changed ==> State() == old(State())
    {
      changed := 1 <= questionId <= |questions|;
      if changed {
        questions := questions[questionId - 1 := questions[questionId - 1].(answer := Some(text))];
      }
    }

    /**
     * addToItem: with a non-empty list, delete the item's pairs, then run
     * one insert per id in order. Every insert is queued before any callback
     * runs, so an insert that fails (a repeated id breaks the primary key)
     * does not stop the later ones. `errors` lists the callback calls: true
     * for a call carrying an error, false for the success call.
     */
    method AddCategoriesToItem(itemId: int, ids: seq<int>) returns (errors: seq<bool>)
      modifies this
      ensures |ids| == 0 ==> errors == [false] && State() == old(State())
      ensures |ids| > 0 ==>
                State() == old(State()).(itemCategories := CategoryModel.ReplacePairs(old(itemCategories), itemId, ids))
      ensures |errors| == 1
      ensures |ids| > 0 ==> (errors[0] <==> CategoryModel.HasDuplicate(ids))
    {
      if |ids| == 0 {
        errors := [false];
        return;
      }
      var base := CategoryModel.WithoutItem(itemCategories, itemId);
      itemCategories := base;
      var completed, hasError := 0, false;
      errors := [];
      var i := 0;
      while i < |ids|
        invariant 0 <= i <= |ids|
        invariant users == old(users) && items == old(items) && bids == old(bids)
        invariant questions == old(questions) && categories == old(categories)
        invariant InsertRun(itemCategories, hasError, completed, errors) == InsertAll(base, itemId, ids[..i], |ids|)
      {
        var pair := (itemId, ids[i]);
        var err := pair in itemCategories;
        if !err {
          itemCategories := itemCategories + [pair];
        }
        if err && !hasError {
          hasError := true;
          errors := errors + [true];
        } else {
          completed := completed + 1;
          if completed == |ids| && !hasError {
            errors := errors + [false];
          }
        }
        InsertAllSnoc(base, itemId, ids, i, |ids|);
        i := i + 1;
      }
      assert ids[..|ids|] == ids;
      InsertAllPairs(base, itemId, ids, |ids|);
      InsertAllCallbacks(base, itemId, ids, |ids|);
    }
  }

  /** What the inserts of addToItem have done so far: the pairs, whether one failed, how many completed, the callback calls. */
  datatype InsertRun = InsertRun(pairs: seq<(int, int)>, hasError: bool, completed: int, errors: seq<bool>)

  /** One insert and its callback: a pair already present fails; only the first failure reaches the callback. */
  function InsertNext(r: InsertRun, itemId: int, c: int, n: int): InsertRun {
    var err := (itemId, c) in r.pairs;
    var pairs := if err then r.pairs else r.pairs + [(itemId, c)];
    if err && !r.hasError then InsertRun(pairs, true, r.completed, r.errors + [true])
    else
      var completed := r.completed + 1;
      InsertRun(pairs, r.hasError, completed, if completed == n && !r.hasError then r.errors + [false] else r.errors)
  }

  /** The inserts of `ids`, one after the other, starting from `base`. */
  function InsertAll(base: seq<(int, int)>, itemId: int, ids: seq<int>, n: int): InsertRun
    decreases |ids|
  {
    if ids == [] then InsertRun(base, false, 0, [])
    else InsertNext(InsertAll(base, itemId, ids[..|ids| - 1], n), itemId, ids[|ids| - 1], n)
  }

  lemma InsertAllSnoc(base: seq<(int, int)>, itemId: int, ids: seq<int>, i: nat, n: int)
    requires i < |ids|
    ensures InsertAll(base, itemId, ids[..i + 1], n) == InsertNext(InsertAll(base, itemId, ids[..i], n), itemId, ids[i], n)
  {
    assert ids[..i + 1][..i] == ids[..i];
  }

  /**
   * After the inserts of `ids` on top of pairs naming other items, the item
   * is paired with each distinct id once, in first-seen order, and an error
   * happened exactly when an id repeats.
   */
  lemma {:induction false} InsertAllPairs(base: seq<(int, int)>, itemId: int, ids: seq<int>, n: int)
    requires forall p :: p in base ==> p.0 != itemId
    ensures var r := InsertAll(base, itemId, ids, n);
            && r.pairs == base + CategoryModel.PairsFor(itemId, CategoryModel.Distinct(ids))
            && (r.hasError <==> CategoryModel.HasDuplicate(ids))
    decreases |ids|
  {
    if ids != [] {
      var seen, c := ids[..|ids| - 1], ids[|ids| - 1];
      assert ids == seen + [c];
      InsertAllPairs(base, itemId, seen, n);
      InsertStep(base, itemId, seen, c);
    }
  }

  /**
   * Of `n` queued inserts, after the first `|ids|`: every one completed but
   * the failed one, and the callback was called once with the first error,
   * or once with success when all `n` completed.
   */
  lemma {:induction false} InsertAllCallbacks(base: seq<(int, int)>, itemId: int, ids: seq<int>, n: int)
    requires |ids| <= n
    ensures var r := InsertAll(base, itemId, ids, n);
            && r.completed == (if r.hasError then |ids| - 1 else |ids|)
            && r.errors == CallbackLog(r.hasError, r.completed, n)
    decreases |ids|
  {
    if ids != [] {
      InsertAllCallbacks(base, itemId, ids[..|ids| - 1], n);
    }
  }

  /**
   * The callback calls made so far: one carrying the error as soon as an
   * insert fails, or the success call once every insert has completed.
   */
  function CallbackLog(hasError: bool, completed: int, n: int): seq<bool> {
    if hasError then [true] else if 0 < completed == n then [false] else []
  }

  lemma PairsForSnoc(itemId: int, d: seq<int>, c: int)
    ensures CategoryModel.PairsFor(itemId, d + [c]) == CategoryModel.PairsFor(itemId, d) + [(itemId, c)]
  {
    assert (d + [c])[..|d|] == d;
  }

  /**
   * One insert of the loop: (itemId, c) is already present exactly when `c`
   * was seen before, and the item's pairs grow by (itemId, c) otherwise.
   */
  lemma InsertStep(base: seq<(int, int)>, itemId: int, seen: seq<int>, c: int)
    requires forall p :: p in base ==> p.0 != itemId
    ensures var before := base + CategoryModel.PairsFor(itemId, CategoryModel.Distinct(seen));
            var after := base + CategoryModel.PairsFor(itemId, CategoryModel.Distinct(seen + [c]));
            && ((itemId, c) in before <==> c in seen)
            && after == (if c in seen then before else before + [(itemId, c)])
            && (CategoryModel.HasDuplicate(seen + [c]) <==> CategoryModel.HasDuplicate(seen) || c in seen)
  {
    PairPresentIffSeen(base, itemId, seen, c);
    DistinctStep(seen, c);
    DuplicateStep(seen, c);
    if c !in seen {
      PairsForSnoc(itemId, CategoryModel.Distinct(seen), c);
    }
  }

  /** Inserting (itemId, c) fails exactly when `c` was already inserted in this run. */
  lemma PairPresentIffSeen(base: seq<(int, int)>, itemId: int, seen: seq<int>, c: int)
    requires forall p :: p in base ==> p.0 != itemId
    ensures (itemId, c) in base + CategoryModel.PairsFor(itemId, CategoryModel.Distinct(seen)) <==> c in seen
  {
    var d := CategoryModel.Distinct(seen);
    var ps := CategoryModel.PairsFor(itemId, d);
    if c in seen {
      var i :| 0 <= i < |d| && d[i] == c;
      assert ps[i] == (itemId, c);
    }
    if (itemId, c) in base + ps {
      var i :| 0 <= i < |ps| && ps[i] == (itemId, c);
      assert d[i] == c;
    }
  }

  /** How the distinct ids grow by one id. */
  lemma DistinctStep(seen: seq<int>, c: int)
    ensures CategoryModel.Distinct(seen + [c])
            == if c in seen then CategoryModel.Distinct(seen) else CategoryModel.Distinct(seen) + [c]
  {
    assert (seen + [c])[..|seen|] == seen;
  }

  /** A duplicate among the ids seen so far, after one more id. */
  lemma DuplicateStep(seen: seq<int>, c: int)
    ensures CategoryModel.HasDuplicate(seen + [c]) <==> CategoryModel.HasDuplicate(seen) || c in seen
  {
    var s := seen + [c];
    if CategoryModel.HasDuplicate(seen) {
      var a, b :| 0 <= a < b < |seen| && seen[a] == seen[b];
      assert s[a] == s[b];
    }
    if c in seen {
      var a :| 0 <= a < |seen| && seen[a] == c;
      assert s[a] == s[|seen|];
    }
    if CategoryModel.HasDuplicate(s) {
      var a, b :| 0 <= a < b < |s| && s[a] == s[b];
      assert s[a] == seen[a];
      if b < |seen| {
        assert seen[a] == seen[b];
      }
    }
  }
}
