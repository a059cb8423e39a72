/** Queries over the questions relation. */
module QuestionModel {
  import opened Types

  /**
   * findById: the question joined with the item it is about, carrying the
   * item's creator; None when there is no such question or its item is gone.
   */
  function FindQuestion(t: Tables, questionId: int): (r: Option<QuestionWithCreator>)
    ensures r.Some? <==> IsQuestionId(t, questionId) && IsItemId(t, QuestionOf(t, questionId).itemId)
    ensures r.Some? ==>
              var q := QuestionOf(t, questionId);
              r.value == QuestionWithCreator(questionId, q.text, q.answer, q.askedBy, q.itemId,
                                             ItemOf(t, q.itemId).creatorId)
  {
    if IsQuestionId(t, questionId) && IsItemId(t, QuestionOf(t, questionId).itemId) then
      var q := QuestionOf(t, questionId);
      Some(QuestionWithCreator(questionId, q.text, q.answer, q.askedBy, q.itemId, ItemOf(t, q.itemId).creatorId))
    else None
  }

  function RowOf(t: Tables, k: nat): QuestionRow
    requires k < |t.questions|
  {
    QuestionRow(k + 1, t.questions[k].text, t.questions[k].answer)
  }

  /** The questions on `itemId` among the first `n`, newest (highest id) first. */
  function Newest(t: Tables, itemId: int, n: nat): seq<QuestionRow>
    requires n <= |t.questions|
  {
    if n == 0 then []
    else
      var rest := Newest(t, itemId, n - 1);
      if t.questions[n - 1].itemId == itemId then [RowOf(t, n - 1)] + rest else rest
  }

  /** Every row in the list of the first `n` questions is one of them, on the item, as stored. */
  lemma {:induction false} NewestRowsStored(t: Tables, itemId: int, n: nat)
    requires n <= |t.questions|
    ensures forall i :: 0 <= i < |Newest(t, itemId, n)| ==>
              var row := Newest(t, itemId, n)[i];
              1 <= row.questionId <= n && t.questions[row.questionId - 1].itemId == itemId
              && row == RowOf(t, row.questionId - 1)
  {
    if n > 0 {
      NewestRowsStored(t, itemId, n - 1);
      var rest := Newest(t, itemId, n - 1);
      NewestUnfold(t, itemId, n);
      if t.questions[n - 1].itemId == itemId {
        var r := [RowOf(t, n - 1)] + rest;
        assert r[0] == RowOf(t, n - 1) && r[0].questionId == n;
        assert forall i :: 0 < i < |r| ==> r[i] == rest[i - 1];
      }
    }
  }

  /** The list of the first `n` questions is in strictly descending id order. */
  lemma {:induction false} NewestDescending(t: Tables, itemId: int, n: nat)
    requires n <= |t.questions|
    ensures forall i, j :: 0 <= i < j < |Newest(t, itemId, n)| ==>
              Newest(t, itemId, n)[i].questionId > Newest(t, itemId, n)[j].questionId
  {
    if n > 0 {
      NewestRowsStored(t, itemId, n - 1);
      NewestDescending(t, itemId, n - 1);
      var rest := Newest(t, itemId, n - 1);
      NewestUnfold(t, itemId, n);
      if t.questions[n - 1].itemId == itemId {
        var r := [RowOf(t, n - 1)] + rest;
        assert forall i :: 0 < i < |r| ==> r[i] == rest[i - 1] && r[i].questionId < n;
      }
    }
  }

  /** Every one of the first `n` questions that is on the item is in the list. */
  lemma {:induction false} NewestComplete(t: Tables, itemId: int, n: nat)
    requires n <= |t.questions|
    ensures forall k {:trigger RowOf(t, k)} :: 0 <= k < n && t.questions[k].itemId == itemId ==> RowOf(t, k) in Newest(t, itemId, n)
  {
    if n > 0 {
      NewestComplete(t, itemId, n - 1);
      var rest := Newest(t, itemId, n - 1);
      NewestUnfold(t, itemId, n);
      if t.questions[n - 1].itemId == itemId {
        var r := [RowOf(t, n - 1)] + rest;
        assert r[0] == RowOf(t, n - 1);
        assert forall x :: x in rest ==> x in r;
      }
    }
  }

  lemma NewestUnfold(t: Tables, itemId: int, n: nat)
    requires 0 < n <= |t.questions|
    ensures Newest(t, itemId, n)
            == if t.questions[n - 1].itemId == itemId then [RowOf(t, n - 1)] + Newest(t, itemId, n - 1)
               else Newest(t, itemId, n - 1)
  {
  }

  /**
   * getByItemId: every question on the item with its answer (null when
   * unanswered), in descending question id order.
   */
  function ByItem(t: Tables, itemId: int): (r: seq<QuestionRow>)
    ensures forall i :: 0 <= i < |r| ==>
              IsQuestionId(t, r[i].questionId) && QuestionOf(t, r[i].questionId).itemId == itemId
              && r[i].questionText == QuestionOf(t, r[i].questionId).text
              && r[i].answerText == QuestionOf(t, r[i].questionId).answer
    ensures forall i, j :: 0 <= i < j < |r| ==> r[i].questionId > r[j].questionId
    ensures forall id :: IsQuestionId(t, id) && QuestionOf(t, id).itemId == itemId ==>
              exists i :: 0 <= i < |r| && r[i].questionId == id
  {
    NewestRowsStored(t, itemId, |t.questions|);
    NewestDescending(t, itemId, |t.questions|);
    NewestComplete(t, itemId, |t.questions|);
    var r := Newest(t, itemId, |t.questions|);
    forall id | IsQuestionId(t, id) && QuestionOf(t, id).itemId == itemId
      ensures exists i :: 0 <= i < |r| && r[i].questionId == id
    {
      assert RowOf(t, id - 1) in r;
    }
    r
  }

  /** A question about another item leaves an item's list as it was. */
  lemma OtherItemsListUnchanged(t: Tables, q: Question, itemId: int)
    requires q.itemId != itemId
    ensures ByItem(t.(questions := t.questions + [q]), itemId) == ByItem(t, itemId)
  {
    NewestPrefix(t, q, itemId, |t.questions|);
  }

  /** A new question about the item heads that item's list; the rest is unchanged. */
  lemma NewQuestionListedFirst(t: Tables, q: Question)
    ensures ByItem(t.(questions := t.questions + [q]), q.itemId)
            == [QuestionRow(|t.questions| + 1, q.text, q.answer)] + ByItem(t, q.itemId)
  {
    NewestPrefix(t, q, q.itemId, |t.questions|);
  }

  lemma {:induction false} NewestPrefix(t: Tables, q: Question, itemId: int, n: nat)
    requires n <= |t.questions|
    ensures Newest(t.(questions := t.questions + [q]), itemId, n) == Newest(t, itemId, n)
  {
    if n > 0 {
      NewestPrefix(t, q, itemId, n - 1);
    }
  }
}
