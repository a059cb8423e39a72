/** Asking a question about an item, answering it, and listing an item's questions. */
module QuestionController {
  import opened Types
  import opened JsNumbers
  import opened Validators
  import Profanity
  import ItemModel
  import QuestionModel
  import Invariants
  import Store

  /**
   * The guard chain of question create, in order: a non-numeric item id
   * (404), the schema (400), a key not allowed (400), an unknown item (404),
   * the asker being the item's creator (403), profanity in the text (400).
   * The question to store is unanswered.
   */
  function CheckAsk(t: Tables, itemParam: string, body: Body, userId: int, env: Env): (d: Decision<Question>)
    ensures d.Proceed? <==>
              && ParseInt(itemParam).Int?
              && Validate(QuestionCreateSchema, body, env).None?
              && IsItemId(t, ParseInt(itemParam).n)
              && ItemOf(t, ParseInt(itemParam).n).creatorId != userId
              && !Profanity.ContainsProfanity(Str(body, "question_text"), env.profane)
    ensures d.Proceed? ==> d.value == Question(Str(body, "question_text"), None, userId, ParseInt(itemParam).n)
    ensures ParseInt(itemParam).NaN? ==> d == Respond(Response(404, ErrorMessage("Item not found!")))
    ensures ParseInt(itemParam).Int? && Validate(QuestionCreateSchema, body, env).Some? ==>
              d == Respond(Response(400, SchemaRejected(Validate(QuestionCreateSchema, body, env).value)))
    ensures ParseInt(itemParam).Int? && Validate(QuestionCreateSchema, body, env).None? && !IsItemId(t, ParseInt(itemParam).n) ==>
              d == Respond(Response(404, ErrorMessage("Item not found!")))
    ensures ParseInt(itemParam).Int? && Validate(QuestionCreateSchema, body, env).None? && IsItemId(t, ParseInt(itemParam).n)
            && ItemOf(t, ParseInt(itemParam).n).creatorId == userId ==>
              d == Respond(Response(403, ErrorMessage("Cannot ask question on your own item, surely you should already know the answer?!")))
    ensures d.Respond? && d.response.status == 400 && Validate(QuestionCreateSchema, body, env).None? ==>
              d.response == Response(400, ErrorMessage("Inappropriate language detected in question!"))
  {
    match ParseInt(itemParam)
    case NaN => Respond(Response(404, ErrorMessage("Item not found!")))
    case Int(itemId) =>
      match Validate(QuestionCreateSchema, body, env)
      case Some(e) => Respond(Response(400, SchemaRejected(e)))
      case None =>
        AllowListIsRedundant(QuestionCreateSchema, body, env, ["question_text"]);
        if HasExtraFields(body, ["question_text"]) then
          Respond(Response(400, ErrorMessage("Extra fields not allowed, what are you trying to do? :/ ")))
        else match ItemModel.FindItem(t, itemId)
          case None => Respond(Response(404, ErrorMessage("Item not found!")))
          case Some(item) =>
            if item.creatorId == userId then
              Respond(Response(403, ErrorMessage("Cannot ask question on your own item, surely you should already know the answer?!")))
            else if Profanity.FirstProfaneField([("question_text", Str(body, "question_text"))], env.profane).Some? then
              Respond(Response(400, ErrorMessage("Inappropriate language detected in question!")))
            else
              assert !Profanity.ContainsProfanity([("question_text", Str(body, "question_text"))][0].1, env.profane);
              Proceed(Question(Str(body, "question_text"), None, userId, itemId))
  }

  /** A question on an existing item by a registered user other than its creator keeps the store consistent. */
  lemma AppendQuestionKeepsConsistent(t: Tables, q: Question)
    requires Invariants.Consistent(t) && IsItemId(t, q.itemId) && IsUserId(t, q.askedBy)
    requires q.askedBy != ItemOf(t, q.itemId).creatorId
    ensures Invariants.Consistent(t.(questions := t.questions + [q]))
  {
    var t' := t.(questions := t.questions + [q]);
    assert forall k :: 0 <= k < |t.questions| ==> t'.questions[k] == t.questions[k];
    assert Invariants.QuestionsWellFormed(t');
  }

  /** question create: run the guard chain and store the question; 200 with the new id. */
  method Ask(db: Store.Db, itemParam: string, body: Body, userId: int, env: Env) returns (resp: Response)
    requires db.Valid() && IsUserId(db.State(), userId)
    modifies db
    ensures db.Valid()
    ensures var d := CheckAsk(old(db.State()), itemParam, body, userId, env);
            if d.Proceed? then
              resp == Response(200, QuestionCreated(|old(db.State()).questions| + 1))
              && db.State() == old(db.State()).(questions := old(db.State()).questions + [d.value])
            else resp == d.response && db.State() == old(db.State())
  {
    var d := CheckAsk(db.State(), itemParam, body, userId, env);
    if d.Respond? {
      return d.response;
    }
    AppendQuestionKeepsConsistent(db.State(), d.value);
    var id := db.InsertQuestion(d.value);
    resp := Response(200, QuestionCreated(id));
  }

  /** A question just asked heads its item's list, unanswered, above every earlier question. */
  lemma AskedQuestionListedFirst(t: Tables, itemParam: string, body: Body, userId: int, env: Env)
    requires CheckAsk(t, itemParam, body, userId, env).Proceed?
    ensures var q := CheckAsk(t, itemParam, body, userId, env).value;
            QuestionModel.ByItem(t.(questions := t.questions + [q]), q.itemId)
            == [QuestionRow(|t.questions| + 1, Str(body, "question_text"), None)] + QuestionModel.ByItem(t, q.itemId)
  {
    var q := CheckAsk(t, itemParam, body, userId, env).value;
    QuestionModel.NewQuestionListedFirst(t, q);
  }

  /**
   * The guard chain of answer, in order: a non-numeric question id (404),
   * the schema (400), a key not allowed (400), an unknown question (404),
   * an answerer who is not the item's creator (403), profanity in the
   * answer (400). Otherwise the question id and the answer text.
   */
  function CheckAnswer(t: Tables, questionParam: string, body: Body, userId: int, env: Env): (d: Decision<(int, string)>)
    ensures d.Proceed? <==>
              && ParseInt(questionParam).Int?
              && Validate(AnswerCreateSchema, body, env).None?
              && QuestionModel.FindQuestion(t, ParseInt(questionParam).n).Some?
              && QuestionModel.FindQuestion(t, ParseInt(questionParam).n).value.creatorId == userId
              && !Profanity.ContainsProfanity(Str(body, "answer_text"), env.profane)
    ensures d.Proceed? ==> d.value == (ParseInt(questionParam).n, Str(body, "answer_text"))
    ensures d.Proceed? ==> IsQuestionId(t, d.value.0) && ItemOf(t, QuestionOf(t, d.value.0).itemId).creatorId == userId
    ensures ParseInt(questionParam).NaN? ==> d == Respond(Response(404, ErrorMessage("Question not found!")))
    ensures ParseInt(questionParam).Int? && Validate(AnswerCreateSchema, body, env).Some? ==>
              d == Respond(Response(400, SchemaRejected(Validate(AnswerCreateSchema, body, env).value)))
    ensures ParseInt(questionParam).Int? && Validate(AnswerCreateSchema, body, env).None?
            && QuestionModel.FindQuestion(t, ParseInt(questionParam).n).None? ==>
              d == Respond(Response(404, ErrorMessage("Question not found!")))
    ensures ParseInt(questionParam).Int? && Validate(AnswerCreateSchema, body, env).None?
            && QuestionModel.FindQuestion(t, ParseInt(questionParam).n).Some?
            && QuestionModel.FindQuestion(t, ParseInt(questionParam).n).value.creatorId != userId ==>
              d == Respond(Response(403, ErrorMessage("Only the item creator can answer questions, do not try to speak on their behalf!")))
    ensures d.Respond? && d.response.status == 400 && Validate(AnswerCreateSchema, body, env).None? ==>
              d.response == Response(400, ErrorMessage("Inappropriate language detected in answer!"))
  {
    match ParseInt(questionParam)
    case NaN => Respond(Response(404, ErrorMessage("Question not found!")))
    case Int(questionId) =>
      match Validate(AnswerCreateSchema, body, env)
      case Some(e) => Respond(Response(400, SchemaRejected(e)))
      case None =>
        AllowListIsRedundant(AnswerCreateSchema, body, env, ["answer_text"]);
        if HasExtraFields(body, ["answer_text"]) then
          Respond(Response(400, ErrorMessage("Extra fields not allowed!")))
        else match QuestionModel.FindQuestion(t, questionId)
          case None => Respond(Response(404, ErrorMessage("Question not found!")))
          case Some(q) =>
            if q.creatorId != userId then
              Respond(Response(403, ErrorMessage("Only the item creator can answer questions, do not try to speak on their behalf!")))
            else if Profanity.FirstProfaneField([("answer_text", Str(body, "answer_text"))], env.profane).Some? then
              Respond(Response(400, ErrorMessage("Inappropriate language detected in answer!")))
            else
              assert !Profanity.ContainsProfanity([("answer_text", Str(body, "answer_text"))][0].1, env.profane);
              Proceed((questionId, Str(body, "answer_text")))
  }

  /** The questions after answering question `questionId` with `text`. */
  function Answered(questions: seq<Question>, questionId: int, text: string): (r: seq<Question>)
    requires 1 <= questionId <= |questions|
    ensures |r| == |questions|
    ensures r[questionId - 1].answer == Some(text)
    ensures forall k :: 0 <= k < |r| ==>
              r[k].text == questions[k].text && r[k].askedBy == questions[k].askedBy && r[k].itemId == questions[k].itemId
    ensures forall k :: 0 <= k < |r| && k != questionId - 1 ==> r[k] == questions[k]
  {
    questions[questionId - 1 := questions[questionId - 1].(answer := Some(text))]
  }

  /** Setting an answer changes no key and no reference, so the store stays consistent. */
  lemma AnswerKeepsConsistent(t: Tables, questionId: int, text: string)
    requires Invariants.Consistent(t) && IsQuestionId(t, questionId)
    ensures Invariants.Consistent(t.(questions := Answered(t.questions, questionId, text)))
  {
    var t' := t.(questions := Answered(t.questions, questionId, text));
    assert Invariants.QuestionsWellFormed(t');
  }

  /**
   * answer: run the guard chain and overwrite the question's answer (an
   * earlier answer is replaced); 200.
   */
  method AnswerQuestion(db: Store.Db, questionParam: string, body: Body, userId: int, env: Env) returns (resp: Response)
    requires db.Valid()
    modifies db
    ensures db.Valid()
    ensures var d := CheckAnswer(old(db.State()), questionParam, body, userId, env);
            if d.Proceed? then
              resp == Response(200, Message("Answer added successfully!"))
              && db.State() == old(db.State()).(questions := Answered(old(db.State()).questions, d.value.0, d.value.1))
            else resp == d.response && db.State() == old(db.State())
  {
    var d := CheckAnswer(db.State(), questionParam, body, userId, env);
    if d.Respond? {
      return d.response;
    }
    AnswerKeepsConsistent(db.State(), d.value.0, d.value.1);
    var _ := db.SetAnswer(d.value.0, d.value.1);
    resp := Response(200, Message("Answer added successfully!"));
  }

  /** A listed question row once question `questionId` is answered with `text`. */
  function AnswerRows(rows: seq<QuestionRow>, questionId: int, text: string): (r: seq<QuestionRow>)
    ensures |r| == |rows|
  {
    if rows == [] then []
    else
      var row := if rows[0].questionId == questionId then rows[0].(answerText := Some(text)) else rows[0];
      [row] + AnswerRows(rows[1..], questionId, text)
  }

  /**
   * Answering the rows keeps every row's id and question text and changes
   * only the answer of the answered question.
   */
  lemma {:induction false} AnswerRowsPointwise(rows: seq<QuestionRow>, questionId: int, text: string)
    ensures var r := AnswerRows(rows, questionId, text);
            forall i :: 0 <= i < |r| ==>
              r[i].questionId == rows[i].questionId && r[i].questionText == rows[i].questionText
              && r[i].answerText == if rows[i].questionId == questionId then Some(text) else rows[i].answerText
  {
    if rows != [] {
      AnswerRowsPointwise(rows[1..], questionId, text);
    }
  }

  /**
   * After an answer, the item's list shows the same questions in the same
   * order, with the new answer on the answered one and every other answer
   * as it was.
   */
  lemma AnswerShownInList(t: Tables, questionId: int, text: string)
    requires IsQuestionId(t, questionId)
    ensures var t' := t.(questions := Answered(t.questions, questionId, text));
            var itemId := QuestionOf(t, questionId).itemId;
            QuestionModel.ByItem(t', itemId) == AnswerRows(QuestionModel.ByItem(t, itemId), questionId, text)
  {
    var t' := t.(questions := Answered(t.questions, questionId, text));
    NewestAfterAnswer(t, t', questionId, text, QuestionOf(t, questionId).itemId, |t.questions|);
  }

  lemma {:induction false} NewestAfterAnswer(t: Tables, t': Tables, questionId: int, text: string, itemId: int, n: nat)
    requires IsQuestionId(t, questionId) && n <= |t.questions|
    requires t' == t.(questions := Answered(t.questions, questionId, text))
    ensures QuestionModel.Newest(t', itemId, n) == AnswerRows(QuestionModel.Newest(t, itemId, n), questionId, text)
    decreases n
  {
    if n > 0 {
      NewestAfterAnswer(t, t', questionId, text, itemId, n - 1);
      NewestAnswerStep(t, t', questionId, text, itemId, n);
    } else {
      NewestNone(t, t', itemId);
    }
  }

  /** One step of the induction above: the claim for the first `n - 1` questions gives it for the first `n`. */
  lemma NewestAnswerStep(t: Tables, t': Tables, questionId: int, text: string, itemId: int, n: nat)
    requires IsQuestionId(t, questionId) && 0 < n <= |t.questions|
    requires t' == t.(questions := Answered(t.questions, questionId, text))
    requires QuestionModel.Newest(t', itemId, n - 1) == AnswerRows(QuestionModel.Newest(t, itemId, n - 1), questionId, text)
    ensures QuestionModel.Newest(t', itemId, n) == AnswerRows(QuestionModel.Newest(t, itemId, n), questionId, text)
  {
    var row := AnsweredHead(t, questionId, text, itemId, n);
    NewestAnsweredStep(t, t', questionId, text, itemId, n, row);
    SameHeadSameList(QuestionModel.Newest(t', itemId, n), AnswerRows(QuestionModel.Newest(t, itemId, n), questionId, text),
                     row, QuestionModel.Newest(t', itemId, n - 1), AnswerRows(QuestionModel.Newest(t, itemId, n - 1), questionId, text));
  }

  lemma SameHeadSameList(a: seq<QuestionRow>, b: seq<QuestionRow>, row: seq<QuestionRow>, c: seq<QuestionRow>, d: seq<QuestionRow>)
    requires a == row + c
    requires b == row + d
    requires c == d
    ensures a == b
  {
  }

  lemma NewestNone(t: Tables, t': Tables, itemId: int)
    ensures QuestionModel.Newest(t', itemId, 0) == [] == QuestionModel.Newest(t, itemId, 0)
  {
  }

  /** The row question `n` adds to the item's list, once answered: none when it is about another item. */
  function HeadRow(t: Tables, questionId: int, text: string, itemId: int, n: nat): seq<QuestionRow>
    requires 0 < n <= |t.questions|
  {
    var r := QuestionModel.RowOf(t, n - 1);
    if t.questions[n - 1].itemId != itemId then []
    else if r.questionId == questionId then [r.(answerText := Some(text))]
    else [r]
  }

  /** Answering the rows of the first `n` questions: the head row answered, then the rest answered. */
  lemma AnsweredHead(t: Tables, questionId: int, text: string, itemId: int, n: nat) returns (row: seq<QuestionRow>)
    requires 0 < n <= |t.questions|
    ensures row == HeadRow(t, questionId, text, itemId, n)
    ensures AnswerRows(QuestionModel.Newest(t, itemId, n), questionId, text)
            == row + AnswerRows(QuestionModel.Newest(t, itemId, n - 1), questionId, text)
  {
    row := HeadRow(t, questionId, text, itemId, n);
    var before := QuestionModel.Newest(t, itemId, n - 1);
    QuestionModel.NewestUnfold(t, itemId, n);
    if t.questions[n - 1].itemId != itemId {
      assert [] + AnswerRows(before, questionId, text) == AnswerRows(before, questionId, text);
    } else {
      AnswerRowsCons(QuestionModel.RowOf(t, n - 1), before, questionId, text);
    }
  }

  /** The list after the answer grows by the same head row. */
  lemma NewestAnsweredStep(t: Tables, t': Tables, questionId: int, text: string, itemId: int, n: nat, row: seq<QuestionRow>)
    requires IsQuestionId(t, questionId) && 0 < n <= |t.questions|
    requires t' == t.(questions := Answered(t.questions, questionId, text))
    requires row == HeadRow(t, questionId, text, itemId, n)
    ensures QuestionModel.Newest(t', itemId, n) == row + QuestionModel.Newest(t', itemId, n - 1)
  {
    var after := QuestionModel.Newest(t', itemId, n - 1);
    assert t'.questions[n - 1].itemId == t.questions[n - 1].itemId;
    AnsweredRow(t, questionId, text, n - 1);
    QuestionModel.NewestUnfold(t', itemId, n);
    if t.questions[n - 1].itemId != itemId {
      assert [] + after == after;
    }
  }

  lemma AnsweredRow(t: Tables, questionId: int, text: string, k: nat)
    requires IsQuestionId(t, questionId) && k < |t.questions|
    ensures var t' := t.(questions := Answered(t.questions, questionId, text));
            var row := QuestionModel.RowOf(t, k);
            QuestionModel.RowOf(t', k) == if row.questionId == questionId then row.(answerText := Some(text)) else row
  {
  }

  lemma AnswerRowsCons(row: QuestionRow, rest: seq<QuestionRow>, questionId: int, text: string)
    ensures AnswerRows([row] + rest, questionId, text)
            == [if row.questionId == questionId then row.(answerText := Some(text)) else row] + AnswerRows(rest, questionId, text)
  {
    assert ([row] + rest)[1..] == rest;
  }

  /**
   * getByItem: 404 for a non-numeric or unknown item; otherwise 200 with
   * every question on the item, newest first.
   */
  function GetByItem(t: Tables, itemParam: string): (resp: Response)
    ensures resp.status == 200 <==> ParseInt(itemParam).Int? && IsItemId(t, ParseInt(itemParam).n)
    ensures resp.status != 200 ==> resp == Response(404, ErrorMessage("Item not found!"))
    ensures resp.status == 200 ==>
              && resp.reply.QuestionList?
              && (forall i :: 0 <= i < |resp.reply.questions| ==>
                    IsQuestionId(t, resp.reply.questions[i].questionId)
                    && QuestionOf(t, resp.reply.questions[i].questionId).itemId == ParseInt(itemParam).n)
              && (forall i, j :: 0 <= i < j < |resp.reply.questions| ==>
                    resp.reply.questions[i].questionId > resp.reply.questions[j].questionId)
              && (forall id :: IsQuestionId(t, id) && QuestionOf(t, id).itemId == ParseInt(itemParam).n ==>
                    exists i :: 0 <= i < |resp.reply.questions| && resp.reply.questions[i].questionId == id)
  {
    match ParseInt(itemParam)
    case NaN => Response(404, ErrorMessage("Item not found!"))
    case Int(itemId) =>
      if ItemModel.FindItem(t, itemId).None? then Response(404, ErrorMessage("Item not found!"))
      else Response(200, QuestionList(QuestionModel.ByItem(t, itemId)))
  }
}
