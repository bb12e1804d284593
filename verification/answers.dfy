/** Answer persistence, `save_single_interview_answer`: one document per call
    appended to the `answers` collection.  The store assigns record ids from
    a counter; the clock reading is an opaque parameter. */
module Answers {
  import opened Results

  /** A document of the `answers` collection: the id the store assigned, then
      the fields the agent writes. */
  datatype AnswerRec = AnswerRec(id: nat, userId: string, interviewId: string, timestamp: int,
                                 questionNumber: int, question: string, answer: string)

  /** The `answers` collection in insertion order, with the next id the store
      will assign. */
  datatype AnswerStore = AnswerStore(records: seq<AnswerRec>, nextId: nat)

  const EmptyStore := AnswerStore([], 0)

  /** Ids are below the counter, and no two records share one. */
  predicate Valid(store: AnswerStore)
  {
    && (forall k :: 0 <= k < |store.records| ==> store.records[k].id < store.nextId)
    && (forall i, j :: 0 <= i < j < |store.records| ==> store.records[i].id != store.records[j].id)
  }

  /** The outcome of a save: the collection afterwards and what the call returned. */
  datatype SaveOutcome = SaveOutcome(store: AnswerStore, result: Result<nat>)

  /** The integers BSON can store: signed 64-bit. */
  predicate InInt64(n: int)
  {
    -0x8000_0000_0000_0000 <= n < 0x8000_0000_0000_0000
  }

  /** `save_single_interview_answer(user_id, interview_id, question, answer,
      question_number)` at clock reading `now`.  A storage fault, or a
      question number BSON cannot encode, inserts nothing; otherwise exactly
      one record carrying the arguments is appended, whatever the collection
      already holds, and its fresh id is returned. */
  function Save(store: AnswerStore, link: Link, now: int, userId: string, interviewId: string,
                question: string, answer: string, questionNumber: int): (out: SaveOutcome)
    ensures link.Down? ==> out == SaveOutcome(store, Failure(StorageFailure))
    ensures link.Up? && !InInt64(questionNumber) ==> out == SaveOutcome(store, Failure(IntegerOverflow))
    ensures out.result.Ok? <==> link.Up? && InInt64(questionNumber)
    ensures out.result.Ok? ==> |out.store.records| == |store.records| + 1
    ensures out.result.Ok? ==> out.store.records[..|store.records|] == store.records
    ensures out.result.Ok? ==> out.store.records[|store.records|]
                               == AnswerRec(out.result.value, userId, interviewId, now, questionNumber, question, answer)
    ensures out.result.Ok? && Valid(store)
            ==> forall k :: 0 <= k < |store.records| ==> store.records[k].id != out.result.value
    ensures Valid(store) ==> Valid(out.store)
  {
    if link == Down then SaveOutcome(store, Failure(StorageFailure))
    else if !InInt64(questionNumber) then SaveOutcome(store, Failure(IntegerOverflow))
    else
      var record := AnswerRec(store.nextId, userId, interviewId, now, questionNumber, question, answer);
      SaveOutcome(AnswerStore(store.records + [record], store.nextId + 1), Ok(store.nextId))
  }

  /** The number of stored answers to question `questionNumber` of the interview. */
  function CountAnswers(records: seq<AnswerRec>, interviewId: string, questionNumber: int): (n: nat)
    ensures n <= |records|
  {
    if |records| == 0 then 0
    else CountAnswers(records[..|records| - 1], interviewId, questionNumber)
         + (if records[|records| - 1].interviewId == interviewId
               && records[|records| - 1].questionNumber == questionNumber then 1 else 0)
  }

  /** Counting is additive over consecutive stretches of the collection. */
  lemma {:induction false} CountAnswersConcat(a: seq<AnswerRec>, b: seq<AnswerRec>,
                                              interviewId: string, questionNumber: int)
    ensures CountAnswers(a + b, interviewId, questionNumber)
            == CountAnswers(a, interviewId, questionNumber) + CountAnswers(b, interviewId, questionNumber)
    decreases |b|
  {
    if |b| == 0 {
      assert a + b == a;
    } else {
      assert (a + b)[..|a + b| - 1] == a + b[..|b| - 1];
      assert (a + b)[|a + b| - 1] == b[|b| - 1];
      CountAnswersConcat(a, b[..|b| - 1], interviewId, questionNumber);
    }
  }

  /** The store does not deduplicate: a save that reaches the store adds one
      answer for its (interview, question number) pair however many there
      already are; one whose number cannot be encoded adds none. */
  lemma SaveCountsOneMore(store: AnswerStore, now: int, userId: string, interviewId: string,
                          question: string, answer: string, questionNumber: int)
    ensures CountAnswers(Save(store, Up, now, userId, interviewId, question, answer, questionNumber).store.records,
                         interviewId, questionNumber)
            == CountAnswers(store.records, interviewId, questionNumber) + (if InInt64(questionNumber) then 1 else 0)
  {
    if InInt64(questionNumber) {
      var after := Save(store, Up, now, userId, interviewId, question, answer, questionNumber).store.records;
      assert after[..|after| - 1] == store.records;
    }
  }

  /** Two saves with identical, encodable arguments store two records with the same
      contents and distinct ids, and each call returns the id of the record
      it appended. */
  lemma SaveTwiceNoDedup(store: AnswerStore, now1: int, now2: int, userId: string, interviewId: string,
                         question: string, answer: string, questionNumber: int)
    requires Valid(store) && InInt64(questionNumber)
    ensures var first := Save(store, Up, now1, userId, interviewId, question, answer, questionNumber);
            var second := Save(first.store, Up, now2, userId, interviewId, question, answer, questionNumber);
            && |second.store.records| == |store.records| + 2
            && second.store.records[..|store.records|] == store.records
            && second.store.records[|store.records|].id == first.result.value
            && second.store.records[|store.records| + 1].id == second.result.value
            && first.result.value != second.result.value
            && CountAnswers(second.store.records, interviewId, questionNumber)
               == CountAnswers(store.records, interviewId, questionNumber) + 2
  {
    var first := Save(store, Up, now1, userId, interviewId, question, answer, questionNumber);
    var second := Save(first.store, Up, now2, userId, interviewId, question, answer, questionNumber);
    assert second.store.records[..|store.records|] == first.store.records[..|store.records|];
    assert first.store.records[|store.records|] == second.store.records[|store.records|];
    SaveCountsOneMore(store, now1, userId, interviewId, question, answer, questionNumber);
    SaveCountsOneMore(first.store, now2, userId, interviewId, question, answer, questionNumber);
  }

  /** Saving answer 0 into an empty collection returns an id, and the
      collection then holds exactly one answer numbered 0: that record. */
  lemma SaveIntoEmptyExample(now: int)
    ensures var out := Save(EmptyStore, Up, now, "u1", "i42", "Q1", "A1", 0);
            && out.result.Ok?
            && out.store.records == [AnswerRec(out.result.value, "u1", "i42", now, 0, "Q1", "A1")]
            && CountAnswers(out.store.records, "i42", 0) == 1
  {
    SaveCountsOneMore(EmptyStore, now, "u1", "i42", "Q1", "A1", 0);
  }
}
