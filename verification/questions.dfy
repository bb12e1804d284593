/** Question resolution, `get_interview_questions`: a two-hop join from the
    `interviews` collection to the `questions` collection, with the stores
    modelled as in-memory sequences of documents in store order. */
module Questions {
  import opened Results
  import opened Strings
  import opened ObjectIds

  /** The separator the question texts are joined with. */
  const LineBreak: char := '\n'

  /** The stored value of a `question_set_id` field: a string or an ObjectId. */
  datatype BsonValue = BStr(s: string) | BOid(oid: ObjectId)

  /** A document of the `interviews` collection; `questionSetId` is `None`
      when the document has no such field. */
  datatype InterviewRec = InterviewRec(id: string, questionSetId: Option<BsonValue>)

  /** A document of the `questions` collection; a field may be absent. */
  datatype QuestionRec = QuestionRec(questionSetId: Option<BsonValue>, text: Option<string>)

  /** Python's `str()` of a stored question-set id: a string is itself; an
      ObjectId is its 24 lower-case hexadecimal digits. */
  function PyStr(v: BsonValue): (r: string)
    ensures v.BStr? ==> r == v.s
    ensures v.BOid? ==> r == Hex(v.oid) && |r| == 24 && IsLowerHex(r)
  {
    match v
    case BStr(s) => s
    case BOid(oid) => Hex(oid)
  }

  /** Distinct ObjectIds have distinct string forms, so the string key names
      one question set. */
  lemma PyStrObjectIdInjective(a: ObjectId, b: ObjectId)
    ensures PyStr(BOid(a)) == PyStr(BOid(b)) <==> a == b
  {
    if PyStr(BOid(a)) == PyStr(BOid(b)) {
      HexInjective(a, b);
    }
  }

  /** The query `{"question_set_id": key}` with a string `key`: a document
      matches when its field holds that very string.  An ObjectId never
      equals a string, so a document storing an ObjectId there is not
      matched, even one whose string form is `key`. */
  predicate Matches(q: QuestionRec, key: string)
  {
    q.questionSetId == Some(BStr(key))
  }

  /** A document matches a key exactly when it stores that key as a string:
      a missing field or a stored ObjectId never matches any key. */
  lemma MatchesOnlyStoredStrings(q: QuestionRec)
    ensures (exists key :: Matches(q, key)) <==> q.questionSetId.Some? && q.questionSetId.value.BStr?
    ensures q.questionSetId.Some? && q.questionSetId.value.BStr? ==> Matches(q, q.questionSetId.value.s)
  {
    if q.questionSetId.Some? && q.questionSetId.value.BStr? {
      assert Matches(q, q.questionSetId.value.s);
    }
  }

  /** `find_one({"_id": id})`: the first interview in store order with that id. */
  function FindInterview(interviews: seq<InterviewRec>, id: string): (r: Option<InterviewRec>)
    ensures r.None? <==> forall k :: 0 <= k < |interviews| ==> interviews[k].id != id
    ensures r.Some? ==> exists k :: 0 <= k < |interviews| && interviews[k] == r.value && r.value.id == id
                                    && forall j :: 0 <= j < k ==> interviews[j].id != id
  {
    if |interviews| == 0 then None
    else if interviews[0].id == id then Some(interviews[0])
    else
      var r := FindInterview(interviews[1..], id);
      assert r.Some? ==> exists k :: 0 < k < |interviews| && interviews[k] == r.value
                                    && forall j :: 0 <= j < k ==> interviews[j].id != id by {
        if r.Some? {
          var k :| 0 <= k < |interviews| - 1 && interviews[1..][k] == r.value
                   && forall j :: 0 <= j < k ==> interviews[1..][j].id != id;
          assert interviews[k + 1] == r.value;
          forall j | 0 <= j < k + 1
            ensures interviews[j].id != id
          {
            if j > 0 { assert interviews[j] == interviews[1..][j - 1]; }
          }
        }
      }
      r
  }

  /** `find({"question_set_id": key})`: the matching question documents, in
      store order; each matching document occurs exactly as often as in the
      store and no other document occurs. */
  function Select(questions: seq<QuestionRec>, key: string): (r: seq<QuestionRec>)
    ensures |r| <= |questions|
    ensures forall k :: 0 <= k < |r| ==> Matches(r[k], key) && r[k] in questions
    ensures forall q :: multiset(r)[q] == if Matches(q, key) then multiset(questions)[q] else 0
  {
    if |questions| == 0 then []
    else
      var rest := Select(questions[1..], key);
      assert questions == [questions[0]] + questions[1..];
      if Matches(questions[0], key) then [questions[0]] + rest else rest
  }

  /** Every matching document of the store is selected. */
  lemma SelectComplete(questions: seq<QuestionRec>, key: string, k: nat)
    requires k < |questions| && Matches(questions[k], key)
    ensures questions[k] in Select(questions, key)
  {
    assert questions[k] in multiset(questions);
  }

  /** Selection keeps store order: selecting from two stretches of the store
      selects from the first, then from the second. */
  lemma {:induction false} SelectConcat(a: seq<QuestionRec>, b: seq<QuestionRec>, key: string)
    ensures Select(a + b, key) == Select(a, key) + Select(b, key)
    decreases |a|
  {
    if |a| == 0 {
      assert a + b == b;
    } else {
      assert (a + b)[0] == a[0];
      assert (a + b)[1..] == a[1..] + b;
      SelectConcat(a[1..], b, key);
    }
  }

  /** `[question["text"] for question in selected]`: the texts in order, or a
      missing-field failure when some selected document has no text. */
  function Texts(selected: seq<QuestionRec>): (r: Result<seq<string>>)
    ensures r.Ok? <==> forall k :: 0 <= k < |selected| ==> selected[k].text.Some?
    ensures r.Failure? ==> r.error == MissingField("text")
    ensures r.Ok? ==> |r.value| == |selected|
    ensures r.Ok? ==> forall k :: 0 <= k < |selected| ==> r.value[k] == selected[k].text.value
  {
    if |selected| == 0 then Ok([])
    else match selected[0].text
      case None => Failure(MissingField("text"))
      case Some(t) =>
        match Texts(selected[1..])
        case Failure(e) =>
          assert exists k :: 0 <= k < |selected| && selected[k].text.None? by {
            var j :| 0 <= j < |selected| - 1 && selected[1..][j].text.None?;
            assert selected[j + 1].text.None?;
          }
          Failure(e)
        case Ok(ts) =>
          assert forall k :: 1 <= k < |selected| ==> selected[k] == selected[1..][k - 1];
          Ok([t] + ts)
  }

  /** Every question of the set with id `key` has a text. */
  predicate SetHasTexts(questions: seq<QuestionRec>, key: string)
  {
    forall k :: 0 <= k < |questions| && Matches(questions[k], key) ==> questions[k].text.Some?
  }

  /** The texts of the selected documents can be read exactly when every
      question of the set has a text. */
  lemma TextsOfSelect(questions: seq<QuestionRec>, key: string)
    ensures Texts(Select(questions, key)).Ok? <==> SetHasTexts(questions, key)
  {
    var sel := Select(questions, key);
    if !SetHasTexts(questions, key) {
      var k :| 0 <= k < |questions| && Matches(questions[k], key) && questions[k].text.None?;
      SelectComplete(questions, key, k);
    } else {
      forall j | 0 <= j < |sel|
        ensures sel[j].text.Some?
      {
        assert sel[j] in multiset(sel);
        assert sel[j] in multiset(questions);
        var k :| 0 <= k < |questions| && questions[k] == sel[j];
      }
    }
  }

  /** The first hop: the interview's `question_set_id`, converted with
      `str()`.  Raises not-found when no interview has the id, and a
      missing-field error when the interview found has no such field. */
  function ResolveSetKey(interviews: seq<InterviewRec>, interviewId: string): (r: Result<string>)
    ensures r == Failure(NotFound(interviewId)) <==> forall k :: 0 <= k < |interviews| ==> interviews[k].id != interviewId
    ensures r.Failure? ==> r.error in {NotFound(interviewId), MissingField("question_set_id")}
    ensures r.Ok? <==> exists k :: 0 <= k < |interviews| && interviews[k].id == interviewId
                                  && interviews[k].questionSetId.Some?
                                  && (forall j :: 0 <= j < k ==> interviews[j].id != interviewId)
    ensures r.Ok? ==> exists k :: 0 <= k < |interviews| && interviews[k].id == interviewId
                                 && (forall j :: 0 <= j < k ==> interviews[j].id != interviewId)
                                 && interviews[k].questionSetId.Some?
                                 && r.value == PyStr(interviews[k].questionSetId.value)
  {
    match FindInterview(interviews, interviewId)
    case None => Failure(NotFound(interviewId))
    case Some(interview) =>
      match interview.questionSetId
      case None =>
        assert !exists k :: 0 <= k < |interviews| && interviews[k].id == interviewId
                            && interviews[k].questionSetId.Some?
                            && (forall j :: 0 <= j < k ==> interviews[j].id != interviewId) by {
          var k :| 0 <= k < |interviews| && interviews[k] == interview
                   && forall j :: 0 <= j < k ==> interviews[j].id != interviewId;
          forall k' | 0 <= k' < |interviews| && interviews[k'].id == interviewId
                      && (forall j :: 0 <= j < k' ==> interviews[j].id != interviewId)
            ensures interviews[k'].questionSetId.None?
          {
            assert k' == k;
          }
        }
        Failure(MissingField("question_set_id"))
      case Some(v) => Ok(PyStr(v))
  }

  /** `get_interview_questions(interview_id)`.  A storage fault raises before
      anything else; a failure of the first hop raises without the questions
      being read; otherwise the texts of the questions of the interview's set
      are returned in store order, joined with line breaks. */
  function FetchQuestions(interviews: seq<InterviewRec>, questions: seq<QuestionRec>,
                          link: Link, interviewId: string): (r: Result<string>)
    ensures link.Down? ==> r == Failure(StorageFailure)
    ensures link.Up? && ResolveSetKey(interviews, interviewId).Failure?
            ==> r == Failure(ResolveSetKey(interviews, interviewId).error)
    ensures link.Up? && ResolveSetKey(interviews, interviewId).Ok?
            ==> (r.Ok? <==> SetHasTexts(questions, ResolveSetKey(interviews, interviewId).value))
    ensures link.Up? && ResolveSetKey(interviews, interviewId).Ok? && r.Failure?
            ==> r.error == MissingField("text")
    ensures r.Ok? ==> link.Up? && ResolveSetKey(interviews, interviewId).Ok?
                      && Texts(Select(questions, ResolveSetKey(interviews, interviewId).value)).Ok?
                      && r.value == Join(Texts(Select(questions, ResolveSetKey(interviews, interviewId).value)).value,
                                         LineBreak)
  {
    if link == Down then Failure(StorageFailure)
    else match ResolveSetKey(interviews, interviewId)
      case Failure(e) => Failure(e)
      case Ok(key) =>
        TextsOfSelect(questions, key);
        match Texts(Select(questions, key))
        case Failure(e) => Failure(e)
        case Ok(texts) => Ok(Join(texts, LineBreak))
  }

  /** When the interview's set has no questions the result is the empty
      string, not an error. */
  lemma FetchEmptySet(interviews: seq<InterviewRec>, questions: seq<QuestionRec>, interviewId: string)
    requires ResolveSetKey(interviews, interviewId).Ok?
    requires forall k :: 0 <= k < |questions| ==> !Matches(questions[k], ResolveSetKey(interviews, interviewId).value)
    ensures FetchQuestions(interviews, questions, Up, interviewId) == Ok("")
  {
    var key := ResolveSetKey(interviews, interviewId).value;
    assert Select(questions, key) == [];
  }

  /** Reading the result back line by line recovers the texts of exactly the
      questions of the interview's set, in store order, provided no text
      holds a line break and the set is not empty. */
  lemma FetchLines(interviews: seq<InterviewRec>, questions: seq<QuestionRec>, interviewId: string, key: string)
    requires ResolveSetKey(interviews, interviewId) == Ok(key)
    requires forall k :: 0 <= k < |questions| && Matches(questions[k], key)
               ==> questions[k].text.Some? && LineBreak !in questions[k].text.value
    requires exists k :: 0 <= k < |questions| && Matches(questions[k], key)
    ensures FetchQuestions(interviews, questions, Up, interviewId).Ok?
    ensures Texts(Select(questions, key)).Ok?
    ensures Split(FetchQuestions(interviews, questions, Up, interviewId).value, LineBreak)
            == Texts(Select(questions, key)).value
  {
    var sel := Select(questions, key);
    assert SetHasTexts(questions, key);
    TextsOfSelect(questions, key);
    var texts := Texts(sel).value;
    assert FetchQuestions(interviews, questions, Up, interviewId) == Ok(Join(texts, LineBreak));
    var j :| 0 <= j < |questions| && Matches(questions[j], key);
    SelectComplete(questions, key, j);
    assert |texts| >= 1;
    forall k | 0 <= k < |texts|
      ensures LineBreak !in texts[k]
    {
      assert texts[k] == sel[k].text.value;
      assert sel[k] in questions;
      var i :| 0 <= i < |questions| && questions[i] == sel[k];
    }
    SplitJoin(texts, LineBreak);
  }

  /** The set id is compared as a string: questions that store the
      interview's ObjectId itself are not found, while questions that store
      its string form are. */
  lemma ObjectIdSetIdsDoNotMatch(oid: ObjectId)
    ensures FetchQuestions([InterviewRec("i42", Some(BOid(oid)))],
                           [QuestionRec(Some(BOid(oid)), Some("Q1"))], Up, "i42") == Ok("")
    ensures FetchQuestions([InterviewRec("i42", Some(BOid(oid)))],
                           [QuestionRec(Some(BStr(PyStr(BOid(oid)))), Some("Q1"))], Up, "i42") == Ok("Q1")
  {
    var ivs := [InterviewRec("i42", Some(BOid(oid)))];
    var key := PyStr(BOid(oid));
    var q1 := QuestionRec(Some(BOid(oid)), Some("Q1"));
    var q2 := QuestionRec(Some(BStr(key)), Some("Q1"));
    assert ResolveSetKey(ivs, "i42") == Ok(key);
    assert Select([q1], key) == [];
    assert Select([q2], key) == [q2];
  }
}
