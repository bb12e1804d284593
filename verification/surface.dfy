/** The two callables the agent exposes to the language model
    (`InterviewQuestionsFnc`), dispatched against one database, and a session
    as the sequence of calls the model makes, each handled to completion
    before the next. */
module Surface {
  import opened Results
  import Questions
  import Answers

  /** The three collections of the database. */
  datatype Db = Db(interviews: seq<Questions.InterviewRec>, questions: seq<Questions.QuestionRec>,
                   answers: Answers.AnswerStore)

  /** A call the language model makes, with the arguments it supplies. */
  datatype Call =
    | GetInterviewQuestions(interviewId: string)
    | SaveSingleInterviewAnswer(userId: string, interviewId: string, question: string,
                                answer: string, questionNumber: int)

  /** What the environment decides for one call: the store's state and the clock. */
  datatype Env = Env(link: Link, now: int)

  /** What a call gives back to the model. */
  datatype Reply = QuestionList(text: string) | SavedId(recordId: nat) | Raised(error: Error)

  /** The database and reply after one call. */
  datatype Step = Step(db: Db, reply: Reply)

  /** Handles one call.  A fetch replies with what `get_interview_questions`
      returns or raises and only reads; a save replies with the new record's
      id exactly when the store is reachable and the question number fits
      BSON, appends that record carrying the call's arguments, and touches
      nothing else. */
  function Invoke(db: Db, call: Call, env: Env): (s: Step)
    ensures s.db.interviews == db.interviews && s.db.questions == db.questions
    ensures call.GetInterviewQuestions? ==> s.db == db
    ensures call.GetInterviewQuestions? ==>
              var f := Questions.FetchQuestions(db.interviews, db.questions, env.link, call.interviewId);
              (f.Ok? ==> s.reply == QuestionList(f.value)) && (f.Failure? ==> s.reply == Raised(f.error))
    ensures call.SaveSingleInterviewAnswer? ==>
              (s.reply.SavedId? <==> env.link.Up? && Answers.InInt64(call.questionNumber))
    ensures call.SaveSingleInterviewAnswer? && !s.reply.SavedId? ==>
              s.db == db && s.reply == Raised(if env.link.Down? then StorageFailure else IntegerOverflow)
    ensures |s.db.answers.records| == |db.answers.records| + (if s.reply.SavedId? then 1 else 0)
    ensures s.db.answers.records[..|db.answers.records|] == db.answers.records
    ensures call.SaveSingleInterviewAnswer? && s.reply.SavedId? ==>
              s.db.answers.records[|db.answers.records|]
              == Answers.AnswerRec(s.reply.recordId, call.userId, call.interviewId, env.now,
                                   call.questionNumber, call.question, call.answer)
    ensures s.reply.SavedId? ==> call.SaveSingleInterviewAnswer?
    ensures Answers.Valid(db.answers) ==> Answers.Valid(s.db.answers)
  {
    match call
    case GetInterviewQuestions(interviewId) =>
      (match Questions.FetchQuestions(db.interviews, db.questions, env.link, interviewId)
       case Ok(text) => Step(db, QuestionList(text))
       case Failure(e) => Step(db, Raised(e)))
    case SaveSingleInterviewAnswer(userId, interviewId, question, answer, questionNumber) =>
      var out := Answers.Save(db.answers, env.link, env.now, userId, interviewId, question, answer, questionNumber);
      match out.result
      case Ok(id) => Step(db.(answers := out.store), SavedId(id))
      case Failure(e) => Step(db.(answers := out.store), Raised(e))
  }

  /** The number of replies that report a stored answer. */
  function SavedCount(replies: seq<Reply>): nat
  {
    if |replies| == 0 then 0
    else (if replies[0].SavedId? then 1 else 0) + SavedCount(replies[1..])
  }

  /** The database and replies after a session's calls. */
  datatype Trace = Trace(db: Db, replies: seq<Reply>)

  /** Handles one session's calls in order, with the database private to the
      session.  This session's calls never change the interviews and
      questions, only append answers, one per reply that reports a stored
      answer, and keep record ids distinct. */
  function Run(db: Db, calls: seq<(Call, Env)>): (t: Trace)
    ensures |t.replies| == |calls|
    ensures t.db.interviews == db.interviews && t.db.questions == db.questions
    ensures |t.db.answers.records| == |db.answers.records| + SavedCount(t.replies)
    ensures t.db.answers.records[..|db.answers.records|] == db.answers.records
    ensures Answers.Valid(db.answers) ==> Answers.Valid(t.db.answers)
    decreases |calls|
  {
    if |calls| == 0 then Trace(db, [])
    else
      var first := Invoke(db, calls[0].0, calls[0].1);
      var rest := Run(first.db, calls[1..]);
      assert ([first.reply] + rest.replies)[1..] == rest.replies;
      assert rest.db.answers.records[..|db.answers.records|]
             == rest.db.answers.records[..|first.db.answers.records|][..|db.answers.records|];
      Trace(rest.db, [first.reply] + rest.replies)
  }

  /** A session extended by one call ends as the shorter session does,
      followed by that call handled against the database it left: each reply
      and each appended record belongs to its own call, in call order. */
  lemma {:induction false} RunSnoc(db: Db, calls: seq<(Call, Env)>, c: (Call, Env))
    ensures Run(db, calls + [c])
            == Trace(Invoke(Run(db, calls).db, c.0, c.1).db,
                     Run(db, calls).replies + [Invoke(Run(db, calls).db, c.0, c.1).reply])
    decreases |calls|
  {
    if |calls| == 0 {
      assert calls + [c] == [c];
    } else {
      assert (calls + [c])[0] == calls[0];
      assert (calls + [c])[1..] == calls[1..] + [c];
      var first := Invoke(db, calls[0].0, calls[0].1);
      RunSnoc(first.db, calls[1..], c);
    }
  }

  /** A session that only fetches questions leaves the database as it was. */
  lemma {:induction false} FetchOnlySessionReadsOnly(db: Db, calls: seq<(Call, Env)>)
    requires forall k :: 0 <= k < |calls| ==> calls[k].0.GetInterviewQuestions?
    ensures Run(db, calls).db == db
    ensures SavedCount(Run(db, calls).replies) == 0
    decreases |calls|
  {
    if |calls| > 0 {
      FetchOnlySessionReadsOnly(db, calls[1..]);
    }
  }
}
