# Interview agent core, modelled in Dafny

The agent conducts a voice interview. A language model asks the questions, and the agent gives it two callables backed by a MongoDB database:

- `get_interview_questions` resolves an interview's questions with a two-hop join. It looks up the interview by id, reads its `question_set_id`, selects the questions of that set, and joins their texts with line breaks.
- `save_single_interview_answer` appends one answer document per call and returns the new document's id.

Before either is used, the entry point splits the participant identity `userId_interviewId` at the first `_`.

The model treats each collection as an immutable sequence of documents in store order. Every operation is a pure function:

- `Results`: the `Option`/`Result` types. `Error` has one constructor per exception of the core that the model keeps: the failed identity unpacking, not-found, a missing field, a store error, and a question number outside the signed 64-bit range BSON stores. `Link` is the store's state for one call.
- `Strings`: Python's `s.split(sep, 1)`, `s.split(sep)` and `sep.join(parts)` on a one-character separator.
- `Identity`: parsing the participant identity.
- `ObjectIds`: BSON ObjectIds as twelve bytes, and their string form as 24 lower-case hexadecimal digits.
- `Questions`: documents of `interviews` and `questions`, `find_one`, the string-keyed `find`, and `get_interview_questions`.
- `Answers`: the `answers` collection with an id counter, and `save_single_interview_answer`.
- `Surface`: dispatch of one call from the language model against the whole database, and a session as a sequence of such calls.

Behaviour of the code worth knowing, which the model keeps:

- Saving inserts unconditionally and checks no uniqueness of (interview, question number). `Answers.SaveTwiceNoDedup` proves that two identical saves store two records.
- An identity without `_` makes the two-name unpacking raise `ValueError`. The model returns `MalformedIdentity`.
- The fetch path never closes its client, and the save path closes it only after a successful insert. Connections are not modelled, so the model claims nothing about their release.

## Model

| member | source | states |
|---|---|---|
| Strings.FindFirst | agent.py:136 | gives the index of the first occurrence of the separator `split` looks for: the character there is the separator and none occurs before it; gives none exactly when the separator does not occur |
| Strings.SplitOnce | agent.py:136 | `split(sep, 1)` yields one part, the whole string, exactly when `sep` is absent; otherwise two parts, where the first has no `sep` and first + `sep` + second rebuilds the string |
| Strings.SplitOnceAgreesWithSplit | agent.py:136 | with maxsplit 1, the first part is the first piece of a full split and the second part is the remaining pieces joined back |
| Strings.Join | agent.py:58 | `"\n".join` of no parts is the empty string; otherwise the result begins with the first part and is one character longer than the parts together for each neighbouring pair |
| Strings.JoinAppend | agent.py:58 | `"\n".join` puts exactly one separator between neighbouring parts: adding a part adds a separator and then that part |
| Strings.SplitJoin | agent.py:58 | splitting the join of a non-empty list of separator-free parts recovers the list exactly, so the join loses no text and no boundaries |
| Identity.ParseIdentity | agent.py:135-136 | fails with a malformed-identity error exactly when the identity has no `_`; on success the user id has no `_`, and user id + `_` + interview id is the identity |
| Identity.ParseFormat | agent.py:136 | parsing a formatted identity gives back the same user and interview ids exactly when the user id has no `_` |
| Identity.ParsePlainExample | agent.py:134-136 | `u1_i42` parses to user `u1` and interview `i42` |
| Identity.ParseFirstSeparatorExample | agent.py:136 | `u1_i_42` parses to user `u1` and interview `i_42`: later underscores stay in the interview id |
| Identity.ParseNoSeparatorExample | agent.py:136 | `u1i42` is rejected as malformed |
| ObjectIds.Hex | agent.py:51 | the string form of bytes has two characters per byte, byte k giving its high nibble's digit at position 2k and its low nibble's digit at 2k+1, all lower-case hexadecimal |
| ObjectIds.HexExample | agent.py:51 | the bytes 0x50 0x7f are written `507f` |
| ObjectIds.HexInjective | agent.py:51 | the hexadecimal form `str()` gives an ObjectId determines its bytes: distinct ObjectIds never share a string form |
| Questions.PyStr | agent.py:51 | `str()` of a stored string is the string itself; `str()` of an ObjectId is its hexadecimal form `Hex`, 24 lower-case digits |
| Questions.PyStrObjectIdInjective | agent.py:50-51 | two ObjectIds have the same string form exactly when they are the same ObjectId, so the string key names one question set |
| Questions.MatchesOnlyStoredStrings | agent.py:55 | the string-keyed filter matches a document exactly when its `question_set_id` is stored as that string: a missing field or a stored ObjectId matches no key |
| Questions.FindInterview | agent.py:45-48 | finds nothing exactly when no interview has the id; otherwise returns the first interview in store order with that id |
| Questions.Select | agent.py:55 | selects only documents whose `question_set_id` is the key string, and each such document as many times as it occurs in the store |
| Questions.SelectComplete | agent.py:55 | every stored question whose set id equals the key string is selected |
| Questions.SelectConcat | agent.py:55-57 | selection keeps store order: selecting from `a + b` is the selection from `a` followed by the selection from `b` |
| Questions.Texts | agent.py:57 | reading `text` from the selected documents succeeds exactly when every one has a `text` field; the texts then match the documents one for one, in order; otherwise it raises a missing-field error for `text` |
| Questions.TextsOfSelect | agent.py:55-57 | the texts of the selected questions can be read exactly when every question of the set has a text |
| Questions.ResolveSetKey | agent.py:45-51 | raises not-found exactly when no interview has the id; raises missing-field when the first interview with the id has no `question_set_id`; otherwise returns `str()` of the `question_set_id` of the first interview in store order with that id |
| Questions.FetchQuestions | agent.py:38-63 | a storage fault raises; a failed interview lookup raises its error whatever the questions hold; otherwise it succeeds exactly when every question of the set has a text, and otherwise raises missing-field for `text`; a success returns the texts of the set's questions, in store order, joined with line breaks |
| Questions.FetchEmptySet | agent.py:55-58 | an interview whose set has no questions yields the empty string, not an error |
| Questions.FetchLines | agent.py:50-58 | when the set is non-empty and no text holds a line break, splitting the result into lines gives the texts of exactly the set's questions, in store order |
| Questions.ObjectIdSetIdsDoNotMatch | agent.py:50-55 | the set id is matched as a string: questions that store the ObjectId itself are not found, but questions that store its string form are |
| Answers.Save | agent.py:89-112 | a storage fault, or a question number outside the signed 64-bit range, raises and leaves the collection unchanged; otherwise exactly one record is appended, carrying the user id, interview id, clock reading, question number, question and answer, and earlier records are unchanged; its id is new to the collection and is returned; distinct ids are preserved |
| Answers.SaveCountsOneMore | agent.py:96-106 | a save that reaches the store with an encodable question number adds one answer for its (interview, question number) pair however many are already stored, because there is no uniqueness check; one whose number cannot be encoded adds none |
| Answers.SaveTwiceNoDedup | agent.py:96-112 | two saves that reach the store with identical arguments and an encodable question number store two records with distinct ids; each call returns the id of the record it appended |
| Answers.SaveIntoEmptyExample | agent.py:96-112 | saving answer 0 of `i42` into an empty collection returns an id, and afterwards the collection holds exactly that one answer numbered 0 |
| Surface.Invoke | agent.py:27-117 | a fetch replies with the string `get_interview_questions` returns, or the error it raises, and leaves the database unchanged; a save replies with a record id exactly when the store is reachable and the question number is encodable, and then appends one record carrying the call's user id, interview id, question, answer and question number and the clock reading, with that id; a failed save changes nothing and raises the storage failure when the store is unreachable, the integer overflow otherwise; interviews and questions never change |
| Surface.Run | agent.py:162-172 | over one session's calls, with the database private to the session, those calls never change interviews and questions, only append answers, one per reply that reports a stored answer, and keep record ids distinct |
| Surface.RunSnoc | agent.py:162-172 | a session extended by one call ends as the shorter session does followed by that call handled against the database it left, so every reply and appended record belongs to its own call, in call order |
| Surface.FetchOnlySessionReadsOnly | agent.py:45-57 | a session that only fetches questions leaves the database exactly as it was and stores no answer |

## Left out

- MongoDB client creation, database selection and connection lifecycle (agent.py:40-42, 91-93, 109) are foreign I/O. The model makes no claim that connections are released.
- `ObjectId(interview_id)` (agent.py:45) belongs to the bson library. Interview ids are opaque strings compared for equality. The exception for a malformed id is not modelled. The code matches the decoded bytes, so ids that differ only in the case of their hex digits name the same interview; the model's string equality tells them apart.
- The `datetime.now()` timestamp (agent.py:99) is a clock read. It enters `Answers.Save` as the opaque parameter `now`.
- The id `insert_one` assigns, and its `str()` (agent.py:106, 112), is opaque. It is modelled as a counter that yields a new natural number per insert.
- Answers.Save: a document over BSON's 16 MiB limit raises `DocumentTooLarge` in the code, is not caught, and stores nothing. The model has no document size, so it stores such a document.
- Other exceptions that escape the code are not modelled: `InvalidId` from a malformed interview id, and `TypeError` when a stored `text` is not a string.
- Surface.Run: every session opens the same database (agent.py:40-42, 91-93), so other sessions can insert answers, and anyone can change interviews and questions, between this session's calls. `Run` assumes no such concurrent writers.
- `PyMongoError` logging and re-raise (agent.py:60-63, 114-117): a driver error is the parameter `Link = Down`. It raises `StorageFailure` before anything is read or written. A fault after the insert has taken effect is not modelled.
- `question_set_id` values other than strings and ObjectIds, such as integers, are not modelled. The same goes for MongoDB's rule that a query value also matches elements of array fields.
- The debug `print` of the fetched interview (agent.py:46) and the `logger` calls are output only.
- The LiveKit runtime is media and network plumbing: `prewarm`, `connect`, `wait_for_participant`, the speech and language pipeline, `assistant.start` and the greeting (agent.py:123-183).
- The introduction, questioning and conclusion phases exist only as prompt text for the language model (agent.py:140-160). No code keeps a question index or phase, so no state machine is modelled.
- A domain-keyed question catalog with domain normalisation belongs to a second variant of the agent. That variant is not part of this model.
