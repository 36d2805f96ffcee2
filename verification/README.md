# RustOverflow store, modelled in Dafny

RustOverflow is a question-and-answer forum. Its store is `impl DbConn` in
`src/db/actions.rs`: Diesel queries over an SQLite database with five tables.

| table | what it holds |
|---|---|
| `users` | accounts: id, username, bcrypt password hash |
| `questions` | id, author, timestamp, score, title, text |
| `answers` | id, author, question, timestamp, score, accepted flag, text |
| `tags` | the tag catalogue |
| `chosen_tags` | links between a question and one of its tags |

This project models that store as the class `Store.DbConn`. Its fields are
the five tables, held as sequences of rows.

- Every query is a function over the tables, except `newest_questions`
  and `questions_with_tag`. Those two are methods, because they annotate
  their rows with the `to_display_questions` loop.
- Every write is a method that replaces the tables it changes, under
  `modifies this`, and states the whole new state.
- Every method keeps the class invariant `Valid()`. It collects the
  schema's constraints:
  - positive, distinct ids in every table;
  - unique usernames and unique tag names;
  - stored passwords that are bcrypt hashes;
  - the foreign keys of `questions`, `answers` and `chosen_tags`;
  - no link stored twice.

Diesel's query forms are modelled as follows.

| query form | model |
|---|---|
| `filter`, `inner_join` | sequence filters and joins in table order (`Tables`) |
| `order_by(… .desc())` | a sort proved to be a permutation in non-increasing key order; ties are left unordered (`Relational.SortDesc`) |
| `distinct()` | duplicate removal, proved to keep exactly the input's values, each once; a descending list stays descending (`Relational.Distinct`, `Relational.DistinctKeepsOrder`) |
| `count_star` | a count |
| `first` | the first matching row, or Diesel's "Record not found" |
| UNIQUE and FOREIGN KEY violations | explicit existence tests made before the write |

Modules:

- `Rows`: the records, the `Result` type (a status kind and a message) and
  the messages the store returns.
- `Bcrypt`: the hasher, as three functions given to the store: hashing,
  the test that a string is a hash, and `bcrypt::verify`.
- `Relational`: ORDER BY … DESC, SELECT DISTINCT, and the counting facts
  about distinct values.
- `Tables`: rowid assignment, lookups, joins, counts, the single-row
  updates, and the tag-link insert loop's outcome.
- `Store`: the class `DbConn`.

Two inputs are supplied when a store is built, because their code is not
part of this model:

- the bcrypt hasher;
- the validation that `NewUser::create` performs.

The hasher's assumed properties are collected in `Sound()`:

- every hash it produces parses as a hash;
- a password verifies against its own hash;
- verification fails as an engine error exactly on a string that is not a
  hash.

Nothing else is assumed about verification. In particular a password may
verify against a hash it was not made from; the model never relies on the
converse.

The database schema (`src/db/schema.rs`) is not part of this model either.
The model assumes the following about it:

- **Ids.** An inserted row takes the next SQLite rowid: one more than the
  largest id in the table, or 1 when the table is empty.
- **Defaults.** A new question or answer starts with score 0, and a new
  answer is not accepted.
- **Timestamps.** The time a row is stamped with is a parameter of the
  insert.
- **Keys of `chosen_tags`.** The table's primary key is the pair
  (question, tag). Linking the same tag twice to one question is therefore
  a unique violation, reported as "Database error", and the whole
  transaction rolls back.
- **Foreign keys.** `questions.author`, `answers.author`,
  `answers.question`, `chosen_tags.question` and `chosen_tags.tag` are
  foreign keys.

Three behaviours of the code to note:

- **Repeated tag names.** `tags_with_names` compares the number of tags
  found with the number of names asked for, repeats included
  (`src/db/actions.rs:164`). A list that names one tag twice is therefore
  refused, not only a list with an unknown name.
- **Missing ids in updates.** `update_question_score`,
  `update_answer_score` and `mark_solved` return `Ok` for an id that does
  not exist. They drop the affected-row count, and a plain UPDATE of a
  score or a flag cannot raise the foreign-key violation they test for.
- **Ties in `answers`.** `answers` orders by score only, so answers with
  equal scores come in no promised order.

## Model

| member | source | states |
|---|---|---|
| Store.DbConn.LogIn | src/db/actions.rs:52-71 | An unknown username gives (BadRequest, "Record not found"), and only then. Success returns the (id, username) of a user with that name whose stored hash verifies the password. (Unauthorized, "wrong password") means a user with that name exists and verification said no. |
| Store.DbConn.LogInExistingUser | src/db/actions.rs:52-71 | In a consistent store, logging in as an existing user never hits the engine-error case: it gives that user's Login exactly when bcrypt verifies the password against the stored hash, and "wrong password" otherwise. The password the stored hash was made from always logs in. |
| Bcrypt.VerifyOwnHash | src/db/actions.rs:66 | For a sound hasher, a password verifies against its own hash, and verifying against a string that is a hash never fails as an engine error. |
| Tables.FindUser | src/db/actions.rs:60-62 | None exactly when no user has the name. Otherwise it returns a row of the table with that name. |
| Store.DbConn.Register | src/db/actions.rs:74-96 | A rejection by `NewUser::create` gives (BadRequest, its reason) and leaves `users` unchanged. A taken name gives (BadRequest, "Username already exists") and leaves `users` unchanged. Otherwise exactly one row is appended, with the next id and the hashed password, and the login that follows succeeds with that id and name. The other tables are unchanged and the invariant is kept. |
| Tables.NextId | src/db/actions.rs:85 | The rowid given to an inserted row is positive, unused, and larger than every id in the table. |
| Store.DbConn.NumAnswers | src/db/actions.rs:99-109 | `num_answers(q)` is the number of answers whose question is `q`. |
| Tables.CountAnswers | src/db/actions.rs:99-109 | `num_answers` is the number of answers whose question is `q`. |
| Store.DbConn.NumAnswersCountsAnswers | src/db/actions.rs:99-109 | In a consistent store, `num_answers(q)` equals the number of rows `answers(q)` returns. |
| Tables.CountAfterInsert | src/db/actions.rs:308 | Inserting an answer raises the count of its own question by one and leaves every other question's count alone. |
| Store.DbConn.Answered | src/db/actions.rs:112-128 | `answered(q)` is true exactly when some answer of `q` is accepted. |
| Tables.FirstAccepted | src/db/actions.rs:114-120 | The lookup finds nothing exactly when no answer of `q` is accepted. What it finds is the id of an accepted answer of `q`. |
| Store.DbConn.Tags | src/db/actions.rs:131-143 | `tags(q)` lists only catalogue tags, and a tag is listed exactly when a link of `q` names it by its id. |
| Tables.LinkedTags | src/db/actions.rs:134-140 | A tag is listed exactly when a link of question `q` names a catalogue tag by its id. |
| Store.DbConn.TagsAreLinked | src/db/actions.rs:131-143 | In a consistent store, `tags(q)` lists exactly the catalogue tags linked to `q`. |
| Store.DbConn.AllTags | src/db/actions.rs:146-151 | `all_tags` lists exactly the catalogue's tags, as many rows as the table has. |
| Store.DbConn.AllTagsListsCatalogue | src/db/actions.rs:146-151 | In a consistent store, `all_tags` lists no tag twice and no name twice, and every tag that `tags(q)` shows for any question is among them. |
| Tables.NamedTags | src/db/actions.rs:161 | The `eq_any` filter keeps exactly the catalogue tags whose name is among the targets. A catalogue without repeated rows gives a result without repeated rows. |
| Tables.TagsWithNames | src/db/actions.rs:154-169 | Success returns as many tags as names were asked for: every catalogue tag with a requested name, and only such tags. Success happens exactly when the number of catalogue tags with a requested name equals the number of requested names, and then returns exactly those tags. Failure is (BadRequest, "Invalid Tag"). So a repeated name, such as `["a", "a"]`, is refused. |
| Store.DbConn.TagsWithNames | src/db/actions.rs:154-169 | Succeeds exactly when the number of catalogue tags with a requested name equals the number of requested names. On success, the result has one tag per requested name, holds exactly the catalogue tags whose name was requested, and repeats no tag when the catalogue repeats none. The only error is (BadRequest, "Invalid Tag"). |
| Tables.TagsWithNamesSucceeds | src/db/actions.rs:154-169 | With unique tag names, the call succeeds exactly when every requested name is a tag and no name is repeated. |
| Store.DbConn.TagsWithNamesIff | src/db/actions.rs:154-169 | In a consistent store, `tags_with_names` succeeds exactly for a list of distinct existing names. An unknown or repeated name gives the error. |
| Tables.JoinQuestions | src/db/actions.rs:178-182 | A row is in the join exactly when it is the view of a question whose author exists, carrying the author's name. When every author exists, row `i` is the view of question `i`, so order and count are kept. |
| Relational.SortDesc | src/db/actions.rs:180 | ORDER BY … DESC returns a permutation of its input in non-increasing key order. |
| Store.DbConn.NewestQuestionRows | src/db/actions.rs:176-185 | The loaded rows are a permutation of the questions joined with their authors, newest first. |
| Store.DbConn.NewestListsEveryQuestion | src/db/actions.rs:172-188 | In a consistent store, `newest_questions` lists every stored question, and there are exactly as many rows as questions. |
| Store.DbConn.NewestQuestions | src/db/actions.rs:172-188 | The result is the loaded rows, annotated one by one in the same order, and stays newest first. |
| Tables.TagJoin | src/db/actions.rs:202-205 | A joined question survives exactly when one of its links names a tag whose name is among the targets. |
| Tables.HasTagNamedMeans | src/db/actions.rs:204-205 | With distinct tag ids, "a link names a tag with a target name" means "some catalogue tag with a target name is linked to the question". |
| Relational.Distinct | src/db/actions.rs:208 | DISTINCT keeps exactly the values of its input, each once. |
| Relational.DistinctKeepsOrder | src/db/actions.rs:206-208 | Removing duplicates from a sorted list leaves it sorted. |
| Store.DbConn.TaggedQuestionRows | src/db/actions.rs:200-212 | The loaded rows are exactly the joined questions with a tag named in the targets, without duplicates, newest first. |
| Store.DbConn.TaggedMeansLinked | src/db/actions.rs:191-215 | In a consistent store, a question is listed exactly when it is linked to a catalogue tag whose name is among the targets. |
| Store.DbConn.QuestionsWithTag | src/db/actions.rs:191-215 | The result is the loaded rows annotated in order: newest first and without duplicates. |
| Tables.FindQuestion | src/db/actions.rs:264-268 | None exactly when no loaded question has the id. Otherwise it is a loaded question with that id. |
| Tables.JoinedHasId | src/db/actions.rs:264-266 | When every author exists, the joined questions contain one with the id exactly when the questions table does. |
| Store.DbConn.QuestionById | src/db/actions.rs:259-276 | The error is (NotFound, "This question does not exist") and happens exactly when no question has the id. Otherwise the result is that question, with its author's name, as displayed. |
| Tables.AnswersOf | src/db/actions.rs:285 | The filter keeps exactly the answers of question `q`. |
| Tables.JoinAnswers | src/db/actions.rs:283-287 | A row is in the join exactly when it is the view of an answer whose author exists, carrying the author's name. When every author exists, there are as many rows as answers. |
| Store.DbConn.Answers | src/db/actions.rs:279-292 | The result is a permutation of `q`'s answers joined with their authors, highest score first, and every row belongs to `q`. |
| Store.DbConn.AnswersListsEveryAnswer | src/db/actions.rs:279-292 | In a consistent store, every answer of `q` appears in `answers(q)`. |
| Store.DbConn.LatestQuestionId | src/db/actions.rs:240 | Reselecting by descending id finds nothing exactly when there are no questions. Otherwise it finds a stored id that no other id exceeds. |
| Store.DbConn.InsertQuestion | src/db/actions.rs:238-240 | The question row is appended with the next id, score 0 and the given author, title, text and time. The reselected id is that row's id and exceeds every older id. No existing link or answer refers to it yet. The other tables are unchanged and the invariant is kept. |
| Tables.ReselectFindsNewRow | src/db/actions.rs:240 | After an insert with the next rowid, the largest id is the new row's id, and it exceeds every older id. |
| Tables.Links | src/db/actions.rs:241-245 | The loop inserts one link (new id, t) per supplied tag id, in order. |
| Tables.FirstFault | src/db/actions.rs:241-255 | The loop completes exactly when every tag id exists and none repeats an earlier one. An unknown-tag fault names an id missing from the catalogue. A duplicate fault names an id that repeats an earlier one. |
| Tables.LinksSucceed | src/db/actions.rs:241-255 | All links go in exactly when every tag id exists and the list has no duplicates. |
| Tables.UnknownTagFaults | src/db/actions.rs:249-252 | With no repeated ids, a list containing an unknown tag id fails with the foreign-key case. |
| Store.DbConn.InsertLinks | src/db/actions.rs:241-245 | The loop's outcome is the first fault of the tag-id list. On completion, `chosen_tags` has gained exactly the links of the list, in order. On a fault it has gained the links of a prefix of the list, which the caller rolls back. The other tables are unchanged and the invariant is kept. |
| Store.DbConn.NewQuestion | src/db/actions.rs:218-256 | An unknown author gives (BadRequest, "Invalid tag id supplied"). Otherwise the first tag id whose insert fails decides the error: an unknown id gives (BadRequest, "Invalid tag id supplied"), and a repeat of an earlier id gives (InternalServerError, "Database error"). On any error, `questions` and `chosen_tags` are unchanged. On success the returned id is larger than every older question id, the question row is appended with score 0, and `chosen_tags` gains one link per tag id, in order. The new question then shows exactly the supplied tags, no answers, and not answered. |
| Store.DbConn.FreshQuestionView | src/db/actions.rs:34-46 | A question no answer refers to, with exactly the links of a tag-id list, shows no answers, is not answered, and shows exactly the catalogue tags in the list. |
| Store.DbConn.NewAnswer | src/db/actions.rs:295-317 | It succeeds exactly when the author and the question exist, and then appends one row with the next id, score 0 and not accepted; `num_answers` of the question rises by one. Otherwise it gives (BadRequest, "Invalid question id supplied") and leaves `answers` unchanged. |
| Tables.WithQuestionScore | src/db/actions.rs:327-331 | Only the score of the row with the id changes, by `diff`. Every other row and every other field stays the same. A missing id leaves the table unchanged. |
| Tables.QuestionScoresAdd | src/db/actions.rs:320-340 | Two score updates of a question compose into one update by their sum. |
| Store.DbConn.UpdateQuestionScore | src/db/actions.rs:320-340 | Always Ok. `questions` becomes the single-row update, and every other table is unchanged. |
| Tables.WithAnswerScore | src/db/actions.rs:350-354 | Only the score of the row with the id changes, by `diff`. Every other row and every other field stays the same. A missing id leaves the table unchanged. |
| Tables.AnswerScoresAdd | src/db/actions.rs:343-363 | Two score updates of an answer compose into one update by their sum. |
| Tables.UpVotesAddUp | src/db/actions.rs:343-363 | `n` successive +1 updates raise the answer's score by exactly `n`. |
| Store.DbConn.UpdateAnswerScore | src/db/actions.rs:343-363 | Always Ok. `answers` becomes the single-row update, and every other table is unchanged. |
| Tables.WithAccepted | src/db/actions.rs:369-373 | Only the row with the id becomes accepted. Flags already set stay set, since other answers are not cleared, and every other field is unchanged. |
| Tables.AcceptTwice | src/db/actions.rs:366-382 | Marking the same answer solved twice is the same as marking it once. |
| Tables.AcceptedMeansAnswered | src/db/actions.rs:112-128 | After an answer is accepted, its question has an accepted answer. |
| Store.DbConn.MarkSolved | src/db/actions.rs:366-382 | Always Ok. `answers` becomes the update, every other table is unchanged, and afterwards `answered` holds for the question of the marked answer. |
| Store.DbConn.ToDisplayQuestions | src/db/actions.rs:21-31 | The result has one annotated question per input question, in the same order. |
| Store.DbConn.ToDisplayQuestion | src/db/actions.rs:34-46 | The question's own fields are copied. The answer count is the number of answers of the question, and `answered` holds exactly when one of them is accepted. The tags are exactly the catalogue tags a link of the question names. |
| Store.DbConn.DisplayedQuestion | src/db/actions.rs:34-46 | In a consistent store, a displayed question's answer count is the number of rows `answers` returns for it. It is answered exactly when one of its answers is accepted, and its tags are exactly the catalogue tags linked to it. |

## Left out

- The connection pool, the asynchronous `run` dispatch and concurrency are left out. Each operation is one sequential step on the store. The "insert, then reselect the largest id" of `new_question` is therefore modelled without interleaving writers.
- Storage-engine failures on reads are left out: pool exhaustion, I/O errors and row decoding. Every read is modelled as a plain value. Most reads would map such a failure to (InternalServerError, "Database error"). `login` instead maps every failure of its user lookup to (BadRequest, the error's text) (`src/db/actions.rs:65`), and only the not-found case, "Record not found", is modelled.
- Storage-engine failures on writes, other than the constraint violations the store tests for, are left out for the same reason.
- bcrypt's algorithm, cost factor and salt are left out. The hasher, including `verify`, is a parameter of the store, and only the three properties of `Sound()` are relied on.
- `NewUser::create` is not part of this model. Its validation is a parameter of the store. The model assumes that the user it builds keeps the given username and carries `hash(password)`.
- `src/db/schema.rs` is not part of this model. Its keys, foreign keys and column defaults are the assumptions listed above.
- Integer widths are left out. Ids, scores and counts are unbounded integers, while the source has `i32` columns and an `i64` count. A score pushed past the `i32` range is therefore not modelled.
- Timestamps are opaque integers supplied by the caller of an insert, with no clock behind them.
- The Error → (Status, String) conversions are modelled only through the cases the store distinguishes. Diesel's wording of other errors is not reproduced.
- The HTTP routes, forms, cookies, templates and the process setup that call the store are outside the store and are left out.
