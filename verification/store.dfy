/**
 * The forum's data-access layer, `impl DbConn`: the five tables held in
 * memory, every query a function over them (`newest_questions` and
 * `questions_with_tag` are methods, since they annotate their rows with the
 * `to_display_questions` loop) and every write a method that replaces the
 * tables it changes. Each operation is one sequential step on
 * the store; the connection pool and its asynchronous dispatch are not modelled.
 */
module Store {
  import opened Rows
  import opened Relational
  import opened Tables
  import opened Bcrypt

  /** Sort keys of the ORDER BY clauses. */
  function QuestionTime(q: Question): int { q.time }
  function DisplayTime(q: DisplayQuestion): int { q.time }
  function AnswerScore(a: Answer): int { a.score }

  class DbConn {
    /** The password hasher of `NewUser::create` and `login`. */
    const bcrypt: Hasher
    /** The checks `NewUser::create` makes before hashing: Some(reason) refuses the new user. */
    const vetNewUser: (string, string) -> Option<string>

    var users: seq<User>
    var questions: seq<QuestionRow>
    var answers: seq<AnswerRow>
    var tags: seq<Tag>
    var chosenTags: seq<ChosenTag>

    /**
     * The schema's constraints: primary keys, UNIQUE user and tag names, the
     * foreign keys of questions, answers and chosen_tags, the composite key of
     * chosen_tags, and stored passwords that are bcrypt hashes.
     */
    ghost predicate Valid()
      reads this
    {
      && bcrypt.Sound()
      && Keyed(UserIds(users)) && Keyed(QuestionIds(questions))
      && Keyed(AnswerIds(answers)) && Keyed(TagIds(tags))
      && (forall i, j :: 0 <= i < j < |users| ==> users[i].username != users[j].username)
      && UniqueTagNames(tags)
      && (forall u :: u in users ==> bcrypt.isHash(u.password))
      && (forall q :: q in questions ==> q.author in UserIds(users))
      && (forall a :: a in answers ==> a.author in UserIds(users) && a.question in QuestionIds(questions))
      && (forall l :: l in chosenTags ==> l.question in QuestionIds(questions) && l.tag in TagIds(tags))
      && NoDuplicates(chosenTags)
    }

    /** An empty forum whose tag catalogue is `catalog`. */
    constructor (hasher: Hasher, vet: (string, string) -> Option<string>, catalog: seq<Tag>)
      requires hasher.Sound()
      requires Keyed(TagIds(catalog)) && UniqueTagNames(catalog)
      ensures Valid()
      ensures bcrypt == hasher && vetNewUser == vet
      ensures users == [] && questions == [] && answers == [] && chosenTags == [] && tags == catalog
    {
      bcrypt, vetNewUser := hasher, vet;
      users, questions, answers, chosenTags, tags := [], [], [], [], catalog;
    }

    // ----- Credentials -----

    /** `login`: the user with that name, if the password verifies against the stored hash. */
    function LogIn(name: string, password: string): (r: Result<Login>)
      reads this
      ensures r == Err(BadRequest, RecordNotFound) <==> forall u :: u in users ==> u.username != name
      ensures r.Ok? ==> exists u :: (u in users && u.username == name &&
        r.value == Login(u.id, u.username) && bcrypt.verify(password, u.password) == Some(true))
      ensures r == Err(Unauthorized, WrongPassword) ==> exists u :: (u in users && u.username == name &&
        bcrypt.verify(password, u.password) == Some(false))
    {
      match FindUser(users, name)
      case None => Err(BadRequest, RecordNotFound)
      case Some(u) =>
        match bcrypt.verify(password, u.password)
        case None => Err(InternalServerError, DatabaseError)
        case Some(verified) => if verified then Ok(Login(u.id, u.username)) else Err(Unauthorized, WrongPassword)
    }

    /**
     * In a consistent store, logging in as an existing user never reaches the
     * engine-error case: it succeeds exactly when bcrypt verifies the password
     * against that user's stored hash, and in particular with the password
     * the hash was made from.
     */
    lemma LogInExistingUser(u: User, password: string)
      requires Valid() && u in users
      ensures LogIn(u.username, password) ==
        if bcrypt.verify(password, u.password) == Some(true) then Ok(Login(u.id, u.username))
        else Err(Unauthorized, WrongPassword)
      ensures u.password == bcrypt.hash(password) ==> LogIn(u.username, password) == Ok(Login(u.id, u.username))
    {
      VerifyOwnHash(bcrypt, password, u.password);
    }

    /** `register`: validates and hashes, inserts the user unless the name is taken, then logs in. */
    method Register(username: string, password: string) returns (r: Result<Login>)
      requires Valid()
      modifies this
      ensures Valid()
      ensures questions == old(questions) && answers == old(answers) && tags == old(tags) && chosenTags == old(chosenTags)
      ensures vetNewUser(username, password).Some? ==>
        r == Err(BadRequest, vetNewUser(username, password).value) && users == old(users)
      ensures vetNewUser(username, password).None? && (exists u :: u in old(users) && u.username == username) ==>
        r == Err(BadRequest, UsernameExists) && users == old(users)
      ensures vetNewUser(username, password).None? && (forall u :: u in old(users) ==> u.username != username) ==>
        var id := NextId(UserIds(old(users)));
        users == old(users) + [User(id, username, bcrypt.hash(password))] && r == Ok(Login(id, username))
    {
      // NewUser::create
      match vetNewUser(username, password) {
        case Some(reason) =>
          return Err(BadRequest, reason);
        case None =>
      }
      var user := NewUser(username, bcrypt.hash(password));
      // UNIQUE(username)
      if FindUser(users, user.username).Some? {
        return Err(BadRequest, UsernameExists);
      }
      var id := NextId(UserIds(users));
      NextIdKeepsKeys(UserIds(users));
      UserIdsAppend(users, User(id, user.username, user.password));
      users := users + [User(id, user.username, user.password)];
      VerifyOwnHash(bcrypt, password, bcrypt.hash(password));
      r := LogIn(username, password);
    }

    // ----- Reads -----

    /** `num_answers`. */
    function NumAnswers(q: int): (n: nat)
      reads this
      ensures n == |AnswersOf(answers, q)|
    {
      CountAnswers(answers, q)
    }

    /** `answered`: whether some answer of the question is accepted. */
    function Answered(q: int): (r: bool)
      reads this
      ensures r <==> exists a :: a in answers && a.question == q && a.accepted
    {
      FirstAccepted(answers, q).Some?
    }

    /** `tags`: the tags linked to question `q`. */
    function Tags(q: int): (r: seq<Tag>)
      reads this
      ensures forall t :: t in r ==> t in tags
      ensures forall t :: t in r <==> exists l :: l in chosenTags && l.question == q && TagById(tags, l.tag) == Some(t)
    {
      LinkedTags(chosenTags, tags, q)
    }

    /** `all_tags`: the whole catalogue, in table order. */
    function AllTags(): (r: seq<Tag>)
      reads this
      ensures |r| == |tags|
      ensures forall t :: t in r <==> t in tags
    {
      tags
    }

    /** `tags_with_names`. */
    function TagsWithNames(targets: seq<string>): (r: Result<seq<Tag>>)
      reads this
      ensures r.Ok? ==> |r.value| == |targets| && forall t :: t in r.value <==> t in tags && t.name in targets
      ensures r.Err? ==> r == Err(BadRequest, InvalidTag)
      ensures r.Ok? <==> |NamedTags(tags, targets)| == |targets|
      ensures r.Ok? && NoDuplicates(tags) ==> NoDuplicates(r.value)
    {
      Tables.TagsWithNames(tags, targets)
    }

    /** `to_display_question`: the question with its tags, its answer count and its answered flag. */
    function ToDisplayQuestion(q: Question): (r: DisplayQuestion)
      reads this
      ensures r.id == q.id && r.author == q.author && r.time == q.time && r.score == q.score
      ensures r.title == q.title && r.text == q.text
      ensures r.numAnswers == |AnswersOf(answers, q.id)|
      ensures r.answered <==> exists a :: a in answers && a.question == q.id && a.accepted
      ensures forall t :: t in r.tags <==> exists l :: l in chosenTags && l.question == q.id && TagById(tags, l.tag) == Some(t)
    {
      DisplayQuestion(q.id, q.author, q.time, q.score, q.title, q.text, Tags(q.id), NumAnswers(q.id), Answered(q.id))
    }

    /** `answers`: the answers of question `q`, with author names, highest score first. */
    function Answers(q: int): (r: seq<Answer>)
      reads this
      ensures multiset(r) == multiset(JoinAnswers(AnswersOf(answers, q), users))
      ensures SortedDesc(r, AnswerScore)
      ensures forall a :: a in r ==> a.question == q
    {
      var rows := JoinAnswers(AnswersOf(answers, q), users);
      var r := SortDesc(rows, AnswerScore);
      assert forall a :: a in r ==> a.question == q by {
        forall a | a in r ensures a.question == q {
          assert a in multiset(r);
          assert a in rows;
          var b :| b in AnswersOf(answers, q) && b.author in UserIds(users) && a == AnswerView(b, UserById(users, b.author).value);
        }
      }
      r
    }

    /** The rows `newest_questions` loads: every question with its author's name, newest first. */
    function NewestQuestionRows(): (r: seq<Question>)
      reads this
      ensures multiset(r) == multiset(JoinQuestions(questions, users))
      ensures SortedDesc(r, QuestionTime)
    {
      SortDesc(JoinQuestions(questions, users), QuestionTime)
    }

    /** The rows `questions_with_tag` loads: the questions with a tag named in `targets`, once each, newest first. */
    function TaggedQuestionRows(targets: seq<string>): (r: seq<Question>)
      reads this
      ensures forall x :: x in r <==> x in JoinQuestions(questions, users) && HasTagNamed(chosenTags, tags, x.id, targets)
      ensures NoDuplicates(r)
      ensures SortedDesc(r, QuestionTime)
    {
      var rows := TagJoin(JoinQuestions(questions, users), chosenTags, tags, targets);
      var sorted := SortDesc(rows, QuestionTime);
      assert forall x :: x in sorted <==> x in rows by {
        forall x ensures x in sorted <==> x in rows {
          assert x in sorted <==> x in multiset(sorted);
          assert x in rows <==> x in multiset(rows);
        }
      }
      DistinctKeepsOrder(sorted, QuestionTime);
      Distinct(sorted)
    }

    /** `question`: the question with id `qid` as displayed, or NotFound. */
    function QuestionById(qid: int): (r: Result<DisplayQuestion>)
      reads this
      requires Valid()
      ensures r.Err? <==> qid !in QuestionIds(questions)
      ensures r.Err? ==> r == Err(NotFound, NoSuchQuestion)
      ensures r.Ok? ==> exists q :: (q in questions && q.id == qid &&
        r.value == ToDisplayQuestion(QuestionView(q, UserById(users, q.author).value)))
    {
      var joined := JoinQuestions(questions, users);
      JoinedHasId(questions, users, qid);
      match FindQuestion(joined, qid)
      case None => Err(NotFound, NoSuchQuestion)
      case Some(q) => Ok(ToDisplayQuestion(q))
    }

    /** `to_display_questions`: every question annotated, in the same order. */
    method ToDisplayQuestions(qs: seq<Question>) returns (r: seq<DisplayQuestion>)
      ensures |r| == |qs|
      ensures forall i :: 0 <= i < |qs| ==> r[i] == ToDisplayQuestion(qs[i])
    {
      r := [];
      for i := 0 to |qs|
        invariant |r| == i
        invariant forall k :: 0 <= k < i ==> r[k] == ToDisplayQuestion(qs[k])
      {
        r := r + [ToDisplayQuestion(qs[i])];
      }
    }

    /** `newest_questions`: all questions as displayed, newest first. */
    method NewestQuestions() returns (r: seq<DisplayQuestion>)
      ensures |r| == |NewestQuestionRows()|
      ensures forall i :: 0 <= i < |r| ==> r[i] == ToDisplayQuestion(NewestQuestionRows()[i])
      ensures SortedDesc(r, DisplayTime)
    {
      r := ToDisplayQuestions(NewestQuestionRows());
    }

    /** `questions_with_tag`: the questions with a tag named in `targets` as displayed, once each, newest first. */
    method QuestionsWithTag(targets: seq<string>) returns (r: seq<DisplayQuestion>)
      ensures |r| == |TaggedQuestionRows(targets)|
      ensures forall i :: 0 <= i < |r| ==> r[i] == ToDisplayQuestion(TaggedQuestionRows(targets)[i])
      ensures SortedDesc(r, DisplayTime)
      ensures NoDuplicates(r)
    {
      var rows := TaggedQuestionRows(targets);
      r := ToDisplayQuestions(rows);
      forall i, j | 0 <= i < j < |r| ensures r[i] != r[j] {
        assert rows[i] != rows[j];
        assert r[i].id != r[j].id || r[i].author != r[j].author || r[i].time != r[j].time ||
               r[i].score != r[j].score || r[i].title != r[j].title || r[i].text != r[j].text;
      }
    }

    // ----- Writes -----

    /**
     * `questions.order_by(id.desc()).select(id).first()`: the largest
     * question id, None when there are no questions.
     */
    method LatestQuestionId() returns (latest: Option<int>)
      ensures latest.None? <==> questions == []
      ensures latest.Some? ==> latest.value in QuestionIds(questions)
      ensures latest.Some? ==> forall q :: q in questions ==> q.id <= latest.value
    {
      if questions == [] {
        return None;
      }
      var m := questions[0].id;
      var i := 1;
      while i < |questions|
        invariant 1 <= i <= |questions|
        invariant exists k :: 0 <= k < i && questions[k].id == m
        invariant forall k :: 0 <= k < i ==> questions[k].id <= m
      {
        if questions[i].id > m {
          m := questions[i].id;
        }
        i := i + 1;
      }
      var k :| 0 <= k < |questions| && questions[k].id == m;
      assert QuestionIds(questions)[k] == m;
      return Some(m);
    }

    /**
     * The `for t in tags` loop of `new_question`: links question `qid` to each
     * tag id in order, stopping at the first insert the schema refuses. The
     * links inserted before a failure stay until the caller rolls back.
     */
    method InsertLinks(qid: int, tagIds: seq<int>) returns (fault: Option<LinkFault>)
      requires Valid()
      requires qid in QuestionIds(questions)
      requires forall l :: l in chosenTags ==> l.question != qid
      modifies this
      ensures Valid()
      ensures users == old(users) && questions == old(questions) && answers == old(answers) && tags == old(tags)
      ensures fault == FirstFault(tags, tagIds, 0)
      ensures fault.None? ==> chosenTags == old(chosenTags) + Links(qid, tagIds)
      ensures fault.Some? ==> exists i :: 0 <= i <= |tagIds| && chosenTags == old(chosenTags) + Links(qid, tagIds[..i])
    {
      ghost var saved := chosenTags;
      var i := 0;
      while i < |tagIds|
        invariant 0 <= i <= |tagIds|
        invariant Valid()
        invariant users == old(users) && questions == old(questions) && answers == old(answers) && tags == old(tags)
        invariant chosenTags == saved + Links(qid, tagIds[..i])
        invariant FirstFault(tags, tagIds, 0) == FirstFault(tags, tagIds, i)
      {
        var t := tagIds[i];
        // FOREIGN KEY (tag) REFERENCES tags
        if t !in TagIds(tags) {
          assert chosenTags == old(chosenTags) + Links(qid, tagIds[..i]);
          return Some(UnknownTag);
        }
        LinkedIdIn(qid, tagIds[..i], t);
        // PRIMARY KEY (question, tag)
        if ChosenTag(qid, t) in chosenTags {
          assert ChosenTag(qid, t) !in saved;
          assert chosenTags == old(chosenTags) + Links(qid, tagIds[..i]);
          return Some(DuplicateLink);
        }
        LinksAppend(qid, tagIds[..i], t);
        assert tagIds[..i + 1] == tagIds[..i] + [t];
        LinkKeepsValid(qid, t);
        chosenTags := chosenTags + [ChosenTag(qid, t)];
        i := i + 1;
      }
      assert tagIds[..i] == tagIds;
      return None;
    }

    /** A new link between an existing question and an existing tag, not yet present, keeps the store consistent. */
    lemma LinkKeepsValid(qid: int, t: int)
      requires Valid()
      requires qid in QuestionIds(questions) && t in TagIds(tags) && ChosenTag(qid, t) !in chosenTags
      ensures var s := chosenTags + [ChosenTag(qid, t)];
        NoDuplicates(s) && forall l :: l in s ==> l.question in QuestionIds(questions) && l.tag in TagIds(tags)
    {
    }

    /** A question no answer refers to, linked by exactly `Links(qid, tagIds)`, shows no answers and exactly those tags. */
    lemma FreshQuestionView(qid: int, before: seq<ChosenTag>, tagIds: seq<int>)
      requires Valid()
      requires forall a :: a in answers ==> a.question != qid
      requires forall l :: l in before ==> l.question != qid
      requires chosenTags == before + Links(qid, tagIds)
      ensures NumAnswers(qid) == 0 && !Answered(qid)
      ensures forall t :: t in Tags(qid) <==> t in tags && t.id in tagIds
    {
      var mine := AnswersOf(answers, qid);
      forall k | 0 <= k < |mine| ensures mine[k] in answers && mine[k].question == qid {
        assert mine[k] in mine;
      }
      assert |mine| > 0 ==> mine[0] in answers && mine[0].question == qid;
      assert |mine| == 0;
      forall t ensures t in Tags(qid) <==> t in tags && t.id in tagIds {
        LinkedIdIn(qid, tagIds, t.id);
        if t in Tags(qid) {
          var l :| l in chosenTags && l.question == qid && TagById(tags, l.tag) == Some(t);
          assert l == ChosenTag(qid, t.id);
        }
        if t in tags && t.id in tagIds {
          TagByIdUnique(tags, t.id, t);
        }
      }
    }

    /**
     * The first two statements of `new_question`'s transaction: insert the
     * question row, then reselect the largest question id as the new one.
     */
    method InsertQuestion(author: int, title: string, text: string, time: int) returns (newId: int)
      requires Valid()
      requires author in UserIds(users)
      modifies this
      ensures Valid()
      ensures users == old(users) && answers == old(answers) && tags == old(tags) && chosenTags == old(chosenTags)
      ensures newId == NextId(QuestionIds(old(questions)))
      ensures newId in QuestionIds(questions)
      ensures questions == old(questions) + [QuestionRow(newId, author, time, 0, title, text)]
      ensures forall q :: q in old(questions) ==> q.id < newId
      ensures forall l :: l in chosenTags ==> l.question != newId
      ensures forall a :: a in answers ==> a.question != newId
    {
      var row := QuestionRow(NextId(QuestionIds(questions)), author, time, 0, title, text);
      NextIdKeepsKeys(QuestionIds(questions));
      QuestionIdsAppend(questions, row);
      questions := questions + [row];
      var latest := LatestQuestionId();
      newId := latest.value;
      ReselectFindsNewRow(old(questions), row, newId);
    }

    /**
     * `new_question`, one transaction: insert the question, reselect its id as
     * the largest, insert one link per tag id in order; any failure rolls back.
     */
    method NewQuestion(author: int, title: string, text: string, tagIds: seq<int>, time: int) returns (r: Result<int>)
      requires Valid()
      modifies this
      ensures Valid()
      ensures users == old(users) && answers == old(answers) && tags == old(tags)
      ensures author !in UserIds(old(users)) ==> r == Err(BadRequest, InvalidTagId)
      ensures author in UserIds(old(users)) ==>
        r == match FirstFault(tags, tagIds, 0)
             case None => Ok(NextId(QuestionIds(old(questions))))
             case Some(UnknownTag) => Err(BadRequest, InvalidTagId)
             case Some(DuplicateLink) => Err(InternalServerError, DatabaseError)
      ensures r.Err? ==> questions == old(questions) && chosenTags == old(chosenTags)
      ensures r.Ok? ==> questions == old(questions) + [QuestionRow(r.value, author, time, 0, title, text)]
      ensures r.Ok? ==> chosenTags == old(chosenTags) + Links(r.value, tagIds)
      ensures r.Ok? ==> forall q :: q in old(questions) ==> q.id < r.value
      ensures r.Ok? ==> NumAnswers(r.value) == 0 && !Answered(r.value)
      ensures r.Ok? ==> forall t :: t in Tags(r.value) <==> t in tags && t.id in tagIds
    {
      // BEGIN
      var savedQuestions, savedLinks := questions, chosenTags;
      // FOREIGN KEY (author) REFERENCES users
      if author !in UserIds(users) {
        return Err(BadRequest, InvalidTagId);
      }
      var newId := InsertQuestion(author, title, text, time);
      var fault := InsertLinks(newId, tagIds);
      match fault {
        case None =>
          // COMMIT
          FreshQuestionView(newId, savedLinks, tagIds);
          return Ok(newId);
        case Some(f) =>
          // ROLLBACK
          questions, chosenTags := savedQuestions, savedLinks;
          return if f == UnknownTag then Err(BadRequest, InvalidTagId) else Err(InternalServerError, DatabaseError);
      }
    }

    /** `new_answer`: inserts the answer unless its author or question does not exist. */
    method NewAnswer(author: int, question: int, text: string, time: int) returns (r: Result<()>)
      requires Valid()
      modifies this
      ensures Valid()
      ensures users == old(users) && questions == old(questions) && tags == old(tags) && chosenTags == old(chosenTags)
      ensures r.Ok? <==> author in UserIds(old(users)) && question in QuestionIds(old(questions))
      ensures r.Err? ==> r == Err(BadRequest, InvalidQuestionId) && answers == old(answers)
      ensures r.Ok? ==>
        answers == old(answers) + [AnswerRow(NextId(AnswerIds(old(answers))), author, question, time, 0, false, text)]
      ensures r.Ok? ==> NumAnswers(question) == old(NumAnswers(question)) + 1
    {
      // FOREIGN KEY (author) REFERENCES users, FOREIGN KEY (question) REFERENCES questions
      if author !in UserIds(users) || question !in QuestionIds(questions) {
        return Err(BadRequest, InvalidQuestionId);
      }
      var row := AnswerRow(NextId(AnswerIds(answers)), author, question, time, 0, false, text);
      NextIdKeepsKeys(AnswerIds(answers));
      AnswerIdsAppend(answers, row);
      CountAfterInsert(answers, row, question);
      answers := answers + [row];
      return Ok(());
    }

    /** `update_question_score`: adds `diff` to the score of question `qid`, if there is one. */
    method UpdateQuestionScore(qid: int, diff: int) returns (r: Result<()>)
      requires Valid()
      modifies this
      ensures Valid()
      ensures r == Ok(())
      ensures questions == WithQuestionScore(old(questions), qid, diff)
      ensures users == old(users) && answers == old(answers) && tags == old(tags) && chosenTags == old(chosenTags)
    {
      var updated := WithQuestionScore(questions, qid, diff);
      assert forall q :: q in updated ==> q.author in UserIds(users) by {
        forall q | q in updated ensures q.author in UserIds(users) {
          var k :| 0 <= k < |updated| && updated[k] == q;
          assert questions[k] in questions;
        }
      }
      questions := updated;
      return Ok(());
    }

    /** `update_answer_score`: adds `diff` to the score of answer `aid`, if there is one. */
    method UpdateAnswerScore(aid: int, diff: int) returns (r: Result<()>)
      requires Valid()
      modifies this
      ensures Valid()
      ensures r == Ok(())
      ensures answers == WithAnswerScore(old(answers), aid, diff)
      ensures users == old(users) && questions == old(questions) && tags == old(tags) && chosenTags == old(chosenTags)
    {
      var updated := WithAnswerScore(answers, aid, diff);
      assert forall a :: a in updated ==> a.author in UserIds(users) && a.question in QuestionIds(questions) by {
        forall a | a in updated ensures a.author in UserIds(users) && a.question in QuestionIds(questions) {
          var k :| 0 <= k < |updated| && updated[k] == a;
          assert answers[k] in answers;
        }
      }
      answers := updated;
      return Ok(());
    }

    /** `mark_solved`: sets the accepted flag of answer `aid`; other answers keep theirs. */
    method MarkSolved(aid: int) returns (r: Result<()>)
      requires Valid()
      modifies this
      ensures Valid()
      ensures r == Ok(())
      ensures answers == WithAccepted(old(answers), aid)
      ensures forall a :: a in answers && a.id == aid ==> Answered(a.question)
      ensures users == old(users) && questions == old(questions) && tags == old(tags) && chosenTags == old(chosenTags)
    {
      var updated := WithAccepted(answers, aid);
      assert forall a :: a in updated ==> a.author in UserIds(users) && a.question in QuestionIds(questions) by {
        forall a | a in updated ensures a.author in UserIds(users) && a.question in QuestionIds(questions) {
          var k :| 0 <= k < |updated| && updated[k] == a;
          assert answers[k] in answers;
        }
      }
      forall k | 0 <= k < |answers| && answers[k].id == aid
        ensures FirstAccepted(updated, answers[k].question).Some?
      {
        AcceptedMeansAnswered(answers, k);
      }
      answers := updated;
      return Ok(());
    }

    // ----- Properties of the queries in a consistent store -----

    /** `num_answers` counts exactly the rows `answers` returns. */
    lemma NumAnswersCountsAnswers(q: int)
      requires Valid()
      ensures NumAnswers(q) == |Answers(q)|
    {
      var mine := AnswersOf(answers, q);
      assert forall a :: a in mine ==> a.author in UserIds(users);
      assert |multiset(Answers(q))| == |multiset(JoinAnswers(mine, users))|;
    }

    /** Every answer of `q` is among the rows `answers(q)` returns. */
    lemma AnswersListsEveryAnswer(q: int, a: AnswerRow)
      requires Valid() && a in answers && a.question == q
      ensures AnswerView(a, UserById(users, a.author).value) in Answers(q)
    {
      var view := AnswerView(a, UserById(users, a.author).value);
      assert view in JoinAnswers(AnswersOf(answers, q), users);
      assert view in multiset(Answers(q));
    }

    /** `newest_questions` lists every stored question exactly once. */
    lemma NewestListsEveryQuestion()
      requires Valid()
      ensures |NewestQuestionRows()| == |questions|
      ensures forall q :: q in questions ==> QuestionView(q, UserById(users, q.author).value) in NewestQuestionRows()
    {
      var joined := JoinQuestions(questions, users);
      assert |multiset(NewestQuestionRows())| == |multiset(joined)|;
      forall q | q in questions ensures QuestionView(q, UserById(users, q.author).value) in NewestQuestionRows() {
        assert QuestionView(q, UserById(users, q.author).value) in multiset(joined);
      }
    }

    /** A question is listed under `targets` exactly when it is linked to a tag with one of those names. */
    lemma TaggedMeansLinked(targets: seq<string>, x: Question)
      requires Valid()
      ensures x in TaggedQuestionRows(targets) <==>
        x in JoinQuestions(questions, users) &&
        exists t :: t in tags && t.name in targets && ChosenTag(x.id, t.id) in chosenTags
    {
      HasTagNamedMeans(chosenTags, tags, x.id, targets);
    }

    /** The tags shown for a question are exactly the catalogue tags linked to it. */
    lemma TagsAreLinked(q: int, t: Tag)
      requires Valid()
      ensures t in Tags(q) <==> t in tags && ChosenTag(q, t.id) in chosenTags
    {
      if t in Tags(q) {
        var l :| l in chosenTags && l.question == q && TagById(tags, l.tag) == Some(t);
        assert l == ChosenTag(q, t.id);
      }
      if t in tags && ChosenTag(q, t.id) in chosenTags {
        TagByIdUnique(tags, t.id, t);
      }
    }

    /** What a listing shows about a question: its linked tags, how many answers it has, and whether one is accepted. */
    lemma DisplayedQuestion(q: Question)
      requires Valid()
      ensures ToDisplayQuestion(q).numAnswers == |Answers(q.id)|
      ensures ToDisplayQuestion(q).answered <==> exists a :: a in answers && a.question == q.id && a.accepted
      ensures forall t :: t in ToDisplayQuestion(q).tags <==> t in tags && ChosenTag(q.id, t.id) in chosenTags
    {
      NumAnswersCountsAnswers(q.id);
      forall t ensures t in ToDisplayQuestion(q).tags <==> t in tags && ChosenTag(q.id, t.id) in chosenTags {
        TagsAreLinked(q.id, t);
      }
    }

    /**
     * `all_tags` lists every tag of the catalogue once, and no name twice, and
     * every tag any question shows is among them.
     */
    lemma AllTagsListsCatalogue()
      requires Valid()
      ensures NoDuplicates(AllTags()) && UniqueTagNames(AllTags())
      ensures forall q, t :: t in Tags(q) ==> t in AllTags()
    {
    }

    /** With unique tag names, `tags_with_names` succeeds exactly for a list of distinct existing names. */
    lemma TagsWithNamesIff(targets: seq<string>)
      requires Valid()
      ensures TagsWithNames(targets).Ok? <==>
        NoDuplicates(targets) && forall n :: n in targets ==> exists t :: t in tags && t.name == n
    {
      TagsWithNamesSucceeds(tags, targets);
    }
  }
}
