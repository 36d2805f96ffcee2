/**
 * The tables of the store as sequences of rows, and the relational operations
 * the Diesel queries perform on them: key lookups, inner joins on primary
 * keys, filters, counts, and the single-row UPDATE statements.
 */
module Tables {
  import opened Rows
  import opened Relational

  // ----- Keys -----

  function UserIds(users: seq<User>): seq<int> {
    seq(|users|, i requires 0 <= i < |users| => users[i].id)
  }

  function QuestionIds(questions: seq<QuestionRow>): seq<int> {
    seq(|questions|, i requires 0 <= i < |questions| => questions[i].id)
  }

  function AnswerIds(answers: seq<AnswerRow>): seq<int> {
    seq(|answers|, i requires 0 <= i < |answers| => answers[i].id)
  }

  function TagIds(catalog: seq<Tag>): seq<int> {
    seq(|catalog|, i requires 0 <= i < |catalog| => catalog[i].id)
  }

  /** The ids of a table with an INTEGER PRIMARY KEY: distinct and positive. */
  ghost predicate Keyed(ids: seq<int>) {
    NoDuplicates(ids) && forall i :: 0 <= i < |ids| ==> ids[i] >= 1
  }

  /** The largest id of a table, 0 when it is empty. */
  function MaxId(ids: seq<int>): (m: int)
    ensures m >= 0
    ensures forall i :: 0 <= i < |ids| ==> ids[i] <= m
    ensures m == 0 || m in ids
  {
    if ids == [] then
      0
    else
      var rest := MaxId(ids[1..]);
      assert forall i :: 1 <= i < |ids| ==> ids[i] == ids[1..][i - 1];
      if ids[0] >= rest then ids[0] else rest
  }

  /** The rowid SQLite gives an inserted row: one more than the largest, 1 in an empty table. */
  function NextId(ids: seq<int>): (n: int)
    ensures n >= 1 && n !in ids
    ensures forall i :: 0 <= i < |ids| ==> ids[i] < n
  {
    MaxId(ids) + 1
  }

  /** Appending a row with the next rowid keeps a table's ids distinct and positive. */
  lemma NextIdKeepsKeys(ids: seq<int>)
    requires Keyed(ids)
    ensures Keyed(ids + [NextId(ids)])
  {
  }

  /** Appending a row appends its id. */
  lemma UserIdsAppend(users: seq<User>, u: User)
    ensures UserIds(users + [u]) == UserIds(users) + [u.id]
  {
  }

  lemma QuestionIdsAppend(questions: seq<QuestionRow>, q: QuestionRow)
    ensures QuestionIds(questions + [q]) == QuestionIds(questions) + [q.id]
  {
  }

  /**
   * After a row with the next rowid is inserted, the largest id of the table
   * is that row's: reselecting the largest id finds the row just inserted.
   */
  lemma ReselectFindsNewRow(qs: seq<QuestionRow>, row: QuestionRow, m: int)
    requires row.id == NextId(QuestionIds(qs))
    requires m in QuestionIds(qs + [row])
    requires forall q :: q in qs + [row] ==> q.id <= m
    ensures m == row.id
    ensures forall q :: q in qs ==> q.id < m
  {
    var all := qs + [row];
    assert all[|qs|] == row;
    forall j | 0 <= j < |all| ensures QuestionIds(all)[j] <= row.id {
      if j < |qs| {
        assert QuestionIds(qs)[j] == QuestionIds(all)[j];
      }
    }
    forall q | q in qs ensures q.id < m {
      var j :| 0 <= j < |qs| && qs[j] == q;
      assert QuestionIds(qs)[j] == q.id;
    }
  }

  lemma AnswerIdsAppend(answers: seq<AnswerRow>, a: AnswerRow)
    ensures AnswerIds(answers + [a]) == AnswerIds(answers) + [a.id]
  {
  }

  // ----- Lookups on a key -----

  /** `users.filter(username.eq(name)).first()`: the first user with that name. */
  function FindUser(users: seq<User>, name: string): (r: Option<User>)
    ensures r.None? <==> forall u :: u in users ==> u.username != name
    ensures r.Some? ==> r.value in users && r.value.username == name
  {
    if users == [] then None
    else if users[0].username == name then Some(users[0])
    else FindUser(users[1..], name)
  }

  /** The row of `users` whose primary key is `id`, as an inner join finds it. */
  function UserById(users: seq<User>, id: int): (r: Option<User>)
    ensures r.None? <==> id !in UserIds(users)
    ensures r.Some? ==> r.value in users && r.value.id == id
  {
    if users == [] then
      None
    else
      assert UserIds(users) == [users[0].id] + UserIds(users[1..]);
      if users[0].id == id then Some(users[0]) else UserById(users[1..], id)
  }

  /** The row of `tags` whose primary key is `id`, as an inner join finds it. */
  function TagById(catalog: seq<Tag>, id: int): (r: Option<Tag>)
    ensures r.None? <==> id !in TagIds(catalog)
    ensures r.Some? ==> r.value in catalog && r.value.id == id
  {
    if catalog == [] then
      None
    else
      assert TagIds(catalog) == [catalog[0].id] + TagIds(catalog[1..]);
      if catalog[0].id == id then Some(catalog[0]) else TagById(catalog[1..], id)
  }

  /** With distinct tag ids, the join finds exactly the tag that has the id. */
  lemma TagByIdUnique(catalog: seq<Tag>, id: int, t: Tag)
    requires NoDuplicates(TagIds(catalog))
    ensures TagById(catalog, id) == Some(t) <==> t in catalog && t.id == id
  {
    if t in catalog && t.id == id {
      var found := TagById(catalog, id);
      assert id in TagIds(catalog) by {
        var k :| 0 <= k < |catalog| && catalog[k] == t;
        assert TagIds(catalog)[k] == id;
      }
      var i :| 0 <= i < |catalog| && catalog[i] == found.value;
      var j :| 0 <= j < |catalog| && catalog[j] == t;
      assert TagIds(catalog)[i] == TagIds(catalog)[j];
    }
  }

  // ----- Inner joins with `users` -----

  /** A question row with its author's name, the columns the question queries select. */
  function QuestionView(q: QuestionRow, author: User): Question {
    Question(q.id, author.username, q.time, q.score, q.title, q.text)
  }

  /** An answer row with its author's name, the columns `answers` selects. */
  function AnswerView(a: AnswerRow, author: User): Answer {
    Answer(a.id, author.username, a.question, a.time, a.score, a.accepted, a.text)
  }

  /** `questions.inner_join(users)`: one row per question whose author exists, in table order. */
  function JoinQuestions(qs: seq<QuestionRow>, users: seq<User>): (r: seq<Question>)
    ensures forall x :: x in r <==>
      exists q :: q in qs && q.author in UserIds(users) && x == QuestionView(q, UserById(users, q.author).value)
    ensures (forall q :: q in qs ==> q.author in UserIds(users)) ==>
      |r| == |qs| && forall i :: 0 <= i < |qs| ==> r[i] == QuestionView(qs[i], UserById(users, qs[i].author).value)
  {
    if qs == [] then
      []
    else
      var rest := JoinQuestions(qs[1..], users);
      assert qs == [qs[0]] + qs[1..];
      match UserById(users, qs[0].author)
      case None => rest
      case Some(u) => [QuestionView(qs[0], u)] + rest
  }

  /** `answers.inner_join(users)`: one row per answer whose author exists, in table order. */
  function JoinAnswers(rows: seq<AnswerRow>, users: seq<User>): (r: seq<Answer>)
    ensures forall x :: x in r <==>
      exists a :: a in rows && a.author in UserIds(users) && x == AnswerView(a, UserById(users, a.author).value)
    ensures (forall a :: a in rows ==> a.author in UserIds(users)) ==> |r| == |rows|
  {
    if rows == [] then
      []
    else
      var rest := JoinAnswers(rows[1..], users);
      assert rows == [rows[0]] + rows[1..];
      match UserById(users, rows[0].author)
      case None => rest
      case Some(u) => [AnswerView(rows[0], u)] + rest
  }

  /** When every author exists, the join has a row with id `qid` exactly when the table does. */
  lemma JoinedHasId(qs: seq<QuestionRow>, users: seq<User>, qid: int)
    requires forall q :: q in qs ==> q.author in UserIds(users)
    ensures (exists x :: x in JoinQuestions(qs, users) && x.id == qid) <==> qid in QuestionIds(qs)
  {
    var joined := JoinQuestions(qs, users);
    if qid in QuestionIds(qs) {
      var k :| 0 <= k < |qs| && QuestionIds(qs)[k] == qid;
      assert joined[k] in joined && joined[k].id == qid;
    }
    if exists x :: x in joined && x.id == qid {
      var x :| x in joined && x.id == qid;
      var q :| q in qs && q.author in UserIds(users) && x == QuestionView(q, UserById(users, q.author).value);
      var k :| 0 <= k < |qs| && qs[k] == q;
      assert QuestionIds(qs)[k] == qid;
    }
  }

  /** `.filter(id.eq(qid)).first()` over the joined questions. */
  function FindQuestion(qs: seq<Question>, qid: int): (r: Option<Question>)
    ensures r.None? <==> forall x :: x in qs ==> x.id != qid
    ensures r.Some? ==> r.value in qs && r.value.id == qid
  {
    if qs == [] then None
    else if qs[0].id == qid then Some(qs[0])
    else FindQuestion(qs[1..], qid)
  }

  // ----- Answers of a question -----

  /** `answers.filter(question.eq(q))`, in table order. */
  function AnswersOf(rows: seq<AnswerRow>, q: int): (r: seq<AnswerRow>)
    ensures forall a :: a in r <==> a in rows && a.question == q
  {
    if rows == [] then
      []
    else
      assert rows == [rows[0]] + rows[1..];
      if rows[0].question == q then [rows[0]] + AnswersOf(rows[1..], q) else AnswersOf(rows[1..], q)
  }

  /** `answers.filter(question.eq(q)).select(count_star())`. */
  function CountAnswers(rows: seq<AnswerRow>, q: int): (n: nat)
    ensures n == |AnswersOf(rows, q)|
  {
    if rows == [] then 0
    else (if rows[0].question == q then 1 else 0) + CountAnswers(rows[1..], q)
  }

  /** A new answer adds one to the count of its own question and leaves every other count alone. */
  lemma {:induction false} CountAfterInsert(rows: seq<AnswerRow>, a: AnswerRow, q: int)
    ensures CountAnswers(rows + [a], q) == CountAnswers(rows, q) + (if a.question == q then 1 else 0)
  {
    if rows != [] {
      assert (rows + [a])[1..] == rows[1..] + [a];
      CountAfterInsert(rows[1..], a, q);
    }
  }

  /** `answers.filter(question.eq(q).and(accepted.eq(true))).select(id).first()`. */
  function FirstAccepted(rows: seq<AnswerRow>, q: int): (r: Option<int>)
    ensures r.None? <==> forall a :: a in rows ==> !(a.question == q && a.accepted)
    ensures r.Some? ==> exists a :: a in rows && a.question == q && a.accepted && a.id == r.value
  {
    if rows == [] then None
    else if rows[0].question == q && rows[0].accepted then Some(rows[0].id)
    else
      assert rows == [rows[0]] + rows[1..];
      FirstAccepted(rows[1..], q)
  }

  // ----- Tags -----

  /** `chosen_tags.filter(question.eq(q)).inner_join(tags)`, the tag columns, in link order. */
  function LinkedTags(links: seq<ChosenTag>, catalog: seq<Tag>, q: int): (r: seq<Tag>)
    ensures forall t :: t in r <==> exists l :: l in links && l.question == q && TagById(catalog, l.tag) == Some(t)
  {
    if links == [] then
      []
    else
      var rest := LinkedTags(links[1..], catalog, q);
      assert links == [links[0]] + links[1..];
      if links[0].question != q then rest
      else match TagById(catalog, links[0].tag)
        case None => rest
        case Some(t) => [t] + rest
  }

  /** `tags.filter(name.eq_any(targets))`, in table order. */
  function NamedTags(catalog: seq<Tag>, targets: seq<string>): (r: seq<Tag>)
    ensures forall t :: t in r <==> t in catalog && t.name in targets
    ensures NoDuplicates(catalog) ==> NoDuplicates(r)
  {
    if catalog == [] then
      []
    else
      assert catalog == [catalog[0]] + catalog[1..];
      if catalog[0].name in targets then [catalog[0]] + NamedTags(catalog[1..], targets)
      else NamedTags(catalog[1..], targets)
  }

  /** `tags_with_names`: the named tags, refused unless there are as many as names were asked for. */
  function TagsWithNames(catalog: seq<Tag>, targets: seq<string>): (r: Result<seq<Tag>>)
    ensures r.Ok? ==> |r.value| == |targets| && forall t :: t in r.value ==> t in catalog && t.name in targets
    ensures r.Ok? ==> forall t :: t in catalog && t.name in targets ==> t in r.value
    ensures r.Err? ==> r == Err(BadRequest, InvalidTag)
    ensures r.Ok? <==> |NamedTags(catalog, targets)| == |targets|
    ensures r.Ok? ==> r.value == NamedTags(catalog, targets)
  {
    var found := NamedTags(catalog, targets);
    if |found| != |targets| then Err(BadRequest, InvalidTag) else Ok(found)
  }

  /** No two tags share a name (`tags.name` is UNIQUE). */
  ghost predicate UniqueTagNames(catalog: seq<Tag>) {
    forall i, j :: 0 <= i < j < |catalog| ==> catalog[i].name != catalog[j].name
  }

  function TagNames(catalog: seq<Tag>): set<string> {
    set t | t in catalog :: t.name
  }

  /** The names of `[c] + rest` are c's name and the names of `rest`. */
  lemma TagNamesCons(c: Tag, rest: seq<Tag>)
    ensures TagNames([c] + rest) == {c.name} + TagNames(rest)
  {
  }

  /** The first tag's name is not among the others' when names are unique. */
  lemma HeadNameUnique(catalog: seq<Tag>)
    requires catalog != [] && UniqueTagNames(catalog)
    ensures UniqueTagNames(catalog[1..])
    ensures catalog[0].name !in TagNames(catalog[1..])
  {
  }

  /** Putting a tag with a new name in front adds its name to the requested names that exist, if it is requested. */
  lemma KnownNamesCons(c: Tag, rest: seq<Tag>, targets: seq<string>)
    requires c.name !in TagNames(rest)
    ensures |Elems(targets) * TagNames([c] + rest)| ==
      |Elems(targets) * TagNames(rest)| + (if c.name in targets then 1 else 0)
  {
    TagNamesCons(c, rest);
    var before := Elems(targets) * TagNames(rest);
    var after := Elems(targets) * TagNames([c] + rest);
    if c.name in targets {
      assert c.name in Elems(targets);
      assert after == before + {c.name};
    } else {
      assert c.name !in Elems(targets);
      assert after == before;
    }
  }

  /** With unique tag names, the filter finds one tag per distinct requested name that exists. */
  lemma {:induction false} NamedTagsCount(catalog: seq<Tag>, targets: seq<string>)
    requires UniqueTagNames(catalog)
    ensures |NamedTags(catalog, targets)| == |Elems(targets) * TagNames(catalog)|
  {
    if catalog == [] {
      assert Elems(targets) * TagNames(catalog) == {};
    } else {
      var c, rest := catalog[0], catalog[1..];
      assert catalog == [c] + rest;
      HeadNameUnique(catalog);
      NamedTagsCount(rest, targets);
      KnownNamesCons(c, rest, targets);
    }
  }

  /**
   * With unique tag names, `tags_with_names` succeeds exactly when every
   * requested name is a tag and no name is requested twice.
   */
  lemma TagsWithNamesSucceeds(catalog: seq<Tag>, targets: seq<string>)
    requires UniqueTagNames(catalog)
    ensures TagsWithNames(catalog, targets).Ok? <==>
      NoDuplicates(targets) && forall n :: n in targets ==> n in TagNames(catalog)
  {
    var wanted := Elems(targets);
    var known := wanted * TagNames(catalog);
    NamedTagsCount(catalog, targets);
    CardElems(targets);
    SubsetCard(known, wanted);
    if NoDuplicates(targets) && forall n :: n in targets ==> n in TagNames(catalog) {
      assert known == wanted;
    }
    if TagsWithNames(catalog, targets).Ok? {
      assert |known| == |targets|;
      forall n | n in targets ensures n in TagNames(catalog) {
        assert n in wanted;
      }
    }
  }

  /** Tag `tagId` exists and its name is one of `targets`: the join with `tags` plus the name filter. */
  function NamedIn(catalog: seq<Tag>, tagId: int, targets: seq<string>): bool {
    match TagById(catalog, tagId)
    case None => false
    case Some(t) => t.name in targets
  }

  /** Question `qid` is linked to a tag whose name is one of `targets`. */
  ghost predicate HasTagNamed(links: seq<ChosenTag>, catalog: seq<Tag>, qid: int, targets: seq<string>) {
    exists l :: l in links && l.question == qid && NamedIn(catalog, l.tag, targets)
  }

  /** The rows the join yields for question `x`: one copy per link of it to a tag named in `targets`. */
  function TagMatches(x: Question, links: seq<ChosenTag>, catalog: seq<Tag>, targets: seq<string>): (r: seq<Question>)
    ensures forall y :: y in r ==> y == x
    ensures r != [] <==> HasTagNamed(links, catalog, x.id, targets)
  {
    if links == [] then
      []
    else
      var rest := TagMatches(x, links[1..], catalog, targets);
      assert links == [links[0]] + links[1..];
      assert HasTagNamed(links[1..], catalog, x.id, targets) ==> HasTagNamed(links, catalog, x.id, targets) by {
        if HasTagNamed(links[1..], catalog, x.id, targets) {
          var l :| l in links[1..] && l.question == x.id && NamedIn(catalog, l.tag, targets);
          assert l in links;
        }
      }
      if links[0].question == x.id && NamedIn(catalog, links[0].tag, targets) then [x] + rest else rest
  }

  /**
   * `questions.inner_join(users).inner_join(chosen_tags.inner_join(tags))`
   * filtered by `name.eq_any(targets)`: each joined question once per matching link.
   */
  function TagJoin(jqs: seq<Question>, links: seq<ChosenTag>, catalog: seq<Tag>, targets: seq<string>): (r: seq<Question>)
    ensures forall x :: x in r <==> x in jqs && HasTagNamed(links, catalog, x.id, targets)
  {
    if jqs == [] then
      []
    else
      var here := TagMatches(jqs[0], links, catalog, targets);
      assert jqs == [jqs[0]] + jqs[1..];
      assert here != [] ==> jqs[0] in here by {
        if here != [] {
          assert here[0] in here;
        }
      }
      here + TagJoin(jqs[1..], links, catalog, targets)
  }

  /** With distinct tag ids, a question has a tag named in `targets` exactly when such a tag is linked to it. */
  lemma HasTagNamedMeans(links: seq<ChosenTag>, catalog: seq<Tag>, qid: int, targets: seq<string>)
    requires NoDuplicates(TagIds(catalog))
    ensures HasTagNamed(links, catalog, qid, targets) <==>
      exists t :: t in catalog && t.name in targets && ChosenTag(qid, t.id) in links
  {
    if HasTagNamed(links, catalog, qid, targets) {
      var l :| l in links && l.question == qid && NamedIn(catalog, l.tag, targets);
      var t := TagById(catalog, l.tag).value;
      assert l == ChosenTag(qid, t.id);
    }
    if exists t :: t in catalog && t.name in targets && ChosenTag(qid, t.id) in links {
      var t :| t in catalog && t.name in targets && ChosenTag(qid, t.id) in links;
      TagByIdUnique(catalog, t.id, t);
      assert NamedIn(catalog, ChosenTag(qid, t.id).tag, targets);
    }
  }

  // ----- Links written by new_question -----

  /** The links `(qid, ids[0]), (qid, ids[1]), ...` that new_question inserts, in order. */
  function Links(qid: int, ids: seq<int>): (r: seq<ChosenTag>)
    ensures |r| == |ids|
    ensures forall k :: 0 <= k < |ids| ==> r[k] == ChosenTag(qid, ids[k])
  {
    seq(|ids|, k requires 0 <= k < |ids| => ChosenTag(qid, ids[k]))
  }

  /** Linking one more tag id appends one more link. */
  lemma LinksAppend(qid: int, ids: seq<int>, t: int)
    ensures Links(qid, ids + [t]) == Links(qid, ids) + [ChosenTag(qid, t)]
  {
  }

  /** A link of `qid` among `Links(qid, ids)` names a tag id of `ids`. */
  lemma LinkedIdIn(qid: int, ids: seq<int>, t: int)
    ensures ChosenTag(qid, t) in Links(qid, ids) <==> t in ids
  {
  }

  /** How inserting `chosen_tags` rows for a fresh question fails. */
  datatype LinkFault =
    | UnknownTag     // FOREIGN KEY violation: the tag id is not in `tags`
    | DuplicateLink  // PRIMARY KEY violation: the same tag was linked already

  /**
   * The fault of the first insert among `ids[from..]` that fails, when the
   * links for `ids[..from]` are in place; None when all of them succeed.
   */
  function FirstFault(catalog: seq<Tag>, ids: seq<int>, from: nat): (f: Option<LinkFault>)
    requires from <= |ids|
    ensures f.None? <==> forall k :: from <= k < |ids| ==> ids[k] in TagIds(catalog) && ids[k] !in ids[..k]
    ensures f == Some(UnknownTag) ==> exists k :: from <= k < |ids| && ids[k] !in TagIds(catalog)
    ensures f == Some(DuplicateLink) ==> exists k :: from <= k < |ids| && ids[k] in ids[..k]
    decreases |ids| - from
  {
    if from == |ids| then None
    else if ids[from] !in TagIds(catalog) then Some(UnknownTag)
    else if ids[from] in ids[..from] then Some(DuplicateLink)
    else FirstFault(catalog, ids, from + 1)
  }

  /** In a sequence without duplicates no element occurs before its own position. */
  lemma NoEarlierCopy(ids: seq<int>)
    requires NoDuplicates(ids)
    ensures forall k :: 0 <= k < |ids| ==> ids[k] !in ids[..k]
  {
  }

  /** All links of a new question go in exactly when every tag id exists and none is repeated. */
  lemma LinksSucceed(catalog: seq<Tag>, ids: seq<int>)
    ensures FirstFault(catalog, ids, 0).None? <==>
      (forall t :: t in ids ==> t in TagIds(catalog)) && NoDuplicates(ids)
  {
    if FirstFault(catalog, ids, 0).None? {
      forall i, j | 0 <= i < j < |ids| ensures ids[i] != ids[j] {
        assert ids[i] == ids[..j][i];
      }
    }
    if (forall t :: t in ids ==> t in TagIds(catalog)) && NoDuplicates(ids) {
      NoEarlierCopy(ids);
      forall k | 0 <= k < |ids| ensures ids[k] in TagIds(catalog) {
        assert ids[k] in ids;
      }
    }
  }

  /** A repeated tag id only faults once it is reached, so with no repeats an unknown tag is the fault. */
  lemma UnknownTagFaults(catalog: seq<Tag>, ids: seq<int>)
    requires NoDuplicates(ids)
    requires exists t :: t in ids && t !in TagIds(catalog)
    ensures FirstFault(catalog, ids, 0) == Some(UnknownTag)
  {
    var t :| t in ids && t !in TagIds(catalog);
    var k :| 0 <= k < |ids| && ids[k] == t;
    NoEarlierCopy(ids);
    var f := FirstFault(catalog, ids, 0);
    assert f.Some? && f.value != DuplicateLink;
  }

  // ----- Single-row updates -----

  /** `update(questions.filter(id.eq(qid))).set(score.eq(score + diff))`. */
  function WithQuestionScore(rows: seq<QuestionRow>, qid: int, diff: int): (r: seq<QuestionRow>)
    ensures |r| == |rows|
    ensures forall i :: 0 <= i < |rows| ==> r[i].(score := rows[i].score) == rows[i]
    ensures forall i :: 0 <= i < |rows| ==> r[i].score == rows[i].score + (if rows[i].id == qid then diff else 0)
    ensures qid !in QuestionIds(rows) ==> r == rows
    ensures QuestionIds(r) == QuestionIds(rows)
  {
    var r := seq(|rows|, i requires 0 <= i < |rows| =>
      if rows[i].id == qid then rows[i].(score := rows[i].score + diff) else rows[i]);
    assert qid !in QuestionIds(rows) ==> r == rows by {
      if qid !in QuestionIds(rows) {
        forall i | 0 <= i < |rows| ensures r[i] == rows[i] {
          assert QuestionIds(rows)[i] == rows[i].id;
        }
      }
    }
    r
  }

  /** `update(answers.filter(id.eq(aid))).set(score.eq(score + diff))`. */
  function WithAnswerScore(rows: seq<AnswerRow>, aid: int, diff: int): (r: seq<AnswerRow>)
    ensures |r| == |rows|
    ensures forall i :: 0 <= i < |rows| ==> r[i].(score := rows[i].score) == rows[i]
    ensures forall i :: 0 <= i < |rows| ==> r[i].score == rows[i].score + (if rows[i].id == aid then diff else 0)
    ensures aid !in AnswerIds(rows) ==> r == rows
    ensures AnswerIds(r) == AnswerIds(rows)
  {
    var r := seq(|rows|, i requires 0 <= i < |rows| =>
      if rows[i].id == aid then rows[i].(score := rows[i].score + diff) else rows[i]);
    assert aid !in AnswerIds(rows) ==> r == rows by {
      if aid !in AnswerIds(rows) {
        forall i | 0 <= i < |rows| ensures r[i] == rows[i] {
          assert AnswerIds(rows)[i] == rows[i].id;
        }
      }
    }
    r
  }

  /** Two score updates of one question add up. */
  lemma QuestionScoresAdd(rows: seq<QuestionRow>, qid: int, a: int, b: int)
    ensures WithQuestionScore(WithQuestionScore(rows, qid, a), qid, b) == WithQuestionScore(rows, qid, a + b)
  {
  }

  /** Two score updates of one answer add up. */
  lemma AnswerScoresAdd(rows: seq<AnswerRow>, aid: int, a: int, b: int)
    ensures WithAnswerScore(WithAnswerScore(rows, aid, a), aid, b) == WithAnswerScore(rows, aid, a + b)
  {
  }

  /** The answers table after `n` up-votes of answer `aid`, one UPDATE after the other. */
  function UpVotes(rows: seq<AnswerRow>, aid: int, n: nat): seq<AnswerRow> {
    if n == 0 then rows else WithAnswerScore(UpVotes(rows, aid, n - 1), aid, 1)
  }

  /** `n` up-votes raise the answer's score by exactly `n`: no vote is lost. */
  lemma {:induction false} UpVotesAddUp(rows: seq<AnswerRow>, aid: int, n: nat)
    ensures UpVotes(rows, aid, n) == WithAnswerScore(rows, aid, n)
  {
    if n == 0 {
      var r := WithAnswerScore(rows, aid, 0);
      forall i | 0 <= i < |rows| ensures r[i] == rows[i] { }
    } else {
      UpVotesAddUp(rows, aid, n - 1);
      AnswerScoresAdd(rows, aid, n - 1, 1);
    }
  }

  /** `update(answers.filter(id.eq(aid))).set(accepted.eq(true))`. */
  function WithAccepted(rows: seq<AnswerRow>, aid: int): (r: seq<AnswerRow>)
    ensures |r| == |rows|
    ensures forall i :: 0 <= i < |rows| ==> r[i].(accepted := rows[i].accepted) == rows[i]
    ensures forall i :: 0 <= i < |rows| ==> r[i].accepted == (rows[i].accepted || rows[i].id == aid)
    ensures AnswerIds(r) == AnswerIds(rows)
  {
    seq(|rows|, i requires 0 <= i < |rows| =>
      if rows[i].id == aid then rows[i].(accepted := true) else rows[i])
  }

  /** Accepting an answer twice is the same as accepting it once. */
  lemma AcceptTwice(rows: seq<AnswerRow>, aid: int)
    ensures WithAccepted(WithAccepted(rows, aid), aid) == WithAccepted(rows, aid)
  {
  }

  /** Once an answer is accepted, its question has an accepted answer. */
  lemma AcceptedMeansAnswered(rows: seq<AnswerRow>, i: nat)
    requires i < |rows|
    ensures FirstAccepted(WithAccepted(rows, rows[i].id), rows[i].question).Some?
  {
  }
}
