/** Records of the forum's SQLite store, and the values its operations return. */
module Rows {

  /** The HTTP status kinds the store pairs with an error message. */
  datatype Status = BadRequest | Unauthorized | NotFound | InternalServerError

  datatype Option<+T> = None | Some(value: T)

  /** An operation's outcome: a value, or a status with the message shown to the user. */
  datatype Result<+T> = Ok(value: T) | Err(status: Status, message: string)

  /** The message of every storage failure that is not mapped to a case of its own. */
  const DatabaseError := "Database error"
  /** Diesel's text for a `first` query that matched no row. */
  const RecordNotFound := "Record not found"
  const WrongPassword := "wrong password"
  const UsernameExists := "Username already exists"
  const InvalidTag := "Invalid Tag"
  const InvalidTagId := "Invalid tag id supplied"
  const InvalidQuestionId := "Invalid question id supplied"
  const NoSuchQuestion := "This question does not exist"

  /** A row of `users`; `password` holds the bcrypt hash, never the cleartext. */
  datatype User = User(id: int, username: string, password: string)

  /** A user about to be inserted: the name and the already hashed password. */
  datatype NewUser = NewUser(username: string, password: string)

  /** The identity of a logged-in user, kept in the session cookie. */
  datatype Login = Login(id: int, username: string)

  /** A row of `tags`. */
  datatype Tag = Tag(id: int, name: string, description: string)

  /** A row of `questions`; `author` is a `users.id`. */
  datatype QuestionRow = QuestionRow(id: int, author: int, time: int, score: int, title: string, text: string)

  /** A question as the queries load it: joined with `users`, the author is a username. */
  datatype Question = Question(id: int, author: string, time: int, score: int, title: string, text: string)

  /** A row of `answers`; `author` is a `users.id`, `question` a `questions.id`. */
  datatype AnswerRow = AnswerRow(id: int, author: int, question: int, time: int, score: int, accepted: bool, text: string)

  /** An answer as the queries load it, with the author's username. */
  datatype Answer = Answer(id: int, author: string, question: int, time: int, score: int, accepted: bool, text: string)

  /** A row of `chosen_tags`: question `question` carries tag `tag`. */
  datatype ChosenTag = ChosenTag(question: int, tag: int)

  /** A question annotated with what its listing shows: its tags, its answer count, and whether it is solved. */
  datatype DisplayQuestion = DisplayQuestion(
    id: int, author: string, time: int, score: int, title: string, text: string,
    tags: seq<Tag>, numAnswers: nat, answered: bool)
}
