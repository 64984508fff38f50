/** The ORM records of the quiz backend (`app/models/data_models.py` and the
    detail table added by migration 15f7c001ff58), as immutable values, and
    the failures the core raises. */
module Models {
  import opened Wrappers

  /** Primary and foreign keys. The source uses UUID4 values; only their
      identity matters to the core, so any natural number stands for one. */
  type Id = nat

  /** A database timestamp, as an ordered instant. */
  type Timestamp = int

  /** `UserRole`: a string-valued enumeration. */
  datatype Role = RoleAdmin | RoleUser {
    /** The enumeration's `.value`. */
    function Value(): string
    {
      match this
      case RoleAdmin => "admin"
      case RoleUser => "user"
    }
  }

  /** The role whose `.value` is `s`, if any. */
  function RoleOfValue(s: string): (r: Option<Role>)
    ensures r.Some? ==> r.value.Value() == s
    ensures r.None? ==> forall role: Role :: role.Value() != s
  {
    if s == "admin" then Some(RoleAdmin)
    else if s == "user" then Some(RoleUser)
    else None
  }

  /** A row of `users`; `username` is unique (data_models.py:32). */
  datatype User = User(userId: Id, username: string, password: string, role: Role)

  /** `UserOutput`: the caller identity the services receive. */
  datatype UserOutput = UserOutput(userId: Id, username: string, role: Role)

  function ToOutput(u: User): UserOutput
  {
    UserOutput(u.userId, u.username, u.role)
  }

  /** The four answer letters of `OptionEnum`. */
  datatype Letter = A | B | C | D

  /** `Options`: the four labelled choices of a question. */
  datatype Options = Options(a: string, b: string, c: string, d: string)

  /** A row of `mcqs`. */
  datatype Mcq = Mcq(
    mcqId: Id,
    mcqType: string,
    question: string,
    options: Options,
    correctAnswer: Letter,
    createdBy: Option<Id>)

  /** A row of `user_submissions`. */
  datatype UserSubmission = UserSubmission(
    submissionId: Id,
    userId: Id,
    mcqId: Id,
    userAnswer: string,
    isCorrect: bool,
    attemptedAt: Timestamp)

  /** A row of `user_history`; the two Float columns are reals. */
  datatype UserHistory = UserHistory(
    historyId: Id,
    userId: Id,
    totalScore: real,
    percentage: real,
    totalAttempts: int,
    attemptedAt: Timestamp)

  /** A row of `user_history_details`. */
  datatype HistoryDetail = HistoryDetail(
    detailId: Id,
    historyId: Id,
    mcqId: Id,
    userAnswer: string,
    isCorrect: bool)

  /** The tables the core reads and writes, each in insertion order. */
  datatype Db = Db(
    users: seq<User>,
    mcqs: seq<Mcq>,
    submissions: seq<UserSubmission>,
    histories: seq<UserHistory>,
    details: seq<HistoryDetail>)

  /** What the core raises: an `HTTPException`, a `ValueError`, a failed
      flush (`IntegrityError`) or a `setattr` on a missing row. */
  datatype Failure =
    | HttpError(status: nat, detail: string)
    | ValueError(message: string)
    | IntegrityError
    | AttributeError

  const AdminRequired := "Access denied. Admin role required."
  const UserNotFound := "User not found"
}
