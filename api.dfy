/**
 * The four request handlers of the exercise tracker over an in-memory store.
 * The store holds the users and exercises tables in insertion order, with the
 * auto-increment counter of each table; every handler checks its inputs in
 * the order the routes do and writes at most one row, and only on success.
 */
module Api {
  import opened Wrappers
  import opened JsValues
  import opened Dates
  import opened LogQuery
  import opened Database

  /** An error response: its status (400 or 404) and the `error` text of its body. */
  datatype ApiError = BadRequest(message: string) | NotFound(message: string)

  const UsernameRequired := "Username is required and cannot be empty or whitespace only"
  const UsernameTaken := "Username already exists"
  const NoUsers := "No users found"
  const DescriptionRequired := "Description is required and should be a string"
  const DurationInvalid := "Duration is required and should be an integer and  it should be positive values."
  const DateFormatInvalid := "Date format should be in YYYY-MM-DD format"
  const UserNotFound := "User not found"
  const InvalidFromDate := "Invalid from date. Please enter YYYY-MM-DD date format."
  const InvalidToDate := "Invalid to date. Please enter YYYY-MM-DD date format."
  const LimitInvalid := "Invalid limit!"

  /** One entry of a log response: an exercise without its owner. */
  datatype LogEntry = LogEntry(id: int, description: string, duration: int, date: string)

  /** The body of a log response. */
  datatype UserLog = UserLog(id: int, username: string, count: nat, log: seq<LogEntry>)

  function Entries(rows: seq<Exercise>): seq<LogEntry> {
    seq(|rows|, i requires 0 <= i < |rows| => LogEntry(rows[i].id, rows[i].description, rows[i].duration, rows[i].date))
  }

  /**
   * The duration check: the field must be truthy, and Number() of it neither
   * NaN nor at most zero, and an integer. `truthy` says whether the field is
   * truthy; every falsy value (undefined, null, false, 0, "", NaN) coerces to
   * NaN or 0, which is what the requires states.
   */
  function PositiveDuration(truthy: bool, duration: Numeric): (r: Option<int>)
    requires !truthy ==> duration == NaN || duration == Integer(0)
    ensures r.Some? <==> duration.Integer? && duration.value > 0
    ensures r.Some? ==> r.value == duration.value
  {
    if !truthy || duration.NaN? || AtMostZero(duration) || !duration.Integer? then None
    else Some(duration.value)
  }

  /** The date of a new exercise: the one supplied when it is truthy, today's otherwise. */
  function ExerciseDate(date: Option<string>, today: string): string {
    if Truthy(date) then date.value else today
  }

  /** The user a route parameter names: parseInt of it, looked up by id. */
  function FindUser(users: seq<User>, idParam: string): (r: Option<User>)
    ensures r.Some? ==> ParseInt(idParam) == Some(r.value.id) && r.value in users
    ensures ParseInt(idParam).Some? && (exists i :: 0 <= i < |users| && users[i].id == ParseInt(idParam).value) ==> r.Some?
  {
    match ParseInt(idParam)
    case None => None
    case Some(id) => UserWithId(users, id)
  }

  /** User ids positive, at most the counter's last value, and strictly increasing in table order. */
  predicate IdsUpTo(users: seq<User>, last: int) {
    && (forall i :: 0 <= i < |users| ==> 0 < users[i].id <= last)
    && (forall i, j :: 0 <= i < j < |users| ==> users[i].id < users[j].id)
  }

  /** The users table as the handlers keep it: UNIQUE trimmed, non-empty names. */
  predicate UsersOk(users: seq<User>, lastUserId: nat) {
    IdsUpTo(users, lastUserId) && NamesOk(users)
  }

  /** Every row of the exercises table satisfies ExerciseOk. */
  predicate RowsOk(exercises: seq<Exercise>, users: seq<User>, last: int) {
    exercises == [] || (RowsOk(exercises[..|exercises| - 1], users, last) && ExerciseOk(exercises[|exercises| - 1], users, last))
  }

  lemma {:induction false} RowsOkMoreUsers(exercises: seq<Exercise>, users: seq<User>, last: int, u: User)
    requires RowsOk(exercises, users, last)
    ensures RowsOk(exercises, users + [u], last)
  {
    if exercises != [] {
      RowsOkMoreUsers(exercises[..|exercises| - 1], users, last, u);
      UserWithIdAppend(users, u, exercises[|exercises| - 1].userId);
    }
  }

  /** An exercise as AddExercise stores it: owned by a listed user, with a description, a positive duration and a real date. */
  predicate ExerciseOk(e: Exercise, users: seq<User>, last: int) {
    0 < e.id <= last && UserWithId(users, e.userId).Some? && e.description != "" && e.duration > 0 && IsCalendarDate(e.date)
  }

  /** Both tables as the handlers keep them. */
  predicate TablesOk(users: seq<User>, lastUserId: nat, exercises: seq<Exercise>, lastExerciseId: nat) {
    UsersOk(users, lastUserId) && RowsOk(exercises, users, lastExerciseId)
  }

  /** Storing a trimmed, non-empty, unused name under the next id keeps both tables as the handlers keep them. */
  lemma InsertUserKeepsTables(users: seq<User>, lastUserId: nat, exercises: seq<Exercise>, lastExerciseId: nat, name: string)
    requires TablesOk(users, lastUserId, exercises, lastExerciseId)
    requires name != "" && IsTrimmed(name) && UserNamed(users, name).None?
    ensures TablesOk(users + [User(lastUserId + 1, name)], lastUserId + 1, exercises, lastExerciseId)
  {
    var u := User(lastUserId + 1, name);
    InsertUserKeepsUsers(users, lastUserId, u);
    RowsOkMoreUsers(exercises, users, lastExerciseId, u);
  }

  lemma InsertUserKeepsUsers(users: seq<User>, lastUserId: nat, u: User)
    requires UsersOk(users, lastUserId)
    requires u.id == lastUserId + 1 && u.username != "" && IsTrimmed(u.username)
    requires UserNamed(users, u.username).None?
    ensures UsersOk(users + [u], lastUserId + 1)
  {
    IdsUpToAppend(users, lastUserId, u);
    NamesAppend(users, u);
  }

  predicate NamesOk(users: seq<User>) {
    && (forall i :: 0 <= i < |users| ==> users[i].username != "" && IsTrimmed(users[i].username))
    && (forall i, j :: 0 <= i < j < |users| ==> users[i].username != users[j].username)
  }

  lemma NamesAppend(users: seq<User>, u: User)
    requires NamesOk(users)
    requires u.username != "" && IsTrimmed(u.username) && UserNamed(users, u.username).None?
    ensures NamesOk(users + [u])
  {
    var users' := users + [u];
    forall i, j | 0 <= i < j < |users'| ensures users'[i].username != users'[j].username {
      assert users'[i] == users[i];
      if j == |users| {
        assert users'[j] == u;
      } else {
        assert users'[j] == users[j];
      }
    }
  }

  /** Appending a row under the next id that satisfies ExerciseOk keeps every row satisfying it. */
  lemma RowsOkAppend(exercises: seq<Exercise>, users: seq<User>, last: int, e: Exercise)
    requires RowsOk(exercises, users, last) && e.id == last + 1 && ExerciseOk(e, users, last + 1)
    ensures RowsOk(exercises + [e], users, last + 1)
  {
    RowsOkRaise(exercises, users, last, last + 1);
    assert (exercises + [e])[..|exercises|] == exercises;
  }

  /** A larger counter bounds the ids just as well. */
  lemma {:induction false} RowsOkRaise(exercises: seq<Exercise>, users: seq<User>, last: int, last': int)
    requires RowsOk(exercises, users, last) && last <= last'
    ensures RowsOk(exercises, users, last')
  {
    if exercises != [] {
      RowsOkRaise(exercises[..|exercises| - 1], users, last, last');
    }
  }

  /** Every stored exercise id is positive and at most the counter, so the next id is fresh. */
  lemma {:induction false} RowsOkIdsBelow(exercises: seq<Exercise>, users: seq<User>, last: int)
    requires RowsOk(exercises, users, last)
    ensures forall e :: e in exercises ==> 0 < e.id <= last
  {
    if exercises != [] {
      var init := exercises[..|exercises| - 1];
      RowsOkIdsBelow(init, users, last);
      assert exercises == init + [exercises[|exercises| - 1]];
    }
  }

  lemma IdsUpToAppend(users: seq<User>, last: int, u: User)
    requires last >= 0 && IdsUpTo(users, last) && u.id == last + 1
    ensures IdsUpTo(users + [u], last + 1)
  {
  }

  lemma UserWithIdAppend(users: seq<User>, u: User, id: int)
    requires UserWithId(users, id).Some?
    ensures UserWithId(users + [u], id).Some?
  {
    var i :| 0 <= i < |users| && users[i].id == id;
    assert (users + [u])[i].id == id;
  }

  /** The database: both tables and the last id each has handed out. */
  class Store {
    var users: seq<User>
    var exercises: seq<Exercise>
    var lastUserId: nat
    var lastExerciseId: nat

    predicate Valid()
      reads this
    {
      TablesOk(users, lastUserId, exercises, lastExerciseId)
    }

    /** A fresh database: both tables empty. */
    constructor()
      ensures Valid()
      ensures users == [] && exercises == [] && lastUserId == 0 && lastExerciseId == 0
    {
      users, exercises := [], [];
      lastUserId, lastExerciseId := 0, 0;
    }

    /**
     * POST /api/users. A missing name or one that trims to nothing is a 400;
     * so is a trimmed name already taken. Otherwise the trimmed name is stored
     * under a fresh id, and the response echoes the name as it was sent.
     */
    method CreateUser(username: Option<string>) returns (r: Result<User, ApiError>)
      requires Valid()
      modifies this
      ensures Valid()
      ensures username.None? || Trim(username.value) == "" ==> r == Err(BadRequest(UsernameRequired))
      ensures username.Some? && Trim(username.value) != "" && UserNamed(old(users), Trim(username.value)).Some?
              ==> r == Err(BadRequest(UsernameTaken))
      ensures r.Ok? <==> username.Some? && Trim(username.value) != "" && UserNamed(old(users), Trim(username.value)).None?
      ensures r.Err? ==> unchanged(this)
      ensures r.Ok? ==> && r.value == User(old(lastUserId) + 1, username.value)
                        && users == old(users) + [User(old(lastUserId) + 1, Trim(username.value))]
                        && lastUserId == old(lastUserId) + 1
                        && exercises == old(exercises) && lastExerciseId == old(lastExerciseId)
    {
      if username.None? || Trim(username.value) == "" {
        return Err(BadRequest(UsernameRequired));
      }
      var name := Trim(username.value);
      if UserNamed(users, name).Some? {
        return Err(BadRequest(UsernameTaken));
      }
      TrimIsTrimmed(username.value);
      InsertUserKeepsTables(users, lastUserId, exercises, lastExerciseId, name);
      var id := lastUserId + 1;
      users, lastUserId := users + [User(id, name)], id;
      r := Ok(User(id, username.value));
    }

    /** GET /api/users: every user in table order; an empty table is a 404. */
    method ListUsers() returns (r: Result<seq<User>, ApiError>)
      requires Valid()
      ensures users == [] <==> r == Err(NotFound(NoUsers))
      ensures users != [] <==> r == Ok(users)
      ensures r.Ok? ==> forall i, j :: 0 <= i < j < |r.value| ==>
                          r.value[i].id < r.value[j].id && r.value[i].username != r.value[j].username
      ensures r.Ok? ==> forall i :: 0 <= i < |r.value| ==> r.value[i].username != "" && IsTrimmed(r.value[i].username)
    {
      var rows := users;
      if |rows| == 0 {
        return Err(NotFound(NoUsers));
      }
      r := Ok(rows);
    }

    /**
     * POST /api/users/:_id/exercises. The description, the duration, the date's
     * format and the date's calendar value are checked in that order, each with
     * its own 400, and then the user must exist (404). Only then is the
     * exercise stored under a fresh id and echoed back.
     */
    method AddExercise(idParam: string, description: Option<string>, durationTruthy: bool, duration: Numeric,
                       date: Option<string>, today: string)
      returns (r: Result<Exercise, ApiError>)
      requires Valid()
      requires !durationTruthy ==> duration == NaN || duration == Integer(0)
      modifies this
      ensures Valid()
      ensures !Truthy(description) ==> r == Err(BadRequest(DescriptionRequired))
      ensures Truthy(description) && PositiveDuration(durationTruthy, duration).None? ==> r == Err(BadRequest(DurationInvalid))
      ensures (Truthy(description) && PositiveDuration(durationTruthy, duration).Some? && !DateFormatValidation(ExerciseDate(date, today)))
              ==> r == Err(BadRequest(DateFormatInvalid))
      ensures (Truthy(description) && PositiveDuration(durationTruthy, duration).Some? && DateFormatValidation(ExerciseDate(date, today))
               && !DateValidation(ExerciseDate(date, today)))
              ==> r == Err(BadRequest(""))
      ensures (Truthy(description) && PositiveDuration(durationTruthy, duration).Some? && AcceptedBound(ExerciseDate(date, today))
               && FindUser(old(users), idParam).None?)
              ==> r == Err(NotFound(UserNotFound))
      ensures r.Ok? <==> (Truthy(description) && PositiveDuration(durationTruthy, duration).Some? && AcceptedBound(ExerciseDate(date, today))
                          && FindUser(old(users), idParam).Some?)
      ensures r.Err? ==> unchanged(this)
      ensures r.Ok? ==> r.value.id == old(lastExerciseId) + 1
      ensures r.Ok? ==> forall e :: e in old(exercises) ==> e.id < r.value.id
      ensures r.Ok? ==> r.value.userId == FindUser(old(users), idParam).value.id
      ensures r.Ok? ==> r.value.description == description.value
      ensures r.Ok? ==> r.value.duration == duration.value
      ensures r.Ok? ==> r.value.date == ExerciseDate(date, today)
      ensures r.Ok? ==> && exercises == old(exercises) + [r.value]
                        && lastExerciseId == old(lastExerciseId) + 1
                        && users == old(users) && lastUserId == old(lastUserId)
    {
      var userId := ParseInt(idParam);
      if !Truthy(description) {
        return Err(BadRequest(DescriptionRequired));
      }
      var numericDuration := PositiveDuration(durationTruthy, duration);
      if numericDuration.None? {
        return Err(BadRequest(DurationInvalid));
      }
      var exerciseDate := if Truthy(date) then date.value else today;
      if !DateFormatValidation(exerciseDate) {
        return Err(BadRequest(DateFormatInvalid));
      }
      if !DateValidation(exerciseDate) {
        return Err(BadRequest(""));
      }
      var user := FindUser(users, idParam);
      if user.None? {
        return Err(NotFound(UserNotFound));
      }
      BothChecksIff(exerciseDate);
      var row := InsertExercise(userId.value, description.value, numericDuration.value, exerciseDate);
      r := Ok(row);
    }

    /** INSERT INTO exercises: appends the row under the next id. */
    method InsertExercise(userId: int, description: string, duration: int, date: string) returns (row: Exercise)
      requires Valid()
      requires UserWithId(users, userId).Some? && description != "" && duration > 0 && IsCalendarDate(date)
      modifies this
      ensures Valid()
      ensures row == Exercise(old(lastExerciseId) + 1, userId, description, duration, date)
      ensures exercises == old(exercises) + [row] && lastExerciseId == old(lastExerciseId) + 1
      ensures forall e :: e in old(exercises) ==> e.id < row.id
      ensures users == old(users) && lastUserId == old(lastUserId)
    {
      row := Exercise(lastExerciseId + 1, userId, description, duration, date);
      RowsOkIdsBelow(exercises, users, lastExerciseId);
      RowsOkAppend(exercises, users, lastExerciseId, row);
      exercises, lastExerciseId := exercises + [row], row.id;
    }

    /**
     * GET /api/users/:_id/logs. The user must exist (404); then `from`, `to`
     * and `limit` are checked in that order (400). The log is the user's
     * exercises within the given bounds, sorted by date and cut to the limit;
     * the count is what the count statement returns on every parameter but
     * the last.
     */
    method GetLog(idParam: string, from: Option<string>, to: Option<string>, limit: Option<string>)
      returns (r: Result<UserLog, ApiError>)
      ensures FindUser(users, idParam).None? ==> r == Err(NotFound(UserNotFound))
      ensures FindUser(users, idParam).Some? && !BoundOk(from) ==> r == Err(BadRequest(InvalidFromDate))
      ensures FindUser(users, idParam).Some? && BoundOk(from) && !BoundOk(to) ==> r == Err(BadRequest(InvalidToDate))
      ensures FindUser(users, idParam).Some? && BoundOk(from) && BoundOk(to) && !LimitOk(limit)
              ==> r == Err(BadRequest(LimitInvalid))
      ensures r.Ok? <==> FindUser(users, idParam).Some? && BoundOk(from) && BoundOk(to) && LimitOk(limit)
      ensures r.Ok? ==> var u := FindUser(users, idParam).value;
                        && r.value.id == u.id && r.value.username == u.username
                        && r.value.log == Entries(Listing(exercises, u.id, from, to, limit))
                        && r.value.count == (if Truthy(limit) then |Filtered(exercises, u.id, Given(from), Given(to))| else 0)
      ensures r.Ok? && Truthy(limit) ==> |r.value.log| <= r.value.count
    {
      var userId := ParseInt(idParam);
      var user := if userId.Some? then UserWithId(users, userId.value) else None;
      if user.None? {
        return Err(NotFound(UserNotFound));
      }
      var u := user.value;

      var q := BuildLogQuery(u.id, from, to, limit);
      if q.Err? {
        match q.error
        case InvalidFrom => return Err(BadRequest(InvalidFromDate));
        case InvalidTo => return Err(BadRequest(InvalidToDate));
        case InvalidLimit => return Err(BadRequest(LimitInvalid));
      }
      var query := q.value;

      BuiltQueryResults(exercises, u.id, from, to, limit, query);
      var totalCount := RunCount(query.countQuery, CountArgs(query.params), exercises).value;
      var rows := RunLog(query.logQuery, query.params, exercises).value;
      r := Ok(UserLog(u.id, u.username, totalCount, Entries(rows)));
    }
  }
}
