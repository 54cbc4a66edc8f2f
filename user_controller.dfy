/**
 * The request handlers over an in-memory store that holds the users and the
 * exercises in insertion order.
 */
module UserController {
  import opened Wrappers
  import opened Domain
  import opened ExerciseSchema
  import opened Validation
  import opened LogQuery

  /** Reply to a user registration: the failures, or the new user's username and id. */
  datatype UserReply = UserFailures(failures: seq<Failure>) | UserCreated(username: string, id: UserId)

  /**
   * Reply to an exercise submission: the failures, the unhandled error raised
   * by the date check, or the saved exercise with its owner.
   */
  datatype ExerciseReply =
    | ExerciseFailures(failures: seq<Failure>)
    | ExerciseError
    | ExerciseCreated(username: string, description: string, duration: Duration, date: Date, id: UserId)

  /**
   * The date written for a submission: the submitted date when it is truthy
   * and converts to a date, otherwise the time of the request.
   */
  function BodyDate(date: Option<string>, now: Date, p: Parsers): Date {
    if !Falsy(date) && p.date(date.value).IsDate? then p.date(date.value).date else now
  }

  /**
   * The store invariant on values: identifiers are distinct and below
   * `nextId`; every stored exercise is well-formed and refers to a stored user.
   */
  ghost predicate StoreInvariant(users: seq<User>, exercises: seq<Exercise>, nextId: UserId) {
    && (forall u :: u in users ==> u.id < nextId)
    && (forall i, j :: 0 <= i < j < |users| ==> users[i].id != users[j].id)
    && (forall e :: e in exercises ==> WellFormed(e) && FindUser(users, e.user).Some?)
  }

  /** Registering a user under `nextId` keeps the invariant, and the new id was unused. */
  lemma RegisterKeepsInvariant(users: seq<User>, exercises: seq<Exercise>, nextId: UserId, username: string)
    requires StoreInvariant(users, exercises, nextId)
    ensures FindUser(users, nextId).None?
    ensures StoreInvariant(users + [User(nextId, username)], exercises, nextId + 1)
  {
  }

  /** Saving a well-formed exercise of a stored user keeps the invariant. */
  lemma SaveKeepsInvariant(users: seq<User>, exercises: seq<Exercise>, nextId: UserId, e: Exercise)
    requires StoreInvariant(users, exercises, nextId)
    requires WellFormed(e) && FindUser(users, e.user).Some?
    ensures StoreInvariant(users, exercises + [e], nextId)
  {
  }

  /**
   * The filter of `user_log_get`, built field by field: each of `from` and
   * `to` sets its bound only when the date check accepts it, and the date
   * sub-filter is attached only when a bound was set.
   */
  method BuildFilter(id: UserId, from: Option<string>, to: Option<string>, p: Parsers) returns (filter: Query)
    ensures filter == FilterFor(id, from, to, p)
  {
    filter := Query(id, None);
    var dateFilter := DateRange(None, None);
    if from.Some? && p.date(from.value).IsDate? {
      dateFilter := dateFilter.(gte := Some(p.date(from.value).date));
    }
    if to.Some? && p.date(to.value).IsDate? {
      dateFilter := dateFilter.(lte := Some(p.date(to.value).date));
    }
    if dateFilter.gte.Some? || dateFilter.lte.Some? {
      filter := filter.(date := Some(dateFilter));
    }
  }

  /** The log of `user_log_get`: one entry pushed per fetched exercise, in order. */
  method BuildLog(fetched: seq<Exercise>) returns (log: seq<LogEntry>)
    ensures log == Entries(fetched)
  {
    log := [];
    var i := 0;
    while i < |fetched|
      invariant i <= |fetched|
      invariant |log| == i
      invariant forall k :: 0 <= k < i ==> log[k] == Entry(fetched[k])
    {
      log := log + [LogEntry(fetched[i].description, fetched[i].duration, fetched[i].date)];
      i := i + 1;
    }
  }

  class Store {
    var users: seq<User>
    var exercises: seq<Exercise>
    /** The next identifier the store hands out. */
    var nextId: UserId

    ghost predicate Valid()
      reads this
    {
      StoreInvariant(users, exercises, nextId)
    }

    constructor ()
      ensures Valid()
      ensures users == [] && exercises == []
    {
      users, exercises, nextId := [], [], 0;
    }

    /**
     * `user_get`: every stored user, in insertion order, as id and username;
     * exactly the ids the store resolves are listed.
     */
    function ListUsers(): (r: seq<User>)
      reads this
      ensures |r| == |users|
      ensures forall k :: 0 <= k < |r| ==> r[k].id == users[k].id && r[k].username == users[k].username
      ensures forall id :: FindUser(users, id).Some? <==> exists u :: u in r && u.id == id
    {
      users
    }

    /**
     * `user_create_post`: a username of at least one character is saved
     * under a fresh id and echoed back; otherwise the failures are returned
     * and nothing is stored.
     */
    method CreateUser(username: string) returns (r: UserReply)
      requires Valid()
      modifies this
      ensures Valid()
      ensures exercises == old(exercises)
      ensures r.UserFailures? <==> |username| == 0
      ensures r.UserFailures? ==> r.failures == ValidateUsername(username) && r.failures == [USERNAME_FAILURE]
      ensures r.UserFailures? ==> users == old(users) && nextId == old(nextId)
      ensures r.UserCreated? ==>
        && r.username == username
        && FindUser(old(users), r.id).None?
        && users == old(users) + [User(r.id, username)]
        && FindUser(users, r.id) == Some(User(r.id, username))
    {
      var failures := ValidateUsername(username);
      if failures != [] {
        return UserFailures(failures);
      }
      var user := User(nextId, username);
      RegisterKeepsInvariant(users, exercises, nextId, username);
      FindUserAppendFresh(users, user);
      users := users + [user];
      nextId := nextId + 1;
      r := UserCreated(user.username, user.id);
    }

    /**
     * `user_log_get`: builds the filter, looks the user up, fetches the
     * matching exercises up to the limit, counts all of the user's exercises
     * and maps the fetched ones to log entries. It changes nothing.
     */
    method GetLog(id: UserId, from: Option<string>, to: Option<string>, limit: Option<nat>, p: Parsers)
      returns (r: LogResult)
      ensures r == LogFor(users, exercises, id, from, to, limit, p)
    {
      var filter := BuildFilter(id, from, to, p);
      var user := FindUser(users, id);
      if user.None? {
        return NotFound;
      }
      var fetched := Limit(Select(exercises, filter), limit);
      var count := CountFor(exercises, id);
      var log := BuildLog(fetched);
      r := Found(LogResponse(user.value.username, user.value.id, count, log));
    }

    /**
     * `exercise_create_post`: runs all four rules; on any failure returns
     * them and stores nothing, otherwise appends one exercise (with the
     * submitted date, or the request time when none was given) and replies
     * with it and its owner.
     */
    method CreateExercise(id: UserId, description: string, duration: string, date: Option<string>, now: Date, p: Parsers)
      returns (r: ExerciseReply)
      requires Valid()
      modifies this
      ensures Valid()
      ensures users == old(users) && nextId == old(nextId)
      ensures r.ExerciseError? <==> DateThrows(date, p)
      ensures r.ExerciseError? ==> exercises == old(exercises)
      ensures r.ExerciseFailures? <==>
        ValidateExercise(FindUser(users, id).Some?, description, duration, date, p).Checked?
        && ValidateExercise(FindUser(users, id).Some?, description, duration, date, p).failures != []
      ensures r.ExerciseFailures? ==>
        r == ExerciseFailures(ValidateExercise(FindUser(users, id).Some?, description, duration, date, p).failures)
        && exercises == old(exercises)
      ensures r.ExerciseCreated? ==>
        && FindUser(users, id).Some? && |description| >= 1 && p.number(duration).Some? && DateAcceptable(date, p)
        && r.date == (if Falsy(date) then now else p.date(date.value).date)
        && exercises == old(exercises) + [Exercise(id, description, p.number(duration).value, r.date)]
        && r == ExerciseCreated(FindUser(users, id).value.username, description, p.number(duration).value, r.date, id)
    {
      var checked := ValidateExercise(FindUser(users, id).Some?, description, duration, date, p);
      if checked.Raised? {
        return ExerciseError;
      }
      var draft := Draft(Some(id), Some(description), p.number(duration), Some(BodyDate(date, now, p)));
      if checked.failures != [] {
        return ExerciseFailures(checked.failures);
      }
      var saved := Admit(draft, now);
      var exercise := saved.value;
      SaveKeepsInvariant(users, exercises, nextId, exercise);
      exercises := exercises + [exercise];
      var owner := FindUser(users, exercise.user);
      r := ExerciseCreated(owner.value.username, exercise.description, exercise.duration, exercise.date, owner.value.id);
    }
  }
}
