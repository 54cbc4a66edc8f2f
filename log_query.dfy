/**
 * The specification of the log query: the filter built from the optional
 * `from` and `to` strings, the store's find with a limit, the per-user count,
 * the mapping of exercises to log entries and the response they make up.
 */
module LogQuery {
  import opened Wrappers
  import opened Domain
  import opened ExerciseSchema
  import opened Validation

  /** The date sub-filter: an inclusive lower bound, an inclusive upper bound, or both. */
  datatype DateRange = DateRange(gte: Option<Date>, lte: Option<Date>)

  /** The find filter: the owning user, plus a date sub-filter when one is attached. */
  datatype Query = Query(user: UserId, date: Option<DateRange>)

  /** One line of the returned log. */
  datatype LogEntry = LogEntry(description: string, duration: Duration, date: Date)

  /** The body of a successful log response. */
  datatype LogResponse = LogResponse(username: string, id: UserId, count: nat, log: seq<LogEntry>)

  /** A log query either finds the user or reports that it does not exist. */
  datatype LogResult = NotFound | Found(response: LogResponse)

  /**
   * The bound a query-string value contributes: a missing value, one that is
   * not a date and one the date check throws on contribute nothing, and are
   * never an error.
   */
  function Bound(s: Option<string>, p: Parsers): (r: Option<Date>)
    ensures r.Some? <==> s.Some? && p.date(s.value).IsDate?
    ensures r.Some? ==> IsDate(r.value) == p.date(s.value)
  {
    if s.Some? && p.date(s.value).IsDate? then Some(p.date(s.value).date) else None
  }

  /** The filter for a user's log, with the date sub-filter attached only when a bound survived. */
  function FilterFor(id: UserId, from: Option<string>, to: Option<string>, p: Parsers): (q: Query)
    ensures q.user == id
    ensures q.date.Some? <==> Bound(from, p).Some? || Bound(to, p).Some?
    ensures q.date.Some? ==> q.date.value.gte == Bound(from, p) && q.date.value.lte == Bound(to, p)
  {
    var range := DateRange(Bound(from, p), Bound(to, p));
    Query(id, if range.gte.Some? || range.lte.Some? then Some(range) else None)
  }

  predicate InRange(r: DateRange, d: Date) {
    (r.gte.Some? ==> r.gte.value <= d) && (r.lte.Some? ==> d <= r.lte.value)
  }

  /** The store's reading of a filter. */
  predicate Matches(q: Query, e: Exercise) {
    e.user == q.user && (q.date.Some? ==> InRange(q.date.value, e.date))
  }

  /** The date bounds a request asks for, each present only if its string is a date. */
  predicate WithinBounds(from: Option<string>, to: Option<string>, p: Parsers, d: Date) {
    (Bound(from, p).Some? ==> Bound(from, p).value <= d) && (Bound(to, p).Some? ==> d <= Bound(to, p).value)
  }

  /** `Exercise.find(q)`: the matching exercises, in storage (insertion) order. */
  function Select(exs: seq<Exercise>, q: Query): (r: seq<Exercise>)
    ensures |r| <= |exs|
    ensures forall e :: e in r <==> e in exs && Matches(q, e)
  {
    if exs == [] then []
    else
      assert forall e :: e in exs <==> e == exs[0] || e in exs[1..];
      (if Matches(q, exs[0]) then [exs[0]] else []) + Select(exs[1..], q)
  }

  /** `.limit(n)`: the first `n` results; a missing limit or a limit of 0 means no limit. */
  function Limit(s: seq<Exercise>, limit: Option<nat>): (r: seq<Exercise>)
    ensures r <= s
    ensures limit.Some? && limit.value > 0 ==> |r| == if limit.value < |s| then limit.value else |s|
    ensures limit.None? || limit.value == 0 ==> r == s
  {
    if limit.Some? && 0 < limit.value < |s| then s[..limit.value] else s
  }

  /** `Exercise.countDocuments({user: id})`. */
  function CountFor(exs: seq<Exercise>, id: UserId): (n: nat)
    ensures n <= |exs|
  {
    if exs == [] then 0
    else (if exs[0].user == id then 1 else 0) + CountFor(exs[1..], id)
  }

  function Entry(e: Exercise): LogEntry {
    LogEntry(e.description, e.duration, e.date)
  }

  /** The log built from the fetched exercises: one entry per exercise, in order. */
  function Entries(s: seq<Exercise>): (r: seq<LogEntry>)
    ensures |r| == |s|
    ensures forall k :: 0 <= k < |s| ==> r[k] == Entry(s[k])
  {
    if s == [] then [] else [Entry(s[0])] + Entries(s[1..])
  }

  /** Pushing one more exercise adds its entry at the end of the log. */
  lemma EntriesSnoc(s: seq<Exercise>, e: Exercise)
    ensures Entries(s + [e]) == Entries(s) + [Entry(e)]
  {
  }

  /** What a log query returns for the stored users and exercises. */
  function LogFor(users: seq<User>, exs: seq<Exercise>, id: UserId, from: Option<string>, to: Option<string>,
                  limit: Option<nat>, p: Parsers): LogResult
  {
    match FindUser(users, id)
    case None => NotFound
    case Some(u) =>
      Found(LogResponse(u.username, u.id, CountFor(exs, id), Entries(Limit(Select(exs, FilterFor(id, from, to, p)), limit))))
  }

  /** Without a date sub-filter, the find returns exactly the user's exercises. */
  lemma {:induction false} CountIsUnfilteredFind(exs: seq<Exercise>, id: UserId)
    ensures CountFor(exs, id) == |Select(exs, Query(id, None))|
  {
    if exs != [] {
      CountIsUnfilteredFind(exs[1..], id);
    }
  }

  /** A filtered find returns no more exercises than the user owns. */
  lemma {:induction false} SelectWithinCount(exs: seq<Exercise>, q: Query)
    ensures |Select(exs, q)| <= CountFor(exs, q.user)
  {
    if exs != [] {
      SelectWithinCount(exs[1..], q);
    }
  }

  /** The find keeps storage order: the results over a concatenation are concatenated. */
  lemma {:induction false} SelectAppend(a: seq<Exercise>, b: seq<Exercise>, q: Query)
    ensures Select(a + b, q) == Select(a, q) + Select(b, q)
  {
    if a == [] {
      assert a + b == b;
    } else {
      assert (a + b)[0] == a[0];
      assert (a + b)[1..] == a[1..] + b;
      SelectAppend(a[1..], b, q);
    }
  }

  /**
   * An exercise of the user is fetched (before the limit) exactly when it
   * satisfies every bound that survived; any other exercise never is.
   */
  lemma BoundInclusion(exs: seq<Exercise>, id: UserId, from: Option<string>, to: Option<string>, p: Parsers, e: Exercise)
    requires e in exs
    ensures e in Select(exs, FilterFor(id, from, to, p)) <==> e.user == id && WithinBounds(from, to, p, e.date)
  {
  }

  /** With no valid bound the filter is the bare user filter, so every exercise of the user matches. */
  lemma {:induction false} NoBoundsMatchesAll(exs: seq<Exercise>, id: UserId, from: Option<string>, to: Option<string>, p: Parsers)
    requires Bound(from, p).None? && Bound(to, p).None?
    ensures FilterFor(id, from, to, p) == Query(id, None)
    ensures |Select(exs, FilterFor(id, from, to, p))| == CountFor(exs, id)
  {
    CountIsUnfilteredFind(exs, id);
  }

  /**
   * The count is the number of the user's stored exercises whatever `from`,
   * `to` and `limit` are.
   */
  lemma {:induction false} CountIgnoresFilterAndLimit(users: seq<User>, exs: seq<Exercise>, id: UserId, from: Option<string>,
                                   to: Option<string>, limit: Option<nat>, p: Parsers)
    requires LogFor(users, exs, id, from, to, limit, p).Found?
    ensures LogFor(users, exs, id, from, to, limit, p).response.count == |Select(exs, Query(id, None))|
    ensures LogFor(users, exs, id, from, to, limit, p).response.count == LogFor(users, exs, id, None, None, None, p).response.count
  {
    CountIsUnfilteredFind(exs, id);
  }

  /**
   * The log never exceeds a positive limit, the matching exercises or the
   * count.
   */
  lemma {:induction false} LogLength(users: seq<User>, exs: seq<Exercise>, id: UserId, from: Option<string>, to: Option<string>,
                  limit: Option<nat>, p: Parsers)
    requires LogFor(users, exs, id, from, to, limit, p).Found?
    ensures var r := LogFor(users, exs, id, from, to, limit, p).response;
      && (limit.Some? && limit.value > 0 ==> |r.log| <= limit.value)
      && |r.log| <= |Select(exs, FilterFor(id, from, to, p))|
      && |r.log| <= r.count
  {
    SelectWithinCount(exs, FilterFor(id, from, to, p));
  }

  /**
   * Each log entry is the entry of a stored exercise of the user that
   * satisfies every surviving bound, and entries follow the fetched exercises
   * one-to-one and in order.
   */
  lemma LogEntriesMatch(users: seq<User>, exs: seq<Exercise>, id: UserId, from: Option<string>, to: Option<string>,
                        limit: Option<nat>, p: Parsers, k: nat)
    requires LogFor(users, exs, id, from, to, limit, p).Found?
    requires k < |LogFor(users, exs, id, from, to, limit, p).response.log|
    ensures var fetched := Limit(Select(exs, FilterFor(id, from, to, p)), limit);
      && LogFor(users, exs, id, from, to, limit, p).response.log[k] == Entry(fetched[k])
      && fetched[k] in exs && fetched[k].user == id && WithinBounds(from, to, p, fetched[k].date)
  {
  }

  /**
   * Worked example: two exercises of one user, on dates either side of a
   * valid `from`; the log holds only the later one, and the count is 2.
   */
  lemma CountVersusLogExample(u: User, a: Exercise, b: Exercise, from: string, f: Date, p: Parsers)
    requires a.user == u.id && b.user == u.id
    requires a.date < f <= b.date
    requires p.date(from) == IsDate(f)
    ensures LogFor([u], [a, b], u.id, Some(from), None, None, p) == Found(LogResponse(u.username, u.id, 2, [Entry(b)]))
  {
    var q := FilterFor(u.id, Some(from), None, p);
    assert [a, b][1..] == [b];
    assert [b][1..] == [];
    assert Select([a, b], q) == [b];
    assert CountFor([a, b], u.id) == 2;
    assert Entries([b]) == [Entry(b)];
  }

  /**
   * Saving one more exercise raises its owner's count by one and leaves every
   * other user's count alone.
   */
  lemma {:induction false} CountAfterSave(exs: seq<Exercise>, e: Exercise, id: UserId)
    ensures CountFor(exs + [e], id) == CountFor(exs, id) + (if e.user == id then 1 else 0)
  {
    var q := Query(id, None);
    SelectAppend(exs, [e], q);
    assert Select([e], q) == if e.user == id then [e] else [] by {
      assert [e][1..] == [];
    }
    CountIsUnfilteredFind(exs, id);
    CountIsUnfilteredFind(exs + [e], id);
  }

  /** A saved exercise's entry comes last in its owner's unfiltered, unlimited log. */
  lemma {:induction false} LogAfterSave(users: seq<User>, exs: seq<Exercise>, e: Exercise, p: Parsers)
    requires LogFor(users, exs + [e], e.user, None, None, None, p).Found?
    ensures LogFor(users, exs + [e], e.user, None, None, None, p).response.log
         == LogFor(users, exs, e.user, None, None, None, p).response.log + [Entry(e)]
  {
    var q := Query(e.user, None);
    assert FilterFor(e.user, None, None, p) == q;
    SelectAppend(exs, [e], q);
    assert Select([e], q) == [e] by {
      assert [e][1..] == [];
    }
    var before := Select(exs, q);
    EntriesSnoc(before, e);
    calc {
      LogFor(users, exs + [e], e.user, None, None, None, p).response.log;
      Entries(Limit(before + [e], None));
      Entries(before) + [Entry(e)];
      Entries(Limit(before, None)) + [Entry(e)];
      LogFor(users, exs, e.user, None, None, None, p).response.log + [Entry(e)];
    }
  }

  /**
   * The same invalid date string is treated differently on the two paths: as
   * a body `date` it is a validation failure, as a `from` or `to` it is
   * silently ignored.
   */
  lemma InvalidDateAsymmetry(id: UserId, s: string, p: Parsers, userExists: bool, description: string, duration: string)
    requires s != "" && p.date(s).NotDate?
    ensures ValidateExercise(userExists, description, duration, Some(s), p).Checked?
    ensures DATE_FAILURE in ValidateExercise(userExists, description, duration, Some(s), p).failures
    ensures FilterFor(id, Some(s), None, p) == FilterFor(id, None, None, p)
    ensures FilterFor(id, None, Some(s), p) == FilterFor(id, None, None, p)
  {
  }

  /**
   * A string the date check throws on is caught on the log path and adds no
   * bound, but as a body `date` it ends the rule chain with the error and no
   * failure list.
   */
  lemma ThrowingDateAsymmetry(id: UserId, s: string, p: Parsers, userExists: bool, description: string, duration: string)
    requires s != "" && p.date(s).Throws?
    ensures ValidateExercise(userExists, description, duration, Some(s), p) == Raised
    ensures FilterFor(id, Some(s), None, p) == FilterFor(id, None, None, p)
    ensures FilterFor(id, None, Some(s), p) == FilterFor(id, None, None, p)
  {
  }
}
