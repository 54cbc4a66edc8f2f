# Exercise tracker: users, exercise logs and exercise submissions

A Dafny model of the request handlers of a small exercise-tracking API. Clients
register users, submit exercises (description, duration, date) for a user, and
read a user's exercise log, optionally bounded by a `from` and a `to` date and
truncated to a `limit`.

The store is an in-memory `Store` object holding the users and the exercises
as sequences in insertion order (insertion order stands for the store's natural
order). The four handlers are its methods:

- `ListUsers` (`user_get`) lists every user as id and username.
- `CreateUser` (`user_create_post`) checks that the username has at least one
  character, then stores the user under a fresh id. On failure it returns the
  failure list and stores nothing.
- `GetLog` (`user_log_get`) builds the find filter step by step, in
  `BuildFilter`. A `from` or `to` string becomes an inclusive bound only when
  it is a date. A missing or invalid string, or one the date check throws on,
  is ignored and is never an error. The date sub-filter is attached only when
  a bound survived. `GetLog` then fetches the matching exercises up to the
  limit and counts all of the user's exercises, ignoring the filter and the
  limit. The loop in `BuildLog` maps the fetched exercises to log entries.
  `GetLog`'s contract ties the result to the specification function `LogFor`,
  about which the `LogQuery` lemmas are proved.
- `CreateExercise` (`exercise_create_post`) evaluates four rules and reports
  every failure. The exception is a submitted date on which the date check
  throws: that error is not caught, so the request ends with the error and
  nothing is stored. On success it appends one exercise, dated with the
  submitted date or, when none was given, with the request time.

`ExerciseSchema` models the exercise record: every field is required, and the
date defaults to the construction time. `Validation` holds the field rules as
pure functions.

Date strings are checked and converted by the `Parsers.date` parameter, whose
answer is three-way: a date, not a date, or an exception (the check throws on
some malformed strings, such as a bare four-digit year). Numeric strings are
handled by `Parsers.number`. These stand for the validation
library's `isDate` and `isNumeric` checks and the store's casts. Every result
holds for any such parser. Dates are integers (instants on a time line), and
durations are `real`. The request time is the parameter `now`.

Two behaviours of the code worth stating:

- A submitted date that is present but invalid is a validation failure and
  nothing is stored. It is not replaced by the current time.
- A limit of 0 means "no limit", as in the store's query API.

## Model

| member | source | states |
|---|---|---|
| `Domain.FindUser` | controllers/userController.js:126-131 | the lookup returns a stored user with the requested id, and returns nothing exactly when no stored user has that id |
| `Domain.FindUserAppend` | controllers/userController.js:36 | saving a new user does not change what an already stored id resolves to |
| `Domain.FindUserAppendFresh` | controllers/userController.js:36-40 | a user saved under an unused id is found by that id afterwards |
| `ExerciseSchema.Admit` | models/exercise.js:5-10 | a document is saved iff its user, its non-empty description and its duration are present; the saved record is well-formed, keeps the given fields, and has the given date or else the construction time |
| `ExerciseSchema.AdmitDraftOf` | models/exercise.js:5-10 | the schema admits every well-formed record unchanged, whatever the construction time |
| `Validation.ValidateUsername` | controllers/userController.js:19-20 | no failure iff the username has at least one character; otherwise exactly one failure, the username failure |
| `Validation.ValidateExercise` | controllers/userController.js:125-141 | the chain raises iff the date is truthy and the date check throws on it; otherwise the list is empty iff all four rules hold, each rule's failure is present iff that rule fails (unknown user, empty description, non-numeric duration, truthy non-date), and only those four failures can appear |
| `Validation.FailuresInRuleOrder` | controllers/userController.js:125-141 | the failures of the exercise rules appear once each, in the order the rules are declared |
| `LogQuery.Bound` | controllers/userController.js:56-74 | a `from`/`to` value yields a bound iff it is present and a date; a missing value, a non-date and a value the check throws on yield none; the bound is that date |
| `LogQuery.FilterFor` | controllers/userController.js:50-79 | the filter names the user; the date sub-filter is attached iff at least one bound survived, and then carries exactly the surviving bounds |
| `LogQuery.Select` | controllers/userController.js:94 | the find returns no more than is stored, and an exercise is returned iff it is stored and matches the filter |
| `LogQuery.Limit` | controllers/userController.js:94 | the limited result is a prefix of the found one, of length min(limit, found) for a positive limit, and everything otherwise |
| `LogQuery.CountFor` | controllers/userController.js:96 | the count never exceeds the number of stored exercises |
| `LogQuery.EntriesSnoc` | controllers/userController.js:99-108 | pushing one more exercise adds its entry at the end of the log |
| `LogQuery.Entries` | controllers/userController.js:99-108 | the log has one entry per fetched exercise, in order, each holding its description, duration and date |
| `LogQuery.CountIsUnfilteredFind` | controllers/userController.js:96 | the count equals the number of exercises an unfiltered find for the user returns |
| `LogQuery.SelectWithinCount` | controllers/userController.js:94-96 | a filtered find never returns more exercises than the user's count |
| `LogQuery.SelectAppend` | controllers/userController.js:94 | the find keeps storage order: on a concatenation of stores it returns the concatenated results |
| `LogQuery.BoundInclusion` | controllers/userController.js:55-79 | a stored exercise is found iff it belongs to the user and satisfies every bound whose string was a date |
| `LogQuery.NoBoundsMatchesAll` | controllers/userController.js:76-79 | with no valid bound the filter is the bare user filter and the find returns every exercise of the user |
| `LogQuery.CountIgnoresFilterAndLimit` | controllers/userController.js:94-96 | the reported count is the number of the user's exercises, the same as with no `from`, `to` or `limit` |
| `LogQuery.LogLength` | controllers/userController.js:94-96 | the log is no longer than a positive limit, than the matching exercises, or than the count |
| `LogQuery.LogEntriesMatch` | controllers/userController.js:94-108 | the k-th log entry is the entry of the k-th fetched exercise, which is stored, belongs to the user and satisfies every surviving bound |
| `LogQuery.CountVersusLogExample` | controllers/userController.js:94-116 | with exercises on both sides of a valid `from`, the log holds only the later one while the count is 2 |
| `LogQuery.CountAfterSave` | controllers/userController.js:159 | saving an exercise raises its owner's count by one and leaves every other user's count alone |
| `LogQuery.LogAfterSave` | controllers/userController.js:159 | a saved exercise's entry is added last to its owner's unfiltered, unlimited log, after the entries already there |
| `LogQuery.InvalidDateAsymmetry` | controllers/userController.js:138-141 | a truthy string the date check rejects (without throwing) is a date failure when submitted with an exercise, yet adds no bound when passed as `from` or `to` |
| `LogQuery.ThrowingDateAsymmetry` | controllers/userController.js:57-74 | a string the date check throws on adds no bound as `from` or `to`, but as a submitted exercise date it ends the rule chain with the error and no failure list |
| `UserController.Store.ListUsers` | controllers/userController.js:10-13 | lists every stored user in order with its id and username, lists exactly the ids the store resolves, and changes nothing |
| `UserController.Store.CreateUser` | controllers/userController.js:16-43 | an empty username returns exactly the username failure and stores nothing; otherwise exactly one user with a fresh id is appended and its username and id are returned; exercises are untouched and the store invariant holds |
| `UserController.BuildFilter` | controllers/userController.js:50-79 | the filter built field by field equals `FilterFor`: user plus exactly the accepted bounds, the date sub-filter attached only when one was set |
| `UserController.BuildLog` | controllers/userController.js:98-108 | the push loop yields `Entries` of the fetched exercises: one entry each, in order |
| `UserController.RegisterKeepsInvariant` | controllers/userController.js:36 | saving a user under the next id uses an unused id and keeps ids distinct and every exercise's owner resolvable |
| `UserController.SaveKeepsInvariant` | controllers/userController.js:159 | saving a well-formed exercise of a stored user keeps the store invariant |
| `UserController.Store.GetLog` | controllers/userController.js:46-119 | the result is `LogFor` of the current store (user, count over all the user's exercises, log of the filtered and limited find); nothing is modified |
| `UserController.Store.CreateExercise` | controllers/userController.js:123-171 | returns the error reply and stores nothing iff the date check throws on the submitted date; returns exactly the validation failures and stores nothing when there are any; otherwise appends one exercise with the request's user, description and duration, dated with the submitted date when truthy and `now` otherwise, and replies with it and the owner's username and id |

## Left out

- `index.js` and `routes/users.js`: server start-up, CORS, static files, body parsing, the store connection and routing.
- HTTP status codes, sending the response, and diagnostics written to the console.
- `models/user.js` is not part of this model. A user is its id and username, and any constraint that schema places on users is not modelled.
- Store identifiers are natural numbers handed out by a counter. Their format is not modelled, and neither are the cast errors a malformed id raises.
- `isDate`, `isNumeric` and the casts of strings to dates and numbers are the `Parsers` parameter. The store's cast of a `from`/`to` bound is taken to agree with `isDate`.
- Rendering dates with `toDateString()` is not modelled. Log entries and replies carry the date value itself.
- `Date.now()` is the parameter `now`.
- The `limit` query string is taken as already parsed to a natural number. Non-numeric and negative limits are not modelled.
- A repeated query parameter, which arrives as an array, is not modelled.
- A failure entry keeps only the field and the message. The location and the rejected value are not modelled.
- Durations are `real` rather than IEEE doubles.
- Validation.ValidateUsername: counts the length in Dafny characters (Unicode scalar values). The library's `isLength` also counts a surrogate pair once, but it does not count U+FE0E and U+FE0F. So a username made only of those two variation selectors is accepted here but rejected by the source.
- Validation.ValidateExercise: the description rule counts length in the same way as `ValidateUsername`. A description made only of U+FE0E/U+FE0F is accepted here but rejected by the source.
- UserController.Store.CreateExercise: the error reply when the date check throws stands for the unhandled error the request ends with. The error response the framework then sends is not modelled.
- Asynchrony, and the race between the user-existence check and the save, are not modelled.
- UserController.Store.GetLog: returns `NotFound` and stops when the id names no stored user. The source instead sends "User not found." for a malformed id and carries on. For a well-formed unknown id it fails when it reads the missing user's username. In both cases the store is left unchanged.
