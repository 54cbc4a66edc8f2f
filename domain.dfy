/**
 * Values shared by the controller and the exercise schema: identifiers,
 * instants, durations, the stored user record, the store's lookup by id, and
 * the two string checks the controller borrows from its validation library.
 */
module Domain {
  import opened Wrappers

  /** The identifier the store generates for a user (its `_id`). */
  type UserId = nat

  /** An instant on the time line, e.g. milliseconds since the epoch. */
  type Date = int

  /** A numeric duration, as the store keeps it. */
  type Duration = real

  /** A stored user, as listed: its identifier and its username. */
  datatype User = User(id: UserId, username: string)

  /**
   * The outcome of the library's date check on a string: a date (with the
   * Date the string converts to), not a date, or an exception, which the
   * check raises on some malformed strings such as a bare four-digit year.
   */
  datatype DateCheck = IsDate(date: Date) | NotDate | Throws

  /**
   * The string checks of the validation library, each paired with the value
   * the store casts an accepted string to: `date` stands for `isDate` followed
   * by the conversion to a Date, `number` for `isNumeric` followed by the
   * numeric cast, which accepts a string exactly when its parse is `Some`.
   */
  datatype Parsers = Parsers(date: string -> DateCheck, number: string -> Option<Duration>)

  /** `User.findById`: the stored user with identifier `id`, if there is one. */
  function FindUser(users: seq<User>, id: UserId): (r: Option<User>)
    ensures r.Some? ==> r.value in users && r.value.id == id
    ensures r.None? <==> forall u :: u in users ==> u.id != id
  {
    if users == [] then None
    else if users[0].id == id then Some(users[0])
    else FindUser(users[1..], id)
  }

  /** Registering another user does not change what an existing id resolves to. */
  lemma {:induction false} FindUserAppend(users: seq<User>, u: User, id: UserId)
    requires FindUser(users, id).Some?
    ensures FindUser(users + [u], id) == FindUser(users, id)
  {
    if users[0].id != id {
      assert (users + [u])[1..] == users[1..] + [u];
      FindUserAppend(users[1..], u, id);
    }
  }

  /** A user registered under an id nobody has is found by that id afterwards. */
  lemma FindUserAppendFresh(users: seq<User>, u: User)
    requires FindUser(users, u.id).None?
    ensures FindUser(users + [u], u.id) == Some(u)
  {
  }
}
