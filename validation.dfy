/**
 * The field rules the controller runs before creating a user or an exercise.
 * Every rule is evaluated; the result lists each rule that failed, in the
 * order the rules are declared, and is empty exactly when the input is valid.
 * The one exception: when the date check raises, the chain stops with that
 * error and no failure list is produced.
 */
module Validation {
  import opened Wrappers
  import opened Domain

  /** The request field a failure is reported against. */
  datatype Field = Username | UserIdParam | Description | DurationField | DateField

  /** One entry of the failure list sent back to the client. */
  datatype Failure = Failure(field: Field, msg: string)

  const USERNAME_FAILURE := Failure(Username, "Please specify a username")
  const USER_ID_FAILURE := Failure(UserIdParam, "Please enter a valid User ID")
  const DESCRIPTION_FAILURE := Failure(Description, "Please enter a description")
  const DURATION_FAILURE := Failure(DurationField, "Please enter a number")
  const DATE_FAILURE := Failure(DateField, "Must enter valid date")

  /**
   * Position of a field's rule in the exercise rule chain. The username rule
   * forms a chain of its own; it is given position 0 only so that the
   * function is total.
   */
  function Rank(f: Field): nat {
    match f
    case Username => 0
    case UserIdParam => 0
    case Description => 1
    case DurationField => 2
    case DateField => 3
  }

  /** A single rule: no failure when `ok`, otherwise exactly `failure`. */
  function Rule(ok: bool, failure: Failure): seq<Failure> {
    if ok then [] else [failure]
  }

  /** The username rule: at least one character, else exactly one failure. */
  function ValidateUsername(username: string): (r: seq<Failure>)
    ensures r == [] <==> |username| >= 1
    ensures |username| == 0 ==> r == [USERNAME_FAILURE]
  {
    Rule(|username| >= 1, USERNAME_FAILURE)
  }

  /** A body value the date rule skips: missing, or the empty string. */
  predicate Falsy(date: Option<string>) {
    date.None? || date.value == ""
  }

  /** The date rule: optional when falsy, otherwise it must be a date. */
  predicate DateAcceptable(date: Option<string>, p: Parsers) {
    Falsy(date) || p.date(date.value).IsDate?
  }

  /** The date rule raises: the value is truthy and the date check throws on it. */
  predicate DateThrows(date: Option<string>, p: Parsers) {
    !Falsy(date) && p.date(date.value).Throws?
  }

  /** What running the exercise rule chain gives: the failure list, or an error raised by a rule. */
  datatype ChainResult = Checked(failures: seq<Failure>) | Raised

  /**
   * The four exercise rules, all evaluated: the user id must name a stored
   * user, the description must be non-empty, the duration must be numeric,
   * and the date must be falsy or a date. An exception from the date check
   * is not caught: it ends the chain with `Raised`.
   */
  function ValidateExercise(userExists: bool, description: string, duration: string, date: Option<string>, p: Parsers): (r: ChainResult)
    ensures r.Raised? <==> DateThrows(date, p)
    ensures r.Checked? ==>
      (r.failures == [] <==> userExists && |description| >= 1 && p.number(duration).Some? && DateAcceptable(date, p))
    ensures r.Checked? ==> (USER_ID_FAILURE in r.failures <==> !userExists)
    ensures r.Checked? ==> (DESCRIPTION_FAILURE in r.failures <==> |description| == 0)
    ensures r.Checked? ==> (DURATION_FAILURE in r.failures <==> p.number(duration).None?)
    ensures r.Checked? ==> (DATE_FAILURE in r.failures <==> !DateAcceptable(date, p))
    ensures r.Checked? ==>
      forall f :: f in r.failures ==> f in {USER_ID_FAILURE, DESCRIPTION_FAILURE, DURATION_FAILURE, DATE_FAILURE}
  {
    if DateThrows(date, p) then Raised
    else
      Checked(Rule(userExists, USER_ID_FAILURE)
              + Rule(|description| >= 1, DESCRIPTION_FAILURE)
              + Rule(p.number(duration).Some?, DURATION_FAILURE)
              + Rule(DateAcceptable(date, p), DATE_FAILURE))
  }

  /** The exercise rules report their failures once each, in the order the rules are declared. */
  lemma FailuresInRuleOrder(userExists: bool, description: string, duration: string, date: Option<string>, p: Parsers)
    ensures var r := ValidateExercise(userExists, description, duration, date, p);
      r.Checked? ==> forall i, j :: 0 <= i < j < |r.failures| ==> Rank(r.failures[i].field) < Rank(r.failures[j].field)
  {
  }
}
