/**
 * The exercise record and the schema every stored exercise satisfies: a
 * required owner reference, a required description, a required numeric
 * duration and a required date that defaults to the time of construction.
 */
module ExerciseSchema {
  import opened Wrappers
  import opened Domain

  /** A stored exercise. */
  datatype Exercise = Exercise(user: UserId, description: string, duration: Duration, date: Date)

  /** A document handed to the schema before it is saved: any field may be missing. */
  datatype Draft = Draft(user: Option<UserId>, description: Option<string>, duration: Option<Duration>, date: Option<Date>)

  /**
   * What the schema guarantees of every stored exercise beyond the field
   * types: a required string is never empty.
   */
  predicate WellFormed(e: Exercise) {
    |e.description| >= 1
  }

  /** The draft an exercise record is written from when every field is given. */
  function DraftOf(e: Exercise): Draft {
    Draft(Some(e.user), Some(e.description), Some(e.duration), Some(e.date))
  }

  /**
   * Construct a document and validate it for saving: the date default (the
   * time of construction, `now`) fills a missing date, then each required
   * field is checked. `None` is a rejected save.
   */
  function Admit(d: Draft, now: Date): (r: Option<Exercise>)
    ensures r.Some? <==> d.user.Some? && d.description.Some? && d.description.value != [] && d.duration.Some?
    ensures r.Some? ==> WellFormed(r.value)
    ensures r.Some? ==> DraftOf(r.value) == d.(date := Some(r.value.date))
    ensures r.Some? ==> r.value.date == (if d.date.Some? then d.date.value else now)
  {
    var date := if d.date.Some? then d.date.value else now;
    if d.user.None? || d.description.None? || |d.description.value| == 0 || d.duration.None? then None
    else Some(Exercise(d.user.value, d.description.value, d.duration.value, date))
  }

  /** The schema admits every well-formed record unchanged, whatever the time. */
  lemma AdmitDraftOf(e: Exercise, now: Date)
    requires WellFormed(e)
    ensures Admit(DraftOf(e), now) == Some(e)
  {
  }
}
