/** The three table shapes and their column defaults. */
module Models {
  import opened Wrappers

  /** A point in time, as the clock or the date parser gives it. */
  type Time = int

  /** A row of the `record` table (the table's integer key is the key of the map holding it). */
  datatype Record = Record(name: string, email: string, createdAt: Time, updatedAt: Time)

  /**
   * A row of the `job_application` or `cold_email` table; the two tables have
   * the same columns with the same defaults.
   */
  datatype Application = Application(
    date: Time,
    company: string,
    role: string,
    location: string,
    jobDescription: string,
    resumeFilename: Option<string>,
    jdScreenshotFilename: Option<string>)

  type JobApplication = Application
  type ColdEmail = Application

  /** `Record(...)` at time `now`: an omitted name or email takes the default `""`. */
  function NewRecord(name: Option<string>, email: Option<string>, now: Time): (r: Record)
    ensures name.None? ==> r.name == ""
    ensures name.Some? ==> r.name == name.value
    ensures email.None? ==> r.email == ""
    ensures email.Some? ==> r.email == email.value
    ensures r.createdAt == now && r.updatedAt == now
  {
    Record(name.GetOr(""), email.GetOr(""), now, now)
  }

  /**
   * Assigning `name` and `email` to a loaded row and committing at time `now`.
   * The `onupdate` stamp is applied only when an UPDATE is issued, that is when
   * at least one of the two values differs from the stored one.
   */
  function Assign(r: Record, name: string, email: string, now: Time): (r': Record)
    ensures r'.name == name && r'.email == email && r'.createdAt == r.createdAt
    ensures r' == r <==> (name == r.name && email == r.email)
    ensures r' != r ==> r'.updatedAt == now
  {
    if name == r.name && email == r.email then r
    else r.(name := name, email := email, updatedAt := now)
  }

  /**
   * `JobApplication(...)` or `ColdEmail(...)` at time `now`: an omitted date is `now`,
   * an omitted text column is `""`, and the two file names have no default.
   */
  function NewApplication(
    date: Option<Time>,
    company: Option<string>,
    role: Option<string>,
    location: Option<string>,
    jobDescription: Option<string>,
    resumeFilename: Option<string>,
    jdScreenshotFilename: Option<string>,
    now: Time): (a: Application)
    ensures a.date == (if date.Some? then date.value else now)
    ensures a.company == (if company.Some? then company.value else "")
    ensures a.role == (if role.Some? then role.value else "")
    ensures a.location == (if location.Some? then location.value else "")
    ensures a.jobDescription == (if jobDescription.Some? then jobDescription.value else "")
    ensures a.resumeFilename == resumeFilename
    ensures a.jdScreenshotFilename == jdScreenshotFilename
  {
    Application(date.GetOr(now), company.GetOr(""), role.GetOr(""), location.GetOr(""),
                jobDescription.GetOr(""), resumeFilename, jdScreenshotFilename)
  }

  /** Every row was created no later than it was last changed, and both stamps are at most `t`. */
  ghost predicate Chronological(rows: map<int, Record>, t: Time) {
    forall id :: id in rows ==> rows[id].createdAt <= rows[id].updatedAt <= t
  }

  /**
   * Submitting the same values twice changes the row once: the second commit
   * issues no UPDATE, so `updatedAt` keeps the first stamp.
   */
  lemma AssignTwice(r: Record, name: string, email: string, now: Time, later: Time)
    ensures Assign(Assign(r, name, email, now), name, email, later) == Assign(r, name, email, now)
  {
  }
}
