/**
 * What the handlers make of a submitted form: empty-string defaults, the
 * date rule and the upload rule that the job-application and cold-email
 * handlers share.
 */
module Forms {
  import opened Wrappers
  import opened Models
  import opened Uploads

  /** The record form; a field the request does not carry is `None`. */
  datatype RecordForm = RecordForm(name: Option<string>, email: Option<string>)

  /** An uploaded file part; only its client-side file name matters here. */
  datatype Upload = Upload(filename: string)

  /** The job-application and cold-email form with its two optional file parts. */
  datatype ApplicationForm = ApplicationForm(
    company: Option<string>,
    role: Option<string>,
    location: Option<string>,
    jobDescription: Option<string>,
    date: Option<string>,
    resume: Option<Upload>,
    jdScreenshot: Option<Upload>)

  /** Truth value of a form field in a Python condition: present and not empty. */
  predicate Filled(v: Option<string>)
    ensures Filled(v) ==> v.Some? && |v.value| > 0
    ensures v == None || v == Some("") ==> !Filled(v)
  {
    v.Some? && v.value != ""
  }

  /** A form field followed by `or ''`: the empty string unless a non-empty value was sent. */
  function OrEmpty(v: Option<string>): (s: string)
    ensures s == "" <==> !Filled(v)
    ensures Filled(v) ==> s == v.value
  {
    if Filled(v) then v.value else ""
  }

  /** Truth value of a file part: a part with an empty file name counts as no file. */
  predicate Attached(file: Option<Upload>)
    ensures Attached(file) ==> file.Some? && |file.value.filename| > 0
    ensures file == None || file == Some(Upload("")) ==> !Attached(file)
  {
    file.Some? && file.value.filename != ""
  }

  /**
   * The stored date: the parsed date string when one was sent and parses,
   * otherwise the current time.
   */
  function ResolveDate(dateStr: Option<string>, parse: string -> Option<Time>, now: Time): (date: Time)
    ensures !Filled(dateStr) ==> date == now
    ensures Filled(dateStr) && parse(dateStr.value).None? ==> date == now
    ensures Filled(dateStr) && parse(dateStr.value).Some? ==> date == parse(dateStr.value).value
  {
    if Filled(dateStr) then
      match parse(dateStr.value)
      case Some(d) => d
      case None => now
    else now
  }

  /**
   * The stored file name: the sanitized name of an attached file that `allowed`
   * accepts, and no name otherwise; a rejected file is dropped without an error.
   */
  function AcceptedFilename(file: Option<Upload>, allowed: string -> bool, sanitize: string -> string): (name: Option<string>)
    ensures name.Some? <==> Attached(file) && allowed(file.value.filename)
    ensures name.Some? ==> name.value == sanitize(file.value.filename)
  {
    if Attached(file) && allowed(file.value.filename) then Some(sanitize(file.value.filename)) else None
  }

  /** The stored date is the current time or a value the parser returned for the sent string. */
  lemma ResolvedDateOrigin(dateStr: Option<string>, parse: string -> Option<Time>, now: Time)
    ensures var date := ResolveDate(dateStr, parse, now);
      date == now || (dateStr.Some? && parse(dateStr.value) == Some(date))
  {
  }

  /**
   * The truth test on a file part never changes the outcome of the two validators,
   * since both reject the empty name.
   */
  lemma AttachedTestSubsumed(file: Option<Upload>, sanitize: string -> string)
    requires file.Some?
    ensures AcceptedFilename(file, AllowedResumeFile, sanitize).Some? == AllowedResumeFile(file.value.filename)
    ensures AcceptedFilename(file, AllowedScreenshotFile, sanitize).Some? == AllowedScreenshotFile(file.value.filename)
  {
    if file.value.filename == "" {
      NoDotRejected("");
    }
  }

  /** The row the job-application and cold-email handlers store for `form`. */
  predicate Submitted(app: Application, form: ApplicationForm, now: Time,
                      parse: string -> Option<Time>, sanitize: string -> string)
  {
    && app.company == OrEmpty(form.company)
    && app.role == OrEmpty(form.role)
    && app.location == OrEmpty(form.location)
    && app.jobDescription == OrEmpty(form.jobDescription)
    && app.date == ResolveDate(form.date, parse, now)
    && app.resumeFilename == AcceptedFilename(form.resume, AllowedResumeFile, sanitize)
    && app.jdScreenshotFilename == AcceptedFilename(form.jdScreenshot, AllowedScreenshotFile, sanitize)
  }

  /**
   * The body shared by the job-application and cold-email handlers: build the
   * row to insert from the form, the clock reading `now`, the date parser and
   * the file-name sanitizer. It never fails.
   */
  method SubmitApplication(form: ApplicationForm, now: Time, parse: string -> Option<Time>, sanitize: string -> string)
    returns (app: Application)
    ensures Submitted(app, form, now, parse, sanitize)
  {
    var company := OrEmpty(form.company);
    var role := OrEmpty(form.role);
    var location := OrEmpty(form.location);
    var jobDescription := OrEmpty(form.jobDescription);

    var date: Time;
    if Filled(form.date) {
      var parsed := parse(form.date.value);
      if parsed.Some? {
        date := parsed.value;
      } else {
        date := now;
      }
    } else {
      date := now;
    }

    var resumeFilename: Option<string> := None;
    if Attached(form.resume) && AllowedResumeFile(form.resume.value.filename) {
      var filename := sanitize(form.resume.value.filename);
      resumeFilename := Some(filename);
    }

    var jdScreenshotFilename: Option<string> := None;
    if Attached(form.jdScreenshot) && AllowedScreenshotFile(form.jdScreenshot.value.filename) {
      var filename := sanitize(form.jdScreenshot.value.filename);
      jdScreenshotFilename := Some(filename);
    }

    app := NewApplication(Some(date), Some(company), Some(role), Some(location), Some(jobDescription),
                          resumeFilename, jdScreenshotFilename, now);
  }
}
