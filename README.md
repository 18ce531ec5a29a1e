# Track Your Job Application: verified model of the upload checks and the record handlers

This model covers a small Flask application that keeps three tables:
generic contact records (`record`), job applications (`job_application`)
and cold emails (`cold_email`). It models two parts of the application.

* **The upload validators.** `allowed_resume_file` and
  `allowed_screenshot_file` split a file name at its last dot, lower-case
  the suffix and look it up in a fixed allow-list. The allow-lists are
  `pdf`, `doc` and `docx` for resumes, and `jpg`, `jpeg`, `png` and `gif`
  for screenshots.
* **The state-changing handlers, without the Flask plumbing.** These are
  `create`, `update` and `delete` on `record`, and creation of job
  applications and cold emails. They also cover the column defaults the
  three table classes declare.

Files and modules:

| file | module | models |
|---|---|---|
| `wrappers.dfy` | `Wrappers` | `Option`, standing for Python's `None` or a present value |
| `uploads.dfy` | `Uploads` | the allow-lists, `rsplit('.', 1)`, `lower()`, the two validators and their properties |
| `upload_examples.dfy` | `UploadExamples` | verdicts on concrete file names |
| `models.dfy` | `Models` | the `Record` and `Application` row shapes, their constructors with column defaults, and the `onupdate` stamp |
| `forms.dfy` | `Forms` | form input, the `or ''` defaulting, the date rule, the upload rule, and the shared body of the two application handlers |
| `app.dfy` | `App` | class `Database`: the three tables as maps with their id counters, and the five handlers as methods |

Some things are parameters of the model rather than modelled code:

* the request's form fields and file parts (`RecordForm`, `ApplicationForm`);
* the clock (`now: Time`);
* `datetime.strptime(s, '%Y-%m-%d')` (`parse: string -> Option<Time>`, where `None` means the `ValueError`);
* Werkzeug's `secure_filename` (`sanitize: string -> string`).

Nothing is claimed about what `parse` or `sanitize` return.

`JobApplication` and `ColdEmail` have the same columns with the same
defaults (models.py:17-27 and models.py:32-41). The model therefore gives
both of them one datatype, `Application`, with the type synonyms
`JobApplication` and `ColdEmail`. Each table is a separate map. Both
handlers call one method, `Forms.SubmitApplication`. It follows the shared
body of app.py:98-131 and app.py:149-179 step by step, apart from the
`save` calls listed under "Left out".

Where the model reads the source more closely than a plain description
would:

* A file part counts as absent when its file name is empty. This is how
  Werkzeug's `FileStorage` behaves in `if resume_file`. The lemma
  `Forms.AttachedTestSubsumed` shows that this test never changes the
  outcome, because both validators reject the empty name.
* `updated_at` is refreshed only when the commit issues an UPDATE. The
  ORM issues one only when `name` or `email` actually changes value.
  Re-submitting unchanged values keeps the old stamp
  (`Models.Assign`, `Models.AssignTwice`). A reading in which every update
  refreshes the stamp would differ here; the model follows the code and the ORM.
* Python's `str.lower()` is modelled as ASCII lower-casing. For the
  membership test this is exact. Only two non-ASCII characters have a
  lower case that contains an ASCII character. The Kelvin sign (U+212A)
  lowers to `k`, and no allowed extension contains a `k`. U+0130 lowers
  to `i` followed by U+0307, and U+0307 is not ASCII. Every other
  non-ASCII character lowers to non-ASCII characters only. So an extension
  holding a non-ASCII character matches no allowed extension under either
  lower-casing.

## Model

| member | source | states |
|---|---|---|
| `Uploads.LastIndexOf` | app.py:23 | returns `None` iff the character does not occur; otherwise an index holding it with no occurrence after it (the last occurrence) |
| `Uploads.RSplitDot` | app.py:23 | `rsplit('.', 1)`: the whole name when it has no dot; otherwise two parts whose join with `.` is the name, the second part holding no dot |
| `Uploads.Lower` | app.py:23 | keeps the length and lower-cases character by character |
| `Uploads.ToLower` | app.py:23 | the per-character lower-casing used by `.lower()`: an ASCII capital becomes the matching small letter, every other character is kept, and the result is never an ASCII capital |
| `Uploads.HasAllowedExtension` | app.py:22-26 | the shared expression `'.' in f and f.rsplit('.', 1)[1].lower() in allowed`; an accepted name contains a dot |
| `Uploads.AllowedResumeFile` | app.py:22-23 | `allowed_resume_file`: the shared expression with the resume list; an accepted name contains a dot and has at least four characters |
| `Uploads.AllowedScreenshotFile` | app.py:25-26 | `allowed_screenshot_file`: the shared expression with the screenshot list; an accepted name contains a dot and has at least four characters |
| `Uploads.ShortExtensionsRejected` | app.py:19-23 | when every allowed extension has at least three characters, an accepted name has a dot, the extension and so at least four characters |
| `Uploads.SplitAtLastDot` | app.py:23 | splitting `head + "." + ext`, with no dot in `ext`, gives exactly `[head, ext]`, whatever dots `head` holds (the split is unique) |
| `Uploads.HasAllowedExtensionIff` | app.py:22-26 | a name passes an allow-list iff it is `head + "." + ext`, `ext` holds no dot, and `ext` lower-cased is on the list |
| `Uploads.AllowedResumeFileIff` | app.py:19-23 | `allowed_resume_file(f)` iff `f` has a dot and the lower-cased text after its last dot is `pdf`, `doc` or `docx` |
| `Uploads.AllowedScreenshotFileIff` | app.py:25-26 | `allowed_screenshot_file(f)` iff `f` has a dot and the lower-cased text after its last dot is `jpg`, `jpeg`, `png` or `gif` (the list of app.py:20) |
| `Uploads.LastSegmentDecides` | app.py:23 | only the final segment decides: `head + "." + ext` passes iff `ext` lower-cased is on the list, whatever `head` is |
| `Uploads.NoDotRejected` | app.py:23 | a name without a dot is rejected by both validators |
| `Uploads.TrailingDotRejected` | app.py:22-26 | a name ending in a dot is rejected by both validators |
| `Uploads.CaseInsensitive` | app.py:23 | lower-casing the whole name never changes the verdict |
| `Uploads.ListsDisjoint` | app.py:19-20 | no name passes both validators |
| `UploadExamples.ResumePdfAccepted` | app.py:22-23 | `resume.pdf` is a valid resume |
| `UploadExamples.ResumeExeRejected` | app.py:22-23 | `resume.exe` is not a valid resume |
| `UploadExamples.PdfAfterExeAccepted` | app.py:22-23 | `a.exe.pdf` is a valid resume |
| `UploadExamples.ExeAfterPdfRejected` | app.py:22-23 | `a.pdf.exe` is not a valid resume |
| `UploadExamples.UpperCaseResumeAccepted` | app.py:22-23 | `CV.PDF` is a valid resume |
| `UploadExamples.UpperCaseScreenshotAccepted` | app.py:25-26 | `photo.PNG` is a valid screenshot |
| `UploadExamples.NoExtensionRejected` | app.py:22-23 | `noextension` is not a valid resume |
| `UploadExamples.EmptyExtensionRejected` | app.py:22-23 | `cv.` is not a valid resume |
| `Models.NewRecord` | models.py:5-12 | an omitted `name` or `email` is `""`, a given one is kept; both stamps are the creation time |
| `Models.Assign` | models.py:12 | both fields take the new values and `created_at` is kept; the row is unchanged iff both values equal the stored ones; otherwise `updated_at` becomes the current time |
| `Models.AssignTwice` | models.py:12 | a second identical submission changes nothing, not even `updated_at` |
| `Models.NewApplication` | models.py:17-41 | an omitted date is the creation time; an omitted `company`, `role`, `location` or `job_description` is `""`; the two file names have no default |
| `Forms.Filled` | app.py:104 | the Python truth value of a form field, as in `or ''` (app.py:59-60, app.py:98-101) and `if date_str`: true only for a present, non-empty value; an absent or empty field is false |
| `Forms.Attached` | app.py:115 | the truth value of a file part in `if resume_file` (also app.py:123): true only for a present part with a non-empty file name; no part, or a part with an empty name, is false |
| `Forms.OrEmpty` | app.py:59-60 | `value or ''`: the result is `""` iff the field is absent or empty; otherwise it is the submitted value |
| `Forms.ResolveDate` | app.py:102-110 | an absent or empty date string gives the current time; one the parser rejects gives the current time; otherwise the parsed value |
| `Forms.ResolvedDateOrigin` | app.py:102-110 | the stored date is always the current time or a value the parser returned for the submitted string |
| `Forms.AcceptedFilename` | app.py:113-126 | a file name is stored iff a file is attached and its name passes the validator; the stored name is the sanitized one; a rejected file gives no name and no error |
| `Forms.AttachedTestSubsumed` | app.py:115 | for both validators, a file name is stored iff the part's name passes the validator, so the truth test on the part adds nothing |
| `Forms.SubmitApplication` | app.py:97-131 | the row built from an application form has its four text fields `or ''`-defaulted, its date resolved by the date rule, and each file name set by the upload rule for its own validator; it never fails |
| `App.Database.constructor` | app.py:33-34 | three empty tables with valid id counters |
| `App.Database.Create` | app.py:55-63 | the record table gains exactly one record under an id not used before, holding the `or ''`-defaulted fields and the creation time; no input is rejected; every other record and the other two tables are unchanged; the stamps stay ordered when the clock has not gone back |
| `App.Database.Update` | app.py:68-74 | `NotFound` iff the id is missing, and then nothing changes; otherwise only that record changes, both fields are overwritten with the `or ''`-defaulted values (`Models.Assign`), and no id changes |
| `App.Database.Delete` | app.py:79-83 | `NotFound` iff the id is missing, and then nothing changes; otherwise exactly that record is removed and all others are unchanged; afterwards the id is absent |
| `App.Database.CreateJobApplication` | app.py:95-133 | the job-application table gains exactly one row under a fresh id, the row `Forms.SubmitApplication` describes; the other tables are unchanged |
| `App.Database.CreateColdEmail` | app.py:146-181 | the cold-email table gains exactly one row under a fresh id, the row `Forms.SubmitApplication` describes; the other tables are unchanged |
| `App.CreateThenDelete` | app.py:55-83 | deleting the record just created succeeds and restores the record table exactly |

## Left out

- Routing, templates, redirects, the GET branches that render forms, `debug=True` and the debug `print` in `index` (app.py:39-53, app.py:186-187). This is HTTP and UI plumbing.
- The listings and their `order_by(... desc())` (app.py:44-48, app.py:92, app.py:143), and the `record_type` dispatch in `index`. These are database queries that return rows in order. The model has no query engine.
- `flash` messages and the time they print. They are framework session state.
- Creating the upload folder and saving uploaded files (app.py:14-16 and the `save` calls). This is file-system I/O, so overwrite-on-collision is not modelled either.
- `secure_filename`. It is a Werkzeug function whose code is not part of this model, so it is the parameter `sanitize`, with nothing claimed about its output.
- `datetime.strptime` and `datetime.utcnow`. They are library calls, so they become the parameters `parse` and `now`. `created_at` and `updated_at` receive one `now` in the model, though each column default calls the clock separately.
- SQLAlchemy sessions, commits and `db.create_all`. Each handler is one atomic step on the maps. Ids come from a counter, so an id is never reused. A SQLite table without AUTOINCREMENT may reuse the largest id after a delete, and the model does not capture that. The model relies only on new ids being fresh.
- Column lengths (`String(64)`, `String(120)`, `String(128)`, models.py:9-10 and models.py:22-24). The model assumes that the store does not enforce them, as SQLite does not. Strings are therefore unbounded. The store is configured outside the modelled files. On a store that enforces the lengths, an over-long value fails at commit. So "no input is rejected" (`App.Database.Create`) and "it never fails" (`Forms.SubmitApplication`, `App.Database.CreateJobApplication`, `App.Database.CreateColdEmail`) hold only under this assumption.
- An explicit `None` passed to a model constructor is treated like an omitted argument. The handlers never pass `None` for a text field.
- A file part whose file name is `None` is not represented. `Upload` always carries a string.
- Concurrent requests and upload races.
- `__repr__` methods. They only produce display strings.
