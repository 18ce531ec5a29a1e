/**
 * The state-changing request handlers over the three tables: create, update
 * and delete on `record`, and create on `job_application` and `cold_email`.
 */
module App {
  import opened Wrappers
  import opened Models
  import opened Uploads
  import opened Forms

  /** Outcome of a handler that looks a row up by id; `NotFound` is the 404 response. */
  datatype Status = Done | NotFound

  /** Integer primary keys: every key is positive and below the next key the store hands out. */
  ghost predicate KeysBelow<T>(rows: map<int, T>, next: int) {
    1 <= next && forall id :: id in rows ==> 1 <= id < next
  }

  class Database {
    var records: map<int, Record>
    var nextRecordId: int
    var jobApplications: map<int, JobApplication>
    var nextJobApplicationId: int
    var coldEmails: map<int, ColdEmail>
    var nextColdEmailId: int

    ghost predicate Valid()
      reads this
    {
      && KeysBelow(records, nextRecordId)
      && KeysBelow(jobApplications, nextJobApplicationId)
      && KeysBelow(coldEmails, nextColdEmailId)
    }

    /** Three empty tables, as created on first start. */
    constructor ()
      ensures Valid()
      ensures records == map[] && jobApplications == map[] && coldEmails == map[]
    {
      records, nextRecordId := map[], 1;
      jobApplications, nextJobApplicationId := map[], 1;
      coldEmails, nextColdEmailId := map[], 1;
    }

    /**
     * `create`: insert one record under a fresh id; an absent or empty field is
     * stored as `""`. Never rejects its input.
     */
    method Create(form: RecordForm, now: Time) returns (id: int)
      requires Valid()
      modifies this
      ensures Valid()
      ensures id !in old(records)
      ensures records == old(records)[id := Record(OrEmpty(form.name), OrEmpty(form.email), now, now)]
      ensures jobApplications == old(jobApplications) && nextJobApplicationId == old(nextJobApplicationId)
      ensures coldEmails == old(coldEmails) && nextColdEmailId == old(nextColdEmailId)
      ensures old(Chronological(records, now)) ==> Chronological(records, now)
    {
      var name := OrEmpty(form.name);
      var email := OrEmpty(form.email);
      var newRecord := NewRecord(Some(name), Some(email), now);
      id := nextRecordId;
      records := records[id := newRecord];
      nextRecordId := nextRecordId + 1;
    }

    /**
     * `update`: `NotFound` and no change when `id` is not a record; otherwise
     * both fields of that record are overwritten, with the same `""` defaults.
     */
    method Update(id: int, form: RecordForm, now: Time) returns (status: Status)
      requires Valid()
      modifies this
      ensures Valid()
      ensures status == NotFound <==> id !in old(records)
      ensures status == NotFound ==> records == old(records)
      ensures status == Done ==>
        records == old(records)[id := Assign(old(records)[id], OrEmpty(form.name), OrEmpty(form.email), now)]
      ensures records.Keys == old(records).Keys
      ensures nextRecordId == old(nextRecordId)
      ensures jobApplications == old(jobApplications) && nextJobApplicationId == old(nextJobApplicationId)
      ensures coldEmails == old(coldEmails) && nextColdEmailId == old(nextColdEmailId)
      ensures old(Chronological(records, now)) ==> Chronological(records, now)
    {
      if id !in records {
        return NotFound;
      }
      var record := records[id];
      var name := OrEmpty(form.name);
      var email := OrEmpty(form.email);
      records := records[id := Assign(record, name, email, now)];
      status := Done;
    }

    /**
     * `delete`: `NotFound` and no change when `id` is not a record; otherwise
     * exactly that record is removed.
     */
    method Delete(id: int) returns (status: Status)
      requires Valid()
      modifies this
      ensures Valid()
      ensures status == NotFound <==> id !in old(records)
      ensures status == NotFound ==> records == old(records)
      ensures status == Done ==> records == old(records) - {id}
      ensures id !in records
      ensures nextRecordId == old(nextRecordId)
      ensures jobApplications == old(jobApplications) && nextJobApplicationId == old(nextJobApplicationId)
      ensures coldEmails == old(coldEmails) && nextColdEmailId == old(nextColdEmailId)
      ensures forall t :: old(Chronological(records, t)) ==> Chronological(records, t)
    {
      if id !in records {
        return NotFound;
      }
      records := records - {id};
      status := Done;
    }

    /** `create_job_application`: insert the submitted application under a fresh id. */
    method CreateJobApplication(form: ApplicationForm, now: Time, parse: string -> Option<Time>, sanitize: string -> string)
      returns (id: int)
      requires Valid()
      modifies this
      ensures Valid()
      ensures id !in old(jobApplications) && id in jobApplications
      ensures jobApplications == old(jobApplications)[id := jobApplications[id]]
      ensures Submitted(jobApplications[id], form, now, parse, sanitize)
      ensures records == old(records) && nextRecordId == old(nextRecordId)
      ensures coldEmails == old(coldEmails) && nextColdEmailId == old(nextColdEmailId)
    {
      var app := SubmitApplication(form, now, parse, sanitize);
      id := nextJobApplicationId;
      jobApplications := jobApplications[id := app];
      nextJobApplicationId := nextJobApplicationId + 1;
    }

    /** `create_cold_email`: insert the submitted cold email under a fresh id. */
    method CreateColdEmail(form: ApplicationForm, now: Time, parse: string -> Option<Time>, sanitize: string -> string)
      returns (id: int)
      requires Valid()
      modifies this
      ensures Valid()
      ensures id !in old(coldEmails) && id in coldEmails
      ensures coldEmails == old(coldEmails)[id := coldEmails[id]]
      ensures Submitted(coldEmails[id], form, now, parse, sanitize)
      ensures records == old(records) && nextRecordId == old(nextRecordId)
      ensures jobApplications == old(jobApplications) && nextJobApplicationId == old(nextJobApplicationId)
    {
      var app := SubmitApplication(form, now, parse, sanitize);
      id := nextColdEmailId;
      coldEmails := coldEmails[id := app];
      nextColdEmailId := nextColdEmailId + 1;
    }
  }

  /** Deleting the record just created gives back the table as it was. */
  method CreateThenDelete(db: Database, form: RecordForm, now: Time) returns (status: Status)
    requires db.Valid()
    modifies db
    ensures db.Valid()
    ensures status == Done && db.records == old(db.records)
  {
    var id := db.Create(form, now);
    status := db.Delete(id);
    assert db.records == old(db.records);
  }
}
