/** The registration record: how `processRegistration` in both scripts
    builds it from the form, the object it is stored as, and the order of
    its keys. */
module Records {
  import opened Wrappers
  import opened Text
  import opened FormHelpers

  /** The raw `FormData` values of the registration form. */
  datatype FormInput = FormInput(
    fullName: string, email: string, phone: string, studentId: string,
    department: string, year: string, interests: string)

  /** What the environment supplies while the record is built: `Date.now()`,
      the ISO-8601 and en-US date and time renderings of `new Date()`, and
      the random draw. */
  datatype Moment = Moment(now: nat, iso: string, date: string, time: string, draw: Draw)

  datatype StudentRecord = StudentRecord(
    id: string, timestamp: string, registrationDate: string, registrationTime: string,
    fullName: string, email: string, phone: string, studentId: string,
    department: string, academicYear: string, interests: string,
    status: string, source: string)

  const NotSpecified: string := "Not specified"
  const Active: string := "Active"
  /** The `source` label of script.js. */
  const MainSource: string := "AIMS Website Registration"
  /** The `source` label of js/script.js. */
  const LguSource: string := "AIMS Website Registration - LGU"
  const InvalidEmailMessage: string := "Please enter a valid email address"

  /** An email value after `trim().toLowerCase()`. */
  function NormaliseEmail(raw: string): string
  {
    ToLower(Trim(raw))
  }

  /** `interests.trim() || 'Not specified'`. */
  function NormaliseInterests(raw: string): string
  {
    var t := Trim(raw);
    if t == [] then NotSpecified else t
  }

  /** What every accepted record satisfies. */
  predicate Normalised(r: StudentRecord)
  {
    && Trimmed(r.fullName) && Trimmed(r.email) && Trimmed(r.phone) && Trimmed(r.studentId)
    && Trimmed(r.interests) && r.interests != []
    && (forall k :: 0 <= k < |r.email| ==> !IsUpperAscii(r.email[k]))
    && ValidateEmail(r.email)
    && r.status == Active
  }

  lemma TrimmedIsFixed(t: string)
    requires Trimmed(t)
    ensures TrimStart(t) == t && TrimEnd(t) == t && Trim(t) == t
  {
  }

  lemma LowerKeepsTrimmed(t: string)
    requires Trimmed(t)
    ensures Trimmed(ToLower(t))
  {
  }

  lemma EmailNormalisation(raw: string)
    ensures var e := NormaliseEmail(raw);
      && Trimmed(e)
      && (forall k :: 0 <= k < |e| ==> !IsUpperAscii(e[k]))
      && NormaliseEmail(e) == e
  {
    var t := Trim(raw);
    TrimIsCore(raw);
    LowerKeepsTrimmed(t);
    var e := ToLower(t);
    TrimmedIsFixed(e);
    assert ToLower(e) == e;
  }

  lemma InterestsNormalisation(raw: string)
    ensures var i := NormaliseInterests(raw);
      && Trimmed(i) && i != []
      && (Blank(raw) ==> i == NotSpecified)
      && (!Blank(raw) ==> i == Trim(raw))
      && NormaliseInterests(i) == i
  {
    TrimIsCore(raw);
    TrimEmptyIffBlank(raw);
    var i := NormaliseInterests(raw);
    assert Trimmed(NotSpecified);
    TrimmedIsFixed(i);
  }

  /** The `studentRecord` literal of `processRegistration`, followed by its
      email check: a record, or the error thrown for an email that fails
      `validateEmail` once trimmed and lower-cased. */
  function BuildRecord(form: FormInput, at: Moment, source: string): (r: Result<StudentRecord, string>)
    ensures r.Success? <==> ValidateEmail(NormaliseEmail(form.email))
    ensures r.Failure? ==> r.error == InvalidEmailMessage
  {
    var record := StudentRecord(
      id := GenerateStudentId(at.now, at.draw),
      timestamp := at.iso,
      registrationDate := at.date,
      registrationTime := at.time,
      fullName := Trim(form.fullName),
      email := NormaliseEmail(form.email),
      phone := Trim(form.phone),
      studentId := Trim(form.studentId),
      department := form.department,
      academicYear := form.year,
      interests := NormaliseInterests(form.interests),
      status := Active,
      source := source);
    if ValidateEmail(record.email) then Success(record) else Failure(InvalidEmailMessage)
  }

  /** What an accepted record holds: the id and time stamps from the moment,
      the text fields trimmed, the email also lower-cased and valid, an
      interests value that is never blank, department and year exactly as
      given, and the page's source label. */
  lemma BuildRecordFields(form: FormInput, at: Moment, source: string)
    requires BuildRecord(form, at, source).Success?
    ensures var r := BuildRecord(form, at, source).value;
      && Normalised(r)
      && r.id == GenerateStudentId(at.now, at.draw)
      && r.timestamp == at.iso && r.registrationDate == at.date && r.registrationTime == at.time
      && r.fullName == Trim(form.fullName) && r.email == NormaliseEmail(form.email)
      && r.phone == Trim(form.phone) && r.studentId == Trim(form.studentId)
      && r.department == form.department && r.academicYear == form.year
      && (Blank(form.interests) ==> r.interests == NotSpecified)
      && (!Blank(form.interests) ==> r.interests == Trim(form.interests))
      && r.source == source
  {
    TrimIsCore(form.fullName);
    TrimIsCore(form.phone);
    TrimIsCore(form.studentId);
    EmailNormalisation(form.email);
    InterestsNormalisation(form.interests);
  }

  /** The form values a record shows when read back. */
  function FormOf(r: StudentRecord): FormInput
  {
    FormInput(r.fullName, r.email, r.phone, r.studentId, r.department, r.academicYear, r.interests)
  }

  /** Normalisation is idempotent: submitting an accepted record's own values
      again, at the same moment and from the same form, rebuilds the same
      record. */
  lemma RebuildIsIdentity(form: FormInput, at: Moment, source: string)
    requires BuildRecord(form, at, source).Success?
    ensures BuildRecord(FormOf(BuildRecord(form, at, source).value), at, source) == BuildRecord(form, at, source)
  {
    var r := BuildRecord(form, at, source).value;
    TrimIdempotent(form.fullName);
    TrimIdempotent(form.phone);
    TrimIdempotent(form.studentId);
    EmailNormalisation(form.email);
    InterestsNormalisation(form.interests);
  }

  /** Two builds from the same values differ at most in the parts taken from
      the moment: id, timestamp and the date and time renderings. */
  lemma BuildIgnoresMomentElsewhere(form: FormInput, at1: Moment, at2: Moment, source: string)
    ensures BuildRecord(form, at1, source).Success? == BuildRecord(form, at2, source).Success?
    ensures BuildRecord(form, at1, source).Success? ==>
      BuildRecord(form, at2, source).value == BuildRecord(form, at1, source).value.(
        id := GenerateStudentId(at2.now, at2.draw), timestamp := at2.iso,
        registrationDate := at2.date, registrationTime := at2.time)
  {
  }

  // ---------------------------------------------------------------------
  // The record as a stored object
  // ---------------------------------------------------------------------

  /** A stored student object as `JSON.parse` gives it back: string-valued
      properties by name. Objects read from storage or from the remote
      service need not carry every property. */
  type Entry = map<string, string>

  /** The record's properties in insertion order, which is the order
      `Object.keys` lists them. */
  function Fields(r: StudentRecord): seq<(string, string)>
  {
    [("id", r.id), ("timestamp", r.timestamp), ("registrationDate", r.registrationDate),
     ("registrationTime", r.registrationTime), ("fullName", r.fullName), ("email", r.email),
     ("phone", r.phone), ("studentId", r.studentId), ("department", r.department),
     ("academicYear", r.academicYear), ("interests", r.interests), ("status", r.status),
     ("source", r.source)]
  }

  /** The record as the object that is pushed onto `studentsDatabase`. */
  function ToEntry(r: StudentRecord): (e: Entry)
    ensures forall i :: 0 <= i < |Fields(r)| ==> Fields(r)[i].0 in e && e[Fields(r)[i].0] == Fields(r)[i].1
  {
    map["id" := r.id, "timestamp" := r.timestamp, "registrationDate" := r.registrationDate,
        "registrationTime" := r.registrationTime, "fullName" := r.fullName, "email" := r.email,
        "phone" := r.phone, "studentId" := r.studentId, "department" := r.department,
        "academicYear" := r.academicYear, "interests" := r.interests, "status" := r.status,
        "source" := r.source]
  }

  /** The entry has exactly the record's thirteen keys and no other. */
  lemma EntryKeys(r: StudentRecord)
    ensures ToEntry(r).Keys == set i | 0 <= i < |Fields(r)| :: Fields(r)[i].0
  {
    var fs := Fields(r);
    var keys := set i | 0 <= i < |fs| :: fs[i].0;
    forall i | 0 <= i < |fs|
      ensures fs[i].0 in keys
    {
    }
    assert ToEntry(r).Keys == {fs[0].0, fs[1].0, fs[2].0, fs[3].0, fs[4].0, fs[5].0, fs[6].0,
                               fs[7].0, fs[8].0, fs[9].0, fs[10].0, fs[11].0, fs[12].0};
  }
}
