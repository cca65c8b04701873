/** script.js: the registration page whose `sendToGoogleSheets` posts the
    record as JSON and falls back to local storage, and whose admin
    functions read through `getStudentsFromGoogleSheets`. */
module MainSite {
  import opened Wrappers
  import opened Text
  import opened FormHelpers
  import opened Records
  import opened Storage
  import opened Remote
  import opened Queries

  /** The starting value of `totalMembers`. */
  const InitialMembers: int := 11

  /** `GOOGLE_SHEETS_URL.includes('YOUR_GOOGLE')`: the placeholder URL was
      not replaced. */
  predicate Unconfigured(url: string)
  {
    Contains(url, "YOUR_GOOGLE")
  }

  /** The page's global state: the session list `studentsDatabase`, the
      storage slot, the member counter and the submit button's `disabled`. */
  class RegistrationPage {
    const sheetsUrl: string
    var studentsDatabase: seq<Entry>
    var slot: Slot
    var totalMembers: int
    var submitDisabled: bool

    /** Once the session has saved a record, the slot holds exactly the
        session's list. */
    predicate Valid()
      reads this
    {
      studentsDatabase != [] ==> slot == Stored(studentsDatabase)
    }

    /** Page load: the session list starts empty whatever the slot holds;
        script.js never reads the slot back into it. */
    constructor (sheetsUrl: string, stored: Slot)
      ensures this.sheetsUrl == sheetsUrl && slot == stored
      ensures studentsDatabase == [] && totalMembers == InitialMembers && !submitDisabled
      ensures Valid()
    {
      this.sheetsUrl := sheetsUrl;
      slot := stored;
      studentsDatabase := [];
      totalMembers := InitialMembers;
      submitDisabled := false;
    }

    /** `studentsDatabase.push(studentData)` followed by
        `localStorage.setItem('aimsStudents', JSON.stringify(studentsDatabase))`. */
    method SaveLocally(e: Entry)
      modifies this
      ensures studentsDatabase == old(studentsDatabase) + [e]
      ensures slot == Stored(studentsDatabase)
      ensures totalMembers == old(totalMembers) && submitDisabled == old(submitDisabled)
    {
      studentsDatabase := studentsDatabase + [e];
      slot := Stored(studentsDatabase);
    }

    /** `sendToGoogleSheets(studentData)`: never throws; the record is saved
        locally exactly once on every path. */
    method SendToGoogleSheets(record: StudentRecord, reply: PostReply) returns (result: SendResult)
      modifies this
      ensures studentsDatabase == old(studentsDatabase) + [ToEntry(record)]
      ensures slot == Stored(studentsDatabase) && Valid()
      ensures totalMembers == old(totalMembers) && submitDisabled == old(submitDisabled)
      ensures Unconfigured(sheetsUrl) ==> result == SavedLocally(None)
      ensures !Unconfigured(sheetsUrl) && reply.Parsed? ==> result == ServerResult(reply.body)
      ensures !Unconfigured(sheetsUrl) && !reply.Parsed? ==> result == SavedLocally(Some(CaughtMessage(reply)))
    {
      if Unconfigured(sheetsUrl) {
        SaveLocally(ToEntry(record));
        return SavedLocally(None);
      }
      match reply {
        case Parsed(body) =>
          SaveLocally(ToEntry(record));
          result := ServerResult(body);
        case _ =>
          SaveLocally(ToEntry(record));
          result := SavedLocally(Some(CaughtMessage(reply)));
      }
    }

    /** `showLoading(show)`, reduced to the button's `disabled` flag. */
    method ShowLoading(show: bool)
      modifies this
      ensures submitDisabled == show
      ensures studentsDatabase == old(studentsDatabase) && slot == old(slot) && totalMembers == old(totalMembers)
    {
      submitDisabled := show;
    }

    /** `processRegistration()`: an invalid email is rejected before anything
        is saved or counted; otherwise the record is saved and the counter
        goes up by one, whatever the backend answered. The button is enabled
        again in every case. */
    method ProcessRegistration(form: FormInput, at: Moment, reply: PostReply) returns (outcome: Registration)
      requires Valid()
      modifies this
      ensures Valid() && !submitDisabled
      ensures BuildRecord(form, at, MainSource).Failure? ==>
        && outcome == Rejected(InvalidEmailMessage)
        && studentsDatabase == old(studentsDatabase) && slot == old(slot) && totalMembers == old(totalMembers)
      ensures BuildRecord(form, at, MainSource).Success? ==>
        && outcome.Registered?
        && studentsDatabase == old(studentsDatabase) + [ToEntry(BuildRecord(form, at, MainSource).value)]
        && slot == Stored(studentsDatabase)
        && totalMembers == old(totalMembers) + 1
    {
      ShowLoading(true);
      var built := BuildRecord(form, at, MainSource);
      if built.Failure? {
        outcome := Rejected(built.error);
      } else {
        var result := SendToGoogleSheets(built.value, reply);
        totalMembers := totalMembers + 1;
        outcome := Registered(result);
      }
      ShowLoading(false);
    }

    /** The submit listener: `validateForm()` marks every required field and,
        only when none is blank, `processRegistration()` runs. */
    method Submit(requiredFields: seq<Field>, form: FormInput, at: Moment, reply: PostReply)
      returns (outcome: Option<Registration>)
      requires Valid()
      modifies this, set f | f in requiredFields
      ensures Valid()
      ensures forall k :: 0 <= k < |requiredFields| ==>
        requiredFields[k].value == old(requiredFields[k].value) && requiredFields[k].mark == MarkFor(requiredFields[k].value)
      ensures outcome.Some? <==> forall k :: 0 <= k < |requiredFields| ==> !Blank(requiredFields[k].value)
      ensures outcome.None? ==>
        && studentsDatabase == old(studentsDatabase) && slot == old(slot) && totalMembers == old(totalMembers)
        && submitDisabled == old(submitDisabled)
      ensures outcome.Some? ==> !submitDisabled
      ensures outcome.Some? && BuildRecord(form, at, MainSource).Failure? ==>
        && outcome.value == Rejected(InvalidEmailMessage)
        && studentsDatabase == old(studentsDatabase) && slot == old(slot) && totalMembers == old(totalMembers)
      ensures outcome.Some? && BuildRecord(form, at, MainSource).Success? ==>
        && outcome.value.Registered?
        && studentsDatabase == old(studentsDatabase) + [ToEntry(BuildRecord(form, at, MainSource).value)]
        && slot == Stored(studentsDatabase)
        && totalMembers == old(totalMembers) + 1
    {
      var isValid, _ := ValidateForm(requiredFields);
      if isValid {
        label validated:
        var registration := ProcessRegistration(form, at, reply);
        assert forall k :: 0 <= k < |requiredFields| ==>
          requiredFields[k].value == old@validated(requiredFields[k].value)
          && requiredFields[k].mark == old@validated(requiredFields[k].mark);
        outcome := Some(registration);
      } else {
        outcome := None;
      }
    }

    /** `getStudentsFromGoogleSheets()`: the local slot when the URL is not
        configured or the GET fails, else the reply's `students` or `[]`. A
        slot that does not parse makes the call reject. */
    function GetStudentsFromGoogleSheets(reply: GetReply): (r: Result<seq<Entry>, string>)
      reads this
      ensures Unconfigured(sheetsUrl) || reply.GetFailed? ==> r == ReadSlot(slot)
      ensures !Unconfigured(sheetsUrl) && reply.GetParsed? && reply.students.Some? ==> r == Success(reply.students.value)
      ensures !Unconfigured(sheetsUrl) && reply.GetParsed? && reply.students.None? ==> r == Success([])
      ensures r.Failure? ==> slot.Garbage?
    {
      if Unconfigured(sheetsUrl) then ReadSlot(slot)
      else match reply
        case GetFailed => ReadSlot(slot)
        case GetParsed(students) => if students.Some? then Success(students.value) else Success([])
    }

    /** `getStudentCount()`: the number of students read, 0 on failure. */
    function GetStudentCount(reply: GetReply): (count: nat)
      reads this
      ensures GetStudentsFromGoogleSheets(reply).Success? ==> count == |GetStudentsFromGoogleSheets(reply).value|
      ensures GetStudentsFromGoogleSheets(reply).Failure? ==> count == 0
    {
      match GetStudentsFromGoogleSheets(reply)
      case Success(students) => |students|
      case Failure(_) => 0
    }

    /** `viewAllStudents()`: the students read, `[]` on failure. */
    function ViewAllStudents(reply: GetReply): (students: seq<Entry>)
      reads this
      ensures GetStudentsFromGoogleSheets(reply).Success? ==> students == GetStudentsFromGoogleSheets(reply).value
      ensures GetStudentsFromGoogleSheets(reply).Failure? ==> students == []
      ensures |students| == GetStudentCount(reply)
    {
      match GetStudentsFromGoogleSheets(reply)
      case Success(students) => students
      case Failure(_) => []
    }

    /** `searchStudent(term)`: rejects when the read rejects. */
    function Search(reply: GetReply, searchTerm: string): (r: Result<seq<Entry>, string>)
      reads this
      ensures r.Success? <==> GetStudentsFromGoogleSheets(reply).Success?
      ensures r.Success? ==> r.value == SearchStudent(GetStudentsFromGoogleSheets(reply).value, searchTerm)
    {
      match GetStudentsFromGoogleSheets(reply)
      case Success(students) => Success(SearchStudent(students, searchTerm))
      case Failure(e) => Failure(e)
    }

    /** `filterByDepartment(dept)`: rejects when the read rejects. */
    function FilterDepartment(reply: GetReply, dept: string): (r: Result<seq<Entry>, string>)
      reads this
      ensures r.Success? <==> GetStudentsFromGoogleSheets(reply).Success?
      ensures r.Success? ==> r.value == FilterByDepartment(GetStudentsFromGoogleSheets(reply).value, dept)
    {
      match GetStudentsFromGoogleSheets(reply)
      case Success(students) => Success(FilterByDepartment(students, dept))
      case Failure(e) => Failure(e)
    }

    /** `initializeApp()`: the counter starts from `getStudentCount()`. */
    method InitializeApp(reply: GetReply)
      modifies this
      ensures totalMembers == old(GetStudentCount(reply))
      ensures studentsDatabase == old(studentsDatabase) && slot == old(slot) && submitDisabled == old(submitDisabled)
    {
      totalMembers := GetStudentCount(reply);
    }
  }

  /** What `getStudentCount()` yields on a freshly loaded page whose slot
      holds `stored`: the length of the local list when the URL is the
      placeholder or the GET fails (0 if the slot does not parse), else the
      length of the reply's `students` (0 if it has none). */
  predicate CountOnLoad(sheetsUrl: string, stored: Slot, getReply: GetReply, count: nat)
  {
    && (Unconfigured(sheetsUrl) || getReply.GetFailed? ==>
          count == match ReadSlot(stored) case Success(saved) => |saved| case Failure(_) => 0)
    && (!Unconfigured(sheetsUrl) && getReply.GetParsed? ==>
          count == match getReply.students case Some(students) => |students| case None => 0)
  }

  /** The session list is never read back from storage: after a page load
      (the constructor, then the `load` handler `initializeApp`) the first
      accepted registration overwrites whatever the slot held with a
      one-record list, while the counter is the loaded count plus one, so
      it goes on counting the records the slot no longer holds. */
  method FirstRegistrationReplacesStoredList(stored: Slot, sheetsUrl: string, getReply: GetReply,
      form: FormInput, at: Moment, reply: PostReply)
    returns (page: RegistrationPage, loaded: nat)
    requires BuildRecord(form, at, MainSource).Success?
    ensures fresh(page) && page.Valid() && !page.submitDisabled
    ensures page.studentsDatabase == [ToEntry(BuildRecord(form, at, MainSource).value)]
    ensures page.slot == Stored(page.studentsDatabase)
    ensures CountOnLoad(sheetsUrl, stored, getReply, loaded)
    ensures page.totalMembers == loaded + 1
  {
    page := new RegistrationPage(sheetsUrl, stored);
    page.InitializeApp(getReply);
    loaded := page.totalMembers;
    var _ := page.ProcessRegistration(form, at, reply);
    assert page.studentsDatabase == [] + [ToEntry(BuildRecord(form, at, MainSource).value)];
  }

  /** After a page load and two accepted registrations the slot holds those
      two records only, whatever it held before, the local read returns them
      in order, and the counter is the loaded count plus two. */
  method TwoRegistrationsReplaceStoredList(stored: Slot, sheetsUrl: string, getReply: GetReply,
      f1: FormInput, at1: Moment, reply1: PostReply,
      f2: FormInput, at2: Moment, reply2: PostReply)
    returns (page: RegistrationPage, loaded: nat)
    requires BuildRecord(f1, at1, MainSource).Success? && BuildRecord(f2, at2, MainSource).Success?
    ensures page.slot == Stored([ToEntry(BuildRecord(f1, at1, MainSource).value), ToEntry(BuildRecord(f2, at2, MainSource).value)])
    ensures CountOnLoad(sheetsUrl, stored, getReply, loaded)
    ensures page.totalMembers == loaded + 2
    ensures page.GetStudentsFromGoogleSheets(GetFailed) == Success(page.studentsDatabase)
  {
    ghost var e1 := ToEntry(BuildRecord(f1, at1, MainSource).value);
    ghost var e2 := ToEntry(BuildRecord(f2, at2, MainSource).value);
    page, loaded := FirstRegistrationReplacesStoredList(stored, sheetsUrl, getReply, f1, at1, reply1);
    var _ := page.ProcessRegistration(f2, at2, reply2);
    AppendPair(e1, e2);
    FailedReadIsLocal(page, [e1, e2]);
  }

  /** With the remote read failed, the list comes from the slot alone. */
  lemma FailedReadIsLocal(page: RegistrationPage, entries: seq<Entry>)
    requires page.slot == Stored(entries)
    ensures page.GetStudentsFromGoogleSheets(GetFailed) == Success(entries)
  {
  }

  lemma AppendPair(a: Entry, b: Entry)
    ensures [a] + [b] == [a, b]
  {
  }
}
