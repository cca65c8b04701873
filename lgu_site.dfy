/** js/script.js: the LGU registration page. Unlike script.js it reads the
    stored list back into the session at start-up, posts the record as an
    `application/x-www-form-urlencoded` body, reports backend failures as
    `{success: false, error}`, and reads only from local storage. */
module LguSite {
  import opened Wrappers
  import opened Text
  import opened FormHelpers
  import opened Records
  import opened Storage
  import opened Remote
  import opened UriComponent

  /** The starting value of `totalMembers`. */
  const InitialMembers: int := 11

  /** `Math.max` on integers. */
  function Max(a: int, b: int): (m: int)
    ensures m >= a && m >= b && (m == a || m == b)
  {
    if a >= b then a else b
  }

  /** A slot value JavaScript treats as true in `if (savedData)`: the empty
      string and a missing item are false. */
  predicate Truthy(slot: Slot)
  {
    slot.Stored? || (slot.Garbage? && slot.text != [])
  }

  /** The page's global state: the session list `studentsDatabase`, the
      storage slot, the member counter and the submit button's `disabled`. */
  class RegistrationPage {
    var studentsDatabase: seq<Entry>
    var slot: Slot
    var totalMembers: int
    var submitDisabled: bool

    /** Once the session holds records, the slot holds exactly those. */
    predicate Valid()
      reads this
    {
      studentsDatabase != [] ==> slot == Stored(studentsDatabase)
    }

    /** Page load, before `initializeApp` runs. */
    constructor (stored: Slot)
      ensures slot == stored && studentsDatabase == [] && totalMembers == InitialMembers && !submitDisabled
      ensures Valid()
    {
      slot := stored;
      studentsDatabase := [];
      totalMembers := InitialMembers;
      submitDisabled := false;
    }

    /** The loading part of `initializeApp()`: a stored list becomes the
        session list and the counter rises to its length if that is larger;
        an empty or missing item, or one that does not parse, changes
        nothing. */
    method InitializeApp()
      requires Valid()
      modifies this
      ensures Valid()
      ensures slot == old(slot) && submitDisabled == old(submitDisabled)
      ensures old(slot).Stored? ==>
        studentsDatabase == old(slot).entries && totalMembers == Max(old(totalMembers), |old(slot).entries|)
      ensures !old(slot).Stored? ==>
        studentsDatabase == old(studentsDatabase) && totalMembers == old(totalMembers)
    {
      if Truthy(slot) {
        match ReadSlot(slot) {
          case Success(saved) =>
            studentsDatabase := saved;
            totalMembers := Max(totalMembers, |studentsDatabase|);
          case Failure(_) =>
        }
      }
    }

    /** `studentsDatabase.push(studentData)` followed by
        `localStorage.setItem('aimsStudents', JSON.stringify(studentsDatabase))`. */
    method SaveLocally(e: Entry)
      modifies this
      ensures studentsDatabase == old(studentsDatabase) + [e]
      ensures slot == Stored(studentsDatabase)
      ensures totalMembers == old(totalMembers) && submitDisabled == old(submitDisabled)
    {
      studentsDatabase := studentsDatabase + [e];
      slot := Stored(studentsDatabase);
    }

    /** `sendToGoogleSheets(studentData)`: posts the record's properties as a
        form body, then saves the record locally exactly once whatever the
        outcome. Returns the request body it sent along with the result. */
    method SendToGoogleSheets(record: StudentRecord, reply: PostReply) returns (result: SendResult, request: string)
      modifies this
      ensures request == FormBody(Fields(record))
      ensures ParseFormBody(request) == Some(Fields(record))
      ensures studentsDatabase == old(studentsDatabase) + [ToEntry(record)]
      ensures slot == Stored(studentsDatabase) && Valid()
      ensures totalMembers == old(totalMembers) && submitDisabled == old(submitDisabled)
      ensures reply.Parsed? ==> result == ServerResult(reply.body)
      ensures reply.MalformedBody? ==> result == Failed(InvalidJsonMessage)
      ensures reply.NetworkFailure? || reply.HttpError? ==> result == Failed(CaughtMessage(reply))
    {
      request := FormBody(Fields(record));
      FormBodyRoundTrip(Fields(record));
      match reply {
        case Parsed(body) =>
          SaveLocally(ToEntry(record));
          result := ServerResult(body);
        case MalformedBody(_) =>
          SaveLocally(ToEntry(record));
          result := Failed(InvalidJsonMessage);
        case _ =>
          SaveLocally(ToEntry(record));
          result := Failed(CaughtMessage(reply));
      }
    }

    /** `showLoading(show)`, reduced to the button's `disabled` flag. */
    method ShowLoading(show: bool)
      modifies this
      ensures submitDisabled == show
      ensures studentsDatabase == old(studentsDatabase) && slot == old(slot) && totalMembers == old(totalMembers)
    {
      submitDisabled := show;
    }

    /** `processRegistration()`: an invalid email is rejected before anything
        is saved or counted; otherwise the record is saved and the counter
        goes up by one even when the backend reported `success: false`. */
    method ProcessRegistration(form: FormInput, at: Moment, reply: PostReply) returns (outcome: Registration)
      requires Valid()
      modifies this
      ensures Valid() && !submitDisabled
      ensures BuildRecord(form, at, LguSource).Failure? ==>
        && outcome == Rejected(InvalidEmailMessage)
        && studentsDatabase == old(studentsDatabase) && slot == old(slot) && totalMembers == old(totalMembers)
      ensures BuildRecord(form, at, LguSource).Success? ==>
        && outcome.Registered?
        && studentsDatabase == old(studentsDatabase) + [ToEntry(BuildRecord(form, at, LguSource).value)]
        && slot == Stored(studentsDatabase)
        && totalMembers == old(totalMembers) + 1
    {
      ShowLoading(true);
      var built := BuildRecord(form, at, LguSource);
      if built.Failure? {
        outcome := Rejected(built.error);
      } else {
        var result, _ := SendToGoogleSheets(built.value, reply);
        totalMembers := totalMembers + 1;
        outcome := Registered(result);
      }
      ShowLoading(false);
    }

    /** The submit listener: `validateForm()` marks every required field and,
        only when none is blank, `processRegistration()` runs. */
    method Submit(requiredFields: seq<Field>, form: FormInput, at: Moment, reply: PostReply)
      returns (outcome: Option<Registration>)
      requires Valid()
      modifies this, set f | f in requiredFields
      ensures Valid()
      ensures forall k :: 0 <= k < |requiredFields| ==>
        requiredFields[k].value == old(requiredFields[k].value) && requiredFields[k].mark == MarkFor(requiredFields[k].value)
      ensures outcome.Some? <==> forall k :: 0 <= k < |requiredFields| ==> !Blank(requiredFields[k].value)
      ensures outcome.None? ==>
        && studentsDatabase == old(studentsDatabase) && slot == old(slot) && totalMembers == old(totalMembers)
        && submitDisabled == old(submitDisabled)
      ensures outcome.Some? ==> !submitDisabled
      ensures outcome.Some? && BuildRecord(form, at, LguSource).Failure? ==>
        && outcome.value == Rejected(InvalidEmailMessage)
        && studentsDatabase == old(studentsDatabase) && slot == old(slot) && totalMembers == old(totalMembers)
      ensures outcome.Some? && BuildRecord(form, at, LguSource).Success? ==>
        && outcome.value.Registered?
        && studentsDatabase == old(studentsDatabase) + [ToEntry(BuildRecord(form, at, LguSource).value)]
        && slot == Stored(studentsDatabase)
        && totalMembers == old(totalMembers) + 1
    {
      var isValid, _ := ValidateForm(requiredFields);
      if isValid {
        label validated:
        var registration := ProcessRegistration(form, at, reply);
        assert forall k :: 0 <= k < |requiredFields| ==>
          requiredFields[k].value == old@validated(requiredFields[k].value)
          && requiredFields[k].mark == old@validated(requiredFields[k].mark);
        outcome := Some(registration);
      } else {
        outcome := None;
      }
    }

    /** `AIMS_DEBUG.clearData()`: only after confirmation, forgets the slot
        and the session list and resets the counter. */
    method ClearData(confirmed: bool)
      modifies this
      ensures confirmed ==> slot == Absent && studentsDatabase == [] && totalMembers == InitialMembers
      ensures !confirmed ==>
        slot == old(slot) && studentsDatabase == old(studentsDatabase) && totalMembers == old(totalMembers)
      ensures submitDisabled == old(submitDisabled)
      ensures confirmed ==> Valid()
    {
      if confirmed {
        slot := Absent;
        studentsDatabase := [];
        totalMembers := InitialMembers;
      }
    }

    /** `getStudentCount()`: the length of the stored list, 0 when nothing
        is stored; an item that does not parse makes it throw. */
    function GetStudentCount(): (r: Result<nat, string>)
      reads this
      ensures r.Success? <==> ReadSlot(slot).Success?
      ensures r.Success? ==> r.value == |ReadSlot(slot).value|
      ensures r.Success? && slot.Stored? ==> r.value == |slot.entries|
      ensures r.Success? && !slot.Stored? ==> r.value == 0
    {
      match ReadSlot(slot)
      case Success(students) => Success(|students|)
      case Failure(e) => Failure(e)
    }

    /** `viewAllStudents()`: the stored list, `[]` when nothing is stored or
        the item does not parse. */
    function ViewAllStudents(): (students: seq<Entry>)
      reads this
      ensures slot.Stored? ==> students == slot.entries
      ensures !slot.Stored? ==> students == []
      ensures GetStudentCount().Success? ==> |students| == GetStudentCount().value
    {
      match ReadSlot(slot)
      case Success(saved) => saved
      case Failure(_) => []
    }
  }

  /** Earlier registrations survive a page load: starting from a stored list,
      `initializeApp` and one accepted registration leave the stored list
      extended by the new record, and the count grows by one. */
  method RegistrationAfterReload(prior: seq<Entry>, form: FormInput, at: Moment, reply: PostReply)
    returns (page: RegistrationPage)
    requires BuildRecord(form, at, LguSource).Success?
    ensures page.slot == Stored(prior + [ToEntry(BuildRecord(form, at, LguSource).value)])
    ensures page.GetStudentCount() == Success(|prior| + 1)
    ensures page.totalMembers == Max(InitialMembers, |prior|) + 1
  {
    page := new RegistrationPage(Stored(prior));
    page.InitializeApp();
    var _ := page.ProcessRegistration(form, at, reply);
  }

  /** After a confirmed `clearData` the count is 0 and the list is empty,
      and a new page loaded on the cleared storage starts from the initial counter. */
  method ClearThenReload(stored: Slot) returns (page: RegistrationPage)
    ensures page.GetStudentCount() == Success(0) && page.ViewAllStudents() == []
    ensures page.totalMembers == InitialMembers && page.studentsDatabase == []
  {
    var before := new RegistrationPage(stored);
    before.ClearData(true);
    page := new RegistrationPage(before.slot);
    page.InitializeApp();
  }
}
