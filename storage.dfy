/** The browser's `localStorage` slot under the key `aimsStudents`, seen as
    the value the scripts read back from it. */
module Storage {
  import opened Wrappers
  import opened Records

  /** What `localStorage.getItem('aimsStudents')` finds: nothing, the JSON
      array written by `JSON.stringify(studentsDatabase)`, or text that is
      not such an array. */
  datatype Slot = Absent | Stored(entries: seq<Entry>) | Garbage(text: string)

  /** `localData ? JSON.parse(localData) : []`: the empty string is falsy and
      reads as no data; any other text that is not a JSON array makes
      `JSON.parse` throw, and the error carries that text. */
  function ReadSlot(slot: Slot): (r: Result<seq<Entry>, string>)
    ensures r.Failure? <==> slot.Garbage? && slot.text != []
    ensures r.Failure? ==> r.error == slot.text
    ensures r.Success? && slot.Stored? ==> r.value == slot.entries
    ensures r.Success? && !slot.Stored? ==> r.value == []
  {
    match slot
    case Absent => Success([])
    case Stored(entries) => Success(entries)
    case Garbage(text) => if text == [] then Success([]) else Failure(text)
  }
}
