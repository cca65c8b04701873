/** The admin queries of script.js over a list of stored student objects:
    `searchStudent` and `filterByDepartment`, both `Array.prototype.filter`
    with a case-insensitive substring test. */
module Queries {
  import opened Text
  import opened Records

  /** `Array.prototype.filter`: the entries `keep` accepts, in their order. */
  function Filter(entries: seq<Entry>, keep: Entry -> bool): (r: seq<Entry>)
    ensures |r| <= |entries|
    ensures forall e :: e in r <==> e in entries && keep(e)
  {
    if entries == [] then []
    else if keep(entries[0]) then [entries[0]] + Filter(entries[1..], keep)
    else Filter(entries[1..], keep)
  }

  /** Filtering keeps the relative order: it distributes over concatenation. */
  lemma {:induction false} FilterConcat(a: seq<Entry>, b: seq<Entry>, keep: Entry -> bool)
    ensures Filter(a + b, keep) == Filter(a, keep) + Filter(b, keep)
  {
    if a == [] {
      assert a + b == b;
    } else {
      assert (a + b)[0] == a[0];
      assert (a + b)[1..] == a[1..] + b;
      FilterConcat(a[1..], b, keep);
    }
  }

  /** Filtering twice with the same test changes nothing more. */
  lemma {:induction false} FilterIdempotent(entries: seq<Entry>, keep: Entry -> bool)
    ensures Filter(Filter(entries, keep), keep) == Filter(entries, keep)
  {
    if entries != [] {
      FilterIdempotent(entries[1..], keep);
      if keep(entries[0]) {
        var rest := Filter(entries[1..], keep);
        assert ([entries[0]] + rest)[0] == entries[0];
        assert ([entries[0]] + rest)[1..] == rest;
      }
    }
  }

  /** Two tests that agree on every entry select the same sub-list. */
  lemma {:induction false} FilterSameTest(entries: seq<Entry>, keep1: Entry -> bool, keep2: Entry -> bool)
    requires forall e :: e in entries ==> keep1(e) == keep2(e)
    ensures Filter(entries, keep1) == Filter(entries, keep2)
  {
    if entries != [] {
      assert entries[0] in entries;
      assert forall e :: e in entries[1..] ==> e in entries;
      FilterSameTest(entries[1..], keep1, keep2);
    }
  }

  /** `student.key?.toLowerCase().includes(term.toLowerCase())`: an entry
      without the property does not match. */
  predicate FieldIncludes(e: Entry, key: string, term: string)
  {
    key in e && Contains(ToLower(e[key]), ToLower(term))
  }

  predicate MatchesSearch(e: Entry, term: string)
  {
    FieldIncludes(e, "fullName", term) || FieldIncludes(e, "email", term) || FieldIncludes(e, "studentId", term)
  }

  /** `searchStudent(searchTerm)` applied to the loaded students. */
  function SearchStudent(students: seq<Entry>, searchTerm: string): (r: seq<Entry>)
    ensures forall e :: e in r <==> e in students && MatchesSearch(e, searchTerm)
    ensures forall e :: e in r ==> "fullName" in e || "email" in e || "studentId" in e
  {
    Filter(students, e => MatchesSearch(e, searchTerm))
  }

  /** `filterByDepartment(dept)` applied to the loaded students. */
  function FilterByDepartment(students: seq<Entry>, dept: string): (r: seq<Entry>)
    ensures forall e :: e in r <==> e in students && FieldIncludes(e, "department", dept)
  {
    Filter(students, e => FieldIncludes(e, "department", dept))
  }

  lemma ContainsItself(s: string)
    ensures Contains(s, s)
  {
    assert OccursAt(s, s, 0);
  }

  lemma ContainsEmpty(s: string)
    ensures Contains(s, [])
  {
    assert OccursAt(s, [], 0);
  }

  lemma ToLowerIdempotent(s: string)
    ensures ToLower(ToLower(s)) == ToLower(s)
  {
  }

  /** Upper or lower case in the search term makes no difference. */
  lemma SearchIgnoresTermCase(students: seq<Entry>, searchTerm: string)
    ensures SearchStudent(students, ToLower(searchTerm)) == SearchStudent(students, searchTerm)
  {
    ToLowerIdempotent(searchTerm);
    FilterSameTest(students, e => MatchesSearch(e, ToLower(searchTerm)), e => MatchesSearch(e, searchTerm));
  }

  /** An empty search term lists every student that has a name, an email or
      a student id, in order. */
  lemma SearchEmptyTerm(students: seq<Entry>)
    ensures SearchStudent(students, []) == Filter(students, e => "fullName" in e || "email" in e || "studentId" in e)
  {
    assert ToLower([]) == [];
    forall e: Entry, key: string | key in e
      ensures FieldIncludes(e, key, [])
    {
      ContainsEmpty(ToLower(e[key]));
    }
    FilterSameTest(students, e => MatchesSearch(e, []), e => "fullName" in e || "email" in e || "studentId" in e);
  }

  /** Search results from two lists are the results from each, in order. */
  lemma SearchConcat(a: seq<Entry>, b: seq<Entry>, searchTerm: string)
    ensures SearchStudent(a + b, searchTerm) == SearchStudent(a, searchTerm) + SearchStudent(b, searchTerm)
  {
    FilterConcat(a, b, e => MatchesSearch(e, searchTerm));
  }

  /** A stored registration is found by searching for its own email, its
      own name or its own student id, and by filtering on its department. */
  lemma RegisteredStudentIsFound(students: seq<Entry>, r: StudentRecord)
    requires ToEntry(r) in students
    ensures ToEntry(r) in SearchStudent(students, r.email)
    ensures ToEntry(r) in SearchStudent(students, r.fullName)
    ensures ToEntry(r) in SearchStudent(students, r.studentId)
    ensures ToEntry(r) in FilterByDepartment(students, r.department)
  {
    ContainsItself(ToLower(r.email));
    ContainsItself(ToLower(r.fullName));
    ContainsItself(ToLower(r.studentId));
    ContainsItself(ToLower(r.department));
    assert ToEntry(r)["email"] == r.email;
    assert ToEntry(r)["fullName"] == r.fullName;
    assert ToEntry(r)["studentId"] == r.studentId;
    assert ToEntry(r)["department"] == r.department;
  }
}
