/** The four `/students` route handlers. Each takes the collection it works
    on, the request's parameters, and `fault`: whether the collection call
    throws (the store is unreachable, or the id, a body path or the marks
    threshold does not cast to its schema type). Each returns the status
    code and JSON payload it sends. */
module Server {
  import opened Records
  import opened Store

  /** A `marks` query value: the text as sent, which decides whether the
      condition is applied, and the number the text casts to. */
  datatype MarksParam = MarksParam(text: string, value: int)

  /** The `grade` and `marks` query values; `None` when absent. */
  datatype Query = Query(grade: Option<string>, marks: Option<MarksParam>)

  datatype Payload =
    | Document(student: Student)
    | Documents(students: seq<Student>)
    | Message(message: string)
    | Error(error: string)

  datatype Response = Response(status: nat, payload: Payload)

  const CreateFailed := "Error creating student"
  const FetchFailed := "Error fetching students"
  const UpdateFailed := "Error updating student"
  const DeleteFailed := "Error deleting student"
  const NotFoundText := "Student not found"
  const DeletedText := "Student deleted successfully"

  /** JavaScript truthiness of a query string value: an absent value and the
      empty string are falsy, every other string is truthy, "0" and "false"
      included. */
  predicate Truthy(v: Option<string>)
    ensures v == None ==> !Truthy(v)
    ensures v == Some("") ==> !Truthy(v)
    ensures v.Some? && |v.value| > 0 ==> Truthy(v)
    ensures v == Some("0") || v == Some("false") ==> Truthy(v)
  {
    v.Some? && v.value != ""
  }

  predicate GradeApplies(q: Query) {
    Truthy(q.grade)
  }

  predicate MarksApplies(q: Query) {
    q.marks.Some? && Truthy(Some(q.marks.value.text))
  }

  /** The documents a list request asks for: the grade condition when a
      grade is given, the inclusive marks condition when marks are given,
      both when both are. */
  predicate Admits(q: Query, s: Student) {
    && (GradeApplies(q) ==> s.grade == q.grade)
    && (MarksApplies(q) ==> s.marks.Some? && s.marks.value >= q.marks.value.value)
  }

  /** The filter object, built key by key from the query. */
  method BuildFilter(q: Query) returns (f: Filter)
    ensures f.grade.Some? <==> GradeApplies(q)
    ensures f.minMarks.Some? <==> MarksApplies(q)
    ensures forall s :: Matches(f, s) <==> Admits(q, s)
  {
    f := NoFilter;
    if Truthy(q.grade) {
      f := f.(grade := q.grade);
    }
    if q.marks.Some? && Truthy(Some(q.marks.value.text)) {
      f := f.(minMarks := Some(q.marks.value.value));
    }
  }

  /** The marks text "0" is truthy, so it still applies a condition: a
      document without marks is not listed. */
  lemma ZeroThresholdApplies(q: Query, s: Student)
    requires q.marks == Some(MarksParam("0", 0))
    ensures MarksApplies(q)
    ensures Admits(q, s) ==> s.marks.Some? && s.marks.value >= 0
    ensures s.marks.None? ==> !Admits(q, s)
  {
  }

  /** The collection is as it was when the handler was called. */
  twostate predicate Kept(db: StudentStore)
    reads db
  {
    db.rows == old(db.rows) && db.nextId == old(db.nextId) && db.issued == old(db.issued)
  }

  /** POST /students. */
  method PostStudents(db: StudentStore, body: Body, fault: bool) returns (resp: Response)
    requires db.Valid()
    modifies db
    ensures db.Valid()
    ensures fault ==> resp == Response(500, Error(CreateFailed)) && Kept(db)
    ensures !fault ==>
              resp.status == 201 && resp.payload.Document? &&
              Content(resp.payload.student) == body &&
              resp.payload.student.id !in old(db.issued) &&
              db.rows == old(db.rows) + [resp.payload.student]
  {
    if fault {
      resp := Response(500, Error(CreateFailed));
      return;
    }
    var s := db.Save(body);
    resp := Response(201, Document(s));
  }

  /** GET /students. The handler has no `modifies` clause: listing never
      changes the collection. */
  method GetStudents(db: StudentStore, q: Query, fault: bool) returns (resp: Response)
    ensures fault ==> resp == Response(500, Error(FetchFailed))
    ensures !fault ==> resp.status == 200 && resp.payload.Documents?
    ensures !fault ==> IsSubseq(resp.payload.students, db.rows)
    ensures !fault ==> forall s :: multiset(resp.payload.students)[s] ==
                                   if Admits(q, s) then multiset(db.rows)[s] else 0
    ensures !fault ==> forall s :: s in resp.payload.students <==> s in db.rows && Admits(q, s)
    ensures !fault && !GradeApplies(q) && !MarksApplies(q) ==> resp.payload.students == db.rows
  {
    if fault {
      resp := Response(500, Error(FetchFailed));
      return;
    }
    var f := BuildFilter(q);
    var students := db.Find(f);
    forall s ensures multiset(students)[s] == if Admits(q, s) then multiset(db.rows)[s] else 0 {
      SelectCount(db.rows, f, s);
    }
    if !GradeApplies(q) && !MarksApplies(q) {
      assert f == NoFilter;
      SelectAll(db.rows);
    }
    resp := Response(200, Documents(students));
  }

  /** PUT /students/:id. */
  method PutStudent(db: StudentStore, id: Id, body: Body, fault: bool) returns (resp: Response)
    requires db.Valid()
    modifies db
    ensures db.Valid()
    ensures fault ==> resp == Response(500, Error(UpdateFailed)) && Kept(db)
    ensures !fault && id !in Ids(old(db.rows)) ==>
              resp == Response(404, Error(NotFoundText)) && Kept(db)
    ensures !fault && id in Ids(old(db.rows)) ==>
              && resp.status == 200 && resp.payload.Document?
              && resp.payload.student.id == id
              && (exists t :: t in old(db.rows) && t.id == id && resp.payload.student == Merge(t, body))
              && db.rows == Updated(old(db.rows), id, body)
              && resp.payload.student in db.rows
              && Ids(db.rows) == Ids(old(db.rows))
              && db.nextId == old(db.nextId) && db.issued == old(db.issued)
    ensures forall s :: s in old(db.rows) && s.id != id ==> s in db.rows
  {
    if fault {
      resp := Response(500, Error(UpdateFailed));
      return;
    }
    UpdatedSpec(db.rows, id, body);
    var student := db.FindByIdAndUpdate(id, body);
    if student.None? {
      resp := Response(404, Error(NotFoundText));
      return;
    }
    resp := Response(200, Document(student.value));
  }

  /** DELETE /students/:id. */
  method DeleteStudent(db: StudentStore, id: Id, fault: bool) returns (resp: Response)
    requires db.Valid()
    modifies db
    ensures db.Valid()
    ensures fault ==> resp == Response(500, Error(DeleteFailed)) && Kept(db)
    ensures !fault && id !in Ids(old(db.rows)) ==>
              resp == Response(404, Error(NotFoundText)) && Kept(db)
    ensures !fault && id in Ids(old(db.rows)) ==>
              && resp == Response(200, Message(DeletedText))
              && db.rows == Deleted(old(db.rows), id)
              && |db.rows| == |old(db.rows)| - 1
              && id !in Ids(db.rows)
              && db.nextId == old(db.nextId) && db.issued == old(db.issued)
    ensures !fault ==> forall s :: s in db.rows <==> s in old(db.rows) && s.id != id
  {
    if fault {
      resp := Response(500, Error(DeleteFailed));
      return;
    }
    DeletedSpec(db.rows, id);
    var student := db.FindByIdAndDelete(id);
    if student.None? {
      resp := Response(404, Error(NotFoundText));
      return;
    }
    resp := Response(200, Message(DeletedText));
  }

  /** Any answer with the shape the list handler promises (the admitted
      documents, in table order) is the one `find` gives for the filter the
      handler builds: on a table of unique ids the list is determined. */
  lemma ListingDetermined(rows: seq<Student>, q: Query, f: Filter, r: seq<Student>)
    requires UniqueIds(rows)
    requires forall s :: Matches(f, s) <==> Admits(q, s)
    requires IsSubseq(r, rows)
    requires forall s :: s in r <==> s in rows && Admits(q, s)
    ensures r == Select(rows, f)
  {
    forall s ensures s in r <==> s in Select(rows, f) {
      SelectMembers(rows, f, s);
    }
    SubseqDetermined(r, Select(rows, f), rows);
  }

  /** Deleting twice: after the first delete the id is no longer held, so
      the second finds nothing and leaves the table alone. */
  lemma DeleteTwice(rows: seq<Student>, id: Id)
    requires UniqueIds(rows)
    ensures id !in Ids(Deleted(rows, id))
    ensures Deleted(Deleted(rows, id), id) == Deleted(rows, id)
  {
    DeletedSpec(rows, id);
    DeletedSpec(Deleted(rows, id), id);
  }

  /** A created document is listed, once, by an unfiltered list. */
  lemma CreatedListedOnce(rows: seq<Student>, s: Student)
    requires s.id !in Ids(rows)
    ensures Select(rows + [s], NoFilter) == rows + [s]
    ensures multiset(Select(rows + [s], NoFilter))[s] == 1
  {
    SelectAll(rows + [s]);
    assert s !in rows;
  }

  /** The filter example: marks 10, 20, 30 with grades "A", "B", "A". */
  lemma FilterExample(a: Student, b: Student, c: Student)
    requires a.marks == Some(10) && b.marks == Some(20) && c.marks == Some(30)
    requires a.grade == Some("A") && b.grade == Some("B") && c.grade == Some("A")
    ensures Select([a, b, c], Filter(Some("A"), None)) == [a, c]
    ensures Select([a, b, c], Filter(None, Some(20))) == [b, c]
    ensures Select([a, b, c], Filter(Some("A"), Some(20))) == [c]
  {
    assert [a, b, c][1..] == [b, c];
    assert [b, c][1..] == [c];
    assert [c][1..] == [];
    var g, m, both := Filter(Some("A"), None), Filter(None, Some(20)), Filter(Some("A"), Some(20));
    assert Select([c], g) == [c] && Select([c], m) == [c] && Select([c], both) == [c];
    assert Select([b, c], g) == [c] && Select([b, c], m) == [b, c] && Select([b, c], both) == [c];
  }

  /** Create, update the marks, delete, look up: the update keeps the roll
      number and id, and after the delete the id is not found. */
  lemma ScenarioAlice(id: Id)
    ensures
      var alice := FromBody(id, Body(Some("Alice"), Some(1), Some("10A"), Some(85), Some("A")));
      var updated := Updated([alice], id, Body(None, None, None, Some(90), None));
      && updated == [alice.(marks := Some(90))]
      && updated[0].rollNumber == Some(1) && updated[0].id == id
      && Position(Deleted(updated, id), id).None?
  {
  }
}
