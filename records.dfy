/** The Student document of the record API: the schema and the two ways a
    request body becomes a stored document (a new document, or a `$set`
    of the paths the body carries). */
module Records {

  datatype Option<T> = None | Some(value: T)

  /** The store-assigned identifier of a document (`_id`). */
  type Id = nat

  /** A stored Student document. The schema only declares the type of each
      path, so every path may be missing from a document. */
  datatype Student = Student(
    id: Id,
    name: Option<string>,
    rollNumber: Option<int>,
    className: Option<string>,
    marks: Option<int>,
    grade: Option<string>)

  /** The schema paths carried by a request body, already cast to their
      declared types; a path the body does not carry is `None`. */
  datatype Body = Body(
    name: Option<string>,
    rollNumber: Option<int>,
    className: Option<string>,
    marks: Option<int>,
    grade: Option<string>)

  const EmptyBody := Body(None, None, None, None, None)

  /** The schema paths of a stored document, without its id. */
  function Content(s: Student): Body {
    Body(s.name, s.rollNumber, s.className, s.marks, s.grade)
  }

  /** `new Student(body)`: a document holding exactly the body's paths. */
  function FromBody(id: Id, b: Body): (s: Student)
    ensures s.id == id && Content(s) == b
  {
    Student(id, b.name, b.rollNumber, b.className, b.marks, b.grade)
  }

  function Pick<T>(given: Option<T>, current: Option<T>): Option<T> {
    if given.Some? then given else current
  }

  /** The `$set` update `findByIdAndUpdate` applies: every path the body
      carries replaces the stored one, every other path is kept. */
  function Merge(s: Student, b: Body): (r: Student)
    ensures r.id == s.id
  {
    Student(s.id, Pick(b.name, s.name), Pick(b.rollNumber, s.rollNumber),
            Pick(b.className, s.className), Pick(b.marks, s.marks),
            Pick(b.grade, s.grade))
  }

  /** Path by path: a path the body carries takes the body's value, a path
      it does not carry keeps the stored value. */
  lemma MergePaths(s: Student, b: Body)
    ensures b.name.Some? ==> Merge(s, b).name == b.name
    ensures b.name.None? ==> Merge(s, b).name == s.name
    ensures b.rollNumber.Some? ==> Merge(s, b).rollNumber == b.rollNumber
    ensures b.rollNumber.None? ==> Merge(s, b).rollNumber == s.rollNumber
    ensures b.className.Some? ==> Merge(s, b).className == b.className
    ensures b.className.None? ==> Merge(s, b).className == s.className
    ensures b.marks.Some? ==> Merge(s, b).marks == b.marks
    ensures b.marks.None? ==> Merge(s, b).marks == s.marks
    ensures b.grade.Some? ==> Merge(s, b).grade == b.grade
    ensures b.grade.None? ==> Merge(s, b).grade == s.grade
  {
  }

  /** An update whose body carries nothing leaves the document as it was, and
      one whose body carries every path yields the body's content. */
  lemma MergeEmptyAndFull(s: Student, b: Body)
    ensures Merge(s, EmptyBody) == s
    ensures (b.name.Some? && b.rollNumber.Some? && b.className.Some? &&
             b.marks.Some? && b.grade.Some?) ==> Content(Merge(s, b)) == b
  {
  }

  /** Sending the same update twice has the effect of sending it once, and an
      update resending the document's own content changes nothing. */
  lemma MergeIdempotent(s: Student, b: Body)
    ensures Merge(Merge(s, b), b) == Merge(s, b)
    ensures Merge(s, Content(s)) == s
  {
  }
}
