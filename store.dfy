/** The Student collection as an in-memory table: the documents in insertion
    order and the counter that hands out fresh ids. The pure part says what
    a query selects and where a document sits; the class `StudentStore`
    holds the table and changes it in place. */
module Store {
  import opened Records

  /** The filter object the list handler hands to `find`: an optional exact
      grade and an optional inclusive lower bound (`$gte`) on marks. */
  datatype Filter = Filter(grade: Option<string>, minMarks: Option<int>)

  const NoFilter := Filter(None, None)

  /** Whether a document satisfies every condition of the filter, as the
      store evaluates `{ grade: g, marks: { $gte: m } }`: the conditions are
      conjoined, a grade is compared for exact string equality, the marks
      bound is inclusive, and a document missing the path a condition is
      about does not satisfy it. */
  predicate Matches(f: Filter, s: Student)
    ensures f == NoFilter ==> Matches(f, s)
    ensures Matches(f, s) && f.grade.Some? ==> s.grade.Some? && s.grade.value == f.grade.value
    ensures Matches(f, s) && f.minMarks.Some? ==> s.marks.Some? && f.minMarks.value <= s.marks.value
    ensures f.grade.Some? && s.grade.None? ==> !Matches(f, s)
    ensures f.minMarks.Some? && s.marks.None? ==> !Matches(f, s)
    ensures f.grade.None? && f.minMarks.Some? && s.marks.Some? && s.marks.value == f.minMarks.value ==> Matches(f, s)
    ensures f.grade.Some? && f.minMarks.None? && s.grade == f.grade ==> Matches(f, s)
  {
    && (f.grade.Some? ==> s.grade == f.grade)
    && (f.minMarks.Some? ==> s.marks.Some? && s.marks.value >= f.minMarks.value)
  }

  /** `r` is `rows` with some documents dropped, the rest in their order. */
  ghost predicate IsSubseq(r: seq<Student>, rows: seq<Student>)
    decreases |rows|
  {
    if r == [] then true
    else if rows == [] then false
    else (r[0] == rows[0] && IsSubseq(r[1..], rows[1..])) || IsSubseq(r, rows[1..])
  }

  /** What `find(filter)` returns: the matching documents, in table order. */
  function Select(rows: seq<Student>, f: Filter): (r: seq<Student>)
    ensures |r| <= |rows|
    ensures IsSubseq(r, rows)
    ensures forall i :: 0 <= i < |r| ==> Matches(f, r[i])
  {
    if rows == [] then []
    else if Matches(f, rows[0]) then [rows[0]] + Select(rows[1..], f)
    else Select(rows[1..], f)
  }

  function Ids(rows: seq<Student>): set<Id> {
    set s | s in rows :: s.id
  }

  /** No two documents of the table share an id. */
  ghost predicate UniqueIds(rows: seq<Student>) {
    forall i, j :: 0 <= i < j < |rows| ==> rows[i].id != rows[j].id
  }

  /** Where the document with the given id sits (`findById`). */
  function Position(rows: seq<Student>, id: Id): (p: Option<nat>)
    ensures p.Some? ==> p.value < |rows| && rows[p.value].id == id
    ensures p.None? <==> id !in Ids(rows)
  {
    if rows == [] then None
    else if rows[0].id == id then Some(0)
    else match Position(rows[1..], id)
      case None => None
      case Some(k) => Some(k + 1)
  }

  /** The table after `findByIdAndUpdate(id, body)`: same size, the
      addressed document merged in its place, every document with another id
      where it was, and no change at all for an id the table does not hold. */
  function Updated(rows: seq<Student>, id: Id, b: Body): (r: seq<Student>)
    ensures |r| == |rows|
    ensures forall j :: 0 <= j < |rows| && rows[j].id != id ==> r[j] == rows[j]
    ensures Position(rows, id).Some? ==>
              r[Position(rows, id).value] == Merge(rows[Position(rows, id).value], b)
    ensures id !in Ids(rows) ==> r == rows
  {
    match Position(rows, id)
    case None => rows
    case Some(i) => rows[i := Merge(rows[i], b)]
  }

  /** The table after `findByIdAndDelete(id)`: one document fewer when the
      id is held, every document with another id kept, nothing new, and no
      change at all for an id the table does not hold. */
  function Deleted(rows: seq<Student>, id: Id): (r: seq<Student>)
    ensures id in Ids(rows) ==> |r| == |rows| - 1
    ensures id !in Ids(rows) ==> r == rows
    ensures forall s :: s in rows && s.id != id ==> s in r
    ensures forall s :: s in r ==> s in rows
  {
    match Position(rows, id)
    case None => rows
    case Some(i) =>
      var r := rows[..i] + rows[i + 1..];
      assert forall j :: 0 <= j < i ==> r[j] == rows[j];
      assert forall j :: i <= j < |r| ==> r[j] == rows[j + 1];
      assert forall j :: 0 <= j < |rows| && j != i ==> rows[j] in r by {
        forall j | 0 <= j < |rows| && j != i ensures rows[j] in r {
          if j < i { assert r[j] == rows[j]; } else { assert r[j - 1] == rows[j]; }
        }
      }
      r
  }

  /** On a table of unique ids, updating keeps the set of ids and their
      uniqueness, and the documents with other ids are exactly the same
      before and after. */
  lemma UpdatedSpec(rows: seq<Student>, id: Id, b: Body)
    requires UniqueIds(rows)
    ensures UniqueIds(Updated(rows, id, b))
    ensures Ids(Updated(rows, id, b)) == Ids(rows)
    ensures |Updated(rows, id, b)| == |rows|
    ensures forall s :: s in rows && s.id != id ==> s in Updated(rows, id, b)
    ensures forall s :: s in Updated(rows, id, b) && s.id != id ==> s in rows
    ensures id !in Ids(rows) ==> Updated(rows, id, b) == rows
  {
    var u := Updated(rows, id, b);
    match Position(rows, id)
    case None =>
    case Some(i) =>
      assert forall j :: 0 <= j < |rows| ==> u[j].id == rows[j].id;
      forall x | x in Ids(u) ensures x in Ids(rows) {
        var s :| s in u && s.id == x;
        var j :| 0 <= j < |u| && u[j] == s;
        assert rows[j] in rows;
      }
      forall x | x in Ids(rows) ensures x in Ids(u) {
        var s :| s in rows && s.id == x;
        var j :| 0 <= j < |rows| && rows[j] == s;
        assert u[j] in u;
      }
      forall s | s in rows && s.id != id ensures s in u {
        var j :| 0 <= j < |rows| && rows[j] == s;
        assert u[j] == s;
      }
  }

  /** Deleting an id held by the table removes exactly that document: the
      others stay, in their order, and the id is gone. An id not held
      leaves the table as it was. */
  lemma DeletedSpec(rows: seq<Student>, id: Id)
    requires UniqueIds(rows)
    ensures UniqueIds(Deleted(rows, id))
    ensures Ids(Deleted(rows, id)) == Ids(rows) - {id}
    ensures forall s :: s in Deleted(rows, id) <==> s in rows && s.id != id
    ensures IsSubseq(Deleted(rows, id), rows)
    ensures id in Ids(rows) ==> |Deleted(rows, id)| == |rows| - 1
    ensures id !in Ids(rows) ==> Deleted(rows, id) == rows
  {
    match Position(rows, id)
    case None =>
      SubseqRefl(rows);
    case Some(i) =>
      DropAt(rows, i);
  }

  /** Dropping the document at place `i` of a table of unique ids. */
  lemma DropAt(rows: seq<Student>, i: nat)
    requires UniqueIds(rows) && i < |rows|
    ensures UniqueIds(rows[..i] + rows[i + 1..])
    ensures Ids(rows[..i] + rows[i + 1..]) == Ids(rows) - {rows[i].id}
    ensures forall s :: s in rows[..i] + rows[i + 1..] <==> s in rows && s.id != rows[i].id
    ensures IsSubseq(rows[..i] + rows[i + 1..], rows)
  {
    var d := rows[..i] + rows[i + 1..];
    DropMembers(rows, i);
    DropUnique(rows, i);
    forall x | x in Ids(rows) - {rows[i].id} ensures x in Ids(d) {
      var s :| s in rows && s.id == x;
      assert s in d;
    }
    SubseqDrop(rows, i);
  }

  /** After dropping place `i`, the documents left are those with another id. */
  lemma DropMembers(rows: seq<Student>, i: nat)
    requires UniqueIds(rows) && i < |rows|
    ensures forall s :: s in rows[..i] + rows[i + 1..] <==> s in rows && s.id != rows[i].id
  {
    var d := rows[..i] + rows[i + 1..];
    var id := rows[i].id;
    forall s | s in d ensures s in rows && s.id != id {
      var j :| 0 <= j < |d| && d[j] == s;
      if j < i { assert rows[j] == s; } else { assert rows[j + 1] == s; }
    }
    forall s | s in rows && s.id != id ensures s in d {
      var j :| 0 <= j < |rows| && rows[j] == s;
      if j < i { assert d[j] == s; } else { assert j != i; assert d[j - 1] == s; }
    }
  }

  /** Dropping a place keeps the ids unique. */
  lemma DropUnique(rows: seq<Student>, i: nat)
    requires UniqueIds(rows) && i < |rows|
    ensures UniqueIds(rows[..i] + rows[i + 1..])
  {
    var d := rows[..i] + rows[i + 1..];
    forall j, k | 0 <= j < k < |d| ensures d[j].id != d[k].id {
      var j' := if j < i then j else j + 1;
      var k' := if k < i then k else k + 1;
      assert d[j] == rows[j'] && d[k] == rows[k'];
    }
  }

  lemma {:induction false} SubseqRefl(rows: seq<Student>)
    ensures IsSubseq(rows, rows)
    decreases |rows|
  {
    if rows != [] {
      SubseqRefl(rows[1..]);
    }
  }

  /** Dropping the document at one place leaves a subsequence. */
  lemma {:induction false} SubseqDrop(rows: seq<Student>, i: nat)
    requires i < |rows|
    ensures IsSubseq(rows[..i] + rows[i + 1..], rows)
    decreases i
  {
    var d := rows[..i] + rows[i + 1..];
    if i == 0 {
      assert d == rows[1..];
      SubseqRefl(rows[1..]);
    } else {
      SubseqDrop(rows[1..], i - 1);
      assert d[0] == rows[0];
      assert d[1..] == rows[1..][..i - 1] + rows[1..][i..];
    }
  }

  /** A document of a subsequence is a document of the table. */
  lemma {:induction false} SubseqMembers(r: seq<Student>, rows: seq<Student>, s: Student)
    requires IsSubseq(r, rows) && s in r
    ensures s in rows
    decreases |rows|
  {
    if r[0] == rows[0] && IsSubseq(r[1..], rows[1..]) {
      if s != r[0] {
        SubseqMembers(r[1..], rows[1..], s);
      }
    } else {
      SubseqMembers(r, rows[1..], s);
    }
  }

  /** The list answer has each matching document exactly as often as the
      table has it, and no other document. */
  lemma {:induction false} SelectCount(rows: seq<Student>, f: Filter, s: Student)
    ensures multiset(Select(rows, f))[s] == if Matches(f, s) then multiset(rows)[s] else 0
    decreases |rows|
  {
    if rows != [] {
      SelectCount(rows[1..], f, s);
      assert rows == [rows[0]] + rows[1..];
    }
  }

  /** A document is listed iff the table holds it and it matches. */
  lemma SelectMembers(rows: seq<Student>, f: Filter, s: Student)
    ensures s in Select(rows, f) <==> s in rows && Matches(f, s)
  {
    SelectCount(rows, f, s);
  }

  /** With no condition, the list is the whole table, in order. */
  lemma {:induction false} SelectAll(rows: seq<Student>)
    ensures Select(rows, NoFilter) == rows
    decreases |rows|
  {
    if rows != [] {
      SelectAll(rows[1..]);
      assert rows == [rows[0]] + rows[1..];
    }
  }

  /** A grade condition is case-sensitive string equality: exactly the
      documents whose grade is that string. */
  lemma SelectGrade(rows: seq<Student>, g: string, s: Student)
    ensures s in Select(rows, Filter(Some(g), None)) <==> s in rows && s.grade == Some(g)
  {
    SelectMembers(rows, Filter(Some(g), None), s);
  }

  /** A marks condition is inclusive: exactly the documents with marks at
      least the threshold; a document without marks is never listed. */
  lemma SelectMinMarks(rows: seq<Student>, m: int, s: Student)
    ensures s in Select(rows, Filter(None, Some(m))) <==>
            s in rows && s.marks.Some? && s.marks.value >= m
  {
    SelectMembers(rows, Filter(None, Some(m)), s);
  }

  /** Both conditions together select what the grade condition selects,
      narrowed by the marks condition: their conjunction, in table order. */
  lemma {:induction false} SelectBoth(rows: seq<Student>, g: string, m: int)
    ensures Select(rows, Filter(Some(g), Some(m))) ==
            Select(Select(rows, Filter(Some(g), None)), Filter(None, Some(m)))
    decreases |rows|
  {
    if rows != [] {
      SelectBoth(rows[1..], g, m);
      assert rows == [rows[0]] + rows[1..];
    }
  }

  /** Two subsequences of a table of unique ids that hold the same
      documents are the same sequence: membership and table order fix
      the list answer. */
  lemma {:induction false} SubseqDetermined(r1: seq<Student>, r2: seq<Student>, rows: seq<Student>)
    requires UniqueIds(rows)
    requires IsSubseq(r1, rows) && IsSubseq(r2, rows)
    requires forall s :: s in r1 <==> s in r2
    ensures r1 == r2
    decreases |rows|
  {
    EmptyTogether(r1, r2);
    if r1 == [] || r2 == [] {
    } else {
      var x := rows[0];
      assert UniqueIds(rows[1..]) by {
        forall i, j | 0 <= i < j < |rows[1..]| ensures rows[1..][i].id != rows[1..][j].id {
          assert rows[1..][i] == rows[i + 1] && rows[1..][j] == rows[j + 1];
        }
      }
      assert x !in rows[1..] by {
        forall j | 0 <= j < |rows[1..]| ensures rows[1..][j] != x {
          assert rows[1..][j] == rows[j + 1];
        }
      }
      HeadOrRest(r1, rows);
      HeadOrRest(r2, rows);
      if x in r1 {
        assert r1[0] == x && r2[0] == x;
        TailMembers(r1, rows);
        TailMembers(r2, rows);
        forall s ensures s in r1[1..] <==> s in r2[1..] {
          assert s in r1[1..] <==> s in r1 && s != x;
          assert s in r2[1..] <==> s in r2 && s != x;
        }
        SubseqDetermined(r1[1..], r2[1..], rows[1..]);
        assert r1 == [x] + r1[1..] && r2 == [x] + r2[1..];
      } else {
        SubseqDetermined(r1, r2, rows[1..]);
      }
    }
  }

  /** Two sequences holding the same documents are empty together. */
  lemma EmptyTogether(r1: seq<Student>, r2: seq<Student>)
    requires forall s :: s in r1 <==> s in r2
    ensures r1 == [] <==> r2 == []
  {
    if r1 != [] { assert r1[0] in r2; }
    if r2 != [] { assert r2[0] in r1; }
  }

  /** A non-empty subsequence either starts with the table's first document
      and continues in the rest, or lies wholly in the rest; if the first
      document of the table occurs in it at all, it comes first. */
  lemma HeadOrRest(r: seq<Student>, rows: seq<Student>)
    requires IsSubseq(r, rows) && r != []
    requires rows[0] !in rows[1..]
    ensures (r[0] == rows[0] && IsSubseq(r[1..], rows[1..])) || (rows[0] !in r && IsSubseq(r, rows[1..]))
  {
    if !(r[0] == rows[0] && IsSubseq(r[1..], rows[1..])) {
      assert IsSubseq(r, rows[1..]);
      if rows[0] in r {
        SubseqMembers(r, rows[1..], rows[0]);
      }
    }
  }

  /** When a subsequence starts with the table's first document, its tail
      lies in the rest and no longer holds that document. */
  lemma TailMembers(r: seq<Student>, rows: seq<Student>)
    requires r != [] && rows != [] && r[0] == rows[0] && IsSubseq(r[1..], rows[1..])
    requires rows[0] !in rows[1..]
    ensures forall s :: s in r[1..] <==> s in r && s != rows[0]
  {
    forall s | s in r[1..] ensures s != rows[0] {
      SubseqMembers(r[1..], rows[1..], s);
    }
    assert r == [r[0]] + r[1..];
  }

  /** The Student collection: its documents in insertion order and the next
      id to hand out. `issued` holds every id ever handed out; all of them
      are below the counter, so an id handed out later was never held
      before, even by a document since deleted. */
  class StudentStore {
    var rows: seq<Student>
    var nextId: Id
    ghost var issued: set<Id>

    ghost predicate Valid()
      reads this
    {
      && UniqueIds(rows)
      && Ids(rows) <= issued
      && (forall x :: x in issued ==> x < nextId)
    }

    constructor ()
      ensures Valid() && rows == [] && nextId == 0 && issued == {}
    {
      rows := [];
      nextId := 0;
      issued := {};
    }

    /** `new Student(body).save()`: appends a document holding the body's
        paths under an id never handed out before. */
    method Save(b: Body) returns (s: Student)
      requires Valid()
      modifies this
      ensures Valid()
      ensures Content(s) == b
      ensures s.id !in old(issued) && s.id !in Ids(old(rows))
      ensures rows == old(rows) + [s]
      ensures issued == old(issued) + {s.id} && nextId == old(nextId) + 1
    {
      s := FromBody(nextId, b);
      assert forall i :: 0 <= i < |rows| ==> rows[i].id in Ids(rows);
      rows := rows + [s];
      issued := issued + {s.id};
      nextId := nextId + 1;
    }

    /** `find(filter)`: the matching documents in table order; the table is
        left alone. */
    method Find(f: Filter) returns (r: seq<Student>)
      ensures r == Select(rows, f)
    {
      r := Select(rows, f);
    }

    /** `findByIdAndUpdate(id, body, { new: true })`: the updated document,
        or `None` when no document has the id. */
    method FindByIdAndUpdate(id: Id, b: Body) returns (r: Option<Student>)
      requires Valid()
      modifies this
      ensures Valid()
      ensures rows == Updated(old(rows), id, b)
      ensures nextId == old(nextId) && issued == old(issued)
      ensures id !in Ids(old(rows)) ==> r == None
      ensures id in Ids(old(rows)) ==>
                r.Some? && r.value.id == id && r.value in rows &&
                (exists t :: t in old(rows) && t.id == id && r.value == Merge(t, b))
    {
      match Position(rows, id) {
        case None =>
          r := None;
        case Some(i) =>
          var t := rows[i];
          rows := rows[i := Merge(t, b)];
          r := Some(rows[i]);
          assert t in old(rows);
      }
      UpdatedSpec(old(rows), id, b);
    }

    /** `findByIdAndDelete(id)`: the removed document, or `None` when no
        document has the id. */
    method FindByIdAndDelete(id: Id) returns (r: Option<Student>)
      requires Valid()
      modifies this
      ensures Valid()
      ensures rows == Deleted(old(rows), id)
      ensures nextId == old(nextId) && issued == old(issued)
      ensures id !in Ids(old(rows)) ==> r == None
      ensures id in Ids(old(rows)) ==> r.Some? && r.value.id == id && r.value in old(rows)
    {
      match Position(rows, id) {
        case None =>
          r := None;
        case Some(i) =>
          r := Some(rows[i]);
          rows := rows[..i] + rows[i + 1..];
      }
      DeletedSpec(old(rows), id);
    }
  }
}
