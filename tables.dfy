/**
 * The rows of the PostgreSQL tables that the document routers read and
 * write (migrations 0002 and 0003). `doc_course_map` has no unique
 * constraint, so it is a list of rows in insertion order.
 */
module Tables {

  /** A row of `documents`, keyed by `doc_id` in the maps that hold it. */
  datatype DocumentRow = DocumentRow(source: string, title: string, path: string)

  /** A row of `doc_course_map`. */
  datatype DocCourseRow = DocCourseRow(docId: int, courseId: string, confidence: real, ruleText: string)

  /** `SELECT … FROM doc_course_map WHERE doc_id = %s`, in table order. */
  function RowsOfDoc(rows: seq<DocCourseRow>, docId: int): (r: seq<DocCourseRow>)
    ensures |r| <= |rows|
    ensures forall i :: 0 <= i < |r| ==> r[i].docId == docId && r[i] in rows
    ensures forall i :: 0 <= i < |rows| && rows[i].docId == docId ==> rows[i] in r
  {
    if rows == [] then []
    else
      var rest := RowsOfDoc(rows[..|rows| - 1], docId);
      var last := rows[|rows| - 1];
      assert rows == rows[..|rows| - 1] + [last];
      if last.docId == docId then rest + [last] else rest
  }

  /** Selecting from appended rows selects from each part. */
  lemma {:induction false} RowsOfDocAppend(a: seq<DocCourseRow>, b: seq<DocCourseRow>, docId: int)
    ensures RowsOfDoc(a + b, docId) == RowsOfDoc(a, docId) + RowsOfDoc(b, docId)
    decreases |b|
  {
    if b != [] {
      var n := |b| - 1;
      assert (a + b)[..|a + b| - 1] == a + b[..n];
      RowsOfDocAppend(a, b[..n], docId);
    } else {
      assert a + b == a;
    }
  }

  /** The course ids of a list of rows, in order. */
  function CourseIds(rows: seq<DocCourseRow>): (ids: seq<string>)
    ensures |ids| == |rows|
    ensures forall i :: 0 <= i < |rows| ==> ids[i] == rows[i].courseId
  {
    seq(|rows|, i requires 0 <= i < |rows| => rows[i].courseId)
  }

  /** A `(doc_id, course_id)` pair already has a row. */
  predicate HasPair(rows: seq<DocCourseRow>, docId: int, courseId: string) {
    exists i | 0 <= i < |rows| :: rows[i].docId == docId && rows[i].courseId == courseId
  }

  /** No `(doc_id, course_id)` pair occurs twice. */
  predicate PairsUnique(rows: seq<DocCourseRow>) {
    forall i, j :: 0 <= i < j < |rows| ==>
      rows[i].docId != rows[j].docId || rows[i].courseId != rows[j].courseId
  }
}
