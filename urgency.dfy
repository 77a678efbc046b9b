/**
 * update_urgency.py: the five-level due-date classifier and the batch job
 * that re-labels every non-completed assignment. Dates are day numbers and
 * "today" is a parameter; the database is the list of rows the job selects.
 */
module Urgency {
  import opened Wrappers

  datatype Level = Overdue | Urgent | Soon | Normal | NoDue

  /** The text stored in `assignments.urgency_level`. */
  function LevelName(l: Level): string {
    match l
    case Overdue => "overdue"
    case Urgent => "urgent"
    case Soon => "soon"
    case Normal => "normal"
    case NoDue => "none"
  }

  /** `calculate_urgency_level`: levels by the number of days until the due date. */
  function Classify(due: Option<int>, today: int): Level {
    if due.None? then NoDue
    else
      var daysDiff := due.value - today;
      if daysDiff < 0 then Overdue
      else if daysDiff <= 7 then Urgent
      else if daysDiff <= 30 then Soon
      else Normal
  }

  /** Each level covers exactly one range of days until due. */
  lemma ClassifyRanges(due: Option<int>, today: int)
    ensures Classify(due, today) == NoDue <==> due.None?
    ensures Classify(due, today) == Overdue <==> due.Some? && due.value - today < 0
    ensures Classify(due, today) == Urgent <==> due.Some? && 0 <= due.value - today <= 7
    ensures Classify(due, today) == Soon <==> due.Some? && 8 <= due.value - today <= 30
    ensures Classify(due, today) == Normal <==> due.Some? && due.value - today > 30
  {
  }

  /** How pressing a level is; a due date always outranks no due date. */
  function Pressure(l: Level): nat {
    match l
    case Overdue => 4
    case Urgent => 3
    case Soon => 2
    case Normal => 1
    case NoDue => 0
  }

  /** A later due date is never more urgent than an earlier one. */
  lemma ClassifyMonotone(d1: int, d2: int, today: int)
    requires d1 <= d2
    ensures Pressure(Classify(Some(d2), today)) <= Pressure(Classify(Some(d1), today))
  {
  }

  /** The expected outputs listed by the project's own check script. */
  lemma ClassifyExamples(today: int)
    ensures Classify(Some(today - 5), today) == Overdue
    ensures Classify(Some(today + 3), today) == Urgent
    ensures Classify(Some(today + 15), today) == Soon
    ensures Classify(Some(today + 60), today) == Normal
    ensures Classify(None, today) == NoDue
  {
  }

  /** A row of `assignments` as the job sees it. */
  datatype Row = Row(id: int, status: string, due: Option<int>, urgency: Option<string>)

  /** The per-level tallies of the job. */
  datatype Counts = Counts(overdue: nat, urgent: nat, soon: nat, normal: nat, none: nat)

  function TotalOf(c: Counts): nat {
    c.overdue + c.urgent + c.soon + c.normal + c.none
  }

  function Bump(c: Counts, l: Level): Counts {
    match l
    case Overdue => c.(overdue := c.overdue + 1)
    case Urgent => c.(urgent := c.urgent + 1)
    case Soon => c.(soon := c.soon + 1)
    case Normal => c.(normal := c.normal + 1)
    case NoDue => c.(none := c.none + 1)
  }

  /** `WHERE status != 'completed'`. */
  function Pending(table: seq<Row>): seq<Row> {
    if table == [] then []
    else
      var rest := Pending(table[..|table| - 1]);
      var last := table[|table| - 1];
      if last.status != "completed" then rest + [last] else rest
  }

  /** The job selects exactly the rows that are not completed. */
  lemma {:induction false} PendingRows(table: seq<Row>)
    ensures forall i :: 0 <= i < |Pending(table)| ==> Pending(table)[i].status != "completed" && Pending(table)[i] in table
    ensures forall i :: 0 <= i < |table| && table[i].status != "completed" ==> table[i] in Pending(table)
  {
    if table != [] {
      var n := |table| - 1;
      PendingRows(table[..n]);
      assert table == table[..n] + [table[n]];
      forall i | 0 <= i < |table| && table[i].status != "completed" ensures table[i] in Pending(table) {
        if i < n { assert table[..n][i] == table[i]; }
      }
    }
  }

  /** The tallies after classifying `rows` in order. */
  function CountsOf(rows: seq<Row>, today: int): Counts {
    if rows == [] then Counts(0, 0, 0, 0, 0)
    else Bump(CountsOf(rows[..|rows| - 1], today), Classify(rows[|rows| - 1].due, today))
  }

  predicate Stale(r: Row, today: int) {
    r.urgency != Some(LevelName(Classify(r.due, today)))
  }

  /** One UPDATE statement: the row id and the new level text. */
  datatype Update = Update(id: int, level: string)

  /** The UPDATE statements issued for `rows`, in order. */
  function UpdatesFor(rows: seq<Row>, today: int): seq<Update> {
    if rows == [] then []
    else
      var r := rows[|rows| - 1];
      UpdatesFor(rows[..|rows| - 1], today)
        + (if Stale(r, today) then [Update(r.id, LevelName(Classify(r.due, today)))] else [])
  }

  /** A row as it stands after the job. */
  function Relabel(r: Row, today: int): Row {
    if Stale(r, today) then r.(urgency := Some(LevelName(Classify(r.due, today)))) else r
  }

  function RelabelAll(rows: seq<Row>, today: int): (out: seq<Row>)
    ensures |out| == |rows|
  {
    seq(|rows|, i requires 0 <= i < |rows| => Relabel(rows[i], today))
  }

  /**
   * `update_urgency_levels`: classifies every non-completed row, tallies the
   * levels, and rewrites a row only when its stored level differs.
   * `updated` is `updated_count`; `after` is the selected rows once the
   * UPDATEs are applied.
   */
  method UpdateUrgencyLevels(table: seq<Row>, today: int)
    returns (counts: Counts, updated: nat, updates: seq<Update>, after: seq<Row>)
    ensures counts == CountsOf(Pending(table), today)
    ensures updates == UpdatesFor(Pending(table), today) && updated == |updates|
    ensures after == RelabelAll(Pending(table), today)
  {
    var rows := Pending(table);
    counts := Counts(0, 0, 0, 0, 0);
    updated := 0;
    updates := [];
    after := [];
    var i := 0;
    while i < |rows|
      invariant 0 <= i <= |rows|
      invariant counts == CountsOf(rows[..i], today)
      invariant updates == UpdatesFor(rows[..i], today) && updated == |updates|
      invariant after == RelabelAll(rows[..i], today)
    {
      var row := rows[i];
      JobStep(rows, i, today);
      var newUrgency := Classify(row.due, today);
      counts := Bump(counts, newUrgency);
      if row.urgency != Some(LevelName(newUrgency)) {
        updates := updates + [Update(row.id, LevelName(newUrgency))];
        updated := updated + 1;
        after := after + [row.(urgency := Some(LevelName(newUrgency)))];
      } else {
        after := after + [row];
      }
      i := i + 1;
    }
    assert rows[..i] == rows;
  }

  /** Processing one more row extends the tallies, the UPDATEs and the relabelled rows by that row. */
  lemma JobStep(rows: seq<Row>, i: nat, today: int)
    requires i < |rows|
    ensures CountsOf(rows[..i + 1], today) == Bump(CountsOf(rows[..i], today), Classify(rows[i].due, today))
    ensures UpdatesFor(rows[..i + 1], today) == UpdatesFor(rows[..i], today)
      + (if Stale(rows[i], today) then [Update(rows[i].id, LevelName(Classify(rows[i].due, today)))] else [])
    ensures RelabelAll(rows[..i + 1], today) == RelabelAll(rows[..i], today) + [Relabel(rows[i], today)]
  {
    assert rows[..i + 1][..i] == rows[..i];
  }

  /** The five tallies add up to the number of rows processed. */
  lemma {:induction false} CountsSumToRows(rows: seq<Row>, today: int)
    ensures TotalOf(CountsOf(rows, today)) == |rows|
  {
    if rows != [] {
      CountsSumToRows(rows[..|rows| - 1], today);
    }
  }

  /** The indices of the stale rows. */
  function StaleIndices(rows: seq<Row>, today: int): set<nat> {
    set i: nat | i < |rows| && Stale(rows[i], today)
  }

  lemma StaleIndicesStep(rows: seq<Row>, today: int)
    requires rows != []
    ensures StaleIndices(rows, today)
      == StaleIndices(rows[..|rows| - 1], today) + if Stale(rows[|rows| - 1], today) then {|rows| - 1} else {}
  {
    var n := |rows| - 1;
    forall i: nat | i < n ensures rows[..n][i] == rows[i] {}
  }

  /** One UPDATE is issued per stale row. */
  lemma {:induction false} UpdatesCountStaleRows(rows: seq<Row>, today: int)
    ensures |UpdatesFor(rows, today)| == |StaleIndices(rows, today)|
  {
    if rows != [] {
      var n := |rows| - 1;
      UpdatesCountStaleRows(rows[..n], today);
      StaleIndicesStep(rows, today);
      assert n !in StaleIndices(rows[..n], today);
    }
  }

  /** Every UPDATE rewrites a stale row to its computed level. */
  lemma {:induction false} UpdatesComeFromStaleRows(rows: seq<Row>, today: int)
    ensures forall u :: u in UpdatesFor(rows, today) ==>
      exists i :: 0 <= i < |rows| && rows[i].id == u.id && Stale(rows[i], today)
                  && u.level == LevelName(Classify(rows[i].due, today))
  {
    if rows != [] {
      var n := |rows| - 1;
      var pre := rows[..n];
      UpdatesComeFromStaleRows(pre, today);
      var last := if Stale(rows[n], today) then [Update(rows[n].id, LevelName(Classify(rows[n].due, today)))] else [];
      assert UpdatesFor(rows, today) == UpdatesFor(pre, today) + last;
      forall u | u in UpdatesFor(rows, today)
        ensures exists i :: 0 <= i < |rows| && rows[i].id == u.id && Stale(rows[i], today)
                            && u.level == LevelName(Classify(rows[i].due, today))
      {
        if u in UpdatesFor(pre, today) {
          var i :| 0 <= i < n && pre[i].id == u.id && Stale(pre[i], today)
                   && u.level == LevelName(Classify(pre[i].due, today));
          assert rows[i] == pre[i];
        } else {
          assert u in last;
          assert rows[n].id == u.id;
        }
      }
    }
  }

  /** A row changes exactly when it is stale; nothing else about it changes. */
  lemma RelabelChangesOnlyStale(r: Row, today: int)
    ensures Relabel(r, today) != r <==> Stale(r, today)
    ensures Relabel(r, today).id == r.id && Relabel(r, today).due == r.due
    ensures Relabel(r, today).status == r.status
  {
  }

  /** Running the job again on the same day rewrites nothing and counts the same. */
  lemma {:induction false} RerunIsNoOp(rows: seq<Row>, today: int)
    ensures UpdatesFor(RelabelAll(rows, today), today) == []
    ensures CountsOf(RelabelAll(rows, today), today) == CountsOf(rows, today)
    ensures RelabelAll(RelabelAll(rows, today), today) == RelabelAll(rows, today)
  {
    if rows != [] {
      var n := |rows| - 1;
      RerunIsNoOp(rows[..n], today);
      assert RelabelAll(rows, today)[..n] == RelabelAll(rows[..n], today);
    }
  }
}
