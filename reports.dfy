/**
 * app/routers/reports.py: `get_training_history`, a user's assignments with
 * their course title and category, ordered completed first, then in
 * progress, then the rest, together with per-status tallies and the
 * completion rate. The SQL query is modelled as a filter, a left join and a
 * stable sort over the tables in scan order. `due_date` is a DATE, held as
 * a day number; `completed_at` is a TIMESTAMP without time zone, held as
 * seconds on the same epoch, so that the ORDER BY sees the time of day.
 */
module Reports {
  import opened Wrappers
  import opened Sorting

  /** An `assignments` row, as the report reads it: `due` a day, `completedAt` a second. */
  datatype Row = Row(userId: string, courseId: string, status: string, due: Option<int>, completedAt: Option<int>)

  /** Seconds in a day. */
  const DaySeconds: int := 86400

  /** `ts::date` of a timestamp without time zone: the day the second falls in. */
  function Day(t: int): (d: int)
    ensures d * DaySeconds <= t < (d + 1) * DaySeconds
  {
    t / DaySeconds
  }

  /** `::date` of a nullable timestamp. */
  function DateOf(t: Option<int>): (d: Option<int>)
    ensures d.Some? <==> t.Some?
    ensures t.Some? ==> d.value * DaySeconds <= t.value < (d.value + 1) * DaySeconds
  {
    if t.Some? then Some(Day(t.value)) else None
  }

  /** A DATE promoted to a timestamp, as the CASE of the ORDER BY does: its midnight. */
  function Midnight(d: Option<int>): (t: Option<int>)
    ensures t.Some? <==> d.Some?
    ensures d.Some? ==> DateOf(t) == d
  {
    if d.Some? then Some(d.value * DaySeconds) else None
  }

  /** A `courses` row; `title` is NOT NULL, `category` may be null. */
  datatype CourseInfo = CourseInfo(courseId: string, title: string, category: Option<string>)

  /** `TrainingHistoryItem`. */
  datatype HistoryItem = HistoryItem(courseId: string, title: string, category: string, status: string,
                                     due: Option<int>, completedDate: Option<int>)

  /** `TrainingHistoryResponse`, without the rounding of the rate to one place. */
  datatype History = History(userId: string, total: nat, completed: nat, inProgress: nat, assignedCount: nat,
                             rate: real, items: seq<HistoryItem>)

  // ---------------------------------------------------------------------------
  // The query

  /** `WHERE a.user_id = %s`, in scan order. */
  function OfUser(table: seq<Row>, userId: string): (r: seq<Row>)
    ensures |r| <= |table|
    decreases |table|
  {
    if table == [] then []
    else
      var n := |table| - 1;
      OfUser(table[..n], userId) + if table[n].userId == userId then [table[n]] else []
  }

  /** The first ORDER BY key: completed 1, in_progress 2, anything else 3. */
  function Rank(status: string): nat {
    if status == "completed" then 1 else if status == "in_progress" then 2 else 3
  }

  /**
   * The second ORDER BY key: the completion timestamp of a completed row,
   * else the due date as a timestamp.
   */
  function SortDate(r: Row): Option<int> {
    if r.status == "completed" then r.completedAt else Midnight(r.due)
  }

  /** `display_date`: the completion date of a completed row, else the due date. */
  function DisplayDate(r: Row): (d: Option<int>)
    ensures d == DateOf(SortDate(r))
  {
    if r.status == "completed" then DateOf(r.completedAt) else r.due
  }

  /** `DESC NULLS LAST`: later dates first, nulls after every date. */
  predicate DescNullsLast(a: Option<int>, b: Option<int>) {
    b.None? || (a.Some? && a.value >= b.value)
  }

  /** The ORDER BY of the query, as a total preorder on rows. */
  predicate HistoryLe(a: Row, b: Row) {
    Rank(a.status) < Rank(b.status) || (Rank(a.status) == Rank(b.status) && DescNullsLast(SortDate(a), SortDate(b)))
  }

  /** The first `courses` row with the id, as the left join finds it. */
  function FindCourse(courses: seq<CourseInfo>, id: string): (c: Option<CourseInfo>)
    ensures c.Some? ==> c.value in courses && c.value.courseId == id
    ensures c.None? ==> forall i :: 0 <= i < |courses| ==> courses[i].courseId != id
  {
    if courses == [] then None
    else if courses[0].courseId == id then Some(courses[0])
    else FindCourse(courses[1..], id)
  }

  /**
   * The selected columns of one row: the title falls back to the course id
   * and the category to `'general'` when the course is missing or has none;
   * the displayed date is the completion date for a completed row and the due
   * date otherwise, and the completed date is the completion timestamp's day.
   */
  function ItemOf(courses: seq<CourseInfo>, r: Row): HistoryItem {
    var c := FindCourse(courses, r.courseId);
    var title := if c.Some? then c.value.title else r.courseId;
    var category := if c.Some? && c.value.category.Some? then c.value.category.value else "general";
    HistoryItem(r.courseId, title, category, r.status, DisplayDate(r), DateOf(r.completedAt))
  }

  function ItemsOf(courses: seq<CourseInfo>, rows: seq<Row>): (items: seq<HistoryItem>)
    ensures |items| == |rows|
    ensures forall i :: 0 <= i < |rows| ==> items[i] == ItemOf(courses, rows[i])
  {
    seq(|rows|, i requires 0 <= i < |rows| => ItemOf(courses, rows[i]))
  }

  /** The rows of the user in the order of the query. */
  function Ordered(table: seq<Row>, userId: string): seq<Row> {
    SortBy(OfUser(table, userId), HistoryLe)
  }

  /** The result set of the query. */
  function Query(table: seq<Row>, courses: seq<CourseInfo>, userId: string): seq<HistoryItem> {
    ItemsOf(courses, Ordered(table, userId))
  }

  // ---------------------------------------------------------------------------
  // Tallies

  /** How many of `items` have exactly `status`. */
  function CountIs(items: seq<HistoryItem>, status: string): nat
    decreases |items|
  {
    if items == [] then 0
    else
      var n := |items| - 1;
      CountIs(items[..n], status) + if items[n].status == status then 1 else 0
  }

  /** How many of `items` are neither completed nor in progress. */
  function CountOthers(items: seq<HistoryItem>): nat
    decreases |items|
  {
    if items == [] then 0
    else
      var n := |items| - 1;
      CountOthers(items[..n]) + if Rank(items[n].status) == 3 then 1 else 0
  }

  /** `completed / total * 100`, or 0 for no items. */
  function Rate(completed: nat, total: nat): real {
    if total > 0 then completed as real / total as real * 100.0 else 0.0
  }

  /**
   * `get_training_history`: 400 for an empty user id; otherwise one item per
   * row of the query, a tally by status in which any status other than
   * completed and in_progress counts as assigned, and the completion rate.
   */
  method TrainingHistory(userId: string, table: seq<Row>, courses: seq<CourseInfo>) returns (res: Result<History>)
    ensures userId == "" <==> res.Err?
    ensures res.Err? ==> res == Err(400, "user_id is required")
    ensures res.Ok? ==>
      var h := res.value;
      && h.userId == userId
      && h.items == Query(table, courses, userId)
      && h.total == |h.items|
      && h.completed == CountIs(h.items, "completed")
      && h.inProgress == CountIs(h.items, "in_progress")
      && h.assignedCount == CountOthers(h.items)
      && h.rate == Rate(h.completed, h.total)
  {
    if userId == "" {
      return Err(400, "user_id is required");
    }
    var items, completed, inProgress, assignedCount := Tally(Query(table, courses, userId));
    var total := |items|;
    res := Ok(History(userId, total, completed, inProgress, assignedCount, Rate(completed, total), items));
  }

  /** The loop of `get_training_history`: one item per row, and the three tallies. */
  method Tally(rows: seq<HistoryItem>) returns (items: seq<HistoryItem>, completed: nat, inProgress: nat, assignedCount: nat)
    ensures items == rows
    ensures completed == CountIs(rows, "completed")
    ensures inProgress == CountIs(rows, "in_progress")
    ensures assignedCount == CountOthers(rows)
  {
    items := [];
    completed, inProgress, assignedCount := 0, 0, 0;
    for i := 0 to |rows|
      invariant items == rows[..i]
      invariant completed == CountIs(items, "completed")
      invariant inProgress == CountIs(items, "in_progress")
      invariant assignedCount == CountOthers(items)
    {
      var row := rows[i];
      assert rows[..i + 1] == items + [row];
      items := items + [row];
      assert items[..i] == rows[..i];
      if row.status == "completed" {
        completed := completed + 1;
      } else if row.status == "in_progress" {
        inProgress := inProgress + 1;
      } else {
        assignedCount := assignedCount + 1;
      }
    }
    assert items == rows;
  }

  // ---------------------------------------------------------------------------
  // Properties

  /** The three tallies partition the items. */
  lemma {:induction false} TalliesPartition(items: seq<HistoryItem>)
    ensures CountIs(items, "completed") + CountIs(items, "in_progress") + CountOthers(items) == |items|
    decreases |items|
  {
    if items != [] {
      TalliesPartition(items[..|items| - 1]);
    }
  }

  /** A row counts as assigned exactly when its status is neither completed nor in_progress. */
  lemma {:induction false} OthersAreTheRest(items: seq<HistoryItem>)
    ensures CountOthers(items) == |items| - CountIs(items, "completed") - CountIs(items, "in_progress")
    ensures (forall i :: 0 <= i < |items| ==> items[i].status == "completed" || items[i].status == "in_progress")
      ==> CountOthers(items) == 0
    decreases |items|
  {
    TalliesPartition(items);
    if items != [] {
      var n := |items| - 1;
      OthersAreTheRest(items[..n]);
      if forall i :: 0 <= i < |items| ==> items[i].status == "completed" || items[i].status == "in_progress" {
        assert forall i :: 0 <= i < n ==> items[..n][i] == items[i];
      }
    }
  }

  /** The completion rate is a percentage, 100 exactly when every item is completed. */
  lemma RateRange(completed: nat, total: nat)
    requires completed <= total
    ensures 0.0 <= Rate(completed, total) <= 100.0
    ensures total > 0 ==> (Rate(completed, total) == 100.0 <==> completed == total)
    ensures total == 0 ==> Rate(completed, total) == 0.0
  {
    if total > 0 {
      var q := completed as real / total as real;
      assert q <= 1.0 by {
        assert q * total as real == completed as real;
      }
      if q * 100.0 == 100.0 {
        assert q == 1.0;
        assert q * total as real == completed as real;
      }
    }
  }

  /** The report's rate lies in [0, 100] whatever the rows. */
  lemma ReportRateInRange(items: seq<HistoryItem>)
    ensures 0.0 <= Rate(CountIs(items, "completed"), |items|) <= 100.0
  {
    TalliesPartition(items);
    RateRange(CountIs(items, "completed"), |items|);
  }

  /** `HistoryLe` is a total preorder, so the stable sort orders by it. */
  lemma HistoryLeTotal()
    ensures TotalPreorder(HistoryLe)
  {
  }

  /** A later second never falls on an earlier day. */
  lemma DayMonotone(a: int, b: int)
    requires b <= a
    ensures Day(b) <= Day(a)
  {
    assert Day(b) * DaySeconds <= b <= a < (Day(a) + 1) * DaySeconds;
  }

  /** Ordering two keys latest first orders their dates latest first too. */
  lemma DateOfDesc(a: Option<int>, b: Option<int>)
    requires DescNullsLast(a, b)
    ensures DescNullsLast(DateOf(a), DateOf(b))
  {
    if b.Some? {
      DayMonotone(a.value, b.value);
    }
  }

  /**
   * The rows come completed first, then in progress, then everything else;
   * completed rows by their completion timestamp, latest first, even on the
   * same day, and the others by due date, latest first; undated rows last in
   * their group. The items' displayed dates follow the same order.
   */
  lemma QueryOrdered(table: seq<Row>, courses: seq<CourseInfo>, userId: string)
    ensures var rows := Ordered(table, userId);
      forall i, j :: 0 <= i < j < |rows| ==>
        && Rank(rows[i].status) <= Rank(rows[j].status)
        && (rows[i].status == "completed" && rows[j].status == "completed" ==>
              DescNullsLast(rows[i].completedAt, rows[j].completedAt))
        && (Rank(rows[i].status) == Rank(rows[j].status) > 1 ==> DescNullsLast(rows[i].due, rows[j].due))
    ensures var items := Query(table, courses, userId);
      forall i, j :: 0 <= i < j < |items| ==>
        && Rank(items[i].status) <= Rank(items[j].status)
        && (Rank(items[i].status) == Rank(items[j].status) ==> DescNullsLast(items[i].due, items[j].due))
  {
    HistoryLeTotal();
    var rows := Ordered(table, userId);
    SortBySorted(OfUser(table, userId), HistoryLe);
    var items := Query(table, courses, userId);
    forall i, j | 0 <= i < j < |items|
      ensures Rank(items[i].status) == Rank(items[j].status) ==> DescNullsLast(items[i].due, items[j].due)
    {
      assert HistoryLe(rows[i], rows[j]);
      if Rank(items[i].status) == Rank(items[j].status) {
        DateOfDesc(SortDate(rows[i]), SortDate(rows[j]));
      }
    }
  }

  /**
   * Of two completions of the user, the later one is listed first, even when
   * both fall on the same day (09:00 and 17:00, say): the ORDER BY compares
   * the timestamps, not their dates.
   */
  lemma LaterCompletionFirst(first: Row, second: Row, userId: string)
    requires first.userId == userId && second.userId == userId
    requires first.status == "completed" && second.status == "completed"
    requires first.completedAt.Some? && second.completedAt.Some?
    requires first.completedAt.value < second.completedAt.value
    ensures Ordered([first, second], userId) == [second, first]
  {
    var table := [first, second];
    assert table[..1] == [first] && [first][..0] == [];
    assert OfUser(table, userId) == table;
    assert table[1..] == [second] && [second][1..] == [];
    assert SortBy([second], HistoryLe) == [second];
    assert !HistoryLe(first, second);
  }

  /** The user's rows, and only those, each exactly once. */
  lemma {:induction false} OfUserRows(table: seq<Row>, userId: string)
    ensures forall r :: r in OfUser(table, userId) ==> r in table && r.userId == userId
    ensures forall r :: r in table && r.userId == userId ==> multiset(OfUser(table, userId))[r] == multiset(table)[r]
    decreases |table|
  {
    if table != [] {
      var n := |table| - 1;
      OfUserRows(table[..n], userId);
      assert table == table[..n] + [table[n]];
    }
  }

  /** Every row of the user appears in the report as often as in the table, and no other row does. */
  lemma QueryRows(table: seq<Row>, courses: seq<CourseInfo>, userId: string)
    ensures |Query(table, courses, userId)| == |OfUser(table, userId)|
    ensures forall r :: r in table && r.userId == userId ==> multiset(Ordered(table, userId))[r] == multiset(table)[r]
    ensures forall i :: 0 <= i < |Query(table, courses, userId)| ==>
      exists r :: r in table && r.userId == userId && Query(table, courses, userId)[i] == ItemOf(courses, r)
  {
    OfUserRows(table, userId);
    var o := Ordered(table, userId);
    forall i | 0 <= i < |o| ensures o[i] in OfUser(table, userId) {
      assert o[i] in multiset(o);
    }
  }
}
