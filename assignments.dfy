/**
 * app/routers/assignments.py: the assignment lifecycle. `create_assignment`
 * upserts one row per (user, course) with a default due date a year ahead,
 * `reassign` changes the status and re-opens the deadline of a completed
 * course, `list_assignments` lists a user's rows by course id, and
 * `sync_assignments` fills in missing (user, course) pairs up to a limit.
 *
 * The `assignments` table is a map keyed by (user_id, course_id), the unique
 * constraint `uq_assignments_user_course`; `users` and `courses` are kept in
 * the order the database scans them. Dates are day numbers and `today` is a
 * parameter.
 */
module Assignments {
  import opened Wrappers
  import opened Text
  import opened Lex

  /** The statuses `create` and `reassign` accept. */
  const Allowed: set<string> := {"assigned", "in_progress", "completed"}

  /** The statuses that re-open a completed assignment. */
  const Reopening: set<string> := {"assigned", "in_progress"}

  /** A year, in days: the default deadline and the re-opened deadline. */
  const YearDays: int := 365

  /** The key of the unique constraint: (user_id, course_id). */
  type Key = (string, string)

  /** The columns of an `assignments` row the router reads or writes. */
  datatype Assignment = Assignment(status: string, due: Option<int>, assignedBy: string)

  /** A `courses` row, as the list join reads it. */
  datatype CourseRow = CourseRow(courseId: string, title: string, category: Option<string>)

  function CourseIds(courses: seq<CourseRow>): (ids: seq<string>)
    ensures |ids| == |courses|
    ensures forall i :: 0 <= i < |courses| ==> ids[i] == courses[i].courseId
  {
    seq(|courses|, i requires 0 <= i < |courses| => courses[i].courseId)
  }

  // ---------------------------------------------------------------------------
  // create_assignment

  /** The due date of a create: the one given, or a year from today. */
  function DefaultDue(due: Option<int>, today: int): int {
    due.GetOr(today + YearDays)
  }

  datatype CreateReply = CreateReply(userId: string, courseId: string, status: string, due: int)

  /**
   * `create_assignment` over the table: the status is checked first; the
   * insert then fails (an unhandled foreign-key error, so 500) unless the
   * user and the course exist; otherwise it is an
   * `INSERT ... ON CONFLICT (user_id, course_id) DO UPDATE` that sets status
   * and due date and leaves `assigned_by` as it was (`'system'` by default
   * on a fresh row).
   */
  function Create(table: map<Key, Assignment>, users: seq<string>, courseIds: seq<string>,
                  userId: string, courseId: string, status: string, due: Option<int>, today: int)
    : (map<Key, Assignment>, Result<CreateReply>)
  {
    if status !in Allowed then (table, Err(400, "Invalid status: " + status))
    else if userId !in users || courseId !in courseIds then (table, Err(500, "Internal Server Error"))
    else
      var k := (userId, courseId);
      var d := DefaultDue(due, today);
      var owner := if k in table then table[k].assignedBy else "system";
      (table[k := Assignment(status, Some(d), owner)], Ok(CreateReply(userId, courseId, status, d)))
  }

  /** A create fails with 400 exactly when the status is outside the allow-list, and then changes nothing. */
  lemma CreateRejectsStatus(table: map<Key, Assignment>, users: seq<string>, courseIds: seq<string>,
                            userId: string, courseId: string, status: string, due: Option<int>, today: int)
    ensures var (t, r) := Create(table, users, courseIds, userId, courseId, status, due, today);
      && (r.Err? && r.status == 400 <==> status != "assigned" && status != "in_progress" && status != "completed")
      && (r.Err? ==> t == table)
  {
  }

  /**
   * A successful create leaves exactly one row for the pair, carrying the new
   * status and the given due date or today + 365; every other row stays.
   */
  lemma CreateUpserts(table: map<Key, Assignment>, users: seq<string>, courseIds: seq<string>,
                      userId: string, courseId: string, status: string, due: Option<int>, today: int)
    ensures var (t, r) := Create(table, users, courseIds, userId, courseId, status, due, today);
      r.Ok? ==>
        && t.Keys == table.Keys + {(userId, courseId)}
        && t[(userId, courseId)].status == status
        && t[(userId, courseId)].due == Some(if due.Some? then due.value else today + 365)
        && r.value.due == t[(userId, courseId)].due.value
        && (forall k :: k in table && k != (userId, courseId) ==> t[k] == table[k])
  {
  }

  /** A create succeeds exactly for an allowed status on an existing user and course. */
  lemma CreateSucceeds(table: map<Key, Assignment>, users: seq<string>, courseIds: seq<string>,
                       userId: string, courseId: string, status: string, due: Option<int>, today: int)
    ensures Create(table, users, courseIds, userId, courseId, status, due, today).1.Ok?
      <==> status in Allowed && userId in users && courseId in courseIds
  {
  }

  /** Repeating the same create changes nothing more. */
  lemma CreateIdempotent(table: map<Key, Assignment>, users: seq<string>, courseIds: seq<string>,
                         userId: string, courseId: string, status: string, due: Option<int>, today: int)
    ensures var (t1, r1) := Create(table, users, courseIds, userId, courseId, status, due, today);
      Create(t1, users, courseIds, userId, courseId, status, due, today) == (t1, r1)
  {
    var (t1, r1) := Create(table, users, courseIds, userId, courseId, status, due, today);
    var k := (userId, courseId);
    if r1.Ok? {
      assert k in t1;
      assert t1[k := t1[k]] == t1;
    }
  }

  // ---------------------------------------------------------------------------
  // reassign

  datatype ReassignReply = ReassignReply(userId: string, courseId: string, status: string,
                                         due: Option<int>, autoExtended: bool)

  /** A completed assignment set back to assigned or in progress is re-opened. */
  predicate Reopens(prev: string, next: string) {
    prev == "completed" && next in Reopening
  }

  /**
   * `reassign`: the status is checked before the row is looked up; a missing
   * row is 404; re-opening a completed row moves its deadline to a year from
   * today, any other transition keeps the old deadline (possibly none).
   */
  function Reassign(table: map<Key, Assignment>, userId: string, courseId: string, newStatus: string,
                    today: int): (map<Key, Assignment>, Result<ReassignReply>)
  {
    var k := (userId, courseId);
    if newStatus !in Allowed then (table, Err(400, "Invalid status"))
    else if k !in table then (table, Err(404, "Assignment not found"))
    else
      var prev := table[k];
      var ext := Reopens(prev.status, newStatus);
      var due := if ext then Some(today + YearDays) else prev.due;
      (table[k := prev.(status := newStatus, due := due)],
       Ok(ReassignReply(userId, courseId, newStatus, due, ext)))
  }

  /** A bad status is 400 and a missing pair 404, and neither changes the table. */
  lemma ReassignErrors(table: map<Key, Assignment>, userId: string, courseId: string, newStatus: string, today: int)
    ensures var (t, r) := Reassign(table, userId, courseId, newStatus, today);
      && (newStatus !in Allowed ==> r == Err(400, "Invalid status"))
      && (newStatus in Allowed && (userId, courseId) !in table ==> r == Err(404, "Assignment not found"))
      && (r.Ok? <==> newStatus in Allowed && (userId, courseId) in table)
      && (r.Err? ==> t == table)
  {
  }

  /**
   * A successful reassign rewrites only the pair's status and due date; the
   * deadline becomes today + 365 and `auto_extended` is true exactly when a
   * completed row is set to assigned or in progress, and otherwise the old
   * deadline is kept.
   */
  lemma ReassignDeadline(table: map<Key, Assignment>, userId: string, courseId: string, newStatus: string, today: int)
    ensures var (t, r) := Reassign(table, userId, courseId, newStatus, today);
      var k := (userId, courseId);
      r.Ok? ==>
        && t.Keys == table.Keys
        && (forall k2 :: k2 in table && k2 != k ==> t[k2] == table[k2])
        && t[k].status == newStatus && t[k].assignedBy == table[k].assignedBy
        && (r.value.autoExtended <==> table[k].status == "completed"
                                      && (newStatus == "assigned" || newStatus == "in_progress"))
        && (r.value.autoExtended ==> t[k].due == Some(today + 365))
        && (!r.value.autoExtended ==> t[k].due == table[k].due)
        && r.value.due == t[k].due
  {
  }

  /** Reassigning to the status a row already has never extends it. */
  lemma ReassignSameStatus(table: map<Key, Assignment>, userId: string, courseId: string, today: int)
    requires (userId, courseId) in table
    ensures var (t, r) := Reassign(table, userId, courseId, table[(userId, courseId)].status, today);
      r.Ok? ==> t == table && !r.value.autoExtended
  {
    var k := (userId, courseId);
    var prev := table[k];
    assert prev.(status := prev.status, due := prev.due) == prev;
  }

  /** A second identical reassign is a no-op that reports no extension. */
  lemma {:induction false} ReassignIdempotent(table: map<Key, Assignment>, userId: string, courseId: string,
                                              newStatus: string, today: int, later: int)
    ensures var (t1, r1) := Reassign(table, userId, courseId, newStatus, today);
      var (t2, r2) := Reassign(t1, userId, courseId, newStatus, later);
      t2 == t1 && (r2.Ok? ==> !r2.value.autoExtended)
  {
    var (t1, r1) := Reassign(table, userId, courseId, newStatus, today);
    if r1.Ok? {
      assert t1[(userId, courseId)].status == newStatus;
      ReassignSameStatus(t1, userId, courseId, later);
    }
  }

  // ---------------------------------------------------------------------------
  // list_assignments

  datatype Item = Item(courseId: string, title: Option<string>, category: Option<string>,
                       status: string, due: Option<int>)

  datatype ListReply = ListReply(userId: string, count: nat, items: seq<Item>)

  /** The course ids a user has rows for. */
  function UserCourses(table: map<Key, Assignment>, userId: string): set<string> {
    set k | k in table && k.0 == userId :: k.1
  }

  /** The first `courses` row with the id, as `LEFT JOIN courses` finds it. */
  function FindCourse(courses: seq<CourseRow>, id: string): (c: Option<CourseRow>)
    ensures c.Some? ==> c.value in courses && c.value.courseId == id
    ensures c.None? ==> forall i :: 0 <= i < |courses| ==> courses[i].courseId != id
  {
    if courses == [] then None
    else if courses[0].courseId == id then Some(courses[0])
    else FindCourse(courses[1..], id)
  }

  /** The joined title and category, or nulls when the join fell back to the plain query. */
  function Title(courses: seq<CourseRow>, id: string, joined: bool): Option<string> {
    var c := FindCourse(courses, id);
    if joined && c.Some? then Some(c.value.title) else None
  }

  function Category(courses: seq<CourseRow>, id: string, joined: bool): Option<string> {
    var c := FindCourse(courses, id);
    if joined && c.Some? then c.value.category else None
  }

  // ---------------------------------------------------------------------------
  // sync_assignments

  /** A non-empty `user_id` syncs that user only; null or empty syncs everyone. */
  datatype Scope = Everyone | OneUser(id: string)

  function ScopeOf(userId: Option<string>): Scope {
    if userId.Some? && userId.value != "" then OneUser(userId.value) else Everyone
  }

  /** `LIMIT 5` for one user, `LIMIT 20` for everyone. */
  function Limit(s: Scope): nat {
    if s.OneUser? then 5 else 20
  }

  function InScope(s: Scope, u: string): bool {
    s.Everyone? || u == s.id
  }

  /** The pairs of user `u` with each course, in course order. */
  function PairsWith(u: string, courses: seq<string>): (ps: seq<Key>)
    ensures |ps| == |courses|
    ensures forall j :: 0 <= j < |courses| ==> ps[j] == (u, courses[j])
  {
    seq(|courses|, j requires 0 <= j < |courses| => (u, courses[j]))
  }

  /** `FROM users u, courses c`: every pair, users outermost, in scan order. */
  function Cross(users: seq<string>, courses: seq<string>): seq<Key>
    decreases |users|
  {
    if users == [] then [] else PairsWith(users[0], courses) + Cross(users[1..], courses)
  }

  /** The pairs the `INSERT ... SELECT` would add: in scope and without a row yet. */
  function Missing(pairs: seq<Key>, table: map<Key, Assignment>, s: Scope): seq<Key>
    decreases |pairs|
  {
    if pairs == [] then []
    else (if pairs[0] !in table && InScope(s, pairs[0].0) then [pairs[0]] else [])
         + Missing(pairs[1..], table, s)
  }

  /** The pairs one sync inserts: the first `Limit` missing ones in scan order. */
  function Picks(table: map<Key, Assignment>, users: seq<string>, courses: seq<string>, s: Scope): seq<Key> {
    Take(Missing(Cross(users, courses), table, s), Limit(s))
  }

  /** The row sync inserts: `'assigned'`, due a year from today, by `'system'`. */
  function SyncRow(today: int): Assignment {
    Assignment("assigned", Some(today + YearDays), "system")
  }

  function InsertAll(table: map<Key, Assignment>, keys: seq<Key>, row: Assignment): map<Key, Assignment> {
    map k | k in table.Keys + (set x | x in keys) :: if k in table then table[k] else row
  }

  /** `sync_assignments`: the new table and the inserted row count. */
  function Sync(table: map<Key, Assignment>, users: seq<string>, courses: seq<string>, s: Scope, today: int)
    : (map<Key, Assignment>, nat)
  {
    var p := Picks(table, users, courses, s);
    (InsertAll(table, p, SyncRow(today)), |p|)
  }

  lemma {:induction false} CrossMembers(users: seq<string>, courses: seq<string>)
    ensures forall p :: p in Cross(users, courses) <==> p.0 in users && p.1 in courses
    decreases |users|
  {
    if users != [] {
      CrossMembers(users[1..], courses);
      var head := PairsWith(users[0], courses);
      forall p ensures p in Cross(users, courses) <==> p.0 in users && p.1 in courses {
        if p.0 == users[0] && p.1 in courses {
          var j :| 0 <= j < |courses| && courses[j] == p.1;
          assert head[j] == p;
        }
        if p in head {
          var j :| 0 <= j < |head| && head[j] == p;
        }
        assert users == [users[0]] + users[1..];
      }
    }
  }

  lemma ConcatNoDuplicates<T>(a: seq<T>, b: seq<T>)
    requires NoDuplicates(a) && NoDuplicates(b)
    requires forall x :: x in a ==> x !in b
    ensures NoDuplicates(a + b)
  {
    forall i, j | 0 <= i < j < |a + b| ensures (a + b)[i] != (a + b)[j] {
      if i < |a| && |a| <= j {
        assert (a + b)[i] in a && (a + b)[j] in b;
      }
    }
  }

  lemma {:induction false} CrossDistinct(users: seq<string>, courses: seq<string>)
    requires NoDuplicates(users) && NoDuplicates(courses)
    ensures NoDuplicates(Cross(users, courses))
    decreases |users|
  {
    if users != [] {
      assert NoDuplicates(users[1..]);
      CrossDistinct(users[1..], courses);
      CrossMembers(users[1..], courses);
      var head := PairsWith(users[0], courses);
      assert users[0] !in users[1..];
      forall p | p in head ensures p !in Cross(users[1..], courses) {
        var j :| 0 <= j < |head| && head[j] == p;
      }
      ConcatNoDuplicates(head, Cross(users[1..], courses));
    }
  }

  /** A pair is missing exactly when it is scanned, in scope and without a row. */
  lemma {:induction false} MissingMembers(pairs: seq<Key>, table: map<Key, Assignment>, s: Scope)
    ensures forall p :: p in Missing(pairs, table, s) <==> p in pairs && p !in table && InScope(s, p.0)
    decreases |pairs|
  {
    if pairs != [] {
      MissingMembers(pairs[1..], table, s);
      assert pairs == [pairs[0]] + pairs[1..];
    }
  }

  lemma {:induction false} MissingDistinct(pairs: seq<Key>, table: map<Key, Assignment>, s: Scope)
    requires NoDuplicates(pairs)
    ensures NoDuplicates(Missing(pairs, table, s))
    decreases |pairs|
  {
    if pairs != [] {
      assert NoDuplicates(pairs[1..]);
      MissingDistinct(pairs[1..], table, s);
      MissingMembers(pairs[1..], table, s);
      assert pairs[0] !in pairs[1..];
      var head := if pairs[0] !in table && InScope(s, pairs[0].0) then [pairs[0]] else [];
      ConcatNoDuplicates(head, Missing(pairs[1..], table, s));
    }
  }

  /** Sync inserts at most 5 rows for one user and at most 20 for everyone. */
  lemma SyncBounded(table: map<Key, Assignment>, users: seq<string>, courses: seq<string>, s: Scope, today: int)
    ensures Sync(table, users, courses, s, today).1 <= (if s.OneUser? then 5 else 20)
    ensures Sync(table, users, courses, s, today).1
      == Min(Limit(s), |Missing(Cross(users, courses), table, s)|)
  {
  }

  function Min(a: nat, b: nat): nat {
    if a <= b then a else b
  }

  /**
   * Sync touches no existing row, and every row it adds is a pair of a known
   * user (the requested one, if any) and a known course that had no
   * assignment, set to assigned, due a year from today, by the system.
   */
  lemma SyncOnlyMissing(table: map<Key, Assignment>, users: seq<string>, courses: seq<string>, s: Scope, today: int)
    ensures var (t, n) := Sync(table, users, courses, s, today);
      && (forall k :: k in table ==> k in t && t[k] == table[k])
      && (forall k :: k in t && k !in table ==>
            && k.0 in users && k.1 in courses && InScope(s, k.0)
            && t[k] == Assignment("assigned", Some(today + 365), "system"))
  {
    var m := Missing(Cross(users, courses), table, s);
    MissingMembers(Cross(users, courses), table, s);
    CrossMembers(users, courses);
    var p := Picks(table, users, courses, s);
    forall k | k in p ensures k in m {
      var i :| 0 <= i < |p| && p[i] == k;
      assert m[i] == k;
    }
  }

  lemma {:induction false} CardOfDistinct<T>(xs: seq<T>)
    requires NoDuplicates(xs)
    ensures |set x | x in xs| == |xs|
    decreases |xs|
  {
    if xs != [] {
      var n := |xs| - 1;
      assert NoDuplicates(xs[..n]);
      CardOfDistinct(xs[..n]);
      assert xs[n] !in xs[..n];
      assert (set x | x in xs) == (set x | x in xs[..n]) + {xs[n]} by {
        assert xs == xs[..n] + [xs[n]];
      }
    }
  }

  /** With distinct users and courses, the picked pairs are distinct and have no row yet. */
  lemma PicksFresh(table: map<Key, Assignment>, users: seq<string>, courses: seq<string>, s: Scope)
    requires NoDuplicates(users) && NoDuplicates(courses)
    ensures var p := Picks(table, users, courses, s);
      NoDuplicates(p) && forall k :: k in p ==> k !in table
  {
    var m := Missing(Cross(users, courses), table, s);
    CrossDistinct(users, courses);
    MissingDistinct(Cross(users, courses), table, s);
    MissingMembers(Cross(users, courses), table, s);
    var p := Picks(table, users, courses, s);
    forall k | k in p ensures k !in table {
      var i :| 0 <= i < |p| && p[i] == k;
      assert m[i] == k;
    }
  }

  lemma InsertAllKeys(table: map<Key, Assignment>, keys: seq<Key>, row: Assignment)
    ensures InsertAll(table, keys, row).Keys == table.Keys + (set x | x in keys)
  {
  }

  /** With distinct users and courses, the reported count is the number of rows added. */
  lemma SyncCountsRows(table: map<Key, Assignment>, users: seq<string>, courses: seq<string>, s: Scope, today: int)
    requires NoDuplicates(users) && NoDuplicates(courses)
    ensures var (t, n) := Sync(table, users, courses, s, today);
      |t.Keys| == |table.Keys| + n
  {
    var p := Picks(table, users, courses, s);
    PicksFresh(table, users, courses, s);
    CardOfDistinct(p);
    InsertAllKeys(table, p, SyncRow(today));
    var added := set x | x in p;
    assert table.Keys !! added;
  }

  /** Nothing is missing once every scanned in-scope pair has a row. */
  lemma {:induction false} MissingNone(pairs: seq<Key>, table: map<Key, Assignment>, s: Scope)
    requires forall p :: p in pairs && InScope(s, p.0) ==> p in table
    ensures Missing(pairs, table, s) == []
    decreases |pairs|
  {
    if pairs != [] {
      assert pairs[0] in pairs;
      forall p | p in pairs[1..] && InScope(s, p.0) ensures p in table {
        assert p in pairs;
      }
      MissingNone(pairs[1..], table, s);
    }
  }

  /**
   * When a sync adds fewer rows than its limit, every in-scope pair of a
   * known user and course has an assignment afterwards, so a second sync
   * adds nothing.
   */
  lemma SyncCompletes(table: map<Key, Assignment>, users: seq<string>, courses: seq<string>, s: Scope, today: int)
    ensures var (t, n) := Sync(table, users, courses, s, today);
      n < Limit(s) ==>
        && (forall u, c :: u in users && c in courses && InScope(s, u) ==> (u, c) in t)
        && Sync(t, users, courses, s, today + 1).1 == 0
  {
    var (t, n) := Sync(table, users, courses, s, today);
    var m := Missing(Cross(users, courses), table, s);
    MissingMembers(Cross(users, courses), table, s);
    CrossMembers(users, courses);
    if n < Limit(s) {
      assert Picks(table, users, courses, s) == m;
      forall u, c | u in users && c in courses && InScope(s, u) ensures (u, c) in t {
        if (u, c) !in table {
          assert (u, c) in m;
        }
      }
      MissingNone(Cross(users, courses), t, s);
    }
  }

  // ---------------------------------------------------------------------------
  // The database the router talks to

  class AssignmentsDb {
    var table: map<Key, Assignment>
    /** `users.user_id` in scan order. */
    var users: seq<string>
    /** `courses` in scan order. */
    var courses: seq<CourseRow>

    /** Primary keys are unique and every assignment points at a user and a course. */
    ghost predicate Valid()
      reads this
    {
      && NoDuplicates(users)
      && NoDuplicates(CourseIds(courses))
      && forall k :: k in table ==> k.0 in users && k.1 in CourseIds(courses)
    }

    constructor(users: seq<string>, courses: seq<CourseRow>)
      requires NoDuplicates(users) && NoDuplicates(CourseIds(courses))
      ensures Valid()
      ensures this.table == map[] && this.users == users && this.courses == courses
    {
      this.table := map[];
      this.users := users;
      this.courses := courses;
    }

    /** `POST /assignments/create`. */
    method CreateAssignment(userId: string, courseId: string, status: string, due: Option<int>, today: int)
      returns (r: Result<CreateReply>)
      requires Valid()
      modifies this
      ensures Valid()
      ensures users == old(users) && courses == old(courses)
      ensures (table, r) == Create(old(table), users, CourseIds(courses), userId, courseId, status, due, today)
    {
      var res := Create(table, users, CourseIds(courses), userId, courseId, status, due, today);
      table, r := res.0, res.1;
    }

    /** `POST /assignments/reassign`. */
    method ReassignAssignment(userId: string, courseId: string, newStatus: string, today: int)
      returns (r: Result<ReassignReply>)
      requires Valid()
      modifies this
      ensures Valid()
      ensures users == old(users) && courses == old(courses)
      ensures (table, r) == Reassign(old(table), userId, courseId, newStatus, today)
    {
      var res := Reassign(table, userId, courseId, newStatus, today);
      table, r := res.0, res.1;
    }

    /**
     * `GET /assignments/list`: a user's rows by ascending course id, with the
     * course title and category when the join runs (`joined`), and the count.
     */
    method ListAssignments(userId: string, joined: bool) returns (r: Result<ListReply>)
      ensures userId == "" <==> r.Err?
      ensures r.Err? ==> r == Err(400, "user_id is required")
      ensures r.Ok? ==>
        var items := r.value.items;
        && r.value.userId == userId
        && r.value.count == |items|
        && (forall i, j :: 0 <= i < j < |items| ==> LexLt(items[i].courseId, items[j].courseId))
        && (forall c :: c in UserCourses(table, userId) <==> exists i :: 0 <= i < |items| && items[i].courseId == c)
        && (forall i :: 0 <= i < |items| ==>
              && (userId, items[i].courseId) in table
              && items[i].status == table[(userId, items[i].courseId)].status
              && items[i].due == table[(userId, items[i].courseId)].due
              && items[i].title == Title(courses, items[i].courseId, joined)
              && items[i].category == Category(courses, items[i].courseId, joined))
    {
      if userId == "" {
        return Err(400, "user_id is required");
      }
      var ids := SortedList(UserCourses(table, userId));
      var items: seq<Item> := [];
      for i := 0 to |ids|
        invariant |items| == i
        invariant forall j :: 0 <= j < i ==> items[j].courseId == ids[j]
        invariant forall j :: 0 <= j < i ==>
          && (userId, ids[j]) in table
          && items[j].status == table[(userId, ids[j])].status
          && items[j].due == table[(userId, ids[j])].due
          && items[j].title == Title(courses, ids[j], joined)
          && items[j].category == Category(courses, ids[j], joined)
      {
        var c := ids[i];
        assert c in UserCourses(table, userId);
        var a := table[(userId, c)];
        items := items + [Item(c, Title(courses, c, joined), Category(courses, c, joined), a.status, a.due)];
      }
      forall c | c in UserCourses(table, userId)
        ensures exists i :: 0 <= i < |items| && items[i].courseId == c
      {
        var i :| 0 <= i < |ids| && ids[i] == c;
      }
      r := Ok(ListReply(userId, |items|, items));
    }

    /** `POST /assignments/sync`. */
    method SyncAssignments(userId: Option<string>, today: int) returns (synced: nat)
      requires Valid()
      modifies this
      ensures Valid()
      ensures users == old(users) && courses == old(courses)
      ensures (table, synced) == Sync(old(table), users, CourseIds(courses), ScopeOf(userId), today)
    {
      var res := Sync(table, users, CourseIds(courses), ScopeOf(userId), today);
      SyncOnlyMissing(table, users, CourseIds(courses), ScopeOf(userId), today);
      table, synced := res.0, res.1;
    }
  }
}
