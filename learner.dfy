/**
 * src/pages/Learner.tsx: the learner's dashboard over the reply of
 * `GET /assignments`: the progress percentage, the pending trainings and the
 * next one, the training list with completed items last, the priority badge
 * of a category and the icon of a title.
 */
module Learner {
  import opened Wrappers
  import opened Text
  import opened Assignments

  /** `searchParams.get('user_id') || 'u001'`: an absent or empty parameter selects the demo user. */
  function CurrentUser(param: Option<string>): (u: string)
    ensures u != ""
    ensures param.Some? && param.value != "" ==> u == param.value
    ensures param.None? || param.value == "" ==> u == "u001"
  {
    if param.Some? && param.value != "" then param.value else "u001"
  }

  // ---------------------------------------------------------------------------
  // Progress

  predicate IsCompleted(it: Item) {
    it.status == "completed"
  }

  /** The elements whose `key` is `done`, in order. */
  function Group<T>(s: seq<T>, key: T -> bool, done: bool): (r: seq<T>)
    ensures |r| <= |s|
  {
    if s == [] then []
    else (if key(s[0]) == done then [s[0]] else []) + Group(s[1..], key, done)
  }

  /** `items.filter(item => item.status !== 'completed')`. */
  function Pending(s: seq<Item>): seq<Item> {
    Group(s, IsCompleted, false)
  }

  /** `items.filter(item => item.status === 'completed')`. */
  function Done(s: seq<Item>): seq<Item> {
    Group(s, IsCompleted, true)
  }

  /** `Math.round((completed / total) * 100)`, or 0 without items, with a half rounded up. */
  function Progress(completed: nat, total: nat): nat {
    if total > 0 then (200 * completed + total) / (2 * total) else 0
  }

  /** `completedCount` and `totalCount` of the page: both 0 while the reply is missing. */
  function Counts(reply: Option<ListReply>): (nat, nat) {
    if reply.Some? then (|Done(reply.value.items)|, reply.value.count) else (0, 0)
  }

  /** `pendingAssignments[0]`, undefined when nothing is pending. */
  function Next(reply: Option<ListReply>): Option<Item> {
    var p := if reply.Some? then Pending(reply.value.items) else [];
    if p == [] then None else Some(p[0])
  }

  // ---------------------------------------------------------------------------
  // Priority badge and icon

  /** The `priorities` table of `getPriorityBadge`. */
  const Priorities: map<string, string> := map[
    "chemical" := "high", "biosafety" := "high", "radiation" := "high",
    "electrical" := "medium", "fire" := "medium", "ppe" := "medium",
    "general" := "low", "ergonomics" := "low"]

  /** `getPriorityBadge`: the table's entry, `'medium'` for any other category and for a null one. */
  function Priority(category: Option<string>): string {
    if category.Some? && category.value in Priorities then Priorities[category.value] else "medium"
  }

  /**
   * The `(keyword, icon)` tests of `getModuleIcon`, in the order they are
   * tried. The icons are the page's string literals code point by code
   * point. Each is the UTF-8 encoding of an emoji read back as Mac Roman
   * text, so the page shows, for instance, "\U{F8FF}\U{FC}\U{DF}\U{2122}"
   * where a test tube was meant.
   */
  const IconTable: seq<(string, string)> := [
    ("Chemical", "\U{F8FF}\U{FC}\U{DF}\U{2122}"),
    ("Safety", WarningIcon),
    ("PPE", "\U{F8FF}\U{FC}\U{F5}\U{B0}\U{D4}\U{220F}\U{E8}"),
    ("Fire", "\U{F8FF}\U{FC}\U{EE}\U{2022}"),
    ("Bloodborne", "\U{F8FF}\U{FC}\U{A9}\U{220F}"),
    ("Biosafety", "\U{F8FF}\U{FC}\U{B6}\U{2020}"),
    ("Ergonomics", "\U{F8FF}\U{FC}\U{ED}\U{222B}"),
    ("Forklift", "\U{F8FF}\U{FC}\U{F6}\U{F5}"),
    ("Hazard", "\U{201A}\U{F2}\U{A2}\U{D4}\U{220F}\U{E8}"),
    ("HAZWOPER", "\U{F8FF}\U{FC}\U{DF}\U{D8}"),
    ("Heat", "\U{F8FF}\U{FC}\U{E5}\U{B0}\U{D4}\U{220F}\U{E8}"),
    ("Lab", "\U{F8FF}\U{FC}\U{EE}\U{A8}"),
    ("Ladder", "\U{F8FF}\U{FC}\U{2122}\U{FA}"),
    ("Laser", "\U{F8FF}\U{FC}\U{EE}\U{A5}"),
    ("Lockout", "\U{F8FF}\U{FC}\U{EE}\U{ED}"),
    ("OSHA", "\U{F8FF}\U{FC}\U{E8}\U{A2}"),
    ("Radiation", "\U{201A}\U{F2}\U{A2}\U{D4}\U{220F}\U{E8}"),
    ("Respirator", "\U{F8FF}\U{FC}\U{F2}\U{2211}"),
    ("Waste", "\U{201A}\U{F4}\U{AA}\U{D4}\U{220F}\U{E8}")]

  /** The icon of the "Safety" test: a warning sign, garbled in the same way. */
  const WarningIcon: string := "\U{201A}\U{F6}\U{2020}\U{D4}\U{220F}\U{E8}"

  /** The icon when no keyword occurs in the title: a clipboard, garbled in the same way. */
  const DefaultIcon: string := "\U{F8FF}\U{FC}\U{EC}\U{E3}"

  /** The icon of the first test from position `k` on whose keyword the title contains. */
  function IconFrom(title: string, table: seq<(string, string)>, k: nat): string
    requires k <= |table|
    decreases |table| - k
  {
    if k == |table| then DefaultIcon
    else if Contains(title, table[k].0) then table[k].1
    else IconFrom(title, table, k + 1)
  }

  /** `getModuleIcon`. */
  function Icon(title: string): string {
    IconFrom(title, IconTable, 0)
  }

  /** The icon of a card: `None` stands for the TypeError that `title.includes` throws on a null title. */
  function CardIcon(title: Option<string>): (r: Option<string>)
    ensures r.None? <==> title.None?
    ensures title.Some? ==> r == Some(Icon(title.value))
  {
    if title.Some? then Some(Icon(title.value)) else None
  }

  // ---------------------------------------------------------------------------
  // The training list

  /** The order the list is shown in: every pending item first, then the completed ones, each group in its old order. */
  function CompletedLast(s: seq<Item>): seq<Item> {
    Pending(s) + Done(s)
  }

  /** No completed item comes before a pending one. */
  predicate PendingFirst(s: seq<Item>) {
    forall i, j :: 0 <= i < j < |s| ==> !(IsCompleted(s[i]) && !IsCompleted(s[j]))
  }

  /**
   * `assignments.items.sort(...)` with the comparator that orders completed
   * after not completed and keeps every other pair: the array is rearranged
   * in place into its stable sort by that comparator.
   */
  method SortCompletedLast(a: array<Item>)
    modifies a
    ensures a[..] == CompletedLast(old(a[..]))
  {
    var r := CompletedLast(a[..]);
    CompletedLastPermutes(a[..]);
    ghost var before := a[..];
    for i := 0 to a.Length
      invariant a[..i] == r[..i]
      invariant a[i..] == before[i..]
    {
      a[i] := r[i];
      assert a[..i + 1] == r[..i + 1];
    }
    assert a[..] == a[..a.Length];
  }

  // ---------------------------------------------------------------------------
  // Properties

  /** The progress percentage is the nearest integer to 100·completed/total, half rounded up. */
  lemma ProgressNearest(completed: nat, total: nat)
    requires total > 0
    ensures var p := Progress(completed, total);
      2 * total * p <= 200 * completed + total < 2 * total * p + 2 * total
  {
  }

  /** The percentage lies in 0..100, is 0 with nothing completed and 100 with everything completed. */
  lemma ProgressRange(completed: nat, total: nat)
    requires completed <= total
    ensures 0 <= Progress(completed, total) <= 100
    ensures completed == 0 ==> Progress(completed, total) == 0
    ensures total > 0 && completed == total ==> Progress(completed, total) == 100
  {
    if total > 0 {
      DivBelow(200 * completed + total, 2 * total, 101);
      if completed == 0 {
        DivExact(2 * total, 0, total);
      }
      if completed == total {
        DivExact(2 * total, 100, total);
      }
    }
  }

  /** `a / b < k` whenever `a < b * k`. */
  lemma DivBelow(a: nat, b: nat, k: nat)
    requires b > 0 && a < b * k
    ensures a / b < k
  {
    var q := a / b;
    assert b * q <= a;
    LessOfMul(b, q, k);
  }

  /** `(b * k + r) / b == k` for a remainder `r < b`. */
  lemma DivExact(b: nat, k: nat, r: nat)
    requires 0 <= r < b
    ensures (b * k + r) / b == k
  {
    var a := b * k + r;
    var q := a / b;
    assert b * q <= a < b * q + b;
    LessOfMul(b, q, k + 1);
    LessOfMul(b, k, q + 1);
  }

  /** Multiplying by a positive number keeps a strict order. */
  lemma LessOfMul(t: nat, a: nat, b: nat)
    requires t > 0 && t * a < t * b
    ensures a < b
  {
    if a >= b {
      MulMono(t, b, a);
    }
  }

  lemma MulMono(t: nat, a: nat, b: nat)
    requires a <= b
    ensures t * a <= t * b
  {
  }

  /** Completing one more training never lowers the percentage. */
  lemma ProgressMonotone(c1: nat, c2: nat, total: nat)
    requires c1 <= c2
    ensures Progress(c1, total) <= Progress(c2, total)
  {
    if total > 0 {
      ProgressNearest(c1, total);
      ProgressNearest(c2, total);
      var p1, p2 := Progress(c1, total), Progress(c2, total);
      assert 2 * total * p1 < 2 * total * (p2 + 1);
      LessOfMul(2 * total, p1, p2 + 1);
    }
  }

  /** On a reply of the list endpoint, the page's percentage lies in 0..100. */
  lemma PageProgressInRange(r: ListReply)
    requires r.count == |r.items|
    ensures var (c, t) := Counts(Some(r)); 0 <= Progress(c, t) <= 100
  {
    PendingDoneSplit(r.items);
    ProgressRange(|Done(r.items)|, r.count);
  }

  /** Every element lands in exactly one of the two groups. */
  lemma {:induction false} GroupLength<T>(s: seq<T>, key: T -> bool)
    ensures |Group(s, key, false)| + |Group(s, key, true)| == |s|
  {
    if s != [] {
      GroupLength(s[1..], key);
    }
  }

  /** A group holds exactly the elements with its key. */
  lemma {:induction false} GroupMembers<T>(s: seq<T>, key: T -> bool, done: bool)
    ensures forall x :: x in Group(s, key, done) <==> x in s && key(x) == done
  {
    if s != [] {
      GroupMembers(s[1..], key, done);
      assert s == [s[0]] + s[1..];
    }
  }

  /** The two groups together are a rearrangement of the elements. */
  lemma {:induction false} GroupMultiset<T>(s: seq<T>, key: T -> bool)
    ensures multiset(Group(s, key, false)) + multiset(Group(s, key, true)) == multiset(s)
  {
    if s != [] {
      GroupMultiset(s[1..], key);
      assert s == [s[0]] + s[1..];
    }
  }

  lemma PendingDoneSplit(s: seq<Item>)
    ensures |Pending(s)| + |Done(s)| == |s|
    ensures forall x :: x in Pending(s) <==> x in s && !IsCompleted(x)
    ensures forall x :: x in Done(s) <==> x in s && IsCompleted(x)
    ensures multiset(Pending(s)) + multiset(Done(s)) == multiset(s)
  {
    GroupLength(s, IsCompleted);
    GroupMembers(s, IsCompleted, false);
    GroupMembers(s, IsCompleted, true);
    GroupMultiset(s, IsCompleted);
  }

  /** `nextAssignment` is the first item not completed, and is undefined exactly when every item is completed. */
  lemma {:induction false} NextIsFirstPending(s: seq<Item>)
    ensures Next(Some(ListReply("", 0, s))).None? <==> forall i :: 0 <= i < |s| ==> IsCompleted(s[i])
    ensures Next(Some(ListReply("", 0, s))).Some? ==>
      exists k :: 0 <= k < |s| && Next(Some(ListReply("", 0, s))) == Some(s[k]) && !IsCompleted(s[k])
        && forall i :: 0 <= i < k ==> IsCompleted(s[i])
  {
    if s != [] {
      NextIsFirstPending(s[1..]);
      assert forall i :: 1 <= i < |s| ==> s[1..][i - 1] == s[i];
      if IsCompleted(s[0]) && Pending(s[1..]) != [] {
        var k :| 0 <= k < |s[1..]| && Next(Some(ListReply("", 0, s[1..]))) == Some(s[1..][k]) && !IsCompleted(s[1..][k])
          && forall i :: 0 <= i < k ==> IsCompleted(s[1..][i]);
        assert Next(Some(ListReply("", 0, s))) == Some(s[k + 1]);
      }
    }
  }

  /** The next assignment does not depend on the reply's user or count. */
  lemma NextOfItems(u: string, c: nat, s: seq<Item>)
    ensures Next(Some(ListReply(u, c, s))) == Next(Some(ListReply("", 0, s)))
  {
  }

  lemma {:induction false} GroupConcat<T>(s: seq<T>, t: seq<T>, key: T -> bool, done: bool)
    ensures Group(s + t, key, done) == Group(s, key, done) + Group(t, key, done)
  {
    if s == [] {
      assert s + t == t;
    } else {
      var u := s + t;
      var head := if key(s[0]) == done then [s[0]] else [];
      assert u != [] && u[0] == s[0] && u[1..] == s[1..] + t;
      assert Group(u, key, done) == head + Group(s[1..] + t, key, done);
      GroupConcat(s[1..], t, key, done);
      assert Group(s, key, done) == head + Group(s[1..], key, done);
    }
  }

  /** Filtering a group again keeps it whole, and the other filter empties it. */
  lemma {:induction false} GroupIdempotent<T>(s: seq<T>, key: T -> bool, done: bool)
    ensures Group(Group(s, key, done), key, done) == Group(s, key, done)
    ensures Group(Group(s, key, done), key, !done) == []
  {
    if s != [] {
      GroupIdempotent(s[1..], key, done);
      var head := if key(s[0]) == done then [s[0]] else [];
      GroupConcat(head, Group(s[1..], key, done), key, done);
      GroupConcat(head, Group(s[1..], key, done), key, !done);
    }
  }

  /** The sorted list is a rearrangement of the items. */
  lemma CompletedLastPermutes(s: seq<Item>)
    ensures |CompletedLast(s)| == |s|
    ensures multiset(CompletedLast(s)) == multiset(s)
  {
    PendingDoneSplit(s);
  }

  /**
   * The sorted list shows every pending item before every completed one,
   * keeps the order within each group, and so leaves the pending list and
   * the next assignment as they were.
   */
  lemma CompletedLastOrdered(s: seq<Item>)
    ensures PendingFirst(CompletedLast(s))
    ensures Pending(CompletedLast(s)) == Pending(s)
    ensures Done(CompletedLast(s)) == Done(s)
  {
    PendingDoneSplit(s);
    GroupIdempotent(s, IsCompleted, false);
    GroupIdempotent(s, IsCompleted, true);
    GroupConcat(Pending(s), Done(s), IsCompleted, false);
    GroupConcat(Pending(s), Done(s), IsCompleted, true);
    var r := CompletedLast(s);
    var p := |Pending(s)|;
    forall i, j | 0 <= i < j < |r| ensures !(IsCompleted(r[i]) && !IsCompleted(r[j])) {
      if j < p {
        assert r[j] in Pending(s);
      } else {
        assert r[j] == Done(s)[j - p];
        assert r[j] in Done(s);
      }
    }
  }

  /** A sequence with its pending items first is its pending part followed by its completed part. */
  lemma {:induction false} PendingFirstSplits(r: seq<Item>)
    requires PendingFirst(r)
    ensures r == Pending(r) + Done(r)
  {
    if r != [] {
      var t := r[1..];
      assert forall i, j :: 0 <= i < j < |t| ==> t[i] == r[i + 1] && t[j] == r[j + 1];
      PendingFirstSplits(t);
      if IsCompleted(r[0]) {
        AllDone(r);
      }
    }
  }

  lemma {:induction false} AllDone(s: seq<Item>)
    requires forall i :: 0 <= i < |s| ==> IsCompleted(s[i])
    ensures Pending(s) == [] && Done(s) == s
  {
    if s != [] {
      assert forall i :: 0 <= i < |s[1..]| ==> s[1..][i] == s[i + 1];
      AllDone(s[1..]);
    }
  }

  /**
   * The stable sort is the only order with pending items first that keeps
   * both groups' orders: any such rearrangement of the items equals it.
   */
  lemma CompletedLastUnique(s: seq<Item>, r: seq<Item>)
    requires PendingFirst(r) && Pending(r) == Pending(s) && Done(r) == Done(s)
    ensures r == CompletedLast(s)
  {
    PendingFirstSplits(r);
  }

  /** `getPriorityBadge` gives high, low or medium according to the category's group. */
  lemma PriorityGroups(category: Option<string>)
    ensures Priority(category) in {"high", "medium", "low"}
    ensures Priority(category) == "high" <==>
      category.Some? && category.value in {"chemical", "biosafety", "radiation"}
    ensures Priority(category) == "low" <==> category.Some? && category.value in {"general", "ergonomics"}
    ensures category.None? ==> Priority(category) == "medium"
  {
  }

  /**
   * `getModuleIcon` answers with the icon of the first keyword the title
   * contains, and with the default icon exactly when it contains none.
   */
  lemma {:induction false} IconFromSpec(title: string, table: seq<(string, string)>, k: nat)
    requires k <= |table|
    ensures IconFrom(title, table, k) == DefaultIcon ==>
      (forall i :: k <= i < |table| ==> !Contains(title, table[i].0)) ||
      (exists i :: k <= i < |table| && table[i].1 == DefaultIcon)
    ensures (forall i :: k <= i < |table| ==> !Contains(title, table[i].0)) ==> IconFrom(title, table, k) == DefaultIcon
    ensures forall i ::
      (k <= i < |table| && Contains(title, table[i].0) && forall j :: k <= j < i ==> !Contains(title, table[j].0))
      ==> IconFrom(title, table, k) == table[i].1
    decreases |table| - k
  {
    if k < |table| {
      IconFromSpec(title, table, k + 1);
    }
  }

  /** The default icon is not the icon of any keyword. */
  lemma DefaultIconDistinct()
    ensures forall i :: 0 <= i < |IconTable| ==> IconTable[i].1 != DefaultIcon
  {
  }

  /** A title gets the icon of the first keyword it contains, and the default icon when it contains none. */
  lemma IconSpec(title: string)
    ensures Icon(title) == DefaultIcon <==> forall i :: 0 <= i < |IconTable| ==> !Contains(title, IconTable[i].0)
    ensures forall i ::
      (0 <= i < |IconTable| && Contains(title, IconTable[i].0) && forall j :: 0 <= j < i ==> !Contains(title, IconTable[j].0))
      ==> Icon(title) == IconTable[i].1
  {
    IconFromSpec(title, IconTable, 0);
    DefaultIconDistinct();
  }

  /** Since "Safety" is checked second, a fire-safety title gets the warning icon, not the fire icon. */
  lemma SafetyShadowsFire()
    ensures Icon("Fire Safety") == WarningIcon
  {
    assert !Contains("Fire Safety", "Chemical") by {
      forall i | 0 <= i <= |"Fire Safety"| ensures !MatchAt("Fire Safety", "Chemical", i) {
        if i + 8 <= 11 {
          assert "Fire Safety"[i..i + 8][0] == "Fire Safety"[i] != 'C';
        }
      }
    }
    assert MatchAt("Fire Safety", "Safety", 5);
    assert IconTable[0].0 == "Chemical" && IconTable[1] == ("Safety", WarningIcon);
    assert IconFrom("Fire Safety", IconTable, 1) == WarningIcon;
  }
}
