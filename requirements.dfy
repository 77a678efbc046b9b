/**
 * app/routers/ai_process.py after chunking: merging the requirements the
 * language model returns by normalised title, mapping them to courses by
 * keyword, and the document-processing endpoint that strings the steps
 * together. The model itself and the PDF reader are function parameters.
 */
module Requirements {
  import opened Wrappers
  import opened Text
  import opened Numbers
  import opened Sorting
  import opened Tables
  import opened Dicts
  import Chunking

  /** A requirement as the language model returns it; a missing tag list is `[]`. */
  datatype Requirement = Requirement(title: string, page: int, severity: string, tags: seq<string>)

  /** `severity_order.get(s, 0)`. */
  function SeverityOrder(s: string): nat {
    if s == "low" then 1 else if s == "medium" then 2 else if s == "high" then 3 else 0
  }

  /** `title.strip().lower()`, the normalisation the endpoint merges titles by. */
  function Normalize(title: string): string {
    Lower(Strip(title))
  }

  function Keys(reqs: seq<Requirement>, norm: string -> string): (ks: seq<string>)
    ensures |ks| == |reqs|
    ensures forall i :: 0 <= i < |reqs| ==> ks[i] == norm(reqs[i].title)
  {
    seq(|reqs|, i requires 0 <= i < |reqs| => norm(reqs[i].title))
  }

  /** Folding a later duplicate `r` into the kept requirement. */
  function Merge(existing: Requirement, r: Requirement): Requirement {
    existing.(
      page := if r.page < existing.page then r.page else existing.page,
      severity := if SeverityOrder(r.severity) > SeverityOrder(existing.severity) then r.severity else existing.severity,
      tags := Distinct(existing.tags + r.tags))
  }

  /** The requirements whose normalised title is `k`, in input order. */
  function Group(reqs: seq<Requirement>, k: string, norm: string -> string): seq<Requirement> {
    if reqs == [] then []
    else
      var last := reqs[|reqs| - 1];
      Group(reqs[..|reqs| - 1], k, norm) + if norm(last.title) == k then [last] else []
  }

  /** A group holds exactly the requirements with its title. */
  lemma {:induction false} GroupMembers(reqs: seq<Requirement>, k: string, norm: string -> string)
    ensures forall x :: 0 <= x < |Group(reqs, k, norm)| ==> norm(Group(reqs, k, norm)[x].title) == k && Group(reqs, k, norm)[x] in reqs
    ensures forall j :: 0 <= j < |reqs| && norm(reqs[j].title) == k ==> reqs[j] in Group(reqs, k, norm)
  {
    if reqs != [] {
      var n := |reqs| - 1;
      var pre := reqs[..n];
      GroupMembers(pre, k, norm);
      var g := Group(reqs, k, norm);
      var gp := Group(pre, k, norm);
      assert reqs == pre + [reqs[n]];
      assert g == gp + if norm(reqs[n].title) == k then [reqs[n]] else [];
      forall j | 0 <= j < |reqs| && norm(reqs[j].title) == k ensures reqs[j] in g {
        if j < n {
          assert pre[j] == reqs[j];
        }
      }
    }
  }

  /** A group folded from the left: the first member absorbs the rest. */
  function Combine(g: seq<Requirement>): Requirement
    requires g != []
  {
    if |g| == 1 then g[0] else Merge(Combine(g[..|g| - 1]), g[|g| - 1])
  }

  lemma GroupNonEmpty(reqs: seq<Requirement>, k: string, norm: string -> string)
    requires k in Keys(reqs, norm)
    ensures Group(reqs, k, norm) != []
  {
    var j :| 0 <= j < |reqs| && Keys(reqs, norm)[j] == k;
    GroupMembers(reqs, k, norm);
  }

  function Summary(reqs: seq<Requirement>, k: string, norm: string -> string): Requirement
    requires k in Keys(reqs, norm)
  {
    GroupNonEmpty(reqs, k, norm);
    Combine(Group(reqs, k, norm))
  }

  /**
   * The reference result of `deduplicate_requirements`: one requirement per
   * distinct normalised title, in the order titles first appear, each
   * folding together every requirement with that title.
   */
  function DedupSpec(reqs: seq<Requirement>, norm: string -> string): (out: seq<Requirement>)
    ensures |out| == |Distinct(Keys(reqs, norm))|
  {
    var d := Distinct(Keys(reqs, norm));
    DistinctSpec(Keys(reqs, norm));
    seq(|d|, i requires 0 <= i < |d| => Summary(reqs, d[i], norm))
  }

  /** A group is empty exactly when no requirement has its title. */
  lemma GroupEmptyIff(reqs: seq<Requirement>, k: string, norm: string -> string)
    ensures Group(reqs, k, norm) == [] <==> k !in Keys(reqs, norm)
  {
    GroupMembers(reqs, k, norm);
    if Group(reqs, k, norm) != [] {
      var r := Group(reqs, k, norm)[0];
      var j :| 0 <= j < |reqs| && reqs[j] == r;
      assert Keys(reqs, norm)[j] == k;
    }
    if k in Keys(reqs, norm) {
      GroupNonEmpty(reqs, k, norm);
    }
  }

  /** Appending a requirement appends its key. */
  lemma KeysAppend(pre: seq<Requirement>, r: Requirement, norm: string -> string)
    ensures Keys(pre + [r], norm) == Keys(pre, norm) + [norm(r.title)]
  {
  }

  /** Appending a requirement adds it to its own group only. */
  lemma GroupAppend(pre: seq<Requirement>, r: Requirement, k: string, norm: string -> string)
    ensures Group(pre + [r], k, norm) == Group(pre, k, norm) + (if norm(r.title) == k then [r] else [])
  {
    assert (pre + [r])[..|pre|] == pre;
  }

  /** A requirement with another title leaves a merged entry as it was. */
  lemma SummaryOther(pre: seq<Requirement>, r: Requirement, k: string, norm: string -> string)
    requires k in Keys(pre + [r], norm) && k != norm(r.title)
    ensures k in Keys(pre, norm) && Summary(pre + [r], k, norm) == Summary(pre, k, norm)
  {
    KeysAppend(pre, r, norm);
    assert k in Keys(pre, norm) by {
      var j :| 0 <= j < |pre| + 1 && Keys(pre + [r], norm)[j] == k;
      assert j < |pre| && Keys(pre, norm)[j] == k;
    }
    GroupAppend(pre, r, k, norm);
    assert Group(pre + [r], k, norm) == Group(pre, k, norm);
  }

  /** A requirement with a title seen before is merged into its entry. */
  lemma SummaryMerge(pre: seq<Requirement>, r: Requirement, norm: string -> string)
    requires norm(r.title) in Keys(pre, norm)
    ensures norm(r.title) in Keys(pre + [r], norm)
    ensures Summary(pre + [r], norm(r.title), norm) == Merge(Summary(pre, norm(r.title), norm), r)
  {
    var k := norm(r.title);
    KeysAppend(pre, r, norm);
    GroupAppend(pre, r, k, norm);
    var g := Group(pre, k, norm);
    GroupNonEmpty(pre, k, norm);
    assert (g + [r])[..|g|] == g;
  }

  /** A requirement with a new title becomes its own entry. */
  lemma SummaryFirst(pre: seq<Requirement>, r: Requirement, norm: string -> string)
    requires norm(r.title) !in Keys(pre, norm)
    ensures norm(r.title) in Keys(pre + [r], norm)
    ensures Summary(pre + [r], norm(r.title), norm) == r
  {
    KeysAppend(pre, r, norm);
    GroupAppend(pre, r, norm(r.title), norm);
    GroupEmptyIff(pre, norm(r.title), norm);
  }

  /** Appending a requirement adds its key to the distinct keys when it is new. */
  lemma DistinctKeysAppend(done: seq<Requirement>, r: Requirement, norm: string -> string)
    ensures Distinct(Keys(done + [r], norm))
      == if norm(r.title) in Keys(done, norm) then Distinct(Keys(done, norm))
         else Distinct(Keys(done, norm)) + [norm(r.title)]
  {
    KeysAppend(done, r, norm);
    var s := Keys(done + [r], norm);
    assert s[..|s| - 1] == Keys(done, norm);
    DistinctSpec(Keys(done, norm));
  }

  /** The state of `deduplicate_requirements` once the requirements `done` are in. */
  ghost predicate DedupState(done: seq<Requirement>, seen: map<string, Requirement>, order: seq<string>, norm: string -> string) {
    && order == Distinct(Keys(done, norm))
    && (forall k :: k in seen <==> k in Keys(done, norm))
    && (forall k :: k in seen ==> k in Keys(done, norm) && seen[k] == Summary(done, k, norm))
  }

  /** A title seen before: its entry absorbs the new requirement. */
  lemma DedupStepSeen(done: seq<Requirement>, r: Requirement, seen: map<string, Requirement>, order: seq<string>, norm: string -> string)
    requires DedupState(done, seen, order, norm) && norm(r.title) in seen
    ensures DedupState(done + [r], seen[norm(r.title) := Merge(seen[norm(r.title)], r)], order, norm)
  {
    var key := norm(r.title);
    var seen' := seen[key := Merge(seen[key], r)];
    assert order == Distinct(Keys(done + [r], norm)) by {
      DistinctKeysAppend(done, r, norm);
    }
    assert forall k :: k in seen' <==> k in Keys(done + [r], norm) by {
      KeysAppend(done, r, norm);
    }
    assert forall k :: k in seen' ==> k in Keys(done + [r], norm) && seen'[k] == Summary(done + [r], k, norm) by {
      forall k | k in seen'
        ensures k in Keys(done + [r], norm) && seen'[k] == Summary(done + [r], k, norm)
      {
        if k == key { SummaryMerge(done, r, norm); } else { SummaryOther(done, r, k, norm); }
      }
    }
  }

  /** A new title: it is appended to the order with the requirement as its entry. */
  lemma DedupStepNew(done: seq<Requirement>, r: Requirement, seen: map<string, Requirement>, order: seq<string>, norm: string -> string)
    requires DedupState(done, seen, order, norm) && norm(r.title) !in seen
    ensures DedupState(done + [r], seen[norm(r.title) := r], order + [norm(r.title)], norm)
  {
    var key := norm(r.title);
    var seen' := seen[key := r];
    assert order + [key] == Distinct(Keys(done + [r], norm)) by {
      DistinctKeysAppend(done, r, norm);
    }
    assert forall k :: k in seen' <==> k in Keys(done + [r], norm) by {
      KeysAppend(done, r, norm);
    }
    assert forall k :: k in seen' ==> k in Keys(done + [r], norm) && seen'[k] == Summary(done + [r], k, norm) by {
      forall k | k in seen'
        ensures k in Keys(done + [r], norm) && seen'[k] == Summary(done + [r], k, norm)
      {
        if k == key { SummaryFirst(done, r, norm); } else { SummaryOther(done, r, k, norm); }
      }
    }
  }

  /** `deduplicate_requirements`, without the generated ids. */
  method Deduplicate(reqs: seq<Requirement>) returns (result: seq<Requirement>)
    ensures result == DedupSpec(reqs, Normalize)
  {
    var seen: map<string, Requirement> := map[];
    var order: seq<string> := [];
    ghost var done: seq<Requirement> := [];
    var i := 0;
    while i < |reqs|
      invariant 0 <= i <= |reqs| && done == reqs[..i]
      invariant DedupState(done, seen, order, Normalize)
    {
      var req := reqs[i];
      assert reqs[..i + 1] == reqs[..i] + [req];
      var normalizedTitle := Normalize(req.title);
      if normalizedTitle in seen {
        DedupStepSeen(done, req, seen, order, Normalize);
        seen := seen[normalizedTitle := Merge(seen[normalizedTitle], req)];
      } else {
        DedupStepNew(done, req, seen, order, Normalize);
        seen := seen[normalizedTitle := req];
        order := order + [normalizedTitle];
      }
      done := done + [req];
      i := i + 1;
    }
    assert done == reqs;
    DedupStateSeen(reqs, seen, order, Normalize);
    result := Values(order, seen);
    DedupFinal(reqs, seen, order, result, Normalize);
  }

  /** Every title in the order has an entry. */
  lemma DedupStateSeen(reqs: seq<Requirement>, seen: map<string, Requirement>, order: seq<string>, norm: string -> string)
    requires DedupState(reqs, seen, order, norm)
    ensures forall j :: 0 <= j < |order| ==> order[j] in seen
  {
    DistinctSpec(Keys(reqs, norm));
    forall j | 0 <= j < |order| ensures order[j] in seen {
      assert order[j] in Distinct(Keys(reqs, norm));
    }
  }

  /** Once every requirement is in, the kept entries in title order are the reference result. */
  lemma DedupFinal(reqs: seq<Requirement>, seen: map<string, Requirement>, order: seq<string>, result: seq<Requirement>, norm: string -> string)
    requires DedupState(reqs, seen, order, norm)
    requires |result| == |order| && forall j :: 0 <= j < |order| ==> order[j] in seen && result[j] == seen[order[j]]
    ensures result == DedupSpec(reqs, norm)
  {
    DistinctSpec(Keys(reqs, norm));
    forall j | 0 <= j < |result| ensures result[j] == DedupSpec(reqs, norm)[j] {
      assert order[j] in Distinct(Keys(reqs, norm));
    }
  }

  /** The kept title is the first one; the page is the least; the severity the highest. */
  lemma {:induction false} CombineProperties(g: seq<Requirement>)
    requires g != []
    ensures Combine(g).title == g[0].title
    ensures forall x :: 0 <= x < |g| ==> Combine(g).page <= g[x].page
    ensures exists x :: 0 <= x < |g| && Combine(g).page == g[x].page
    ensures forall x :: 0 <= x < |g| ==> SeverityOrder(g[x].severity) <= SeverityOrder(Combine(g).severity)
    ensures exists x :: 0 <= x < |g| && Combine(g).severity == g[x].severity
  {
    if |g| > 1 {
      var n := |g| - 1;
      CombineProperties(g[..n]);
      var c := Combine(g[..n]);
      assert Combine(g) == Merge(c, g[n]);
      assert forall x :: 0 <= x < n ==> g[..n][x] == g[x];
      var xp :| 0 <= xp < n && c.page == g[..n][xp].page;
      var xs :| 0 <= xs < n && c.severity == g[..n][xs].severity;
    }
  }

  /** The merged tags are the union of the group's tags. */
  lemma {:induction false} CombineTags(g: seq<Requirement>)
    requires g != []
    ensures forall t :: t in Combine(g).tags <==> exists x :: 0 <= x < |g| && t in g[x].tags
  {
    if |g| > 1 {
      var n := |g| - 1;
      CombineTags(g[..n]);
      var c := Combine(g[..n]);
      assert Combine(g) == Merge(c, g[n]);
      DistinctSpec(c.tags + g[n].tags);
      forall t ensures t in Combine(g).tags <==> exists x :: 0 <= x < |g| && t in g[x].tags {
        assert t in Combine(g).tags <==> t in c.tags || t in g[n].tags;
        if t in c.tags {
          var x :| 0 <= x < n && t in g[..n][x].tags;
          assert t in g[x].tags;
        }
        if exists x :: 0 <= x < |g| && t in g[x].tags {
          var x :| 0 <= x < |g| && t in g[x].tags;
          if x < n { assert g[..n][x] == g[x]; }
        }
      }
    }
  }

  /** Each kept title is the one of the earliest requirement in its group. */
  lemma {:induction false} GroupHead(reqs: seq<Requirement>, k: string, norm: string -> string)
    requires k in Keys(reqs, norm)
    ensures Group(reqs, k, norm) != [] && Group(reqs, k, norm)[0] == reqs[IndexOf(Keys(reqs, norm), k)]
    decreases |reqs|
  {
    var n := |reqs| - 1;
    var pre, r := reqs[..n], reqs[n];
    assert reqs == pre + [r];
    KeysAppend(pre, r, norm);
    GroupAppend(pre, r, k, norm);
    var ks := Keys(reqs, norm);
    if k in Keys(pre, norm) {
      GroupHead(pre, k, norm);
      assert ks[..n] == Keys(pre, norm);
      IndexOfPrefix(ks, n, k);
      var m := IndexOf(Keys(pre, norm), k);
      assert Group(reqs, k, norm)[0] == Group(pre, k, norm)[0] == pre[m] == reqs[m];
    } else {
      GroupEmptyIff(pre, k, norm);
      forall j | 0 <= j < n ensures ks[j] != k {
        assert ks[j] == Keys(pre, norm)[j];
      }
      assert IndexOf(ks, k) == n;
    }
  }

  /** After merging, normalised titles are unique and appear in first-occurrence order. */
  lemma DedupTitlesUnique(reqs: seq<Requirement>, norm: string -> string)
    ensures forall i :: 0 <= i < |DedupSpec(reqs, norm)| ==> norm(DedupSpec(reqs, norm)[i].title) == Distinct(Keys(reqs, norm))[i]
    ensures forall i, j :: 0 <= i < j < |DedupSpec(reqs, norm)| ==>
      norm(DedupSpec(reqs, norm)[i].title) != norm(DedupSpec(reqs, norm)[j].title)
    ensures forall i, j :: 0 <= i < j < |DedupSpec(reqs, norm)| ==>
      && norm(DedupSpec(reqs, norm)[i].title) in Keys(reqs, norm) && norm(DedupSpec(reqs, norm)[j].title) in Keys(reqs, norm)
      && IndexOf(Keys(reqs, norm), norm(DedupSpec(reqs, norm)[i].title)) < IndexOf(Keys(reqs, norm), norm(DedupSpec(reqs, norm)[j].title))
    ensures forall j :: 0 <= j < |reqs| ==> exists i :: 0 <= i < |DedupSpec(reqs, norm)| && norm(DedupSpec(reqs, norm)[i].title) == norm(reqs[j].title)
  {
    var d := Distinct(Keys(reqs, norm));
    var out := DedupSpec(reqs, norm);
    DistinctSpec(Keys(reqs, norm));
    forall i | 0 <= i < |out| ensures norm(out[i].title) == d[i] {
      SummaryHead(reqs, d[i], norm);
    }
    DistinctKeepsFirstOrder(Keys(reqs, norm));
    forall j | 0 <= j < |reqs| ensures exists i :: 0 <= i < |out| && norm(out[i].title) == norm(reqs[j].title) {
      assert Keys(reqs, norm)[j] in d;
      var i :| 0 <= i < |d| && d[i] == Keys(reqs, norm)[j];
      assert norm(out[i].title) == norm(reqs[j].title);
    }
  }

  /** A merged requirement keeps the title, and so the key, of the first of its group. */
  lemma SummaryHead(reqs: seq<Requirement>, k: string, norm: string -> string)
    requires k in Keys(reqs, norm)
    ensures Summary(reqs, k, norm).title == reqs[IndexOf(Keys(reqs, norm), k)].title
    ensures norm(Summary(reqs, k, norm).title) == k
  {
    GroupHead(reqs, k, norm);
    CombineProperties(Group(reqs, k, norm));
  }

  /** A merged requirement has the least page and the highest severity of its group. */
  lemma SummaryBounds(reqs: seq<Requirement>, k: string, norm: string -> string)
    requires k in Keys(reqs, norm)
    ensures forall j :: 0 <= j < |reqs| && norm(reqs[j].title) == k ==>
      Summary(reqs, k, norm).page <= reqs[j].page && SeverityOrder(reqs[j].severity) <= SeverityOrder(Summary(reqs, k, norm).severity)
    ensures exists j :: 0 <= j < |reqs| && norm(reqs[j].title) == k && Summary(reqs, k, norm).page == reqs[j].page
    ensures exists j :: 0 <= j < |reqs| && norm(reqs[j].title) == k && Summary(reqs, k, norm).severity == reqs[j].severity
  {
    var g := Group(reqs, k, norm);
    var o := Summary(reqs, k, norm);
    GroupMembers(reqs, k, norm);
    CombineProperties(g);
    forall j | 0 <= j < |reqs| && norm(reqs[j].title) == k
      ensures o.page <= reqs[j].page && SeverityOrder(reqs[j].severity) <= SeverityOrder(o.severity)
    {
      assert reqs[j] in g;
      var x :| 0 <= x < |g| && g[x] == reqs[j];
    }
    var xp :| 0 <= xp < |g| && o.page == g[xp].page;
    assert g[xp] in reqs;
    var jp :| 0 <= jp < |reqs| && reqs[jp] == g[xp];
    assert norm(reqs[jp].title) == k && o.page == reqs[jp].page;
    var xs :| 0 <= xs < |g| && o.severity == g[xs].severity;
    assert g[xs] in reqs;
    var js :| 0 <= js < |reqs| && reqs[js] == g[xs];
    assert norm(reqs[js].title) == k && o.severity == reqs[js].severity;
  }

  /** A merged requirement's tags are the union of its group's tags. */
  lemma SummaryTags(reqs: seq<Requirement>, k: string, norm: string -> string)
    requires k in Keys(reqs, norm)
    ensures forall t :: t in Summary(reqs, k, norm).tags <==>
      exists j :: 0 <= j < |reqs| && norm(reqs[j].title) == k && t in reqs[j].tags
  {
    var g := Group(reqs, k, norm);
    var o := Summary(reqs, k, norm);
    GroupMembers(reqs, k, norm);
    CombineTags(g);
    forall t ensures t in o.tags <==> exists j :: 0 <= j < |reqs| && norm(reqs[j].title) == k && t in reqs[j].tags {
      if t in o.tags {
        var x :| 0 <= x < |g| && t in g[x].tags;
        var j :| 0 <= j < |reqs| && reqs[j] == g[x];
      }
      if exists j :: 0 <= j < |reqs| && norm(reqs[j].title) == k && t in reqs[j].tags {
        var j :| 0 <= j < |reqs| && norm(reqs[j].title) == k && t in reqs[j].tags;
        var x :| 0 <= x < |g| && g[x] == reqs[j];
      }
    }
  }

  /**
   * Each merged requirement carries the first title of its group, the least
   * page, the highest severity and the union of the tags.
   */
  lemma DedupMerges(reqs: seq<Requirement>, i: nat, norm: string -> string)
    requires i < |DedupSpec(reqs, norm)|
    ensures var o := DedupSpec(reqs, norm)[i];
      && norm(o.title) in Keys(reqs, norm)
      && o.title == reqs[IndexOf(Keys(reqs, norm), norm(o.title))].title
      && (forall j :: 0 <= j < |reqs| && norm(reqs[j].title) == norm(o.title) ==>
            o.page <= reqs[j].page && SeverityOrder(reqs[j].severity) <= SeverityOrder(o.severity))
      && (exists j :: 0 <= j < |reqs| && norm(reqs[j].title) == norm(o.title) && o.page == reqs[j].page)
      && (forall t :: t in o.tags <==> exists j :: 0 <= j < |reqs| && norm(reqs[j].title) == norm(o.title) && t in reqs[j].tags)
  {
    var d := Distinct(Keys(reqs, norm));
    DistinctSpec(Keys(reqs, norm));
    var k := d[i];
    assert DedupSpec(reqs, norm)[i] == Summary(reqs, k, norm);
    SummaryHead(reqs, k, norm);
    SummaryBounds(reqs, k, norm);
    SummaryTags(reqs, k, norm);
  }

  // ---------------------------------------------------------------------
  // Keyword mapping

  datatype MappedCourse = MappedCourse(courseId: string, confidence: real)

  /** `KEYWORD_MAPPING`, in its declared order. */
  const KeywordMapping: seq<(string, seq<string>)> := [
    ("PPE-201", ["ppe", "gloves", "goggles", "face shield", "helmet", "safety glasses"]),
    ("CHEM-SPILL-110", ["spill", "msds", "sds", "chemical", "hazardous", "toxic"]),
    ("LAB-SAFETY-101", ["lab", "bench", "pipette", "biosafety", "laboratory", "experiment"]),
    ("FIRE-SAFETY-201", ["fire", "extinguisher", "evacuation", "emergency", "flame"]),
    ("HAZCOM-1910", ["hazcom", "ghs", "labeling", "communication", "classification"])
  ]

  /** The lower-cased title and tags a requirement is searched in. */
  function ReqText(r: Requirement): string {
    Lower(r.title + " " + Join(r.tags, " "))
  }

  predicate MatchesAny(r: Requirement, keywords: seq<string>) {
    exists q | 0 <= q < |keywords| :: Contains(ReqText(r), Lower(keywords[q]))
  }

  /** The number of requirements that mention at least one of the keywords. */
  function MatchCount(reqs: seq<Requirement>, keywords: seq<string>): (m: nat)
    ensures m <= |reqs|
  {
    if reqs == [] then 0
    else MatchCount(reqs[..|reqs| - 1], keywords) + if MatchesAny(reqs[|reqs| - 1], keywords) then 1 else 0
  }

  /** `min(0.95, 0.6 + (matches / total_reqs) * 0.35)`, before rounding. */
  function RawConfidence(matches: nat, total: nat): real
    requires total > 0
  {
    var c := 0.6 + (matches as real / total as real) * 0.35;
    if 0.95 <= c then 0.95 else c
  }

  /** `round(x, 2)` on the exact value, a half rounded up. */
  function Round2(x: real): real {
    (x * 100.0 + 0.5).Floor as real / 100.0
  }

  /** The stored confidence: `round(min(0.95, 0.6 + (matches / total_reqs) * 0.35), 2)`. */
  function Confidence(matches: nat, total: nat): real
    requires total > 0
  {
    Round2(RawConfidence(matches, total))
  }

  /** Rounding moves a value by at most half a hundredth. */
  lemma Round2Near(x: real)
    ensures x - 0.005 < Round2(x) <= x + 0.005
  {
  }

  /** Rounding never reverses an order, and two-place values are kept. */
  lemma Round2Monotone(x: real, y: real)
    requires x <= y
    ensures Round2(x) <= Round2(y)
  {
    assert (x * 100.0 + 0.5).Floor <= (y * 100.0 + 0.5).Floor;
  }

  lemma Round2Hundredths(k: int)
    ensures Round2(k as real / 100.0) == k as real / 100.0
  {
    var y := k as real + 0.5;
    assert (k as real / 100.0) * 100.0 + 0.5 == y;
    assert y.Floor == k by {
      assert k as real <= y < k as real + 1.0;
    }
  }

  /** No two entries of a keyword table name the same course. */
  predicate TableIdsDistinct(table: seq<(string, seq<string>)>) {
    forall i, j :: 0 <= i < j < |table| ==> table[i].0 != table[j].0
  }

  lemma KeywordMappingIdsDistinct()
    ensures TableIdsDistinct(KeywordMapping)
  {
  }

  /** How many requirements mention each entry of `table`. */
  function MatchCounts(table: seq<(string, seq<string>)>, reqs: seq<Requirement>): (ms: seq<nat>)
    ensures |ms| == |table|
    ensures forall c :: 0 <= c < |table| ==> ms[c] == MatchCount(reqs, table[c].1) && ms[c] <= |reqs|
  {
    seq(|table|, c requires 0 <= c < |table| => MatchCount(reqs, table[c].1))
  }

  predicate CountsFit(table: seq<(string, seq<string>)>, ms: seq<nat>, total: nat) {
    |ms| == |table| && forall c :: 0 <= c < |ms| ==> ms[c] <= total
  }

  /**
   * The mapped courses before sorting, for the first `n` entries of `table`,
   * given each entry's match count `ms` out of `total` requirements.
   */
  function Candidates(table: seq<(string, seq<string>)>, ms: seq<nat>, total: nat, n: nat): (cs: seq<MappedCourse>)
    requires n <= |table| && CountsFit(table, ms, total)
  {
    if n == 0 then []
    else
      Candidates(table, ms, total, n - 1)
        + if ms[n - 1] > 0 then [MappedCourse(table[n - 1].0, Confidence(ms[n - 1], total))] else []
  }

  function ByConfidenceDesc(a: MappedCourse, b: MappedCourse): bool {
    a.confidence >= b.confidence
  }

  /** What `map_requirements_to_courses` returns: the candidates, highest confidence first. */
  function MappingSpec(reqs: seq<Requirement>): seq<MappedCourse> {
    MappingWith(KeywordMapping, reqs)
  }

  /** The mapping for any keyword table. */
  function MappingWith(table: seq<(string, seq<string>)>, reqs: seq<Requirement>): seq<MappedCourse> {
    SortBy(Candidates(table, MatchCounts(table, reqs), |reqs|, |table|), ByConfidenceDesc)
  }

  /** `map_requirements_to_courses`: sorted on the confidences rounded to two places. */
  method MapRequirementsToCourses(reqs: seq<Requirement>) returns (mapped: seq<MappedCourse>)
    ensures mapped == MappingSpec(reqs)
  {
    var unsorted: seq<MappedCourse> := [];
    var c := 0;
    while c < |KeywordMapping|
      invariant 0 <= c <= |KeywordMapping|
      invariant unsorted == Candidates(KeywordMapping, MatchCounts(KeywordMapping, reqs), |reqs|, c)
    {
      var (courseId, keywords) := KeywordMapping[c];
      var matches := 0;
      var totalReqs := |reqs|;
      var j := 0;
      while j < |reqs|
        invariant 0 <= j <= |reqs|
        invariant matches == MatchCount(reqs[..j], keywords)
      {
        var reqText := ReqText(reqs[j]);
        assert reqs[..j + 1][..j] == reqs[..j];
        var k := 0;
        while k < |keywords|
          invariant 0 <= k <= |keywords|
          invariant forall q :: 0 <= q < k ==> !Contains(reqText, Lower(keywords[q]))
        {
          if Contains(reqText, Lower(keywords[k])) {
            matches := matches + 1;
            break;
          }
          k := k + 1;
        }
        j := j + 1;
      }
      assert reqs[..j] == reqs;
      if matches > 0 {
        var confidence := Confidence(matches, totalReqs);
        unsorted := unsorted + [MappedCourse(courseId, confidence)];
      }
      c := c + 1;
    }
    mapped := SortBy(unsorted, ByConfidenceDesc);
  }

  /** A course is matched exactly when some requirement mentions one of its keywords. */
  lemma {:induction false} MatchCountPositive(reqs: seq<Requirement>, keywords: seq<string>)
    ensures MatchCount(reqs, keywords) > 0 <==> exists j :: 0 <= j < |reqs| && MatchesAny(reqs[j], keywords)
  {
    if reqs != [] {
      var n := |reqs| - 1;
      MatchCountPositive(reqs[..n], keywords);
      if exists j :: 0 <= j < n && MatchesAny(reqs[..n][j], keywords) {
        var j :| 0 <= j < n && MatchesAny(reqs[..n][j], keywords);
        assert reqs[j] == reqs[..n][j];
      }
      if exists j :: 0 <= j < |reqs| && MatchesAny(reqs[j], keywords) {
        var j :| 0 <= j < |reqs| && MatchesAny(reqs[j], keywords);
        if j < n { assert reqs[..n][j] == reqs[j]; }
      }
    }
  }

  /**
   * With at most `total` matches the 0.95 cap is never reached early: the
   * value before rounding lies in (0.6, 0.95], and the rounded one in
   * [0.6, 0.95], within half a hundredth of it.
   */
  lemma ConfidenceRange(matches: nat, total: nat)
    requires 0 < matches <= total
    ensures 0.6 < RawConfidence(matches, total) <= 0.95
    ensures RawConfidence(matches, total) == 0.6 + (matches as real / total as real) * 0.35
    ensures 0.6 <= Confidence(matches, total) <= 0.95
    ensures RawConfidence(matches, total) - 0.005 < Confidence(matches, total) <= RawConfidence(matches, total) + 0.005
  {
    assert matches as real / total as real <= 1.0;
    assert 0.0 < matches as real / total as real;
    var raw := RawConfidence(matches, total);
    Round2Near(raw);
    Round2Hundredths(60);
    Round2Hundredths(95);
    Round2Monotone(60 as real / 100.0, raw);
    Round2Monotone(raw, 95 as real / 100.0);
  }

  /**
   * Rounding makes different match counts tie: out of 100 requirements, 2
   * and 3 matches both give 0.61, and 1 match gives the floor 0.6 itself.
   */
  lemma ConfidenceTies()
    ensures Confidence(2, 100) == Confidence(3, 100) == 0.61
    ensures Confidence(1, 100) == 0.6
  {
    assert RawConfidence(2, 100) == 0.607;
    assert (0.607 * 100.0 + 0.5).Floor == 61;
    assert RawConfidence(3, 100) == 0.6105;
    assert (0.6105 * 100.0 + 0.5).Floor == 61;
    assert RawConfidence(1, 100) == 0.6035;
    assert (0.6035 * 100.0 + 0.5).Floor == 60;
  }

  function CourseIdOf(m: MappedCourse): string {
    m.courseId
  }

  /** Every confidence lies in [0.6, 0.95]. */
  predicate ConfidencesInRange(cs: seq<MappedCourse>) {
    forall i :: 0 <= i < |cs| ==> 0.6 <= cs[i].confidence <= 0.95
  }

  /** Every listed course is one of the first `n` entries with a positive match count. */
  predicate FromTable(cs: seq<MappedCourse>, table: seq<(string, seq<string>)>, ms: seq<nat>, n: nat)
    requires n <= |table| && n <= |ms|
  {
    forall i :: 0 <= i < |cs| ==> exists c :: 0 <= c < n && cs[i].courseId == table[c].0 && ms[c] > 0
  }

  /** Every one of the first `n` entries with a positive match count is listed. */
  predicate CoversTable(cs: seq<MappedCourse>, table: seq<(string, seq<string>)>, ms: seq<nat>, n: nat)
    requires n <= |table| && n <= |ms|
  {
    forall c :: 0 <= c < n && ms[c] > 0 ==> exists i :: 0 <= i < |cs| && cs[i].courseId == table[c].0
  }

  lemma {:induction false} CandidatesConfidence(table: seq<(string, seq<string>)>, ms: seq<nat>, total: nat, n: nat)
    requires n <= |table| && CountsFit(table, ms, total)
    ensures ConfidencesInRange(Candidates(table, ms, total, n))
  {
    if n > 0 {
      CandidatesConfidence(table, ms, total, n - 1);
      var m := ms[n - 1];
      if m > 0 {
        ConfidenceRange(m, total);
      }
    }
  }

  lemma {:induction false} CandidatesFromTable(table: seq<(string, seq<string>)>, ms: seq<nat>, total: nat, n: nat)
    requires n <= |table| && CountsFit(table, ms, total)
    ensures FromTable(Candidates(table, ms, total, n), table, ms, n)
  {
    if n > 0 {
      CandidatesFromTable(table, ms, total, n - 1);
      var prev := Candidates(table, ms, total, n - 1);
      var cs := Candidates(table, ms, total, n);
      assert cs[..|prev|] == prev;
      forall i | 0 <= i < |cs|
        ensures exists c :: 0 <= c < n && cs[i].courseId == table[c].0 && ms[c] > 0
      {
        if i < |prev| {
          assert cs[i] == prev[i];
          var c :| 0 <= c < n - 1 && prev[i].courseId == table[c].0 && ms[c] > 0;
        } else {
          assert cs[i].courseId == table[n - 1].0 && ms[n - 1] > 0;
        }
      }
    }
  }

  lemma {:induction false} CandidatesCoverTable(table: seq<(string, seq<string>)>, ms: seq<nat>, total: nat, n: nat)
    requires n <= |table| && CountsFit(table, ms, total)
    ensures CoversTable(Candidates(table, ms, total, n), table, ms, n)
  {
    if n > 0 {
      CandidatesCoverTable(table, ms, total, n - 1);
      var prev := Candidates(table, ms, total, n - 1);
      var cs := Candidates(table, ms, total, n);
      assert cs[..|prev|] == prev;
      forall c | 0 <= c < n && ms[c] > 0
        ensures exists i :: 0 <= i < |cs| && cs[i].courseId == table[c].0
      {
        if c < n - 1 {
          var i :| 0 <= i < |prev| && prev[i].courseId == table[c].0;
          assert cs[i] == prev[i];
        } else {
          assert cs[|prev|].courseId == table[c].0;
        }
      }
    }
  }

  /** No course is a candidate twice. */
  lemma {:induction false} CandidatesDistinct(table: seq<(string, seq<string>)>, ms: seq<nat>, total: nat, n: nat)
    requires n <= |table| && CountsFit(table, ms, total) && TableIdsDistinct(table)
    ensures KeysDistinct(Candidates(table, ms, total, n), CourseIdOf)
  {
    if n > 0 {
      CandidatesDistinct(table, ms, total, n - 1);
      var prev := Candidates(table, ms, total, n - 1);
      if ms[n - 1] > 0 {
        CandidatesFromTable(table, ms, total, n - 1);
        var last := MappedCourse(table[n - 1].0, Confidence(ms[n - 1], total));
        forall i | 0 <= i < |prev| ensures CourseIdOf(prev[i]) != CourseIdOf(last) {
          var c :| 0 <= c < n - 1 && prev[i].courseId == table[c].0 && ms[c] > 0;
        }
        AppendKeepsKeysDistinct(prev, last, CourseIdOf);
      }
    }
  }

  /**
   * For a table naming each course once, the mapping lists each course at
   * most once, each with a confidence in [0.6, 0.95], highest first.
   */
  lemma MappingWithOrdered(table: seq<(string, seq<string>)>, reqs: seq<Requirement>)
    requires TableIdsDistinct(table)
    ensures SortedBy(MappingWith(table, reqs), ByConfidenceDesc)
    ensures ConfidencesInRange(MappingWith(table, reqs))
    ensures KeysDistinct(MappingWith(table, reqs), CourseIdOf)
  {
    var ms := MatchCounts(table, reqs);
    var cs := Candidates(table, ms, |reqs|, |table|);
    var r := MappingWith(table, reqs);
    SortBySorted(cs, ByConfidenceDesc);
    CandidatesConfidence(table, ms, |reqs|, |table|);
    CandidatesDistinct(table, ms, |reqs|, |table|);
    SortBySameElements(cs, ByConfidenceDesc);
    SortByKeepsKeysDistinct(cs, ByConfidenceDesc, CourseIdOf);
    forall i | 0 <= i < |r| ensures 0.6 <= r[i].confidence <= 0.95 {
      assert r[i] in cs;
      var x :| 0 <= x < |cs| && cs[x] == r[i];
    }
  }

  /** For a table naming each course once, a course is mapped exactly when its match count is positive. */
  lemma MappingWithIds(table: seq<(string, seq<string>)>, reqs: seq<Requirement>, c: nat)
    requires TableIdsDistinct(table) && c < |table|
    ensures (exists i :: 0 <= i < |MappingWith(table, reqs)| && MappingWith(table, reqs)[i].courseId == table[c].0)
       <==> MatchCount(reqs, table[c].1) > 0
  {
    if exists i :: 0 <= i < |MappingWith(table, reqs)| && MappingWith(table, reqs)[i].courseId == table[c].0 {
      var i :| 0 <= i < |MappingWith(table, reqs)| && MappingWith(table, reqs)[i].courseId == table[c].0;
      MappedHasCount(table, reqs, c, i);
    }
    if MatchCount(reqs, table[c].1) > 0 {
      CountIsMapped(table, reqs, c);
    }
  }

  lemma MappedHasCount(table: seq<(string, seq<string>)>, reqs: seq<Requirement>, c: nat, i: nat)
    requires TableIdsDistinct(table) && c < |table|
    requires i < |MappingWith(table, reqs)| && MappingWith(table, reqs)[i].courseId == table[c].0
    ensures MatchCount(reqs, table[c].1) > 0
  {
    var ms := MatchCounts(table, reqs);
    var cs := Candidates(table, ms, |reqs|, |table|);
    var r := MappingWith(table, reqs);
    assert multiset(r) == multiset(cs);
    assert r[i] in multiset(cs);
    var x :| 0 <= x < |cs| && cs[x] == r[i];
    CandidatesFromTable(table, ms, |reqs|, |table|);
    var c2 :| 0 <= c2 < |table| && cs[x].courseId == table[c2].0 && ms[c2] > 0;
    assert c2 == c;
  }

  lemma CountIsMapped(table: seq<(string, seq<string>)>, reqs: seq<Requirement>, c: nat)
    requires TableIdsDistinct(table) && c < |table|
    requires MatchCount(reqs, table[c].1) > 0
    ensures exists i :: 0 <= i < |MappingWith(table, reqs)| && MappingWith(table, reqs)[i].courseId == table[c].0
  {
    var ms := MatchCounts(table, reqs);
    var cs := Candidates(table, ms, |reqs|, |table|);
    var r := MappingWith(table, reqs);
    assert multiset(r) == multiset(cs);
    CandidatesCoverTable(table, ms, |reqs|, |table|);
    var x :| 0 <= x < |cs| && cs[x].courseId == table[c].0;
    assert cs[x] in multiset(r);
    var i :| 0 <= i < |r| && r[i] == cs[x];
  }

  /** For a table naming each course once, a course is mapped exactly when some requirement mentions one of its keywords. */
  lemma MappingWithCourses(table: seq<(string, seq<string>)>, reqs: seq<Requirement>, c: nat)
    requires TableIdsDistinct(table) && c < |table|
    ensures (exists i :: 0 <= i < |MappingWith(table, reqs)| && MappingWith(table, reqs)[i].courseId == table[c].0)
       <==> (exists j :: 0 <= j < |reqs| && MatchesAny(reqs[j], table[c].1))
  {
    MappingWithIds(table, reqs, c);
    MatchCountPositive(reqs, table[c].1);
  }

  /**
   * `map_requirements_to_courses` lists each course of `KEYWORD_MAPPING` at
   * most once, exactly those some requirement mentions, each with a
   * confidence in [0.6, 0.95], highest first.
   */
  lemma MappingProperties(reqs: seq<Requirement>)
    ensures SortedBy(MappingSpec(reqs), ByConfidenceDesc)
    ensures ConfidencesInRange(MappingSpec(reqs))
    ensures KeysDistinct(MappingSpec(reqs), CourseIdOf)
    ensures forall c :: 0 <= c < |KeywordMapping| ==>
      ((exists i :: 0 <= i < |MappingSpec(reqs)| && MappingSpec(reqs)[i].courseId == KeywordMapping[c].0)
       <==> (exists j :: 0 <= j < |reqs| && MatchesAny(reqs[j], KeywordMapping[c].1)))
  {
    KeywordMappingIdsDistinct();
    assert MappingSpec(reqs) == MappingWith(KeywordMapping, reqs);
    MappingWithOrdered(KeywordMapping, reqs);
    forall c | 0 <= c < |KeywordMapping|
      ensures (exists i :: 0 <= i < |MappingSpec(reqs)| && MappingSpec(reqs)[i].courseId == KeywordMapping[c].0)
          <==> (exists j :: 0 <= j < |reqs| && MatchesAny(reqs[j], KeywordMapping[c].1))
    {
      MappingWithCourses(KeywordMapping, reqs, c);
    }
  }

  // ---------------------------------------------------------------------
  // The endpoint

  datatype ProcessResponse = ProcessResponse(docId: int, requirements: seq<Requirement>, mappedCourses: seq<MappedCourse>)

  /** Every chunk's requirements, chunk after chunk. */
  function AnalyzeAll(chunks: seq<Chunking.Chunk>, analyze: Chunking.Chunk -> seq<Requirement>): seq<Requirement> {
    if chunks == [] then [] else AnalyzeAll(chunks[..|chunks| - 1], analyze) + analyze(chunks[|chunks| - 1])
  }

  /** The `doc_course_map` rows written for a successful run. */
  function RowsFor(docId: int, mapped: seq<MappedCourse>, reqCount: nat): (rows: seq<DocCourseRow>)
    ensures |rows| == |mapped|
    ensures forall i :: 0 <= i < |rows| ==>
      rows[i] == DocCourseRow(docId, mapped[i].courseId, mapped[i].confidence, "Mapped from " + NatToString(reqCount) + " requirements")
  {
    seq(|mapped|, i requires 0 <= i < |mapped| =>
      DocCourseRow(docId, mapped[i].courseId, mapped[i].confidence, "Mapped from " + NatToString(reqCount) + " requirements"))
  }

  /** Step 3 of `process_document`: every chunk's requirements, in chunk order. */
  method AnalyzeChunks(chunks: seq<Chunking.Chunk>, analyze: Chunking.Chunk -> seq<Requirement>)
    returns (allRequirements: seq<Requirement>)
    ensures allRequirements == AnalyzeAll(chunks, analyze)
  {
    allRequirements := [];
    var c := 0;
    while c < |chunks|
      invariant 0 <= c <= |chunks|
      invariant allRequirements == AnalyzeAll(chunks[..c], analyze)
    {
      assert chunks[..c + 1][..c] == chunks[..c];
      allRequirements := allRequirements + analyze(chunks[c]);
      c := c + 1;
    }
    assert chunks[..c] == chunks;
  }

  /** Step 6 of `process_document`: one `doc_course_map` row per mapped course. */
  method StoreMappings(docId: int, mappedCourses: seq<MappedCourse>, reqCount: nat)
    returns (inserted: seq<DocCourseRow>)
    ensures inserted == RowsFor(docId, mappedCourses, reqCount)
  {
    inserted := [];
    var i := 0;
    while i < |mappedCourses|
      invariant 0 <= i <= |mappedCourses|
      invariant inserted == RowsFor(docId, mappedCourses[..i], reqCount)
    {
      var course := mappedCourses[i];
      inserted := inserted + [DocCourseRow(docId, course.courseId, course.confidence,
        "Mapped from " + NatToString(reqCount) + " requirements")];
      i := i + 1;
    }
    assert mappedCourses[..i] == mappedCourses;
  }

  /**
   * `process_document`: 404 for an unknown document, 409 once the document
   * has course mappings, 500 when the PDF cannot be read, 400 when it has
   * no text; otherwise every chunk is analysed, the requirements merged and
   * mapped, and one row per mapped course is appended to `doc_course_map`.
   */
  method ProcessDocument(
    docId: int, documents: map<int, DocumentRow>, docCourseMap: seq<DocCourseRow>,
    readPdf: string -> Option<seq<string>>, analyze: Chunking.Chunk -> seq<Requirement>)
    returns (r: Result<ProcessResponse>, inserted: seq<DocCourseRow>)
    ensures docId !in documents ==> r == Err(404, "Document not found") && inserted == []
    ensures docId in documents && |RowsOfDoc(docCourseMap, docId)| > 0 ==>
      r == Err(409, "Document already processed") && inserted == []
    ensures docId in documents && |RowsOfDoc(docCourseMap, docId)| == 0 && readPdf(documents[docId].path).None? ==>
      r == Err(500, "PDF extraction failed") && inserted == []
    ensures docId in documents && |RowsOfDoc(docCourseMap, docId)| == 0 && readPdf(documents[docId].path).Some?
            && Chunking.AllChunksFrom(Chunking.ChunkSize, readPdf(documents[docId].path).value, 0) == [] ==>
      r == Err(400, "No text extracted from PDF") && inserted == []
    ensures docId in documents && |RowsOfDoc(docCourseMap, docId)| == 0 && readPdf(documents[docId].path).Some?
            && Chunking.AllChunksFrom(Chunking.ChunkSize, readPdf(documents[docId].path).value, 0) != [] ==>
      r.Ok?
    ensures r.Ok? ==>
      && docId in documents && |RowsOfDoc(docCourseMap, docId)| == 0
      && readPdf(documents[docId].path).Some?
      && var chunks := Take(Chunking.AllChunksFrom(Chunking.ChunkSize, readPdf(documents[docId].path).value, 0), Chunking.MaxChunks);
         var reqs := DedupSpec(AnalyzeAll(chunks, analyze), Normalize);
         && chunks != []
         && r.value == ProcessResponse(docId, reqs, MappingSpec(reqs))
         && inserted == RowsFor(docId, MappingSpec(reqs), |reqs|)
  {
    inserted := [];
    if docId !in documents {
      return Err(404, "Document not found"), [];
    }
    var filePath := documents[docId].path;
    var existingCount := |RowsOfDoc(docCourseMap, docId)|;
    if existingCount > 0 {
      return Err(409, "Document already processed"), [];
    }
    var pages := readPdf(filePath);
    if pages.None? {
      return Err(500, "PDF extraction failed"), [];
    }
    var chunks := Chunking.ExtractChunks(pages.value);
    if chunks == [] {
      return Err(400, "No text extracted from PDF"), [];
    }
    var allRequirements := AnalyzeChunks(chunks, analyze);
    var requirements := Deduplicate(allRequirements);
    var mappedCourses := MapRequirementsToCourses(requirements);
    inserted := StoreMappings(docId, mappedCourses, |requirements|);
    r := Ok(ProcessResponse(docId, requirements, mappedCourses));
  }

  /**
   * Once a run has mapped at least one course, the document has mappings,
   * so processing it again is refused with 409.
   */
  lemma SecondRunRefused(docCourseMap: seq<DocCourseRow>, docId: int, mapped: seq<MappedCourse>, reqCount: nat)
    requires mapped != []
    ensures |RowsOfDoc(docCourseMap + RowsFor(docId, mapped, reqCount), docId)|
         == |RowsOfDoc(docCourseMap, docId)| + |mapped|
    ensures |RowsOfDoc(docCourseMap + RowsFor(docId, mapped, reqCount), docId)| > 0
  {
    var rows := RowsFor(docId, mapped, reqCount);
    RowsOfDocAppend(docCourseMap, rows, docId);
    assert RowsOfDoc(rows, docId) == rows by { AllOfDoc(rows, docId); }
  }

  lemma {:induction false} AllOfDoc(rows: seq<DocCourseRow>, docId: int)
    requires forall i :: 0 <= i < |rows| ==> rows[i].docId == docId
    ensures RowsOfDoc(rows, docId) == rows
  {
    if rows != [] {
      AllOfDoc(rows[..|rows| - 1], docId);
      assert rows == rows[..|rows| - 1] + [rows[|rows| - 1]];
    }
  }
}
