/**
 * app/routers/documents.py: the bookkeeping of the document routers.
 * `map_document` replaces a document's course mappings with the rule-based
 * matches; `promote_document_courses` turns a document's mappings into rule
 * requirements of a role; `extract_document_courses` stores the catalogue
 * courses an LLM suggests; `process_document` does the same and then
 * applies the kept courses to every role the LLM detects with enough
 * confidence.
 *
 * The PDF reader, the rule matcher and the two LLM calls are inputs: the
 * pages the reader extracts (or none, when it fails) and functions from the
 * text to the matches. Tables are values: `documents` and `roles` are maps
 * keyed by their unique columns, `doc_course_map` is a list of rows in
 * insertion order, and `rule_requirements` is a map keyed by its unique
 * constraint (role_id, course_id, region).
 */
module Documents {
  import opened Wrappers
  import opened Text
  import opened Tables

  // ---------------------------------------------------------------------------
  // Reading the PDF

  /** The length of Python's `xs[:stop]` for a list of `len` elements. */
  function SliceStop(len: nat, stop: int): (n: nat)
    ensures n <= len
  {
    if stop >= 0 then (if stop <= len then stop else len)
    else if len + stop >= 0 then len + stop else 0
  }

  /** `reader.pages[: (pages_limit or len(reader.pages))]`: a null or zero limit reads every page. */
  function PagesRead(len: nat, limit: Option<int>): (n: nat)
    ensures n <= len
  {
    if limit.None? || limit.value == 0 then len else SliceStop(len, limit.value)
  }

  /** How many pages are read, for each kind of limit. */
  lemma PagesReadSpec(len: nat, limit: Option<int>)
    ensures limit.None? ==> PagesRead(len, limit) == len
    ensures limit.Some? && limit.value == 0 ==> PagesRead(len, limit) == len
    ensures limit.Some? && limit.value > 0 ==>
      PagesRead(len, limit) == (if limit.value < len then limit.value else len)
    ensures limit.Some? && limit.value < 0 ==>
      PagesRead(len, limit) == (if -limit.value < len then len + limit.value else 0)
  {
  }

  /** `"\n".join((p.extract_text() or "") for p in pages)` over the pages read. */
  function PdfText(pages: seq<Option<string>>, limit: Option<int>): string {
    var n := PagesRead(|pages|, limit);
    Join(seq(n, i requires 0 <= i < n => pages[i].GetOr("")), "\n")
  }

  // ---------------------------------------------------------------------------
  // map_document

  /** One `(course_id, confidence, excerpt)` of `map_text_to_courses`. */
  datatype Match = Match(courseId: string, confidence: real, excerpt: string)

  /** A suggestion of the `map_document` reply (the confidence is not rounded here). */
  datatype Suggestion = Suggestion(courseId: string, confidence: real, excerpt: string)

  datatype MapReply = MapReply(docId: int, inserted: nat, suggestions: seq<Suggestion>)

  /** `DELETE FROM doc_course_map WHERE doc_id = %s`. */
  function WithoutDoc(rows: seq<DocCourseRow>, docId: int): (r: seq<DocCourseRow>)
    ensures |r| <= |rows|
    decreases |rows|
  {
    if rows == [] then []
    else
      var n := |rows| - 1;
      WithoutDoc(rows[..n], docId) + if rows[n].docId != docId then [rows[n]] else []
  }

  /** The rows `map_document` inserts, the rule text cut to 1000 characters. */
  function MatchRows(docId: int, ms: seq<Match>): (rows: seq<DocCourseRow>)
    ensures |rows| == |ms|
    ensures forall i :: 0 <= i < |ms| ==>
      rows[i] == DocCourseRow(docId, ms[i].courseId, ms[i].confidence, Take(ms[i].excerpt, 1000))
  {
    seq(|ms|, i requires 0 <= i < |ms| => DocCourseRow(docId, ms[i].courseId, ms[i].confidence, Take(ms[i].excerpt, 1000)))
  }

  function Suggestions(ms: seq<Match>): (ss: seq<Suggestion>)
    ensures |ss| == |ms|
    ensures forall i :: 0 <= i < |ms| ==>
      ss[i] == Suggestion(ms[i].courseId, ms[i].confidence, Take(ms[i].excerpt, 240))
  {
    seq(|ms|, i requires 0 <= i < |ms| => Suggestion(ms[i].courseId, ms[i].confidence, Take(ms[i].excerpt, 240)))
  }

  /**
   * `map_document`: 404 for an unknown document and 500 when the PDF cannot
   * be read; otherwise the old mappings of the document are deleted and one
   * row per match is inserted, in one transaction. A match whose course is
   * not in `courses` violates the foreign key, so the request fails with 500
   * and the transaction leaves the table as it was.
   */
  method MapDocument(docId: int, documents: map<int, DocumentRow>, rows: seq<DocCourseRow>,
                     courseIds: set<string>, pdf: Option<seq<Option<string>>>, limit: Option<int>,
                     mapText: string -> seq<Match>)
    returns (r: Result<MapReply>, out: seq<DocCourseRow>)
    ensures docId !in documents ==> r == Err(404, "Document not found") && out == rows
    ensures docId in documents && pdf.None? ==> r == Err(500, "PDF read error") && out == rows
    ensures docId in documents && pdf.Some? ==>
      var ms := mapText(PdfText(pdf.value, limit));
      if forall i :: 0 <= i < |ms| ==> ms[i].courseId in courseIds then
        && r == Ok(MapReply(docId, |ms|, Suggestions(ms)))
        && out == WithoutDoc(rows, docId) + MatchRows(docId, ms)
      else
        r == Err(500, "Internal Server Error") && out == rows
  {
    if docId !in documents {
      return Err(404, "Document not found"), rows;
    }
    if pdf.None? {
      return Err(500, "PDF read error"), rows;
    }
    var ms := mapText(PdfText(pdf.value, limit));
    var table := WithoutDoc(rows, docId);
    for i := 0 to |ms|
      invariant table == WithoutDoc(rows, docId) + MatchRows(docId, ms)[..i]
      invariant forall j :: 0 <= j < i ==> ms[j].courseId in courseIds
    {
      if ms[i].courseId !in courseIds {
        return Err(500, "Internal Server Error"), rows;
      }
      assert MatchRows(docId, ms)[..i + 1] == MatchRows(docId, ms)[..i] + [MatchRows(docId, ms)[i]];
      table := table + [DocCourseRow(docId, ms[i].courseId, ms[i].confidence, Take(ms[i].excerpt, 1000))];
    }
    assert MatchRows(docId, ms)[..|ms|] == MatchRows(docId, ms);
    r, out := Ok(MapReply(docId, |ms|, Suggestions(ms))), table;
  }

  /** After the delete the document has no rows, and every other document keeps its rows. */
  lemma {:induction false} WithoutDocRows(rows: seq<DocCourseRow>, docId: int, d: int)
    ensures RowsOfDoc(WithoutDoc(rows, docId), d) == if d == docId then [] else RowsOfDoc(rows, d)
    decreases |rows|
  {
    if rows != [] {
      var n := |rows| - 1;
      WithoutDocRows(rows[..n], docId, d);
      var keep := if rows[n].docId != docId then [rows[n]] else [];
      RowsOfDocAppend(WithoutDoc(rows[..n], docId), keep, d);
      assert RowsOfDoc(keep, d) == if rows[n].docId != docId && rows[n].docId == d then [rows[n]] else [] by {
        if keep != [] { assert keep[..0] == []; }
      }
    }
  }

  lemma {:induction false} RowsOfOneDoc(rows: seq<DocCourseRow>, docId: int, d: int)
    requires forall i :: 0 <= i < |rows| ==> rows[i].docId == docId
    ensures RowsOfDoc(rows, d) == if d == docId then rows else []
    decreases |rows|
  {
    if rows != [] {
      var n := |rows| - 1;
      assert forall i :: 0 <= i < n ==> rows[..n][i] == rows[i];
      RowsOfOneDoc(rows[..n], docId, d);
      if d == docId {
        assert rows == rows[..n] + [rows[n]];
      }
    }
  }

  /**
   * `map_document` replaces the document's mappings by exactly the new
   * matches, in their order, and leaves every other document's mappings as
   * they were.
   */
  lemma MapDocumentReplaces(rows: seq<DocCourseRow>, docId: int, ms: seq<Match>, d: int)
    ensures RowsOfDoc(WithoutDoc(rows, docId) + MatchRows(docId, ms), d)
      == if d == docId then MatchRows(docId, ms) else RowsOfDoc(rows, d)
  {
    RowsOfDocAppend(WithoutDoc(rows, docId), MatchRows(docId, ms), d);
    WithoutDocRows(rows, docId, d);
    RowsOfOneDoc(MatchRows(docId, ms), docId, d);
  }

  // ---------------------------------------------------------------------------
  // Storing LLM course matches (extract_document_courses, process step 5)

  /** A course suggestion of `extract_courses`, already normalised by it. */
  datatype LlmMatch = LlmMatch(courseId: string, confidence: real, evidence: string)

  /** The outcome of the course LLM call: an answer, a throttling error or another error. */
  datatype CourseAnswer = Answered(matches: seq<LlmMatch>) | Throttled | Failed

  /** An entry of the course catalogue the LLM is shown. */
  datatype CatalogEntry = CatalogEntry(courseId: string, title: string)

  function KnownIds(catalog: seq<CatalogEntry>): set<string> {
    set i | 0 <= i < |catalog| :: catalog[i].courseId
  }

  /** The table, the two counters and the kept course ids while the matches are stored. */
  datatype StoreState = StoreState(rows: seq<DocCourseRow>, inserted: nat, skipped: nat, kept: seq<string>)

  /**
   * One match: an id outside the catalogue is ignored; a known id is kept,
   * and inserted unless the `(doc_id, course_id)` pair already has a row,
   * in which case it is counted as skipped.
   */
  function StoreStep(st: StoreState, docId: int, known: set<string>, m: LlmMatch): StoreState {
    if m.courseId !in known then st
    else
      var kept := if m.courseId in st.kept then st.kept else st.kept + [m.courseId];
      if HasPair(st.rows, docId, m.courseId) then st.(skipped := st.skipped + 1, kept := kept)
      else st.(rows := st.rows + [DocCourseRow(docId, m.courseId, m.confidence, Take(m.evidence, 1000))],
               inserted := st.inserted + 1, kept := kept)
  }

  /** The state after the first `n` matches. */
  function StoreUpTo(st: StoreState, docId: int, known: set<string>, ms: seq<LlmMatch>, n: nat): StoreState
    requires n <= |ms|
  {
    if n == 0 then st else StoreStep(StoreUpTo(st, docId, known, ms, n - 1), docId, known, ms[n - 1])
  }

  function Fresh(rows: seq<DocCourseRow>): StoreState {
    StoreState(rows, 0, 0, [])
  }

  /** The loop over the matches, in one transaction. */
  method StoreMatches(rows: seq<DocCourseRow>, docId: int, known: set<string>, ms: seq<LlmMatch>)
    returns (st: StoreState)
    ensures st == StoreUpTo(Fresh(rows), docId, known, ms, |ms|)
  {
    st := Fresh(rows);
    for i := 0 to |ms|
      invariant st == StoreUpTo(Fresh(rows), docId, known, ms, i)
    {
      var m := ms[i];
      if m.courseId in known {
        if m.courseId !in st.kept {
          st := st.(kept := st.kept + [m.courseId]);
        }
        if HasPair(st.rows, docId, m.courseId) {
          st := st.(skipped := st.skipped + 1);
        } else {
          st := st.(rows := st.rows + [DocCourseRow(docId, m.courseId, m.confidence, Take(m.evidence, 1000))],
                    inserted := st.inserted + 1);
        }
      }
    }
  }

  /** How many of the first `n` matches name a catalogue course. */
  function KnownCount(ms: seq<LlmMatch>, known: set<string>, n: nat): nat
    requires n <= |ms|
  {
    if n == 0 then 0 else KnownCount(ms, known, n - 1) + if ms[n - 1].courseId in known then 1 else 0
  }

  /**
   * Every known match is either inserted or skipped, unknown ones are
   * neither, and each insert adds one row.
   */
  lemma {:induction false} StoreTallies(rows: seq<DocCourseRow>, docId: int, known: set<string>, ms: seq<LlmMatch>, n: nat)
    requires n <= |ms|
    ensures var st := StoreUpTo(Fresh(rows), docId, known, ms, n);
      st.inserted + st.skipped == KnownCount(ms, known, n) && |st.rows| == |rows| + st.inserted
  {
    if n > 0 {
      StoreTallies(rows, docId, known, ms, n - 1);
    }
  }

  /**
   * Storing only appends, and every appended row maps the document to a
   * catalogue course suggested by the LLM that had no row for it before.
   */
  lemma {:induction false} StoreAppendsFresh(rows: seq<DocCourseRow>, docId: int, known: set<string>, ms: seq<LlmMatch>, n: nat)
    requires n <= |ms|
    ensures var st := StoreUpTo(Fresh(rows), docId, known, ms, n);
      && |rows| <= |st.rows|
      && st.rows[..|rows|] == rows
      && forall j :: |rows| <= j < |st.rows| ==>
           && st.rows[j].docId == docId
           && st.rows[j].courseId in known
           && (exists i :: 0 <= i < n && ms[i].courseId == st.rows[j].courseId)
           && !HasPair(rows, docId, st.rows[j].courseId)
  {
    if n > 0 {
      StoreAppendsFresh(rows, docId, known, ms, n - 1);
      var prev := StoreUpTo(Fresh(rows), docId, known, ms, n - 1);
      var st := StoreUpTo(Fresh(rows), docId, known, ms, n);
      assert st == StoreStep(prev, docId, known, ms[n - 1]);
      if st.rows != prev.rows {
        var j := |prev.rows|;
        assert st.rows == prev.rows + [st.rows[j]];
        forall k | 0 <= k < |rows| ensures prev.rows[k] == rows[k] {
          assert prev.rows[..|rows|][k] == prev.rows[k];
        }
        forall j' | |rows| <= j' < |st.rows|
          ensures exists i :: 0 <= i < n && ms[i].courseId == st.rows[j'].courseId
        {
          if j' < j {
            var i :| 0 <= i < n - 1 && ms[i].courseId == prev.rows[j'].courseId;
            assert st.rows[j'] == prev.rows[j'];
          } else {
            assert ms[n - 1].courseId == st.rows[j'].courseId;
          }
        }
        assert st.rows[..|rows|] == prev.rows[..|rows|];
      }
    }
  }

  /** Storing never makes a `(doc_id, course_id)` pair occur twice. */
  lemma {:induction false} StoreKeepsPairsUnique(rows: seq<DocCourseRow>, docId: int, known: set<string>, ms: seq<LlmMatch>, n: nat)
    requires n <= |ms|
    requires PairsUnique(rows)
    ensures PairsUnique(StoreUpTo(Fresh(rows), docId, known, ms, n).rows)
  {
    if n > 0 {
      StoreKeepsPairsUnique(rows, docId, known, ms, n - 1);
      var prev := StoreUpTo(Fresh(rows), docId, known, ms, n - 1);
      var st := StoreUpTo(Fresh(rows), docId, known, ms, n);
      assert st == StoreStep(prev, docId, known, ms[n - 1]);
      if st.rows != prev.rows {
        var x := st.rows[|prev.rows|];
        assert st.rows == prev.rows + [x];
        assert !HasPair(prev.rows, x.docId, x.courseId);
        forall i, j | 0 <= i < j < |st.rows|
          ensures st.rows[i].docId != st.rows[j].docId || st.rows[i].courseId != st.rows[j].courseId
        {
          if j == |prev.rows| {
            assert st.rows[i] == prev.rows[i];
          } else {
            assert st.rows[i] == prev.rows[i] && st.rows[j] == prev.rows[j];
          }
        }
      }
    }
  }

  /**
   * After storing, every catalogue course among the matches has a row for
   * the document, and the kept ids are exactly those courses, each once.
   */
  lemma {:induction false} StoreCovers(rows: seq<DocCourseRow>, docId: int, known: set<string>, ms: seq<LlmMatch>, n: nat)
    requires n <= |ms|
    ensures var st := StoreUpTo(Fresh(rows), docId, known, ms, n);
      && (forall i :: 0 <= i < n && ms[i].courseId in known ==> HasPair(st.rows, docId, ms[i].courseId))
      && (forall c :: c in st.kept <==> c in known && exists i :: 0 <= i < n && ms[i].courseId == c)
      && NoDuplicates(st.kept)
  {
    if n > 0 {
      StoreCovers(rows, docId, known, ms, n - 1);
      var prev := StoreUpTo(Fresh(rows), docId, known, ms, n - 1);
      var st := StoreUpTo(Fresh(rows), docId, known, ms, n);
      assert st == StoreStep(prev, docId, known, ms[n - 1]);
      assert |prev.rows| <= |st.rows| && st.rows[..|prev.rows|] == prev.rows;
      forall i | 0 <= i < n && ms[i].courseId in known ensures HasPair(st.rows, docId, ms[i].courseId) {
        if i < n - 1 {
          var k :| 0 <= k < |prev.rows| && prev.rows[k].docId == docId && prev.rows[k].courseId == ms[i].courseId;
          assert st.rows[k] == prev.rows[k];
        } else if !HasPair(prev.rows, docId, ms[i].courseId) {
          assert st.rows[|prev.rows|].courseId == ms[i].courseId;
        } else {
          var k :| 0 <= k < |prev.rows| && prev.rows[k].docId == docId && prev.rows[k].courseId == ms[i].courseId;
          assert st.rows[k] == prev.rows[k];
        }
      }
      forall c ensures c in st.kept <==> c in known && exists i :: 0 <= i < n && ms[i].courseId == c {
        if c in known && c != ms[n - 1].courseId && exists i :: 0 <= i < n && ms[i].courseId == c {
          var i :| 0 <= i < n && ms[i].courseId == c;
          assert i < n - 1;
        }
      }
    }
  }

  /** When every known match already has a row, storing inserts nothing and changes nothing. */
  lemma {:induction false} StoreWhenCovered(rows: seq<DocCourseRow>, docId: int, known: set<string>, ms: seq<LlmMatch>, n: nat)
    requires n <= |ms|
    requires forall i :: 0 <= i < |ms| && ms[i].courseId in known ==> HasPair(rows, docId, ms[i].courseId)
    ensures StoreUpTo(Fresh(rows), docId, known, ms, n).rows == rows
    ensures StoreUpTo(Fresh(rows), docId, known, ms, n).inserted == 0
  {
    if n > 0 {
      StoreWhenCovered(rows, docId, known, ms, n - 1);
    }
  }

  /** Storing the same matches a second time inserts nothing. */
  lemma StoreRerun(rows: seq<DocCourseRow>, docId: int, known: set<string>, ms: seq<LlmMatch>)
    ensures var st := StoreUpTo(Fresh(rows), docId, known, ms, |ms|);
      var again := StoreUpTo(Fresh(st.rows), docId, known, ms, |ms|);
      again.rows == st.rows && again.inserted == 0
  {
    StoreCovers(rows, docId, known, ms, |ms|);
    var st := StoreUpTo(Fresh(rows), docId, known, ms, |ms|);
    StoreWhenCovered(st.rows, docId, known, ms, |ms|);
  }

  // ---------------------------------------------------------------------------
  // extract_document_courses

  datatype LlmSuggestion = LlmSuggestion(courseId: string, confidence: real, evidence: string)

  datatype ExtractReply = ExtractReply(docId: int, inserted: nat, skipped: nat, suggestions: seq<LlmSuggestion>)

  /** `llm_suggestions`: at most the first 20 matches, evidence cut to 240 characters. */
  function LlmSuggestions(ms: seq<LlmMatch>): (ss: seq<LlmSuggestion>)
    ensures |ss| == if |ms| < 20 then |ms| else 20
    ensures forall i :: 0 <= i < |ss| ==>
      ss[i] == LlmSuggestion(ms[i].courseId, ms[i].confidence, Take(ms[i].evidence, 240))
  {
    var n := if |ms| < 20 then |ms| else 20;
    seq(n, i requires 0 <= i < n => LlmSuggestion(ms[i].courseId, ms[i].confidence, Take(ms[i].evidence, 240)))
  }

  /**
   * `extract_document_courses`: 404 for an unknown document, 500 when the PDF
   * cannot be read or the course LLM call raises (throttled or not: nothing
   * catches it here); otherwise the catalogue courses among the matches are
   * stored and the counters returned.
   */
  method ExtractDocumentCourses(docId: int, documents: map<int, DocumentRow>, rows: seq<DocCourseRow>,
                                catalog: seq<CatalogEntry>, pdf: Option<seq<Option<string>>>, limit: Option<int>,
                                llm: (string, seq<CatalogEntry>) -> CourseAnswer)
    returns (r: Result<ExtractReply>, out: seq<DocCourseRow>)
    ensures docId !in documents ==> r == Err(404, "Document not found") && out == rows
    ensures docId in documents && pdf.None? ==> r == Err(500, "PDF read error") && out == rows
    ensures docId in documents && pdf.Some? ==>
      var answer := llm(PdfText(pdf.value, limit), catalog);
      if answer.Answered? then
        var st := StoreUpTo(Fresh(rows), docId, KnownIds(catalog), answer.matches, |answer.matches|);
        && r == Ok(ExtractReply(docId, st.inserted, st.skipped, LlmSuggestions(answer.matches)))
        && out == st.rows
      else
        r == Err(500, "Internal Server Error") && out == rows
  {
    if docId !in documents {
      return Err(404, "Document not found"), rows;
    }
    if pdf.None? {
      return Err(500, "PDF read error"), rows;
    }
    var answer := llm(PdfText(pdf.value, limit), catalog);
    if !answer.Answered? {
      return Err(500, "Internal Server Error"), rows;
    }
    var st := StoreMatches(rows, docId, KnownIds(catalog), answer.matches);
    r, out := Ok(ExtractReply(docId, st.inserted, st.skipped, LlmSuggestions(answer.matches))), st.rows;
  }

  // ---------------------------------------------------------------------------
  // Rule requirements (promote_document_courses, process step 6)

  /** The unique constraint of `rule_requirements`: (role_id, course_id, region). */
  datatype RuleKey = RuleKey(roleId: int, courseId: string, region: string)

  datatype RuleInfo = RuleInfo(frequency: string, active: bool)

  datatype RuleState = RuleState(rules: map<RuleKey, RuleInfo>, inserted: nat, skipped: nat)

  /** `INSERT ... ON CONFLICT (role_id, course_id, region) DO NOTHING` and its row count. */
  function RuleStep(st: RuleState, roleId: int, cid: string, frequency: string, region: string): RuleState {
    var k := RuleKey(roleId, cid, region);
    if k in st.rules then st.(skipped := st.skipped + 1)
    else st.(rules := st.rules[k := RuleInfo(frequency, true)], inserted := st.inserted + 1)
  }

  function RulesUpTo(st: RuleState, roleId: int, cids: seq<string>, frequency: string, region: string, n: nat): RuleState
    requires n <= |cids|
  {
    if n == 0 then st else RuleStep(RulesUpTo(st, roleId, cids, frequency, region, n - 1), roleId, cids[n - 1], frequency, region)
  }

  method InsertRules(st0: RuleState, roleId: int, cids: seq<string>, frequency: string, region: string)
    returns (st: RuleState)
    ensures st == RulesUpTo(st0, roleId, cids, frequency, region, |cids|)
  {
    st := st0;
    for i := 0 to |cids|
      invariant st == RulesUpTo(st0, roleId, cids, frequency, region, i)
    {
      var k := RuleKey(roleId, cids[i], region);
      if k in st.rules {
        st := st.(skipped := st.skipped + 1);
      } else {
        st := st.(rules := st.rules[k := RuleInfo(frequency, true)], inserted := st.inserted + 1);
      }
    }
  }

  /** Every course id is either inserted or skipped, and each insert adds exactly one new rule. */
  lemma {:induction false} RulesTallies(st0: RuleState, roleId: int, cids: seq<string>, frequency: string, region: string, n: nat)
    requires n <= |cids|
    ensures var st := RulesUpTo(st0, roleId, cids, frequency, region, n);
      && st.inserted + st.skipped == st0.inserted + st0.skipped + n
      && |st.rules.Keys| + st0.inserted == |st0.rules.Keys| + st.inserted
  {
    if n > 0 {
      RulesTallies(st0, roleId, cids, frequency, region, n - 1);
      var prev := RulesUpTo(st0, roleId, cids, frequency, region, n - 1);
      RuleStepTally(prev, roleId, cids[n - 1], frequency, region);
    }
  }

  lemma RuleStepTally(st: RuleState, roleId: int, cid: string, frequency: string, region: string)
    ensures var next := RuleStep(st, roleId, cid, frequency, region);
      && next.inserted + next.skipped == st.inserted + st.skipped + 1
      && |next.rules.Keys| + st.inserted == |st.rules.Keys| + next.inserted
  {
    var k := RuleKey(roleId, cid, region);
    if k !in st.rules {
      assert st.rules[k := RuleInfo(frequency, true)].Keys == st.rules.Keys + {k};
    }
  }

  /** One insert keeps every rule and adds at most the rule for its own key. */
  lemma RuleStepEffect(st: RuleState, roleId: int, cid: string, frequency: string, region: string)
    ensures var next := RuleStep(st, roleId, cid, frequency, region);
      var k := RuleKey(roleId, cid, region);
      && k in next.rules
      && (forall k2 :: k2 in st.rules ==> k2 in next.rules && next.rules[k2] == st.rules[k2])
      && (forall k2 :: k2 in next.rules && k2 !in st.rules ==> k2 == k && next.rules[k2] == RuleInfo(frequency, true))
  {
  }

  /** Existing rules are untouched, and afterwards every course id has a rule for the role and region. */
  lemma {:induction false} RulesKeep(st0: RuleState, roleId: int, cids: seq<string>, frequency: string, region: string, n: nat)
    requires n <= |cids|
    ensures var st := RulesUpTo(st0, roleId, cids, frequency, region, n);
      && (forall k :: k in st0.rules ==> k in st.rules && st.rules[k] == st0.rules[k])
      && (forall i :: 0 <= i < n ==> RuleKey(roleId, cids[i], region) in st.rules)
  {
    if n > 0 {
      RulesKeep(st0, roleId, cids, frequency, region, n - 1);
      var prev := RulesUpTo(st0, roleId, cids, frequency, region, n - 1);
      RuleStepEffect(prev, roleId, cids[n - 1], frequency, region);
    }
  }

  /** Every new rule is an active rule of the role and region, with the given frequency, for one of the course ids. */
  lemma {:induction false} RulesNew(st0: RuleState, roleId: int, cids: seq<string>, frequency: string, region: string, n: nat)
    requires n <= |cids|
    ensures var st := RulesUpTo(st0, roleId, cids, frequency, region, n);
      forall k :: k in st.rules && k !in st0.rules ==>
        && k.roleId == roleId && k.region == region
        && (exists i :: 0 <= i < n && cids[i] == k.courseId)
        && st.rules[k] == RuleInfo(frequency, true)
  {
    if n > 0 {
      RulesNew(st0, roleId, cids, frequency, region, n - 1);
      var prev := RulesUpTo(st0, roleId, cids, frequency, region, n - 1);
      var st := RulesUpTo(st0, roleId, cids, frequency, region, n);
      RuleStepEffect(prev, roleId, cids[n - 1], frequency, region);
      forall k2 | k2 in st.rules && k2 !in st0.rules
        ensures && k2.roleId == roleId && k2.region == region
                && (exists i :: 0 <= i < n && cids[i] == k2.courseId)
                && st.rules[k2] == RuleInfo(frequency, true)
      {
        if k2 in prev.rules {
          var i :| 0 <= i < n - 1 && cids[i] == k2.courseId;
        } else {
          assert cids[n - 1] == k2.courseId;
        }
      }
    }
  }

  /** When every course id already has a rule, inserting changes nothing and inserts nothing. */
  lemma {:induction false} RulesWhenPresent(st0: RuleState, roleId: int, cids: seq<string>, frequency: string, region: string, n: nat)
    requires n <= |cids|
    requires forall i :: 0 <= i < |cids| ==> RuleKey(roleId, cids[i], region) in st0.rules
    ensures RulesUpTo(st0, roleId, cids, frequency, region, n).rules == st0.rules
    ensures RulesUpTo(st0, roleId, cids, frequency, region, n).inserted == st0.inserted
  {
    if n > 0 {
      RulesWhenPresent(st0, roleId, cids, frequency, region, n - 1);
    }
  }

  // ---------------------------------------------------------------------------
  // promote_document_courses

  datatype PromoteReply = PromoteReply(inserted: nat, skipped: nat, role: string, courses: seq<string>)

  /** `INSERT INTO roles (name) ... ON CONFLICT (name) DO NOTHING`: the role table afterwards. */
  function EnsureRole(roles: map<string, int>, role: string, newRoleId: int): (r: map<string, int>)
    ensures role in r
  {
    if role in roles then roles else roles[role := newRoleId]
  }

  /** The doc's mapped course ids, in table order and with repeats. */
  function MappedCourses(rows: seq<DocCourseRow>, docId: int): seq<string> {
    Tables.CourseIds(RowsOfDoc(rows, docId))
  }

  /**
   * `promote_document_courses`: the role is created if it is new (the
   * connection commits it even on the early return), then every course the
   * document is mapped to becomes a rule requirement of the role in the
   * region, unless that rule already exists. The `SELECT role_id` right after
   * the upsert always finds the role, so the 500 branch cannot be taken.
   * `newRoleId` is the id the serial column would hand out.
   */
  method PromoteDocumentCourses(docId: int, role: string, region: string, frequency: string,
                                roles: map<string, int>, newRoleId: int,
                                rows: seq<DocCourseRow>, rules: map<RuleKey, RuleInfo>)
    returns (r: PromoteReply, rolesOut: map<string, int>, rulesOut: map<RuleKey, RuleInfo>)
    requires newRoleId !in roles.Values
    ensures rolesOut == EnsureRole(roles, role, newRoleId)
    ensures var cs := MappedCourses(rows, docId);
      var st := RulesUpTo(RuleState(rules, 0, 0), rolesOut[role], cs, frequency, region, |cs|);
      && r == PromoteReply(st.inserted, st.skipped, role, cs)
      && rulesOut == st.rules
  {
    rolesOut := EnsureRole(roles, role, newRoleId);
    var roleId := rolesOut[role];
    var courses := MappedCourses(rows, docId);
    if courses == [] {
      return PromoteReply(0, 0, role, []), rolesOut, rules;
    }
    // The loop inserts each course's rule and echoes the course into `kept`.
    var st := InsertRules(RuleState(rules, 0, 0), roleId, courses, frequency, region);
    r, rulesOut := PromoteReply(st.inserted, st.skipped, role, courses), st.rules;
  }

  /**
   * A promote counts every mapped course once, as inserted or skipped, and
   * echoes the course list; with no mapped courses both counts are zero and
   * no rule changes.
   */
  lemma PromoteTallies(rows: seq<DocCourseRow>, docId: int, rules: map<RuleKey, RuleInfo>, roleId: int,
                       frequency: string, region: string)
    ensures var cs := MappedCourses(rows, docId);
      var st := RulesUpTo(RuleState(rules, 0, 0), roleId, cs, frequency, region, |cs|);
      && st.inserted + st.skipped == |cs|
      && (cs == [] ==> st == RuleState(rules, 0, 0))
  {
    var cs := MappedCourses(rows, docId);
    RulesTallies(RuleState(rules, 0, 0), roleId, cs, frequency, region, |cs|);
  }

  /** A second identical promote inserts nothing and skips every course. */
  lemma PromoteRerun(rows: seq<DocCourseRow>, docId: int, rules: map<RuleKey, RuleInfo>, roleId: int,
                     frequency: string, region: string)
    ensures var cs := MappedCourses(rows, docId);
      var st := RulesUpTo(RuleState(rules, 0, 0), roleId, cs, frequency, region, |cs|);
      var again := RulesUpTo(RuleState(st.rules, 0, 0), roleId, cs, frequency, region, |cs|);
      again.rules == st.rules && again.inserted == 0 && again.skipped == |cs|
  {
    var cs := MappedCourses(rows, docId);
    var st := RulesUpTo(RuleState(rules, 0, 0), roleId, cs, frequency, region, |cs|);
    RulesKeep(RuleState(rules, 0, 0), roleId, cs, frequency, region, |cs|);
    RulesWhenPresent(RuleState(st.rules, 0, 0), roleId, cs, frequency, region, |cs|);
    RulesTallies(RuleState(st.rules, 0, 0), roleId, cs, frequency, region, |cs|);
  }

  /** Promoting never changes the id of an existing role, and a new role gets the fresh id. */
  lemma EnsureRoleSpec(roles: map<string, int>, role: string, newRoleId: int)
    ensures var r := EnsureRole(roles, role, newRoleId);
      && r.Keys == roles.Keys + {role}
      && (forall n :: n in roles ==> r[n] == roles[n])
      && (role !in roles ==> r[role] == newRoleId)
  {
  }

  // ---------------------------------------------------------------------------
  // Applying detected roles (process step 6)

  /** A role detected by `extract_roles`, already normalised by it. */
  datatype RoleMatch = RoleMatch(roleName: string, confidence: real, reasoning: string)

  /** The least confidence for which a detected role gets rules. */
  const RoleThreshold: real := 0.6

  datatype RoleState = RoleState(rules: RuleState, applied: seq<string>)

  predicate Qualifies(rm: RoleMatch, roles: map<string, int>) {
    rm.confidence >= RoleThreshold && rm.roleName in roles
  }

  /** A confident, known role gets a rule for every kept course; any other is passed over. */
  function RoleStep(st: RoleState, roles: map<string, int>, rm: RoleMatch, kept: seq<string>,
                    frequency: string, region: string): RoleState
  {
    if !Qualifies(rm, roles) then st
    else RoleState(RulesUpTo(st.rules, roles[rm.roleName], kept, frequency, region, |kept|), st.applied + [rm.roleName])
  }

  function RolesUpTo(st: RoleState, roles: map<string, int>, rms: seq<RoleMatch>, kept: seq<string>,
                     frequency: string, region: string, n: nat): RoleState
    requires n <= |rms|
  {
    if n == 0 then st else RoleStep(RolesUpTo(st, roles, rms, kept, frequency, region, n - 1), roles, rms[n - 1], kept, frequency, region)
  }

  method ApplyRoles(rules: map<RuleKey, RuleInfo>, roles: map<string, int>, rms: seq<RoleMatch>, kept: seq<string>,
                    frequency: string, region: string)
    returns (st: RoleState)
    ensures st == RolesUpTo(RoleState(RuleState(rules, 0, 0), []), roles, rms, kept, frequency, region, |rms|)
  {
    st := RoleState(RuleState(rules, 0, 0), []);
    for i := 0 to |rms|
      invariant st == RolesUpTo(RoleState(RuleState(rules, 0, 0), []), roles, rms, kept, frequency, region, i)
    {
      var rm := rms[i];
      if rm.confidence < RoleThreshold {
        continue;
      }
      if rm.roleName !in roles {
        continue;
      }
      var rs := InsertRules(st.rules, roles[rm.roleName], kept, frequency, region);
      st := RoleState(rs, st.applied + [rm.roleName]);
    }
  }

  /** The applied roles are exactly the detected roles with confidence at least 0.6 that exist in `roles`. */
  lemma {:induction false} RolesApplied(rules: map<RuleKey, RuleInfo>, roles: map<string, int>, rms: seq<RoleMatch>,
                                        kept: seq<string>, frequency: string, region: string, n: nat)
    requires n <= |rms|
    ensures var st := RolesUpTo(RoleState(RuleState(rules, 0, 0), []), roles, rms, kept, frequency, region, n);
      forall x :: x in st.applied <==> exists i :: 0 <= i < n && rms[i].roleName == x && Qualifies(rms[i], roles)
  {
    if n > 0 {
      RolesApplied(rules, roles, rms, kept, frequency, region, n - 1);
      var prev := RolesUpTo(RoleState(RuleState(rules, 0, 0), []), roles, rms, kept, frequency, region, n - 1);
      var st := RolesUpTo(RoleState(RuleState(rules, 0, 0), []), roles, rms, kept, frequency, region, n);
      assert st.applied == prev.applied + (if Qualifies(rms[n - 1], roles) then [rms[n - 1].roleName] else []);
      assert var st' := RolesUpTo(RoleState(RuleState(rules, 0, 0), []), roles, rms, kept, frequency, region, n - 1);
        forall x :: x in st'.applied <==> exists i :: 0 <= i < n - 1 && rms[i].roleName == x && Qualifies(rms[i], roles);
      forall x ensures x in st.applied <==> exists i :: 0 <= i < n && rms[i].roleName == x && Qualifies(rms[i], roles) {
        if exists i :: 0 <= i < n && rms[i].roleName == x && Qualifies(rms[i], roles) {
          var i :| 0 <= i < n && rms[i].roleName == x && Qualifies(rms[i], roles);
          if i < n - 1 {
            assert 0 <= i < n - 1 && rms[i].roleName == x && Qualifies(rms[i], roles);
            assert x in prev.applied;
          }
        }
      }
    }
  }

  /** Every kept course of every applied role is inserted or skipped. */
  lemma {:induction false} RolesTallies(rules: map<RuleKey, RuleInfo>, roles: map<string, int>, rms: seq<RoleMatch>,
                                        kept: seq<string>, frequency: string, region: string, n: nat)
    requires n <= |rms|
    ensures var st := RolesUpTo(RoleState(RuleState(rules, 0, 0), []), roles, rms, kept, frequency, region, n);
      st.rules.inserted + st.rules.skipped == |st.applied| * |kept|
  {
    if n > 0 {
      RolesTallies(rules, roles, rms, kept, frequency, region, n - 1);
      var prev := RolesUpTo(RoleState(RuleState(rules, 0, 0), []), roles, rms, kept, frequency, region, n - 1);
      var rm := rms[n - 1];
      if Qualifies(rm, roles) {
        RulesTallies(prev.rules, roles[rm.roleName], kept, frequency, region, |kept|);
        assert (|prev.applied| + 1) * |kept| == |prev.applied| * |kept| + |kept|;
      }
    }
  }

  /** Old rules are untouched, and every new rule belongs to an applied role, a kept course and the region. */
  lemma {:induction false} RolesEffect(rules: map<RuleKey, RuleInfo>, roles: map<string, int>, rms: seq<RoleMatch>,
                                       kept: seq<string>, frequency: string, region: string, n: nat)
    requires n <= |rms|
    ensures var st := RolesUpTo(RoleState(RuleState(rules, 0, 0), []), roles, rms, kept, frequency, region, n);
      && (forall k :: k in rules ==> k in st.rules.rules && st.rules.rules[k] == rules[k])
      && (forall k :: k in st.rules.rules && k !in rules ==>
            && k.region == region
            && (exists j :: 0 <= j < |kept| && kept[j] == k.courseId)
            && (exists x :: x in roles && x in st.applied && roles[x] == k.roleId))
  {
    if n > 0 {
      RolesEffect(rules, roles, rms, kept, frequency, region, n - 1);
      var prev := RolesUpTo(RoleState(RuleState(rules, 0, 0), []), roles, rms, kept, frequency, region, n - 1);
      var st := RolesUpTo(RoleState(RuleState(rules, 0, 0), []), roles, rms, kept, frequency, region, n);
      var rm := rms[n - 1];
      if Qualifies(rm, roles) {
        RulesKeep(prev.rules, roles[rm.roleName], kept, frequency, region, |kept|);
        RulesNew(prev.rules, roles[rm.roleName], kept, frequency, region, |kept|);
        assert st.applied == prev.applied + [rm.roleName];
        forall k | k in st.rules.rules && k !in rules
          ensures exists x :: x in roles && x in st.applied && roles[x] == k.roleId
        {
          if k !in prev.rules.rules {
            assert roles[rm.roleName] == k.roleId;
          } else {
            var x :| x in roles && x in prev.applied && roles[x] == k.roleId;
            assert x in st.applied;
          }
        }
      }
    }
  }

  // ---------------------------------------------------------------------------
  // process_document

  datatype ProcessReply = ProcessReply(docId: int, coursesFound: nat, rolesAnalyzed: nat, rolesApplied: seq<string>,
                                       mappedInserted: nat, mappedSkipped: nat, rulesInserted: nat, rulesSkipped: nat)

  /** The stored course mappings, then the rules of the applied roles. */
  datatype ProcessTables = ProcessTables(rows: seq<DocCourseRow>, rules: map<RuleKey, RuleInfo>)

  /** The matches process works with: a throttled LLM counts as no matches. */
  function ProcessMatches(answer: CourseAnswer): seq<LlmMatch>
    requires !answer.Failed?
  {
    if answer.Answered? then answer.matches else []
  }

  /**
   * `process_document` up to step 6: 404 for an unknown document, 500 when
   * there are no roles, when the PDF cannot be read, or when the course LLM
   * fails with anything but throttling; a throttled call means no matches,
   * and a failed role call means no roles (`roleLlm` returns that empty
   * list). Then the known matches are stored (step 5) and their course ids
   * applied to every qualifying role (step 6).
   */
  method ProcessDocument(docId: int, region: string, frequency: string, limit: Option<int>,
                         documents: map<int, DocumentRow>, roles: map<string, int>,
                         rows: seq<DocCourseRow>, rules: map<RuleKey, RuleInfo>,
                         catalog: seq<CatalogEntry>, pdf: Option<seq<Option<string>>>,
                         llm: (string, seq<CatalogEntry>) -> CourseAnswer,
                         roleLlm: (string, set<string>) -> seq<RoleMatch>)
    returns (r: Result<ProcessReply>, out: ProcessTables)
    ensures docId !in documents ==> r == Err(404, "Document not found") && out == ProcessTables(rows, rules)
    ensures docId in documents && roles == map[] ==>
      r == Err(500, "No roles found in database") && out == ProcessTables(rows, rules)
    ensures docId in documents && roles != map[] && pdf.None? ==>
      r == Err(500, "PDF read error") && out == ProcessTables(rows, rules)
    ensures docId in documents && roles != map[] && pdf.Some? ==>
      var text := PdfText(pdf.value, limit);
      var answer := llm(text, catalog);
      if answer.Failed? then
        r == Err(500, "Internal Server Error") && out == ProcessTables(rows, rules)
      else
        var ms := ProcessMatches(answer);
        var rms := roleLlm(text, roles.Keys);
        var st := StoreUpTo(Fresh(rows), docId, KnownIds(catalog), ms, |ms|);
        var rs := RolesUpTo(RoleState(RuleState(rules, 0, 0), []), roles, rms, st.kept, frequency, region, |rms|);
        && out == ProcessTables(st.rows, rs.rules.rules)
        && r == Ok(ProcessReply(docId, |ms|, |rms|, rs.applied, st.inserted, st.skipped, rs.rules.inserted, rs.rules.skipped))
  {
    if docId !in documents {
      return Err(404, "Document not found"), ProcessTables(rows, rules);
    }
    if roles == map[] {
      return Err(500, "No roles found in database"), ProcessTables(rows, rules);
    }
    if pdf.None? {
      return Err(500, "PDF read error"), ProcessTables(rows, rules);
    }
    var text := PdfText(pdf.value, limit);
    var answer := llm(text, catalog);
    if answer.Failed? {
      return Err(500, "Internal Server Error"), ProcessTables(rows, rules);
    }
    var ms := ProcessMatches(answer);
    var rms := roleLlm(text, roles.Keys);
    var st := StoreMatches(rows, docId, KnownIds(catalog), ms);
    var rs := ApplyRoles(rules, roles, rms, st.kept, frequency, region);
    out := ProcessTables(st.rows, rs.rules.rules);
    r := Ok(ProcessReply(docId, |ms|, |rms|, rs.applied, st.inserted, st.skipped, rs.rules.inserted, rs.rules.skipped));
  }

  /**
   * Every rule `process_document` creates ties a qualifying detected role to
   * a catalogue course the LLM suggested, in the request's region.
   */
  lemma ProcessRulesOnlyForKept(rows: seq<DocCourseRow>, docId: int, catalog: seq<CatalogEntry>, ms: seq<LlmMatch>,
                                rules: map<RuleKey, RuleInfo>, roles: map<string, int>, rms: seq<RoleMatch>,
                                frequency: string, region: string)
    ensures var st := StoreUpTo(Fresh(rows), docId, KnownIds(catalog), ms, |ms|);
      var rs := RolesUpTo(RoleState(RuleState(rules, 0, 0), []), roles, rms, st.kept, frequency, region, |rms|);
      forall k :: k in rs.rules.rules && k !in rules ==>
        && k.region == region
        && k.courseId in KnownIds(catalog)
        && (exists i :: 0 <= i < |ms| && ms[i].courseId == k.courseId)
        && (exists i :: 0 <= i < |rms| && rms[i].confidence >= 0.6 && rms[i].roleName in roles
                                       && roles[rms[i].roleName] == k.roleId)
  {
    var st := StoreUpTo(Fresh(rows), docId, KnownIds(catalog), ms, |ms|);
    StoreCovers(rows, docId, KnownIds(catalog), ms, |ms|);
    RolesEffect(rules, roles, rms, st.kept, frequency, region, |rms|);
    RolesApplied(rules, roles, rms, st.kept, frequency, region, |rms|);
    var rs := RolesUpTo(RoleState(RuleState(rules, 0, 0), []), roles, rms, st.kept, frequency, region, |rms|);
    forall k | k in rs.rules.rules && k !in rules
      ensures exists i :: 0 <= i < |rms| && rms[i].confidence >= 0.6 && rms[i].roleName in roles
                                        && roles[rms[i].roleName] == k.roleId
    {
      var x :| x in roles && x in rs.applied && roles[x] == k.roleId;
      var i :| 0 <= i < |rms| && rms[i].roleName == x && Qualifies(rms[i], roles);
    }
    forall k | k in rs.rules.rules && k !in rules ensures k.courseId in st.kept {
      var j :| 0 <= j < |st.kept| && st.kept[j] == k.courseId;
    }
  }
}
