/**
 * app/routers/docs.py: page-text normalisation, the course-name tokenizer
 * and hit score, the heuristic document-to-course mapper `map_doc`, and the
 * SHA-idempotent `ingest`. The PDF reader, the file hash and the database
 * session are outside the model: the extracted page texts and the hash are
 * inputs, and the ORM tables are fields of a `DocsStore`.
 */
module Docs {
  import opened Wrappers
  import opened Text
  import opened Sorting

  // ---------------------------------------------------------------------------
  // _normalize_text

  /** The private-use bullet glyph PDF extractors emit, and the bullet it becomes. */
  const PdfBullet: char := '\U{F0B7}'
  const Bullet: char := '\U{2022}'

  /**
   * `_normalize_text`: map the PDF bullet to a bullet, carriage returns to
   * line feeds, join words hyphenated across a line break, strip, and
   * collapse every whitespace run to one space.
   */
  function NormalizeText(s: string): string {
    var t := ReplaceAll(ReplaceChar(ReplaceChar(s, PdfBullet, Bullet), '\r', '\n'), "-\n", "");
    Collapse(Strip(t))
  }

  /** The text `NormalizeText` splits into words, before the split. */
  function Unbroken(s: string): string {
    Strip(ReplaceAll(ReplaceChar(ReplaceChar(s, PdfBullet, Bullet), '\r', '\n'), "-\n", ""))
  }

  /**
   * A normalised text has no whitespace at either end, never two whitespace
   * characters in a row, no carriage return, and only plain spaces.
   */
  lemma NormalizeTextShape(s: string)
    ensures var r := NormalizeText(s);
      && (r == [] || (!IsSpace(r[0]) && !IsSpace(r[|r| - 1])))
      && (forall i :: 0 <= i < |r| - 1 ==> !(IsSpace(r[i]) && IsSpace(r[i + 1])))
      && '\r' !in r
      && (forall i :: 0 <= i < |r| && IsSpace(r[i]) ==> r[i] == ' ')
  {
    var t := Unbroken(s);
    CollapseWsNormal(t);
    var r := NormalizeText(s);
    assert r == Collapse(t);
    forall i | 0 <= i < |r| ensures r[i] != '\r' {
      assert IsSpace('\r');
    }
  }

  /** Splitting `' '.join(ws)` on whitespace gives back `ws`. */
  lemma {:induction false} WordsOfJoin(ws: seq<string>)
    requires forall k :: 0 <= k < |ws| ==> ws[k] != [] && NoSpace(ws[k])
    ensures Words(Join(ws, " ")) == ws
  {
    if |ws| == 1 {
      WordsOfLastWord(ws[0]);
      assert ws == [ws[0]];
    } else if |ws| > 1 {
      var rest := Join(ws[1..], " ");
      WordsOfJoin(ws[1..]);
      assert Join(ws, " ") == ws[0] + " " + rest;
      WordsOfWordThenSpace(ws[0], rest);
      assert ws == [ws[0]] + ws[1..];
    }
  }

  lemma WordsOfLastWord(w: string)
    requires w != [] && NoSpace(w)
    ensures Words(w) == [w]
  {
    WordLenOfWord(w);
    assert w[..|w|] == w && w[|w|..] == [];
  }

  /** A word followed by a space is split off whole. */
  lemma WordsOfWordThenSpace(w: string, rest: string)
    requires w != [] && NoSpace(w)
    ensures Words(w + " " + rest) == [w] + Words(rest)
  {
    var s := w + " " + rest;
    WordLenBeforeSpace(w, rest);
    assert s[..|w|] == w;
    var t := s[|w|..];
    assert t[0] == ' ' && t[1..] == rest;
  }

  lemma {:induction false} WordLenBeforeSpace(w: string, rest: string)
    requires NoSpace(w)
    ensures WordLen(w + " " + rest) == |w|
  {
    if w != [] {
      assert (w + " " + rest)[1..] == w[1..] + " " + rest;
      WordLenBeforeSpace(w[1..], rest);
    }
  }

  lemma {:induction false} WordLenOfWord(w: string)
    requires NoSpace(w)
    ensures WordLen(w) == |w|
  {
    if w != [] {
      WordLenOfWord(w[1..]);
    }
  }

  /** Normalisation keeps exactly the words of the cleaned-up text, in order. */
  lemma NormalizeKeepsWords(s: string)
    ensures Words(NormalizeText(s)) == Words(Unbroken(s))
  {
    WordsOfJoin(Words(Unbroken(s)));
  }

  // ---------------------------------------------------------------------------
  // _tokenize

  /** The character class `[A-Za-z0-9\-+/]` of the tokenizer's pattern. */
  predicate TokenChar(c: char) {
    ('a' <= c <= 'z') || ('A' <= c <= 'Z') || ('0' <= c <= '9') || c == '-' || c == '+' || c == '/'
  }

  predicate AllTokenChars(s: string) {
    forall i :: 0 <= i < |s| ==> TokenChar(s[i])
  }

  /** Length of the leading run of token characters. */
  function TokenLen(s: string): (n: nat)
    ensures n <= |s|
    ensures forall i :: 0 <= i < n ==> TokenChar(s[i])
    ensures n < |s| ==> !TokenChar(s[n])
  {
    if s == [] || !TokenChar(s[0]) then 0 else 1 + TokenLen(s[1..])
  }

  /** `re.findall` of a one-or-more character class: the maximal runs, left to right. */
  function Runs(s: string): (ts: seq<string>)
    ensures forall k :: 0 <= k < |ts| ==> ts[k] != [] && AllTokenChars(ts[k])
    decreases |s|
  {
    if s == [] then []
    else if !TokenChar(s[0]) then Runs(s[1..])
    else
      var n := TokenLen(s);
      [s[..n]] + Runs(s[n..])
  }

  /** `_tokenize`: the token runs of the lower-cased course name. */
  function Tokenize(name: string): seq<string> {
    Runs(Lower(name))
  }

  /** The token characters of `s`, in order. */
  function Keep(s: string): string {
    if s == [] then [] else (if TokenChar(s[0]) then [s[0]] else []) + Keep(s[1..])
  }

  function Concat(ts: seq<string>): string {
    if ts == [] then [] else ts[0] + Concat(ts[1..])
  }

  lemma {:induction false} KeepAppend(a: string, b: string)
    ensures Keep(a + b) == Keep(a) + Keep(b)
  {
    if a != [] {
      assert (a + b)[1..] == a[1..] + b;
      KeepAppend(a[1..], b);
    } else {
      assert a + b == b;
    }
  }

  lemma {:induction false} KeepAllTokenChars(s: string)
    requires AllTokenChars(s)
    ensures Keep(s) == s
  {
    if s != [] {
      KeepAllTokenChars(s[1..]);
    }
  }

  /** The runs hold every token character of the input and nothing else, in order. */
  lemma {:induction false} RunsKeep(s: string)
    ensures Concat(Runs(s)) == Keep(s)
    decreases |s|
  {
    if s != [] {
      if !TokenChar(s[0]) {
        RunsKeep(s[1..]);
      } else {
        var n := TokenLen(s);
        RunsKeep(s[n..]);
        assert s == s[..n] + s[n..];
        KeepAppend(s[..n], s[n..]);
        KeepAllTokenChars(s[..n]);
        var ts := Runs(s);
        assert ts[0] == s[..n] && ts[1..] == Runs(s[n..]);
      }
    }
  }

  /**
   * The tokens of a course name are non-empty runs of `[a-z0-9\-+/]` that,
   * put together, are exactly the token characters of the lower-cased name.
   */
  lemma TokenizeSpec(name: string)
    ensures forall k :: 0 <= k < |Tokenize(name)| ==> Tokenize(name)[k] != [] && AllTokenChars(Tokenize(name)[k])
    ensures Concat(Tokenize(name)) == Keep(Lower(name))
  {
    RunsKeep(Lower(name));
  }

  // ---------------------------------------------------------------------------
  // _score_course

  /** `sum(text.count(tok) for tok in tokens if len(tok) > 2)`. */
  function Hits(text: string, tokens: seq<string>): nat {
    if tokens == [] then 0
    else
      var t := tokens[|tokens| - 1];
      Hits(text, tokens[..|tokens| - 1]) + (if |t| > 2 then CountOcc(text, t) else 0)
  }

  /** The tokens longer than two characters, in order. */
  function LongTokens(tokens: seq<string>): (r: seq<string>)
    ensures forall k :: 0 <= k < |r| ==> |r[k]| > 2
  {
    if tokens == [] then []
    else
      var t := tokens[|tokens| - 1];
      LongTokens(tokens[..|tokens| - 1]) + (if |t| > 2 then [t] else [])
  }

  /** Tokens of one or two characters contribute nothing to the hit count. */
  lemma {:induction false} HitsOfLongTokens(text: string, tokens: seq<string>)
    ensures Hits(text, tokens) == Hits(text, LongTokens(tokens))
  {
    if tokens != [] {
      var n := |tokens| - 1;
      var t := tokens[n];
      HitsOfLongTokens(text, tokens[..n]);
      var l := LongTokens(tokens[..n]);
      if |t| > 2 {
        assert LongTokens(tokens) == l + [t];
        HitsSnoc(text, l, t);
      } else {
        assert LongTokens(tokens) == l;
      }
    }
  }

  lemma HitsSnoc(text: string, tokens: seq<string>, t: string)
    ensures Hits(text, tokens + [t]) == Hits(text, tokens) + (if |t| > 2 then CountOcc(text, t) else 0)
  {
    assert (tokens + [t])[..|tokens|] == tokens;
  }

  /** `_score_course`: `min(1.0, hits / 10.0)`. */
  function ScoreCourse(text: string, tokens: seq<string>): real {
    var x := Hits(text, tokens) as real / 10.0;
    if 1.0 <= x then 1.0 else x
  }

  /** The score lies in [0, 1]: a tenth of the hits, saturating at ten. */
  lemma ScoreSpec(text: string, tokens: seq<string>)
    ensures 0.0 <= ScoreCourse(text, tokens) <= 1.0
    ensures ScoreCourse(text, tokens) == 1.0 <==> Hits(text, tokens) >= 10
    ensures Hits(text, tokens) < 10 ==> ScoreCourse(text, tokens) == Hits(text, tokens) as real / 10.0
  {
  }

  /** More hits never lower the score. */
  lemma ScoreMonotone(text1: string, tokens1: seq<string>, text2: string, tokens2: seq<string>)
    requires Hits(text1, tokens1) <= Hits(text2, tokens2)
    ensures ScoreCourse(text1, tokens1) <= ScoreCourse(text2, tokens2)
  {
  }

  // ---------------------------------------------------------------------------
  // map_doc

  /** A `courses` row as `map_doc` selects it. */
  datatype Course = Course(id: string, name: string)

  /**
   * A `DocCourseMap` row as the ORM of docs.py sees it; `via` is its
   * `method` column. It differs from `Tables.DocCourseRow`, the row the
   * SQL routers write, because the ORM reads and writes `method` and a
   * nullable confidence, while those routers write `rule_text` and always
   * give a confidence.
   */
  datatype MapRow = MapRow(docId: int, courseId: string, via: string, confidence: Option<real>)

  /** The stored confidence as `map_doc` compares it: `existing.confidence or 0`. */
  function Stored(r: MapRow): real {
    r.confidence.GetOr(0.0)
  }

  predicate IsPair(r: MapRow, docId: int, courseId: string) {
    r.docId == docId && r.courseId == courseId
  }

  /** No `(doc_id, course_id)` pair has two rows. */
  predicate PairsUnique(rows: seq<MapRow>) {
    forall i, j :: 0 <= i < j < |rows| ==> !IsPair(rows[j], rows[i].docId, rows[i].courseId)
  }

  /** The row of a pair, searching from index `from` (`scalar_one_or_none`). */
  function FindPair(rows: seq<MapRow>, docId: int, courseId: string, from: nat): (r: Option<nat>)
    requires from <= |rows|
    ensures r.Some? ==> from <= r.value < |rows| && IsPair(rows[r.value], docId, courseId)
    ensures r.None? ==> forall i :: from <= i < |rows| ==> !IsPair(rows[i], docId, courseId)
    decreases |rows| - from
  {
    if from == |rows| then None
    else if IsPair(rows[from], docId, courseId) then Some(from)
    else FindPair(rows, docId, courseId, from + 1)
  }

  /** One course of `map_doc`: keep, raise or insert the pair's row. */
  function Upsert(rows: seq<MapRow>, docId: int, courseId: string, conf: real, minConf: real): seq<MapRow> {
    if conf < minConf then rows
    else
      match FindPair(rows, docId, courseId, 0)
      case Some(k) =>
        if Stored(rows[k]) < conf then rows[k := rows[k].(via := "heuristic", confidence := Some(conf))]
        else rows
      case None => rows + [MapRow(docId, courseId, "heuristic", Some(conf))]
  }

  /** Whether `Upsert` adds a row (`created += 1`). */
  function Creates(rows: seq<MapRow>, docId: int, courseId: string, conf: real, minConf: real): nat {
    if minConf <= conf && FindPair(rows, docId, courseId, 0).None? then 1 else 0
  }

  /** The score `map_doc` gives a course against the joined, lower-cased pages. */
  function ScoreOf(joined: string, c: Course): real {
    ScoreCourse(joined, Tokenize(c.name))
  }

  /** A course id with the score its course got. */
  datatype Score = Score(courseId: string, conf: real)

  /** The scores of all courses, in the order `map_doc` visits them. */
  function Scores(joined: string, courses: seq<Course>): (ss: seq<Score>)
    ensures |ss| == |courses|
  {
    seq(|courses|, i requires 0 <= i < |courses| => Score(courses[i].id, ScoreOf(joined, courses[i])))
  }

  /** Entry `i` of the score list is course `i` with its score. */
  lemma ScoresAt(joined: string, courses: seq<Course>, i: nat)
    requires i < |courses|
    ensures Scores(joined, courses)[i] == Score(courses[i].id, ScoreOf(joined, courses[i]))
  {
  }

  /** The table after the first `n` courses. */
  function MapUpTo(rows: seq<MapRow>, docId: int, scores: seq<Score>, minConf: real, n: nat): seq<MapRow>
    requires n <= |scores|
  {
    if n == 0 then rows
    else
      var c := scores[n - 1];
      Upsert(MapUpTo(rows, docId, scores, minConf, n - 1), docId, c.courseId, c.conf, minConf)
  }

  /** `created` after the first `n` courses. */
  function CreatedUpTo(rows: seq<MapRow>, docId: int, scores: seq<Score>, minConf: real, n: nat): nat
    requires n <= |scores|
  {
    if n == 0 then 0
    else
      var c := scores[n - 1];
      CreatedUpTo(rows, docId, scores, minConf, n - 1)
        + Creates(MapUpTo(rows, docId, scores, minConf, n - 1), docId, c.courseId, c.conf, minConf)
  }

  /**
   * `rows2` keeps every row of `rows1` in place with its pair, and never
   * with a lower stored confidence.
   */
  predicate Keeps(rows1: seq<MapRow>, rows2: seq<MapRow>) {
    && |rows1| <= |rows2|
    && forall i :: 0 <= i < |rows1| ==>
      && IsPair(rows2[i], rows1[i].docId, rows1[i].courseId)
      && Stored(rows1[i]) <= Stored(rows2[i])
  }

  /** The pair has a row whose stored confidence is at least `conf`. */
  predicate Covered(rows: seq<MapRow>, docId: int, courseId: string, conf: real) {
    exists i :: 0 <= i < |rows| && IsPair(rows[i], docId, courseId) && conf <= Stored(rows[i])
  }

  /** What one upsert does to the table. */
  lemma UpsertSpec(rows: seq<MapRow>, docId: int, courseId: string, conf: real, minConf: real)
    requires PairsUnique(rows)
    ensures var r := Upsert(rows, docId, courseId, conf, minConf);
      && PairsUnique(r)
      && Keeps(rows, r)
      && |r| == |rows| + Creates(rows, docId, courseId, conf, minConf)
      && (forall i :: 0 <= i < |rows| && r[i] != rows[i] ==>
            && IsPair(rows[i], docId, courseId)
            && minConf <= conf
            && Stored(rows[i]) < conf
            && r[i] == rows[i].(via := "heuristic", confidence := Some(conf)))
      && (|r| > |rows| ==>
            && r[|rows|] == MapRow(docId, courseId, "heuristic", Some(conf))
            && minConf <= conf
            && forall i :: 0 <= i < |rows| ==> !IsPair(rows[i], docId, courseId))
  {
  }

  /** What an upsert does to the row at index `i`. */
  lemma UpsertAt(rows: seq<MapRow>, docId: int, courseId: string, conf: real, minConf: real, i: nat)
    requires i < |rows|
    ensures var r := Upsert(rows, docId, courseId, conf, minConf);
      && i < |r|
      && IsPair(r[i], rows[i].docId, rows[i].courseId)
      && Stored(rows[i]) <= Stored(r[i])
      && (r[i] != rows[i] ==>
            && IsPair(rows[i], docId, courseId)
            && minConf <= conf
            && Stored(rows[i]) < conf
            && r[i] == rows[i].(via := "heuristic", confidence := Some(conf)))
  {
  }

  /** The row an upsert adds, if it adds one. */
  lemma UpsertAdded(rows: seq<MapRow>, docId: int, courseId: string, conf: real, minConf: real)
    ensures var r := Upsert(rows, docId, courseId, conf, minConf);
      && |rows| <= |r| <= |rows| + 1
      && (|r| > |rows| ==>
            && r[|rows|] == MapRow(docId, courseId, "heuristic", Some(conf))
            && minConf <= conf
            && forall i :: 0 <= i < |rows| ==> !IsPair(rows[i], docId, courseId))
  {
  }

  /** An upsert keeps every row in place with its pair and never lowers a confidence. */
  lemma UpsertKeeps(rows: seq<MapRow>, docId: int, courseId: string, conf: real, minConf: real)
    ensures Keeps(rows, Upsert(rows, docId, courseId, conf, minConf))
  {
  }

  /** After an upsert that reached the threshold, the pair has a row with at least that confidence. */
  lemma UpsertCovers(rows: seq<MapRow>, docId: int, courseId: string, conf: real, minConf: real)
    requires minConf <= conf
    ensures Covered(Upsert(rows, docId, courseId, conf, minConf), docId, courseId, conf)
  {
    var r := Upsert(rows, docId, courseId, conf, minConf);
    match FindPair(rows, docId, courseId, 0)
    case Some(k) =>
      assert IsPair(r[k], docId, courseId) && conf <= Stored(r[k]);
    case None =>
      assert IsPair(r[|rows|], docId, courseId) && conf <= Stored(r[|rows|]);
  }

  /** The table after any prefix of the courses keeps the old rows and their pairs unique. */
  lemma {:induction false} MapUpToKeeps(rows: seq<MapRow>, docId: int, scores: seq<Score>, minConf: real, n: nat)
    requires n <= |scores| && PairsUnique(rows)
    ensures var r := MapUpTo(rows, docId, scores, minConf, n);
      && PairsUnique(r)
      && Keeps(rows, r)
      && |r| == |rows| + CreatedUpTo(rows, docId, scores, minConf, n)
  {
    if n > 0 {
      var c := scores[n - 1];
      var mid := MapUpTo(rows, docId, scores, minConf, n - 1);
      MapUpToKeeps(rows, docId, scores, minConf, n - 1);
      UpsertSpec(mid, docId, c.courseId, c.conf, minConf);
    }
  }

  /** One more course is one more upsert. */
  lemma MapUpToStep(rows: seq<MapRow>, docId: int, scores: seq<Score>, minConf: real, i: nat)
    requires i < |scores|
    ensures var mid := MapUpTo(rows, docId, scores, minConf, i);
      && MapUpTo(rows, docId, scores, minConf, i + 1) == Upsert(mid, docId, scores[i].courseId, scores[i].conf, minConf)
      && CreatedUpTo(rows, docId, scores, minConf, i + 1)
         == CreatedUpTo(rows, docId, scores, minConf, i) + Creates(mid, docId, scores[i].courseId, scores[i].conf, minConf)
  {
  }

  /** A course's score was written for a row of that pair. */
  ghost predicate ScoredBy(row: MapRow, scores: seq<Score>, n: nat)
    requires n <= |scores|
  {
    exists j :: 0 <= j < n && scores[j].courseId == row.courseId && row.confidence == Some(scores[j].conf)
  }

  /** Every old row is either untouched or raised by `map_doc`. */
  lemma {:induction false} MapUpToChanges(rows: seq<MapRow>, docId: int, scores: seq<Score>, minConf: real, n: nat)
    requires n <= |scores| && PairsUnique(rows)
    ensures |rows| <= |MapUpTo(rows, docId, scores, minConf, n)|
    ensures forall i :: 0 <= i < |rows| ==>
      || Unchanged(rows, MapUpTo(rows, docId, scores, minConf, n), i)
      || Raised(rows, MapUpTo(rows, docId, scores, minConf, n), i, docId, scores, minConf, n)
  {
    if n > 0 {
      var c := scores[n - 1];
      var conf := c.conf;
      var mid := MapUpTo(rows, docId, scores, minConf, n - 1);
      var r := MapUpTo(rows, docId, scores, minConf, n);
      assert r == Upsert(mid, docId, c.courseId, conf, minConf);
      MapUpToChanges(rows, docId, scores, minConf, n - 1);
      MapUpToKeeps(rows, docId, scores, minConf, n - 1);
      UpsertAdded(mid, docId, c.courseId, conf, minConf);
      forall i | 0 <= i < |rows|
        ensures Unchanged(rows, r, i) || Raised(rows, r, i, docId, scores, minConf, n)
      {
        assert IsPair(mid[i], rows[i].docId, rows[i].courseId) && Stored(rows[i]) <= Stored(mid[i]);
        UpsertAt(mid, docId, c.courseId, conf, minConf, i);
        if r[i] != mid[i] {
          ScoredByLast(r[i], scores, n);
        } else if mid[i] != rows[i] {
          assert Raised(rows, mid, i, docId, scores, minConf, n - 1);
          ScoredByGrow(r[i], scores, n - 1, n);
        }
      }
    }
  }

  predicate Unchanged(rows: seq<MapRow>, r: seq<MapRow>, i: nat)
    requires i < |rows| <= |r|
  {
    r[i] == rows[i]
  }

  /**
   * Row `i` belongs to the document, its confidence went strictly up, and it
   * now carries the `heuristic` method and the score of a course with its id,
   * a score that reached the threshold.
   */
  ghost predicate Raised(rows: seq<MapRow>, r: seq<MapRow>, i: nat, docId: int, scores: seq<Score>, minConf: real, n: nat)
    requires i < |rows| <= |r| && n <= |scores|
  {
    && rows[i].docId == docId
    && Stored(rows[i]) < Stored(r[i])
    && Written(r[i], docId, minConf) && ScoredBy(r[i], scores, n)
  }

  /**
   * A row `map_doc` added is for a pair the table did not have, belongs to
   * the document, and carries the `heuristic` method and the score of a
   * course with its id, a score that reached the threshold.
   */
  lemma {:induction false} MapUpToAdds(rows: seq<MapRow>, docId: int, scores: seq<Score>, minConf: real, n: nat)
    requires n <= |scores| && PairsUnique(rows)
    ensures var r := MapUpTo(rows, docId, scores, minConf, n);
      forall i :: |rows| <= i < |r| ==>
        && Written(r[i], docId, minConf) && ScoredBy(r[i], scores, n)
        && forall k :: 0 <= k < |rows| ==> !IsPair(rows[k], docId, r[i].courseId)
  {
    if n > 0 {
      var c := scores[n - 1];
      var conf := c.conf;
      var mid := MapUpTo(rows, docId, scores, minConf, n - 1);
      var r := MapUpTo(rows, docId, scores, minConf, n);
      assert r == Upsert(mid, docId, c.courseId, conf, minConf);
      MapUpToAdds(rows, docId, scores, minConf, n - 1);
      MapUpToKeeps(rows, docId, scores, minConf, n - 1);
      UpsertAdded(mid, docId, c.courseId, conf, minConf);
      forall i | |rows| <= i < |r|
        ensures && Written(r[i], docId, minConf) && ScoredBy(r[i], scores, n)
                && forall k :: 0 <= k < |rows| ==> !IsPair(rows[k], docId, r[i].courseId)
      {
        if i < |mid| {
          UpsertAt(mid, docId, c.courseId, conf, minConf, i);
          if r[i] != mid[i] {
            ScoredByLast(r[i], scores, n);
          } else {
            ScoredByGrow(r[i], scores, n - 1, n);
          }
        } else {
          ScoredByLast(r[i], scores, n);
          forall k | 0 <= k < |rows| ensures !IsPair(rows[k], docId, c.courseId) {
            assert IsPair(mid[k], rows[k].docId, rows[k].courseId);
          }
        }
      }
    }
  }

  lemma ScoredByLast(row: MapRow, scores: seq<Score>, n: nat)
    requires 0 < n <= |scores|
    requires scores[n - 1].courseId == row.courseId && row.confidence == Some(scores[n - 1].conf)
    ensures ScoredBy(row, scores, n)
  {
  }

  lemma ScoredByGrow(row: MapRow, scores: seq<Score>, m: nat, n: nat)
    requires m <= n <= |scores| && ScoredBy(row, scores, m)
    ensures ScoredBy(row, scores, n)
  {
  }

  /** A row `map_doc` wrote: this document, the heuristic method, a confidence at the threshold or above. */
  predicate Written(row: MapRow, docId: int, minConf: real) {
    row.docId == docId && row.via == "heuristic" && row.confidence.Some? && minConf <= row.confidence.value
  }

  /** Every course that scored at least the threshold has a row with at least its score. */
  lemma {:induction false} MapUpToCovers(rows: seq<MapRow>, docId: int, scores: seq<Score>, minConf: real, n: nat)
    requires n <= |scores|
    ensures var r := MapUpTo(rows, docId, scores, minConf, n);
      forall j :: 0 <= j < n && minConf <= scores[j].conf ==>
        Covered(r, docId, scores[j].courseId, scores[j].conf)
  {
    if n > 0 {
      var mid := MapUpTo(rows, docId, scores, minConf, n - 1);
      var r := MapUpTo(rows, docId, scores, minConf, n);
      MapUpToCovers(rows, docId, scores, minConf, n - 1);
      var cid := scores[n - 1].courseId;
      var conf := scores[n - 1].conf;
      assert r == Upsert(mid, docId, cid, conf, minConf);
      UpsertKeeps(mid, docId, cid, conf, minConf);
      forall j | 0 <= j < n && minConf <= scores[j].conf
        ensures Covered(r, docId, scores[j].courseId, scores[j].conf)
      {
        if j < n - 1 {
          KeepsCovered(mid, r, docId, scores[j].courseId, scores[j].conf);
        } else {
          UpsertCovers(mid, docId, cid, conf, minConf);
        }
      }
    }
  }

  lemma KeepsCovered(rows1: seq<MapRow>, rows2: seq<MapRow>, docId: int, courseId: string, conf: real)
    requires Keeps(rows1, rows2) && Covered(rows1, docId, courseId, conf)
    ensures Covered(rows2, docId, courseId, conf)
  {
    var i :| 0 <= i < |rows1| && IsPair(rows1[i], docId, courseId) && conf <= Stored(rows1[i]);
    assert IsPair(rows2[i], docId, courseId) && conf <= Stored(rows2[i]);
  }

  /** An upsert of a pair that already has a row with at least that confidence changes nothing. */
  lemma UpsertCovered(rows: seq<MapRow>, docId: int, courseId: string, conf: real, minConf: real)
    requires PairsUnique(rows) && Covered(rows, docId, courseId, conf)
    ensures Upsert(rows, docId, courseId, conf, minConf) == rows
    ensures Creates(rows, docId, courseId, conf, minConf) == 0
  {
    var i :| 0 <= i < |rows| && IsPair(rows[i], docId, courseId) && conf <= Stored(rows[i]);
  }

  /**
   * Running `map_doc` again over what it produced changes no row and
   * reports no new mapping.
   */
  lemma {:induction false} MapDocRerun(rows: seq<MapRow>, docId: int, scores: seq<Score>, minConf: real, n: nat)
    requires n <= |scores| && PairsUnique(rows)
    ensures var r := MapUpTo(rows, docId, scores, minConf, |scores|);
      && MapUpTo(r, docId, scores, minConf, n) == r
      && CreatedUpTo(r, docId, scores, minConf, n) == 0
  {
    var r := MapUpTo(rows, docId, scores, minConf, |scores|);
    if n > 0 {
      MapDocRerun(rows, docId, scores, minConf, n - 1);
      MapUpToKeeps(rows, docId, scores, minConf, |scores|);
      var c := scores[n - 1];
      var conf := c.conf;
      if minConf <= conf {
        MapUpToCovers(rows, docId, scores, minConf, |scores|);
        UpsertCovered(r, docId, c.courseId, conf, minConf);
      }
    }
  }

  // ---------------------------------------------------------------------------
  // ingest

  /** `DATA_ROOT` is `/data`: the root directory and this one component. */
  const DataDir: string := "data"

  /** A path component `PurePosixPath` keeps: not empty, not `.`, no slash. */
  predicate Component(c: string) {
    c != "" && c != "." && '/' !in c
  }

  /** Length of the leading run of characters other than `/`. */
  function SegmentLen(p: string): (n: nat)
    ensures n <= |p|
    ensures forall i :: 0 <= i < n ==> p[i] != '/'
    ensures n < |p| ==> p[n] == '/'
  {
    if p == [] || p[0] == '/' then 0 else 1 + SegmentLen(p[1..])
  }

  /** The components of a POSIX path: the texts between slashes, without empty ones and `.`. */
  function Segments(p: string): (segs: seq<string>)
    ensures forall k :: 0 <= k < |segs| ==> Component(segs[k])
    decreases |p|
  {
    if p == [] then []
    else if p[0] == '/' then Segments(p[1..])
    else
      var n := SegmentLen(p);
      (if p[..n] == "." then [] else [p[..n]]) + Segments(p[n..])
  }

  /**
   * The root `PurePosixPath` keeps: `//` for exactly two leading slashes,
   * `/` for one or for three and more, none for a relative path.
   */
  function PosixRoot(p: string): string {
    if |p| >= 2 && p[0] == '/' && p[1] == '/' && (|p| == 2 || p[2] != '/') then "//"
    else if |p| >= 1 && p[0] == '/' then "/"
    else ""
  }

  /** `str(PurePosixPath(p))`: the root, then the components joined by slashes. */
  function PosixStr(p: string): string {
    var s := PosixRoot(p) + Join(Segments(p), "/");
    if s == "" then "." else s
  }

  /** `DATA_ROOT / name`: an absolute name replaces the root, a relative one is appended to it. */
  function DataPath(name: string): string {
    PosixStr(if |name| > 0 && name[0] == '/' then name else "/" + DataDir + "/" + name)
  }

  /** A slash ends the first component. */
  lemma {:induction false} SegmentLenAppend(c: string, rest: string)
    requires '/' !in c
    ensures SegmentLen(c + "/" + rest) == |c|
    decreases |c|
  {
    if c != [] {
      assert (c + "/" + rest)[1..] == c[1..] + "/" + rest;
      SegmentLenAppend(c[1..], rest);
    }
  }

  /** Leading slashes add no component. */
  lemma {:induction false} SegmentsAfterSlash(p: string)
    ensures Segments("/" + p) == Segments(p)
  {
    assert ("/" + p)[1..] == p;
  }

  /** Splitting components joined by slashes gives them back. */
  lemma {:induction false} SegmentsOfJoin(segs: seq<string>)
    requires forall k :: 0 <= k < |segs| ==> Component(segs[k])
    ensures Segments(Join(segs, "/")) == segs
    decreases |segs|
  {
    if segs != [] {
      var c := segs[0];
      assert Component(c);
      if |segs| == 1 {
        assert Join(segs, "/") == c;
        assert SegmentLen(c) == |c|;
        assert c[..|c|] == c && c[|c|..] == [];
      } else {
        var rest := Join(segs[1..], "/");
        var p := c + "/" + rest;
        assert Join(segs, "/") == p;
        SegmentLenAppend(c, rest);
        assert p[..|c|] == c;
        assert p[|c|..] == "/" + rest;
        SegmentsAfterSlash(rest);
        SegmentsOfJoin(segs[1..]);
        assert segs == [c] + segs[1..];
      }
    }
  }

  /** Components joined by slashes start with the first component. */
  lemma JoinStartsWithFirst(segs: seq<string>)
    requires segs != []
    ensures |Join(segs, "/")| >= |segs[0]| && Join(segs, "/")[..|segs[0]|] == segs[0]
  {
    if |segs| > 1 {
      assert Join(segs, "/") == segs[0] + ("/" + Join(segs[1..], "/"));
    }
  }

  /** A root followed by components is in normal form: it splits back into that root and those components. */
  lemma NormalPath(root: string, segs: seq<string>)
    requires root == "/" || root == "//"
    requires forall k :: 0 <= k < |segs| ==> Component(segs[k])
    ensures PosixRoot(root + Join(segs, "/")) == root
    ensures Segments(root + Join(segs, "/")) == segs
    ensures PosixStr(root + Join(segs, "/")) == root + Join(segs, "/")
  {
    var j := Join(segs, "/");
    var p := root + j;
    if j != [] {
      JoinStartsWithFirst(segs);
      assert j[0] == segs[0][0] && segs[0][0] in segs[0];
      assert p[|root|] == j[0];
    }
    SegmentsOfJoin(segs);
    SegmentsAfterSlash(j);
    if root == "//" {
      assert p == "/" + ("/" + j);
      SegmentsAfterSlash("/" + j);
    }
  }

  /** Under a one-component directory a relative name adds its own components after it. */
  lemma {:induction false} SegmentsUnder(dir: string, name: string)
    requires Component(dir)
    requires name == "" || name[0] != '/'
    ensures PosixRoot("/" + dir + "/" + name) == "/"
    ensures Segments("/" + dir + "/" + name) == [dir] + Segments(name)
  {
    var q := dir + "/" + name;
    assert "/" + dir + "/" + name == "/" + q;
    assert dir[0] in dir;
    SegmentsAfterSlash(q);
    SegmentLenAppend(dir, name);
    assert q[..|dir|] == dir && q[|dir|..] == "/" + name;
    SegmentsAfterSlash(name);
  }

  /** Under a one-component directory a relative name keeps its own components. */
  lemma PathUnder(dir: string, name: string)
    requires Component(dir)
    requires name == "" || name[0] != '/'
    ensures PosixStr("/" + dir + "/" + name) == "/" + Join([dir] + Segments(name), "/")
  {
    SegmentsUnder(dir, name);
  }

  /** Two components joined by a slash. */
  lemma JoinTwo(a: string, b: string)
    ensures Join([a, b], "/") == a + "/" + b
  {
    assert [a, b][1..] == [b];
  }

  /** Under a one-component directory a plain file name is appended as is. */
  lemma PlainUnder(dir: string, name: string)
    requires Component(dir) && Component(name)
    ensures PosixStr("/" + dir + "/" + name) == "/" + dir + "/" + name
  {
    PathUnder(dir, name);
    SegmentsOfJoin([name]);
    assert [dir] + Segments(name) == [dir, name];
    JoinTwo(dir, name);
  }

  /** A relative name lands under `/data`, keeping its own components; a plain file name is appended as is. */
  lemma DataPathRelative(name: string)
    requires name == "" || name[0] != '/'
    ensures DataPath(name) == "/" + Join([DataDir] + Segments(name), "/")
    ensures Component(name) ==> DataPath(name) == "/" + DataDir + "/" + name
  {
    PathUnder(DataDir, name);
    if Component(name) {
      PlainUnder(DataDir, name);
    }
  }

  /** An absolute name replaces the data root: the stored path has the name's own root and components. */
  lemma DataPathAbsolute(name: string)
    requires |name| > 0 && name[0] == '/'
    ensures PosixRoot(DataPath(name)) == PosixRoot(name)
    ensures Segments(DataPath(name)) == Segments(name)
  {
    NormalPath(PosixRoot(name), Segments(name));
  }

  /** The stored path is absolute and already in normal form. */
  lemma DataPathNormal(name: string)
    ensures |DataPath(name)| > 0 && DataPath(name)[0] == '/'
    ensures PosixStr(DataPath(name)) == DataPath(name)
  {
    if |name| > 0 && name[0] == '/' {
      NormalPath(PosixRoot(name), Segments(name));
    } else {
      DataPathRelative(name);
      NormalPath("/", [DataDir] + Segments(name));
    }
  }

  /** An absolute `/<a>/<b>` is stored as given, with no trace of the data root. */
  lemma DataPathKeepsAbsolute(a: string, b: string)
    requires Component(a) && Component(b)
    ensures DataPath("/" + a + "/" + b) == "/" + a + "/" + b
  {
    var name := "/" + a + "/" + b;
    SegmentsUnder(a, b);
    SegmentsOfJoin([b]);
    assert Segments(name) == [a, b];
    assert Join([a, b], "/") == a + "/" + b;
  }

  /** A leading `./` adds no component. */
  lemma SegmentsDropDot(a: string)
    requires Component(a)
    ensures Segments("./" + a) == [a]
  {
    var name := "./" + a;
    assert name == "." + "/" + a;
    SegmentLenAppend(".", a);
    assert name[..1] == "." && name[1..] == "/" + a;
    SegmentsAfterSlash(a);
    SegmentsOfJoin([a]);
  }

  /** A doubled slash adds no component. */
  lemma SegmentsDropEmpty(a: string, b: string)
    requires Component(a) && Component(b)
    ensures Segments(a + "//" + b) == [a, b]
  {
    var name := a + "//" + b;
    assert name == a + "/" + ("/" + b);
    SegmentLenAppend(a, "/" + b);
    assert name[..|a|] == a && name[|a|..] == "/" + ("/" + b);
    SegmentsAfterSlash("/" + b);
    SegmentsAfterSlash(b);
    SegmentsOfJoin([b]);
  }

  /** A leading `./` is dropped: `./<a>` is stored as `/data/<a>`. */
  lemma DataPathDropsDot(a: string)
    requires Component(a)
    ensures DataPath("./" + a) == "/" + DataDir + "/" + a
  {
    SegmentsDropDot(a);
    DataPathRelative("./" + a);
    JoinTwo(DataDir, a);
  }

  /** A doubled slash is collapsed: `<a>//<b>` is stored as `/data/<a>/<b>`. */
  lemma DataPathDropsEmpty(a: string, b: string)
    requires Component(a) && Component(b)
    ensures DataPath(a + "//" + b) == "/" + DataDir + "/" + a + "/" + b
  {
    SegmentsDropEmpty(a, b);
    assert a[0] in a;
    DataPathRelative(a + "//" + b);
    JoinTwo(a, b);
    assert [DataDir, a, b][1..] == [a, b];
  }

  /** A `Document` row. `source` may be null. */
  datatype Document = Document(
    id: int, filename: string, path: string, sha256: string,
    source: Option<string>, title: string, mime: string, pageCount: nat)

  /** A `DocPage` row. */
  datatype DocPage = DocPage(docId: int, pageNumber: nat, text: string)

  /** The JSON body `ingest` answers with. */
  datatype IngestReply = IngestReply(
    docId: int, filename: string, pageCount: nat, sha256: string,
    title: string, source: Option<string>, status: string)

  /** The document holding a SHA-256 digest, if any. */
  function FindSha(docs: seq<Document>, sha: string, from: nat): (r: Option<nat>)
    requires from <= |docs|
    ensures r.Some? ==> from <= r.value < |docs| && docs[r.value].sha256 == sha
    ensures r.None? ==> forall i :: from <= i < |docs| ==> docs[i].sha256 != sha
    decreases |docs| - from
  {
    if from == |docs| then None
    else if docs[from].sha256 == sha then Some(from)
    else FindSha(docs, sha, from + 1)
  }

  /** The document with a given id, if any. */
  function FindDoc(docs: seq<Document>, id: int, from: nat): (r: Option<nat>)
    requires from <= |docs|
    ensures r.Some? ==> from <= r.value < |docs| && docs[r.value].id == id
    ensures r.None? ==> forall i :: from <= i < |docs| ==> docs[i].id != id
    decreases |docs| - from
  {
    if from == |docs| then None
    else if docs[from].id == id then Some(from)
    else FindDoc(docs, id, from + 1)
  }

  /** Ids and digests identify documents. */
  predicate DocsUnique(docs: seq<Document>) {
    forall i, j :: 0 <= i < j < |docs| ==> docs[i].id != docs[j].id && docs[i].sha256 != docs[j].sha256
  }

  /** The rows `ingest` adds for the page texts: `page_number = i + 1`. */
  function PageRows(docId: int, texts: seq<string>): (ps: seq<DocPage>)
    ensures |ps| == |texts|
    ensures forall i :: 0 <= i < |ps| ==> ps[i] == DocPage(docId, i + 1, texts[i])
  {
    seq(|texts|, i requires 0 <= i < |texts| => DocPage(docId, i + 1, texts[i]))
  }

  /** The pages of a document are numbered 1 to n, once each. */
  lemma PageRowsNumbered(docId: int, texts: seq<string>)
    ensures forall i, j :: 0 <= i < j < |PageRows(docId, texts)| ==>
      PageRows(docId, texts)[i].pageNumber < PageRows(docId, texts)[j].pageNumber
    ensures |texts| > 0 ==> PageRows(docId, texts)[0].pageNumber == 1
    ensures |texts| > 0 ==> PageRows(docId, texts)[|texts| - 1].pageNumber == |texts|
  {
  }

  /** `page.extract_text() or ""`, normalised, for every page in order. */
  method NormalizePages(extracted: seq<Option<string>>) returns (texts: seq<string>)
    ensures |texts| == |extracted|
    ensures forall i :: 0 <= i < |texts| ==> texts[i] == NormalizeText(extracted[i].GetOr(""))
  {
    texts := [];
    var i := 0;
    while i < |extracted|
      invariant 0 <= i <= |extracted| && |texts| == i
      invariant forall k :: 0 <= k < i ==> texts[k] == NormalizeText(extracted[k].GetOr(""))
    {
      texts := texts + [NormalizeText(extracted[i].GetOr(""))];
      i := i + 1;
    }
  }

  /** `select(DocPage.text).where(doc_id == …).order_by(page_number)`. */
  function PageTextsOf(pages: seq<DocPage>, docId: int): seq<string> {
    var mine := SortBy(PagesOf(pages, docId), (a: DocPage, b: DocPage) => a.pageNumber <= b.pageNumber);
    seq(|mine|, i requires 0 <= i < |mine| => mine[i].text)
  }

  /** `" ".join(pages).lower()`. */
  function JoinedPages(pages: seq<DocPage>, docId: int): string {
    Lower(Join(PageTextsOf(pages, docId), " "))
  }

  function PagesOf(pages: seq<DocPage>, docId: int): (r: seq<DocPage>)
    ensures forall i :: 0 <= i < |r| ==> r[i].docId == docId && r[i] in pages
  {
    if pages == [] then []
    else
      var last := pages[|pages| - 1];
      PagesOf(pages[..|pages| - 1], docId) + if last.docId == docId then [last] else []
  }

  /** The tables `ingest` and `map_doc` work on. */
  class DocsStore {
    var documents: seq<Document>
    var pages: seq<DocPage>
    var courseMap: seq<MapRow>
    var courses: seq<Course>

    ghost predicate Valid()
      reads this
    {
      DocsUnique(documents) && PairsUnique(courseMap)
    }

    constructor(courses: seq<Course>)
      ensures Valid()
      ensures documents == [] && pages == [] && courseMap == [] && this.courses == courses
    {
      documents := [];
      pages := [];
      courseMap := [];
      this.courses := courses;
    }

    /**
     * `ingest`. `fileExists` is whether the file at `DataPath(filename)`
     * exists (an absolute name is looked up where it points), `sha` its
     * digest, `extracted` the text of each page as the PDF reader yields it
     * (None when reading fails), `metaTitle` the metadata title and `newId`
     * the id the database assigns.
     */
    method Ingest(filename: string, source: Option<string>, fileExists: bool, sha: string,
                  extracted: Option<seq<Option<string>>>, metaTitle: Option<string>, newId: int)
      returns (r: Result<IngestReply>)
      requires Valid()
      requires forall i :: 0 <= i < |documents| ==> documents[i].id != newId
      modifies this
      ensures Valid()
      ensures courseMap == old(courseMap) && courses == old(courses)
      ensures !fileExists ==> r == Err(404, "File not found in /data: " + filename) && unchanged(this)
      ensures fileExists && FindSha(old(documents), sha, 0).Some? ==>
        var d := old(documents)[FindSha(old(documents), sha, 0).value];
        && r == Ok(IngestReply(d.id, d.filename, d.pageCount, d.sha256,
                               if d.title != "" then d.title else d.filename, d.source, "already_ingested"))
        && unchanged(this)
      ensures fileExists && FindSha(old(documents), sha, 0).None? && extracted.None? ==>
        r.Err? && r.status == 500 && unchanged(this)
      ensures fileExists && FindSha(old(documents), sha, 0).None? && extracted.Some? ==>
        var n := |extracted.value|;
        var title := if metaTitle.Some? && metaTitle.value != "" then metaTitle.value else filename;
        && r.Ok? && r.value.status == "ingested" && r.value.docId == newId && r.value.pageCount == n
        && r.value.title == title && r.value.sha256 == sha
        && r.value.filename == filename && r.value.source == source
        && documents == old(documents) + [Document(newId, filename, DataPath(filename), sha, source, title, "application/pdf", n)]
        && |pages| == |old(pages)| + n && pages[..|old(pages)|] == old(pages)
        && forall i :: 0 <= i < n ==>
             pages[|old(pages)| + i] == DocPage(newId, i + 1, NormalizeText(extracted.value[i].GetOr("")))
      ensures r.Ok? ==> FindSha(documents, sha, 0).Some?
    {
      if !fileExists {
        return Err(404, "File not found in /data: " + filename);
      }
      var existing := FindSha(documents, sha, 0);
      if existing.Some? {
        var d := documents[existing.value];
        return Ok(IngestReply(d.id, d.filename, d.pageCount, d.sha256,
                              if d.title != "" then d.title else d.filename, d.source, "already_ingested"));
      }
      if extracted.None? {
        return Err(500, "PDF parse/store error");
      }
      var texts := NormalizePages(extracted.value);
      var title := if metaTitle.Some? && metaTitle.value != "" then metaTitle.value else filename;
      var doc := Document(newId, filename, DataPath(filename), sha, source, title, "application/pdf", |texts|);
      ghost var olds := documents;
      documents := documents + [doc];
      forall i, j | 0 <= i < j < |documents|
        ensures documents[i].id != documents[j].id && documents[i].sha256 != documents[j].sha256
      {
        if j == |olds| {
          assert documents[i] == olds[i] && documents[j] == doc;
        } else {
          assert documents[i] == olds[i] && documents[j] == olds[j];
        }
      }
      pages := pages + PageRows(newId, texts);
      assert documents[|documents| - 1].sha256 == sha;
      r := Ok(IngestReply(doc.id, doc.filename, doc.pageCount, doc.sha256, doc.title, doc.source, "ingested"));
    }

    /**
     * `map_doc`: scores every course against the document's pages joined by
     * spaces and lower-cased, and upserts the pairs that reach `minConf`.
     * The answer is `mapped_created`.
     */
    method MapDoc(docId: int, minConf: real) returns (r: Result<nat>)
      requires Valid()
      modifies this
      ensures Valid()
      ensures documents == old(documents) && pages == old(pages) && courses == old(courses)
      ensures FindDoc(documents, docId, 0).None? ==> r == Err(404, "document not found") && courseMap == old(courseMap)
      ensures FindDoc(documents, docId, 0).Some? ==>
        var scores := Scores(JoinedPages(pages, docId), courses);
        && courseMap == MapUpTo(old(courseMap), docId, scores, minConf, |scores|)
        && r == Ok(CreatedUpTo(old(courseMap), docId, scores, minConf, |scores|))
        && |courseMap| == |old(courseMap)| + r.value
    {
      var d := FindDoc(documents, docId, 0);
      if d.None? {
        return Err(404, "document not found");
      }
      var joined := JoinedPages(pages, docId);
      var table, created := MapCourses(courseMap, docId, joined, courses, minConf);
      MapUpToKeeps(courseMap, docId, Scores(joined, courses), minConf, |courses|);
      courseMap := table;
      r := Ok(created);
    }

    /** The loop of `map_doc` over every course; the session's changes to `table` are committed by the caller. */
    static method MapCourses(table: seq<MapRow>, docId: int, joined: string, courses: seq<Course>, minConf: real)
      returns (out: seq<MapRow>, created: nat)
      ensures out == MapUpTo(table, docId, Scores(joined, courses), minConf, |courses|)
      ensures created == CreatedUpTo(table, docId, Scores(joined, courses), minConf, |courses|)
    {
      ghost var scores := Scores(joined, courses);
      out := table;
      created := 0;
      var i := 0;
      while i < |courses|
        invariant 0 <= i <= |courses|
        invariant out == MapUpTo(table, docId, scores, minConf, i)
        invariant created == CreatedUpTo(table, docId, scores, minConf, i)
      {
        var c := courses[i];
        var conf := ScoreCourse(joined, Tokenize(c.name));
        ScoresAt(joined, courses, i);
        MapUpToStep(table, docId, scores, minConf, i);
        var added;
        out, added := UpsertCourse(out, docId, c.id, conf, minConf);
        created := created + added;
        i := i + 1;
      }
    }

    /** The body of `map_doc`'s loop for one course whose score is `conf`. */
    static method UpsertCourse(table: seq<MapRow>, docId: int, courseId: string, conf: real, minConf: real)
      returns (out: seq<MapRow>, added: nat)
      ensures out == Upsert(table, docId, courseId, conf, minConf)
      ensures added == Creates(table, docId, courseId, conf, minConf)
    {
      out := table;
      added := 0;
      if conf >= minConf {
        var existing := FindPair(table, docId, courseId, 0);
        if existing.Some? {
          var k := existing.value;
          if Stored(table[k]) < conf {
            out := table[k := table[k].(via := "heuristic", confidence := Some(conf))];
          }
        } else {
          out := table + [MapRow(docId, courseId, "heuristic", Some(conf))];
          added := 1;
        }
      }
    }
  }
}
