/**
 * app/ai/mappers.py, `map_text_to_courses` after the regular expressions
 * have run: for each rule with at least one match, a confidence from the
 * match count and an excerpt around the first match; then one entry per
 * course id, keeping the highest confidence. The matches of each rule, as
 * positions in the lower-cased text, are an input.
 */
module Mappers {
  import opened Wrappers
  import opened Text
  import opened Dicts

  /** The course ids of `_RULES`, in its declared order. */
  const Rules: seq<string> := [
    "BBP-1910.1030", "HAZCOM-1910.1200", "LAB-SAFETY-101", "CHEM-SPILL-110",
    "PPE-201", "RESPIRATOR-QUAL-130", "FORKLIFT-OP-120", "LOTO-1910.147",
    "LADDER-101", "HEAT-ILLNESS-CA-3395", "RADIATION-ALARA-101", "LASER-CLASS-2-3R",
    "OSHA-10-GEN", "BIOSAFETY-BSL1", "BIOSAFETY-BSL2", "FIRE-101", "ERG-101"
  ]

  /** One regex match: `m.start()` and `m.end()`. */
  datatype Match = Match(start: nat, end: nat)

  /** One `(course_id, confidence, excerpt)` triple. */
  datatype Mapped = Mapped(courseId: string, confidence: real, excerpt: string)

  /** Every rule has its list of matches, each a span of the text. */
  predicate ValidHits(text: string, hits: seq<seq<Match>>) {
    && |hits| == |Rules|
    && forall i, k :: 0 <= i < |hits| && 0 <= k < |hits[i]| ==> hits[i][k].start <= hits[i][k].end <= |text|
  }

  /** `min(1.0, 0.5 + 0.25 * (hits - 1))`. */
  function Confidence(hits: nat): real
    requires hits >= 1
  {
    var raw := 0.5 + 0.25 * ((hits - 1) as real);
    if raw < 1.0 then raw else 1.0
  }

  /** One match gives 0.5, two give 0.75, three or more give 1.0. */
  lemma ConfidenceSteps(hits: nat)
    requires hits >= 1
    ensures hits == 1 ==> Confidence(hits) == 0.5
    ensures hits == 2 ==> Confidence(hits) == 0.75
    ensures hits >= 3 ==> Confidence(hits) == 1.0
    ensures 0.5 <= Confidence(hits) <= 1.0
  {
  }

  /** More matches never lower the confidence. */
  lemma ConfidenceMonotone(h1: nat, h2: nat)
    requires 1 <= h1 <= h2
    ensures Confidence(h1) <= Confidence(h2)
  {
  }

  /** `[max(0, start - 120), min(len(text), end + 120)]`: up to 120 characters either side of the match. */
  function Window(text: string, m: Match): (w: (nat, nat))
    requires m.start <= m.end <= |text|
    ensures w.0 <= m.start && m.end <= w.1 <= |text|
    ensures m.start - w.0 <= 120 && w.1 - m.end <= 120
    ensures w.0 == 0 || m.start - w.0 == 120
    ensures w.1 == |text| || w.1 - m.end == 120
  {
    (if m.start >= 120 then m.start - 120 else 0, if m.end + 120 < |text| then m.end + 120 else |text|)
  }

  /** `text[start:end].strip().replace("\n", " ")[:500]`. */
  function Excerpt(text: string, m: Match): string
    requires m.start <= m.end <= |text|
  {
    var w := Window(text, m);
    Take(ReplaceChar(Strip(text[w.0..w.1]), '\n', ' '), 500)
  }

  /** An excerpt has at most 500 characters, no line break, and no more than its window. */
  lemma ExcerptShape(text: string, m: Match)
    requires m.start <= m.end <= |text|
    ensures |Excerpt(text, m)| <= 500
    ensures '\n' !in Excerpt(text, m)
    ensures |Excerpt(text, m)| <= Window(text, m).1 - Window(text, m).0
  {
    var w := Window(text, m);
    var s := Strip(text[w.0..w.1]);
    StripSpec(text[w.0..w.1]);
    var r := ReplaceChar(s, '\n', ' ');
    var x := Excerpt(text, m);
    assert x == r[..|x|];
    forall i | 0 <= i < |x| ensures x[i] != '\n' {
      assert x[i] == r[i];
    }
  }

  /** The entry of rule `i`, whose matches are `hits[i]`. */
  function Entry(text: string, hits: seq<seq<Match>>, i: nat): Mapped
    requires ValidHits(text, hits) && i < |hits| && hits[i] != []
  {
    Mapped(Rules[i], Confidence(|hits[i]|), Excerpt(text, hits[i][0]))
  }

  /** For each rule, its entry when it matched at all. */
  function Candidates(text: string, hits: seq<seq<Match>>): (c: seq<Option<Mapped>>)
    requires ValidHits(text, hits)
    ensures |c| == |hits|
    ensures forall i :: 0 <= i < |hits| ==> c[i] == if hits[i] == [] then None else Some(Entry(text, hits, i))
  {
    seq(|hits|, i requires 0 <= i < |hits| => if hits[i] == [] then None else Some(Entry(text, hits, i)))
  }

  /** The `out` list of `map_text_to_courses`. */
  function Found(text: string, hits: seq<seq<Match>>): seq<Mapped>
    requires ValidHits(text, hits)
  {
    SomesUpTo(Candidates(text, hits), |hits|)
  }

  /** The first loop of `map_text_to_courses`. */
  method CollectMatches(text: string, hits: seq<seq<Match>>) returns (out: seq<Mapped>)
    requires ValidHits(text, hits)
    ensures out == Found(text, hits)
  {
    ghost var c := Candidates(text, hits);
    out := [];
    var i := 0;
    while i < |Rules|
      invariant 0 <= i <= |Rules|
      invariant out == SomesUpTo(c, i)
    {
      var matches := hits[i];
      if matches != [] {
        var conf := Confidence(|matches|);
        var excerpt := Excerpt(text, matches[0]);
        out := out + [Mapped(Rules[i], conf, excerpt)];
      }
      i := i + 1;
    }
  }

  /** An entry is collected exactly for each rule that matched; rules without a match add nothing. */
  lemma FoundSpec(text: string, hits: seq<seq<Match>>)
    requires ValidHits(text, hits)
    ensures forall e :: e in Found(text, hits) ==> exists i :: 0 <= i < |hits| && hits[i] != [] && e == Entry(text, hits, i)
    ensures forall i :: 0 <= i < |hits| && hits[i] != [] ==> Entry(text, hits, i) in Found(text, hits)
    ensures |Found(text, hits)| <= |hits|
  {
    var c := Candidates(text, hits);
    SomesUpToSpec(c, |hits|);
    forall e | e in Found(text, hits) ensures exists i :: 0 <= i < |hits| && hits[i] != [] && e == Entry(text, hits, i) {
      FoundFrom(text, hits, e);
    }
    forall i | 0 <= i < |hits| && hits[i] != [] ensures Entry(text, hits, i) in Found(text, hits) {
      assert c[i] == Some(Entry(text, hits, i));
    }
  }

  lemma FoundFrom(text: string, hits: seq<seq<Match>>, e: Mapped)
    requires ValidHits(text, hits) && e in Found(text, hits)
    ensures exists i :: 0 <= i < |hits| && hits[i] != [] && e == Entry(text, hits, i)
  {
    var c := Candidates(text, hits);
    SomesUpToSpec(c, |hits|);
    var i :| 0 <= i < |hits| && c[i] == Some(e);
    assert hits[i] != [];
  }

  // ---------------------------------------------------------------------
  // De-duplication by course id

  function Ids(out: seq<Mapped>): (ids: seq<string>)
    ensures |ids| == |out|
    ensures forall i :: 0 <= i < |out| ==> ids[i] == out[i].courseId
  {
    seq(|out|, i requires 0 <= i < |out| => out[i].courseId)
  }

  lemma IdsAppend(pre: seq<Mapped>, e: Mapped)
    ensures Ids(pre + [e]) == Ids(pre) + [e.courseId]
  {
  }

  /** The entry `dedup` holds for `cid` after the entries `out`, in order. */
  function Best(out: seq<Mapped>, cid: string): Mapped
    requires cid in Ids(out)
  {
    var n := |out| - 1;
    var pre := out[..n];
    if cid !in Ids(pre) then out[n]
    else
      var b := Best(pre, cid);
      if out[n].courseId == cid && out[n].confidence > b.confidence then out[n] else b
  }

  lemma BestAppend(pre: seq<Mapped>, e: Mapped, cid: string)
    requires cid in Ids(pre + [e])
    ensures cid !in Ids(pre) ==> Best(pre + [e], cid) == e
    ensures cid in Ids(pre) ==>
      Best(pre + [e], cid) == (if e.courseId == cid && e.confidence > Best(pre, cid).confidence then e else Best(pre, cid))
  {
    assert (pre + [e])[..|pre|] == pre;
  }

  /**
   * The entry kept for a course id is one of its entries, with the highest
   * confidence among them, and the first to reach it.
   */
  lemma {:induction false} BestSpec(out: seq<Mapped>, cid: string)
    requires cid in Ids(out)
    ensures Best(out, cid) in out && Best(out, cid).courseId == cid
    ensures forall i :: 0 <= i < |out| && out[i].courseId == cid ==> out[i].confidence <= Best(out, cid).confidence
    ensures exists i ::
      && 0 <= i < |out| && out[i] == Best(out, cid)
      && forall j :: 0 <= j < i && out[j].courseId == cid ==> out[j].confidence < Best(out, cid).confidence
  {
    var n := |out| - 1;
    var pre := out[..n];
    var e := out[n];
    var b := Best(out, cid);
    assert out == pre + [e];
    var w: nat;
    if cid !in Ids(pre) {
      var k :| 0 <= k < |out| && Ids(out)[k] == cid;
      assert k == n;
      forall i | 0 <= i < n ensures out[i].courseId != cid {
        assert Ids(pre)[i] == out[i].courseId;
      }
      assert b == e && e.courseId == cid;
      forall i | 0 <= i < |out| && out[i].courseId == cid ensures out[i].confidence <= b.confidence {
        assert i == n;
      }
      w := n;
    } else {
      BestSpec(pre, cid);
      var bp := Best(pre, cid);
      var i0 :| 0 <= i0 < n && pre[i0] == bp
        && forall j :: 0 <= j < i0 && pre[j].courseId == cid ==> pre[j].confidence < bp.confidence;
      var better := e.courseId == cid && e.confidence > bp.confidence;
      assert b == if better then e else bp;
      forall i | 0 <= i < |out| && out[i].courseId == cid ensures out[i].confidence <= b.confidence {
        if i < n { assert out[i] == pre[i]; }
      }
      w := if better then n else i0;
      forall j | 0 <= j < w && out[j].courseId == cid ensures out[j].confidence < b.confidence {
        assert out[j] == pre[j];
      }
    }
    assert 0 <= w < |out| && out[w] == b;
    assert forall j :: 0 <= j < w && out[j].courseId == cid ==> out[j].confidence < b.confidence;
  }

  /** The reference result: one entry per course id, in order of first appearance. */
  function DedupSpec(out: seq<Mapped>): (r: seq<Mapped>)
    ensures |r| == |Distinct(Ids(out))|
  {
    var d := Distinct(Ids(out));
    DistinctSpec(Ids(out));
    seq(|d|, i requires 0 <= i < |d| => Best(out, d[i]))
  }

  lemma DistinctIdsAppend(done: seq<Mapped>, e: Mapped)
    ensures Distinct(Ids(done + [e]))
      == if e.courseId in Ids(done) then Distinct(Ids(done)) else Distinct(Ids(done)) + [e.courseId]
  {
    IdsAppend(done, e);
    var s := Ids(done + [e]);
    assert s[..|s| - 1] == Ids(done);
    DistinctSpec(Ids(done));
  }

  /** The state of the `dedup` loop once the entries `done` are in: a dict in insertion order. */
  ghost predicate DedupState(done: seq<Mapped>, dedup: map<string, Mapped>, order: seq<string>) {
    && order == Distinct(Ids(done))
    && (forall k :: k in dedup <==> k in Ids(done))
    && (forall k :: k in dedup ==> k in Ids(done) && dedup[k] == Best(done, k))
  }

  /** A course id not seen before: a new key, at the end of the dict. */
  lemma DedupStepNew(done: seq<Mapped>, e: Mapped, dedup: map<string, Mapped>, order: seq<string>)
    requires DedupState(done, dedup, order) && e.courseId !in dedup
    ensures DedupState(done + [e], dedup[e.courseId := e], order + [e.courseId])
  {
    var dedup' := dedup[e.courseId := e];
    assert order + [e.courseId] == Distinct(Ids(done + [e])) by {
      DistinctIdsAppend(done, e);
    }
    assert forall k :: k in dedup' <==> k in Ids(done + [e]) by {
      IdsAppend(done, e);
    }
    forall k | k in dedup' ensures k in Ids(done + [e]) && dedup'[k] == Best(done + [e], k) {
      IdsAppend(done, e);
      BestAppend(done, e, k);
    }
  }

  /** A course id seen before: the entry is replaced only by a strictly higher confidence. */
  lemma DedupStepSeen(done: seq<Mapped>, e: Mapped, dedup: map<string, Mapped>, order: seq<string>)
    requires DedupState(done, dedup, order) && e.courseId in dedup
    ensures e.confidence > dedup[e.courseId].confidence ==> DedupState(done + [e], dedup[e.courseId := e], order)
    ensures e.confidence <= dedup[e.courseId].confidence ==> DedupState(done + [e], dedup, order)
  {
    var dedup' := if e.confidence > dedup[e.courseId].confidence then dedup[e.courseId := e] else dedup;
    assert order == Distinct(Ids(done + [e])) by {
      DistinctIdsAppend(done, e);
    }
    assert forall k :: k in dedup' <==> k in Ids(done + [e]) by {
      IdsAppend(done, e);
    }
    forall k | k in dedup' ensures k in Ids(done + [e]) && dedup'[k] == Best(done + [e], k) {
      IdsAppend(done, e);
      BestAppend(done, e, k);
    }
  }

  /** The second loop of `map_text_to_courses` and `list(dedup.values())`. */
  method Dedup(out: seq<Mapped>) returns (result: seq<Mapped>)
    ensures result == DedupSpec(out)
  {
    var dedup: map<string, Mapped> := map[];
    var order: seq<string> := [];
    ghost var done: seq<Mapped> := [];
    var i := 0;
    while i < |out|
      invariant 0 <= i <= |out| && done == out[..i]
      invariant DedupState(done, dedup, order)
    {
      var e := out[i];
      assert out[..i + 1] == out[..i] + [e];
      if e.courseId !in dedup {
        DedupStepNew(done, e, dedup, order);
        dedup := dedup[e.courseId := e];
        order := order + [e.courseId];
      } else {
        DedupStepSeen(done, e, dedup, order);
        if e.confidence > dedup[e.courseId].confidence {
          dedup := dedup[e.courseId := e];
        }
      }
      done := done + [e];
      i := i + 1;
    }
    assert done == out;
    DistinctSpec(Ids(out));
    assert forall j :: 0 <= j < |order| ==> order[j] in dedup by {
      forall j | 0 <= j < |order| ensures order[j] in dedup {
        assert order[j] in Distinct(Ids(out));
      }
    }
    result := Values(order, dedup);
    forall j | 0 <= j < |result| ensures result[j] == DedupSpec(out)[j] {
      assert order[j] in Distinct(Ids(out));
    }
  }

  /** The ids of the result are the distinct ids of the input, in order of first appearance. */
  lemma DedupIds(out: seq<Mapped>)
    ensures Ids(DedupSpec(out)) == Distinct(Ids(out))
    ensures NoDuplicates(Ids(DedupSpec(out)))
    ensures forall cid :: cid in Ids(DedupSpec(out)) <==> cid in Ids(out)
  {
    DistinctSpec(Ids(out));
    var d := Distinct(Ids(out));
    var r := DedupSpec(out);
    forall i | 0 <= i < |r| ensures Ids(r)[i] == d[i] {
      BestSpec(out, d[i]);
    }
  }

  /** Each kept entry is an input entry with the highest confidence of its course id. */
  lemma DedupKeepsMax(out: seq<Mapped>, i: nat)
    requires i < |DedupSpec(out)|
    ensures DedupSpec(out)[i] in out
    ensures forall j :: 0 <= j < |out| && out[j].courseId == DedupSpec(out)[i].courseId ==>
      out[j].confidence <= DedupSpec(out)[i].confidence
  {
    DistinctSpec(Ids(out));
    var d := Distinct(Ids(out));
    assert d[i] in Ids(out);
    BestSpec(out, d[i]);
  }

  /** Without repeated course ids, de-duplication changes nothing. */
  lemma DedupNoRepeats(out: seq<Mapped>)
    requires NoDuplicates(Ids(out))
    ensures DedupSpec(out) == out
  {
    DistinctOfNoDuplicates(Ids(out));
    var r := DedupSpec(out);
    forall i | 0 <= i < |out| ensures r[i] == out[i] {
      var cid := out[i].courseId;
      assert Ids(out)[i] == cid;
      BestSpec(out, cid);
      var k :| 0 <= k < |out| && out[k] == Best(out, cid);
      assert Ids(out)[k] == cid;
    }
  }

  /** Each rule names its own course. */
  lemma RulesDistinct()
    ensures NoDuplicates(Rules)
  {
  }

  /** Options in rule order, each naming its own rule's course, give entries in rule order. */
  lemma {:induction false} SomesIdsDistinct(c: seq<Option<Mapped>>, n: nat)
    requires n <= |c| <= |Rules| && NoDuplicates(Rules)
    requires forall i :: 0 <= i < |c| && c[i].Some? ==> c[i].value.courseId == Rules[i]
    ensures NoDuplicates(Ids(SomesUpTo(c, n)))
    ensures forall cid :: cid in Ids(SomesUpTo(c, n)) ==> exists i :: 0 <= i < n && Rules[i] == cid
  {
    if n > 0 {
      var pre := SomesUpTo(c, n - 1);
      SomesIdsDistinct(c, n - 1);
      if c[n - 1].Some? {
        var e := c[n - 1].value;
        IdsAppend(pre, e);
        assert forall i :: 0 <= i < n - 1 ==> Rules[i] != e.courseId;
        assert e.courseId !in Ids(pre);
      }
      forall cid | cid in Ids(SomesUpTo(c, n)) ensures exists i :: 0 <= i < n && Rules[i] == cid {
        if cid in Ids(pre) {
          var i :| 0 <= i < n - 1 && Rules[i] == cid;
          assert 0 <= i < n && Rules[i] == cid;
        } else {
          IdsAppend(pre, c[n - 1].value);
          assert Rules[n - 1] == cid;
        }
      }
    }
  }

  /** The collected entries come in rule order, so their ids repeat only when rule ids do. */
  lemma FoundIdsDistinct(text: string, hits: seq<seq<Match>>)
    requires ValidHits(text, hits)
    ensures NoDuplicates(Ids(Found(text, hits)))
  {
    RulesDistinct();
    SomesIdsDistinct(Candidates(text, hits), |hits|);
  }

  /** `map_text_to_courses` with the matches of each rule given. */
  method MapTextToCourses(text: string, hits: seq<seq<Match>>) returns (result: seq<Mapped>)
    requires ValidHits(text, hits)
    ensures result == DedupSpec(Found(text, hits))
  {
    var out := CollectMatches(text, hits);
    result := Dedup(out);
  }

  /** Each entry names its rule's course, with a confidence in [0.5, 1.0] and an excerpt of at most 500 characters. */
  lemma EntryShape(text: string, hits: seq<seq<Match>>, i: nat)
    requires ValidHits(text, hits) && i < |hits| && hits[i] != []
    ensures Entry(text, hits, i).courseId == Rules[i]
    ensures Entry(text, hits, i).confidence == Confidence(|hits[i]|)
    ensures 0.5 <= Entry(text, hits, i).confidence <= 1.0
    ensures |Entry(text, hits, i).excerpt| <= 500 && '\n' !in Entry(text, hits, i).excerpt
  {
    ConfidenceSteps(|hits[i]|);
    ExcerptShape(text, hits[i][0]);
  }

  /** The rules name distinct courses, so the de-duplication of `map_text_to_courses` never merges. */
  lemma FoundNeedsNoDedup(text: string, hits: seq<seq<Match>>)
    requires ValidHits(text, hits)
    ensures DedupSpec(Found(text, hits)) == Found(text, hits)
  {
    FoundIdsDistinct(text, hits);
    DedupNoRepeats(Found(text, hits));
  }

  /**
   * The result holds, without a repeated course id, exactly the entries of
   * the rules that matched.
   */
  lemma MapTextProperties(text: string, hits: seq<seq<Match>>)
    requires ValidHits(text, hits)
    ensures NoDuplicates(Ids(DedupSpec(Found(text, hits))))
    ensures forall e :: e in DedupSpec(Found(text, hits)) <==>
      exists i :: 0 <= i < |hits| && hits[i] != [] && e == Entry(text, hits, i)
  {
    FoundNeedsNoDedup(text, hits);
    FoundIdsDistinct(text, hits);
    FoundSpec(text, hits);
  }
}
