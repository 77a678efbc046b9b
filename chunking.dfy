/**
 * app/routers/ai_process.py, `extract_pdf_text`: every page with text is
 * reduced to single-spaced form and cut into windows of 8000 characters
 * that start 7500 apart, until more than 120000 characters' worth of
 * chunks (16 chunks) have been collected. The PDF reader is left out: the
 * input is the text of each page in order. The extraction names each chunk
 * `p<page>_c<i // 8000>` as written; the numbering by window, `i // 7500`,
 * is the corrected one whose ids are proved distinct.
 */
module Chunking {
  import opened Text
  import opened Numbers

  const ChunkSize: nat := 8000
  const Overlap: nat := 500
  const Step: nat := ChunkSize - Overlap
  const CharLimit: nat := 120000

  /** The smallest chunk count at which `len(chunks) * chunk_size > 120000` holds. */
  const MaxChunks: nat := 16

  datatype Chunk = Chunk(text: string, page: nat, chunkId: string)

  function ChunkIdOf(page: nat, k: nat): string {
    "p" + NatToString(page) + "_c" + NatToString(k)
  }

  /** `chunk_id` as the source writes it: the window's offset divided by the window size. */
  function ChunkIdAsWritten(page: nat, offset: nat): string {
    ChunkIdOf(page, offset / ChunkSize)
  }

  /** `chunk_id` numbered by window: the offset divided by the step between windows. */
  function ChunkId(page: nat, offset: nat): string {
    ChunkIdOf(page, offset / Step)
  }

  /**
   * The divisor that turns a window's offset into the number in its
   * `chunk_id`: `ChunkSize` as written, `Step` when numbered by window. The
   * chunks' texts and pages do not depend on it.
   */
  type Unit = d: nat | 0 < d witness 1

  /** `normalized[i:i + chunk_size]`, with Python's clamping at the end. */
  function Window(t: string, i: nat): (w: string)
    requires i <= |t|
    ensures |w| <= ChunkSize
  {
    t[i..if i + ChunkSize < |t| then i + ChunkSize else |t|]
  }

  /** The chunk holding the window of `t` at offset `i`. */
  function WindowChunk(per: Unit, t: string, page: nat, i: nat): Chunk
    requires i <= |t|
  {
    Chunk(Window(t, i), page, ChunkIdOf(page, i / per))
  }

  /** The chunks of one normalised page for window offsets `i, i + 7500, …`. */
  function PageChunksFrom(per: Unit, t: string, page: nat, i: nat): seq<Chunk>
    decreases if i < |t| then |t| - i else 0
  {
    if i >= |t| then []
    else
      (if !IsBlank(Window(t, i)) then [WindowChunk(per, t, page, i)] else [])
      + PageChunksFrom(per, t, page, i + Step)
  }

  /** The chunks of page number `page`, whose extracted text is `text`. */
  function PageChunks(per: Unit, text: string, page: nat): seq<Chunk> {
    if !IsBlank(text) then PageChunksFrom(per, Collapse(text), page, 0) else []
  }

  /** The chunks of pages `p, p + 1, …`, numbered from 1, without the cap. */
  function AllChunksFrom(per: Unit, pages: seq<string>, p: nat): seq<Chunk>
    decreases if p < |pages| then |pages| - p else 0
  {
    if p >= |pages| then [] else PageChunks(per, pages[p], p + 1) + AllChunksFrom(per, pages, p + 1)
  }

  lemma TakeOfPrefix(chunks: seq<Chunk>, rest: seq<Chunk>)
    requires |chunks| == MaxChunks
    ensures Take(chunks + rest, MaxChunks) == chunks
  {
    assert (chunks + rest)[..MaxChunks] == chunks;
  }

  lemma PageChunksFromUnfold(per: Unit, t: string, page: nat, i: nat)
    requires i < |t|
    ensures PageChunksFrom(per, t, page, i)
      == (if !IsBlank(Window(t, i)) then [WindowChunk(per, t, page, i)] else [])
         + PageChunksFrom(per, t, page, i + Step)
  {
  }

  lemma AllChunksFromUnfold(per: Unit, pages: seq<string>, p: nat)
    requires p < |pages|
    ensures AllChunksFrom(per, pages, p) == PageChunks(per, pages[p], p + 1) + AllChunksFrom(per, pages, p + 1)
    ensures PageChunks(per, pages[p], p + 1)
      == if !IsBlank(pages[p]) then PageChunksFrom(per, Collapse(pages[p]), p + 1, 0) else []
  {
  }

  lemma Reassociate(a: seq<Chunk>, b: seq<Chunk>, c: seq<Chunk>)
    ensures a + (b + c) == (a + b) + c
  {
  }

  lemma TakeTake(x: seq<Chunk>, c: seq<Chunk>, n: nat)
    ensures Take(Take(x, n) + c, n) == Take(x + c, n)
  {
    if |x| >= n {
      assert (x + c)[..n] == x[..n];
    }
  }

  /**
   * The inner loop of `extract_pdf_text` over one normalised page `t`:
   * appends the page's chunks to `chunks`, stopping once there are 16.
   */
  method AppendPageChunks(t: string, page: nat, chunks: seq<Chunk>) returns (out: seq<Chunk>)
    requires |chunks| < MaxChunks
    ensures out == Take(chunks + PageChunksFrom(ChunkSize, t, page, 0), MaxChunks)
  {
    ghost var goal := Take(chunks + PageChunksFrom(ChunkSize, t, page, 0), MaxChunks);
    out := chunks;
    var i := 0;
    while i < |t|
      invariant |out| < MaxChunks
      invariant Take(out + PageChunksFrom(ChunkSize, t, page, i), MaxChunks) == goal
      decreases |t| - i
    {
      var chunkText := Window(t, i);
      if !IsBlank(chunkText) {
        var chunk := Chunk(chunkText, page, ChunkIdAsWritten(page, i));
        KeepWindow(t, page, i, out);
        out := out + [chunk];
      } else {
        SkipWindow(t, page, i);
      }
      if |out| * ChunkSize > CharLimit {
        TakeOfPrefix(out, PageChunksFrom(ChunkSize, t, page, i + Step));
        return;
      }
      i := i + Step;
    }
  }

  /** A non-blank window is appended with its id as written. */
  lemma KeepWindow(t: string, page: nat, i: nat, out: seq<Chunk>)
    requires i < |t| && !IsBlank(Window(t, i))
    ensures (out + [Chunk(Window(t, i), page, ChunkIdAsWritten(page, i))]) + PageChunksFrom(ChunkSize, t, page, i + Step)
         == out + PageChunksFrom(ChunkSize, t, page, i)
  {
    PageChunksFromUnfold(ChunkSize, t, page, i);
    Reassociate(out, [WindowChunk(ChunkSize, t, page, i)], PageChunksFrom(ChunkSize, t, page, i + Step));
  }

  /** A blank window adds nothing. */
  lemma SkipWindow(t: string, page: nat, i: nat)
    requires i < |t| && IsBlank(Window(t, i))
    ensures PageChunksFrom(ChunkSize, t, page, i + Step) == PageChunksFrom(ChunkSize, t, page, i)
  {
    PageChunksFromUnfold(ChunkSize, t, page, i);
  }

  /** The body of the page loop of `extract_pdf_text` for page index `p`. */
  method AddPage(pages: seq<string>, p: nat, chunks: seq<Chunk>) returns (out: seq<Chunk>)
    requires p < |pages| && |chunks| < MaxChunks
    ensures out == Take(chunks + PageChunks(ChunkSize, pages[p], p + 1), MaxChunks)
  {
    var text := pages[p];
    if !IsBlank(text) {
      var normalized := Collapse(text);
      out := AppendPageChunks(normalized, p + 1, chunks);
    } else {
      out := chunks;
      assert chunks + PageChunks(ChunkSize, text, p + 1) == chunks;
    }
  }

  /**
   * `extract_pdf_text` after the PDF reader: the uncapped chunk sequence of
   * all pages, cut off at the first 16 chunks.
   */
  method ExtractChunks(pages: seq<string>) returns (chunks: seq<Chunk>)
    ensures chunks == Take(AllChunksFrom(ChunkSize, pages, 0), MaxChunks)
  {
    ghost var goal := Take(AllChunksFrom(ChunkSize, pages, 0), MaxChunks);
    chunks := [];
    var p := 0;
    while p < |pages|
      invariant 0 <= p <= |pages|
      invariant |chunks| < MaxChunks
      invariant Take(chunks + AllChunksFrom(ChunkSize, pages, p), MaxChunks) == goal
    {
      ghost var before := chunks;
      chunks := AddPage(pages, p, chunks);
      NextPage(ChunkSize, pages, p, before, chunks);
      if |chunks| * ChunkSize > CharLimit {
        TakeOfPrefix(chunks, AllChunksFrom(ChunkSize, pages, p + 1));
        break;
      }
      p := p + 1;
    }
  }

  /** One step of the page loop keeps the capped result the same. */
  lemma NextPage(per: Unit, pages: seq<string>, p: nat, before: seq<Chunk>, after: seq<Chunk>)
    requires p < |pages|
    requires after == Take(before + PageChunks(per, pages[p], p + 1), MaxChunks)
    ensures Take(after + AllChunksFrom(per, pages, p + 1), MaxChunks)
         == Take(before + AllChunksFrom(per, pages, p), MaxChunks)
  {
    AllChunksFromUnfold(per, pages, p);
    TakeStep(before, PageChunks(per, pages[p], p + 1), AllChunksFrom(per, pages, p + 1), MaxChunks);
  }

  lemma TakeStep(before: seq<Chunk>, here: seq<Chunk>, later: seq<Chunk>, n: nat)
    ensures Take(Take(before + here, n) + later, n) == Take(before + (here + later), n)
  {
    Reassociate(before, here, later);
    TakeTake(before + here, later, n);
  }

  /** Every chunk is a window of one page's normalised text, inside the page numbering. */
  lemma {:induction false} AllChunksShape(per: Unit, pages: seq<string>, p: nat)
    ensures forall c :: c in AllChunksFrom(per, pages, p) ==>
      1 <= p + 1 <= c.page <= |pages| && |c.text| <= ChunkSize && !IsBlank(c.text)
    decreases if p < |pages| then |pages| - p else 0
  {
    if p < |pages| {
      AllChunksShape(per, pages, p + 1);
      if !IsBlank(pages[p]) {
        PageChunksShape(per, Collapse(pages[p]), p + 1, 0);
      }
    }
  }

  lemma {:induction false} PageChunksShape(per: Unit, t: string, page: nat, i: nat)
    ensures forall c :: c in PageChunksFrom(per, t, page, i) ==>
      c.page == page && |c.text| <= ChunkSize && !IsBlank(c.text)
    decreases if i < |t| then |t| - i else 0
  {
    if i < |t| {
      PageChunksShape(per, t, page, i + Step);
    }
  }

  /** The cap: at most 16 chunks, i.e. at most 128000 characters. */
  lemma CapBound(per: Unit, pages: seq<string>)
    ensures |Take(AllChunksFrom(per, pages, 0), MaxChunks)| <= MaxChunks
    ensures MaxChunks * ChunkSize > CharLimit && (MaxChunks - 1) * ChunkSize <= CharLimit
  {
  }

  /** On single-spaced text the windows of a page reach its end. */
  lemma {:induction false} PageChunksReach(per: Unit, t: string, page: nat, i: nat)
    requires WsNormal(t)
    ensures i < |t| ==> i + Step * |PageChunksFrom(per, t, page, i)| >= |t|
    decreases if i < |t| then |t| - i else 0
  {
    if i < |t| {
      PageChunksReach(per, t, page, i + Step);
      WindowNotBlank(t, i);
      PageChunksFromUnfold(per, t, page, i);
    }
  }

  /**
   * On single-spaced text no window is blank, so chunk `k` of a page is
   * exactly the window starting at `7500 * k`: consecutive chunks start
   * 7500 apart and share 500 characters.
   */
  lemma {:induction false} PageChunksWindows(per: Unit, t: string, page: nat, i: nat)
    requires WsNormal(t)
    ensures forall k :: 0 <= k < |PageChunksFrom(per, t, page, i)| ==>
      i + Step * k < |t| &&
      PageChunksFrom(per, t, page, i)[k] == WindowChunk(per, t, page, i + Step * k)
    decreases if i < |t| then |t| - i else 0
  {
    if i < |t| {
      PageChunksWindows(per, t, page, i + Step);
      WindowNotBlank(t, i);
      PageChunksFromUnfold(per, t, page, i);
      var s := PageChunksFrom(per, t, page, i);
      var rest := PageChunksFrom(per, t, page, i + Step);
      assert s == [WindowChunk(per, t, page, i)] + rest;
      forall k | 0 <= k < |s|
        ensures i + Step * k < |t|
        ensures s[k] == WindowChunk(per, t, page, i + Step * k)
      {
        if k > 0 {
          var off := (i + Step) + Step * (k - 1);
          assert rest[k - 1] == WindowChunk(per, t, page, off);
          assert off == i + Step * k;
          assert s[k] == rest[k - 1];
        } else {
          assert i + Step * k == i;
          assert s[k] == WindowChunk(per, t, page, i);
        }
      }
    }
  }

  /** In one-word-spaced text, no window that starts inside the text is blank. */
  lemma WindowNotBlank(t: string, i: nat)
    requires WsNormal(t) && i < |t|
    ensures !IsBlank(Window(t, i))
  {
    if |t| - i >= 2 {
      SliceOfWsNormalNotBlank(t, i, if i + ChunkSize < |t| then i + ChunkSize else |t|);
    } else {
      SliceOfWsNormalNotBlank(t, i, |t|);
    }
  }

  lemma StepDiv(k: nat)
    ensures Step * k / Step == k
  {
  }

  /** A page's one-word-spaced text: every chunk of it is a window at a multiple of 7500. */
  lemma PageChunksOfPage(per: Unit, text: string, page: nat)
    ensures forall k :: 0 <= k < |PageChunks(per, text, page)| ==>
      Step * k < |Collapse(text)| &&
      PageChunks(per, text, page)[k] == WindowChunk(per, Collapse(text), page, Step * k)
  {
    if !IsBlank(text) {
      CollapseWsNormal(text);
      PageChunksWindows(per, Collapse(text), page, 0);
      PageChunksReach(per, Collapse(text), page, 0);
    }
  }

  /** `chunk_id` determines its page and window number. */
  lemma {:induction false} ChunkIdOfInjective(p1: nat, k1: nat, p2: nat, k2: nat)
    requires ChunkIdOf(p1, k1) == ChunkIdOf(p2, k2)
    ensures p1 == p2 && k1 == k2
  {
    var a, b := NatToString(p1), NatToString(k1);
    var c, d := NatToString(p2), NatToString(k2);
    var s := ChunkIdOf(p1, k1);
    assert s[1..] == a + ("_c" + b) && s[1..] == c + ("_c" + d) by {
      assert s == "p" + a + "_c" + b == [s[0]] + (a + ("_c" + b));
      assert s == "p" + c + "_c" + d == [s[0]] + (c + ("_c" + d));
    }
    SameDigitPrefix(a, "_c" + b, c, "_c" + d);
    assert "_c" + b == "_c" + d;
    assert b == ("_c" + b)[2..] == d;
    DigitsValueOfNatToString(p1);
    DigitsValueOfNatToString(p2);
    DigitsValueOfNatToString(k1);
    DigitsValueOfNatToString(k2);
  }

  /** A run of digits ends where the first non-digit begins. */
  lemma SameDigitPrefix(a: string, u: string, c: string, v: string)
    requires AllDigits(a) && AllDigits(c) && a + u == c + v
    requires u != [] && v != [] && !IsDigit(u[0]) && !IsDigit(v[0])
    ensures a == c && u == v
  {
    var w := a + u;
    assert !IsDigit(w[|a|]) && forall i :: 0 <= i < |a| ==> IsDigit(w[i]);
    assert !IsDigit(w[|c|]) && forall i :: 0 <= i < |c| ==> IsDigit(w[i]);
    assert a == (a + u)[..|a|] == c;
    assert u == (a + u)[|a|..] == v;
  }

  /**
   * As written, the second window of a page (offset 7500) gets the same
   * `chunk_id` as the first (offset 0): 7500 // 8000 == 0.
   */
  lemma ChunkIdAsWrittenCollides(page: nat)
    ensures ChunkIdAsWritten(page, 0) == ChunkIdAsWritten(page, Step)
  {
  }

  /** The window number that a numbering writes into the id of a page's chunk `x`. */
  function WindowNumber(per: Unit, x: nat): nat {
    Step * x / per
  }

  /**
   * On a page, chunk `x` names the page and, as written, the number
   * `7500 * x // 8000`; numbered by window, the number `x`.
   */
  lemma PageIds(per: Unit, text: string, page: nat)
    ensures forall x :: 0 <= x < |PageChunks(per, text, page)| ==>
      PageChunks(per, text, page)[x].chunkId == ChunkIdOf(page, WindowNumber(per, x)) && PageChunks(per, text, page)[x].page == page
  {
    PageChunksOfPage(per, text, page);
  }

  ghost predicate IdNamesPage(c: Chunk) {
    exists m: nat :: c.chunkId == ChunkIdOf(c.page, m)
  }

  predicate IdsDistinct(s: seq<Chunk>) {
    forall x, y :: 0 <= x < y < |s| ==> s[x].chunkId != s[y].chunkId
  }

  /** Every chunk's id names the chunk's own page. */
  lemma {:induction false} AllIdsNamePages(per: Unit, pages: seq<string>, p: nat)
    ensures forall c :: c in AllChunksFrom(per, pages, p) ==> IdNamesPage(c)
    decreases if p < |pages| then |pages| - p else 0
  {
    if p < |pages| {
      AllIdsNamePages(per, pages, p + 1);
      var here := PageChunks(per, pages[p], p + 1);
      PageIds(per, pages[p], p + 1);
      forall c | c in here ensures IdNamesPage(c) {
        var x :| 0 <= x < |here| && here[x] == c;
        assert c.chunkId == ChunkIdOf(c.page, WindowNumber(per, x));
      }
    }
  }

  /** Appending a page's chunks in front of later pages' chunks keeps the ids distinct. */
  lemma PrependPageDistinct(here: seq<Chunk>, rest: seq<Chunk>, page: nat)
    requires forall x :: 0 <= x < |here| ==> here[x].chunkId == ChunkIdOf(page, x)
    requires forall c :: c in rest ==> c.page > page && IdNamesPage(c)
    requires IdsDistinct(rest)
    ensures IdsDistinct(here + rest)
  {
    var all := here + rest;
    forall x, y | 0 <= x < y < |all| ensures all[x].chunkId != all[y].chunkId {
      if y < |here| {
        assert all[x] == here[x] && all[y] == here[y];
        if all[x].chunkId == all[y].chunkId {
          ChunkIdOfInjective(page, x, page, y);
        }
      } else if x >= |here| {
        assert all[x] == rest[x - |here|] && all[y] == rest[y - |here|];
      } else {
        assert all[x] == here[x];
        assert all[y] == rest[y - |here|];
        var c := all[y];
        assert c in rest;
        var m: nat :| c.chunkId == ChunkIdOf(c.page, m);
        if all[x].chunkId == c.chunkId {
          ChunkIdOfInjective(page, x, c.page, m);
        }
      }
    }
  }

  /** Numbered by window, the chunk ids of the whole document are all different. */
  lemma {:induction false} ChunkIdsDistinct(pages: seq<string>, p: nat)
    ensures IdsDistinct(AllChunksFrom(Step, pages, p))
    decreases if p < |pages| then |pages| - p else 0
  {
    if p < |pages| {
      ChunkIdsDistinct(pages, p + 1);
      AllChunksShape(Step, pages, p + 1);
      AllIdsNamePages(Step, pages, p + 1);
      PageIds(Step, pages[p], p + 1);
      var here := PageChunks(Step, pages[p], p + 1);
      forall x | 0 <= x < |here| ensures here[x].chunkId == ChunkIdOf(p + 1, x) {
        StepDiv(x);
      }
      PrependPageDistinct(PageChunks(Step, pages[p], p + 1), AllChunksFrom(Step, pages, p + 1), p + 1);
    }
  }

  /** The capped result keeps the ids distinct. */
  lemma ExtractedIdsDistinct(pages: seq<string>)
    ensures IdsDistinct(Take(AllChunksFrom(Step, pages, 0), MaxChunks))
  {
    ChunkIdsDistinct(pages, 0);
  }

  /**
   * As written, the extraction of a document whose first page has more than
   * 7500 characters of normalised text returns two chunks with the id `p1_c0`.
   */
  lemma ExtractedIdsCollide(pages: seq<string>)
    requires |pages| >= 1 && !IsBlank(pages[0]) && |Collapse(pages[0])| > Step
    ensures |Take(AllChunksFrom(ChunkSize, pages, 0), MaxChunks)| >= 2
    ensures Take(AllChunksFrom(ChunkSize, pages, 0), MaxChunks)[0].chunkId == ChunkIdOf(1, 0)
    ensures Take(AllChunksFrom(ChunkSize, pages, 0), MaxChunks)[1].chunkId == ChunkIdOf(1, 0)
  {
    var here := PageChunks(ChunkSize, pages[0], 1);
    LongPageCollides(pages[0]);
    AllChunksFromUnfold(ChunkSize, pages, 0);
    var all := AllChunksFrom(ChunkSize, pages, 0);
    assert all[0] == here[0] && all[1] == here[1];
  }

  /** A page with more than 7500 characters of normalised text has two chunks named `c0`. */
  lemma LongPageCollides(text: string)
    requires !IsBlank(text) && |Collapse(text)| > Step
    ensures |PageChunks(ChunkSize, text, 1)| >= 2
    ensures PageChunks(ChunkSize, text, 1)[0].chunkId == ChunkIdOf(1, 0)
    ensures PageChunks(ChunkSize, text, 1)[1].chunkId == ChunkIdOf(1, 0)
  {
    var t := Collapse(text);
    CollapseWsNormal(text);
    PageChunksReach(ChunkSize, t, 1, 0);
    var here := PageChunksFrom(ChunkSize, t, 1, 0);
    assert Step * |here| > Step;
    PageIds(ChunkSize, text, 1);
    assert WindowNumber(ChunkSize, 1) == 0;
  }

  /** Two chunk lists that differ at most in their ids. */
  predicate SameButIds(x: seq<Chunk>, y: seq<Chunk>) {
    |x| == |y| && forall k :: 0 <= k < |x| ==> x[k].text == y[k].text && x[k].page == y[k].page
  }

  lemma SameButIdsAppend(x1: seq<Chunk>, y1: seq<Chunk>, x2: seq<Chunk>, y2: seq<Chunk>)
    requires SameButIds(x1, y1) && SameButIds(x2, y2)
    ensures SameButIds(x1 + x2, y1 + y2)
  {
    forall k | 0 <= k < |x1 + x2|
      ensures (x1 + x2)[k].text == (y1 + y2)[k].text && (x1 + x2)[k].page == (y1 + y2)[k].page
    {
      if k >= |x1| {
        assert (x1 + x2)[k] == x2[k - |x1|] && (y1 + y2)[k] == y2[k - |y1|];
      }
    }
  }

  /** The divisor of the ids changes nothing but the ids on a page. */
  lemma {:induction false} PageRenumber(a: Unit, b: Unit, t: string, page: nat, i: nat)
    ensures SameButIds(PageChunksFrom(a, t, page, i), PageChunksFrom(b, t, page, i))
    decreases if i < |t| then |t| - i else 0
  {
    if i < |t| {
      PageRenumber(a, b, t, page, i + Step);
      PageChunksFromUnfold(a, t, page, i);
      PageChunksFromUnfold(b, t, page, i);
      var w := !IsBlank(Window(t, i));
      SameButIdsAppend(if w then [WindowChunk(a, t, page, i)] else [], if w then [WindowChunk(b, t, page, i)] else [],
        PageChunksFrom(a, t, page, i + Step), PageChunksFrom(b, t, page, i + Step));
    }
  }

  /**
   * The corrected numbering extracts the same texts of the same pages as
   * the numbering as written; only the ids differ.
   */
  lemma {:induction false} Renumber(a: Unit, b: Unit, pages: seq<string>, p: nat)
    ensures SameButIds(AllChunksFrom(a, pages, p), AllChunksFrom(b, pages, p))
    decreases if p < |pages| then |pages| - p else 0
  {
    if p < |pages| {
      Renumber(a, b, pages, p + 1);
      AllChunksFromUnfold(a, pages, p);
      AllChunksFromUnfold(b, pages, p);
      if !IsBlank(pages[p]) {
        PageRenumber(a, b, Collapse(pages[p]), p + 1, 0);
      }
      SameButIdsAppend(PageChunks(a, pages[p], p + 1), PageChunks(b, pages[p], p + 1),
        AllChunksFrom(a, pages, p + 1), AllChunksFrom(b, pages, p + 1));
    }
  }
}
