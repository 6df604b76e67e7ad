/** `naive_chunking` (src/utils/chunking.py): a greedy left-to-right merge of
    linearized segments into chunks of at most `MaxLen` characters (measured before
    the joining space is added), with a new chunk forced at every heading and an
    optional one-segment overlap after an overflow.

    The loop keeps three variables (`current_string`, `last_str`, `page_num`) and
    writes `output_dict[current_string] = page_num` at each seal. The model keeps the
    same three variables and the sequence of those writes; the returned dict is
    `FromPairs` of the writes, which is how Python's `dict` behaves under them. */
module Chunking {

  import opened Wrappers
  import opened OrderedDict
  import Text
  import opened Segments

  const MaxLen: nat := 2500

  /** One `{"text": ..., "page_no": ...}` entry of the result. */
  datatype Chunk = Chunk(text: string, pageNo: Option<int>)

  datatype State = State(
    current: string,                        // current_string
    last: string,                           // last_str: the last segment appended
    page: Option<int>,                      // page_num
    writes: seq<(string, Option<int>)>)     // output_dict[...] = ... so far, in order

  const Init := State("", "", None, [])

  /** A heading is a segment longer than one character starting with `#`. */
  predicate IsHeading(t: string) {
    |t| > 1 && t[0] == '#'
  }

  /** True when the non-heading segment `t` is appended to `current`. */
  predicate Fits(current: string, t: string) {
    |current| + |t| <= MaxLen
  }

  /** One iteration of the `for t, n in text` loop. */
  function Step(s: State, seg: Segment, overlap: bool): State {
    var t, n := seg.text, seg.page;
    if IsHeading(t) then
      var writes := if s.page.Some? then s.writes + [(s.current, s.page)] else s.writes;
      State(t, s.last, Some(n), writes)
    else if Fits(s.current, t) then
      var page := if s.page.None? || n < s.page.value then Some(n) else s.page;
      State(s.current + " " + t, t, page, s.writes)
    else
      State(if overlap then s.last + " " + t else t, s.last, Some(n), s.writes + [(s.current, s.page)])
  }

  /** The loop state after the whole input. */
  function Run(segs: seq<Segment>, overlap: bool): State {
    if |segs| == 0 then Init else Step(Run(segs[..|segs| - 1], overlap), segs[|segs| - 1], overlap)
  }

  /** Every write to `output_dict`, the final unconditional one included. */
  function Writes(segs: seq<Segment>, overlap: bool): seq<(string, Option<int>)> {
    var s := Run(segs, overlap);
    s.writes + [(s.current, s.page)]
  }

  /** `naive_chunking(text, overlap)`: the items of `output_dict` in order. */
  function NaiveChunking(segs: seq<Segment>, overlap: bool): seq<Chunk> {
    var d := FromPairs(Writes(segs, overlap));
    seq(|d|, i requires 0 <= i < |d| => Chunk(d[i].0, d[i].1))
  }

  function Texts(cs: seq<Chunk>): (ts: seq<string>)
    ensures |ts| == |cs|
    ensures forall i :: 0 <= i < |cs| ==> ts[i] == cs[i].text
  {
    seq(|cs|, i requires 0 <= i < |cs| => cs[i].text)
  }

  /** The result has one entry per distinct text written, in first-write order,
      carrying the page written last for that text; it is never empty. */
  lemma ChunkingOutput(segs: seq<Segment>, overlap: bool)
    ensures var r := NaiveChunking(segs, overlap);
      && |r| >= 1
      && Distinct(Texts(r))
      && Texts(r) == Dedup(Keys(Writes(segs, overlap)))
      && forall i :: 0 <= i < |r| ==> LastValue(Writes(segs, overlap), r[i].text) == Some(r[i].pageNo)
  {
    var ws := Writes(segs, overlap);
    var d := FromPairs(ws);
    var r := NaiveChunking(segs, overlap);
    FromPairsSpec(ws);
    assert Texts(r) == Keys(d);
    FromPairsKeys(ws, ws[|ws| - 1].0);
    forall i | 0 <= i < |r|
      ensures LastValue(ws, r[i].text) == Some(r[i].pageNo)
    {
      assert Get(d, d[i].0) == Some(d[i].1) by {
        GetAt(d, i);
      }
    }
  }

  /** With no input the loop never runs, and the single final write gives one
      empty chunk without a page. */
  lemma EmptyInput(overlap: bool)
    ensures NaiveChunking([], overlap) == [Chunk("", None)]
  {
    assert Run([], overlap) == Init;
    var ws := Writes([], overlap);
    assert ws == [("", None)];
    assert ws[..0] == [];
    var d := FromPairs(ws);
    var empty: seq<(string, Option<int>)> := [];
    assert FromPairs(ws[..0]) == empty;
    assert d == Put(empty, "", None);
    assert d == [("", None)];
    var r := NaiveChunking([], overlap);
    assert |r| == 1 && r[0] == Chunk("", None);
  }

  /** A chunk can be one character longer than `MaxLen`: the bound is checked
      before the joining space is added. */
  lemma ChunkCanReach2501()
    ensures var r := NaiveChunking([Segment(Text.Repeat('x', 2500), 1)], false);
      |r| == 1 && |r[0].text| == MaxLen + 1
  {
    var segs := [Segment(Text.Repeat('x', 2500), 1)];
    assert segs[..0] == [];
  }

  /** The longest text an accumulator can start from: a single segment, or with
      overlap the previous appended segment, a space and the current one. No chunk
      grows past `MaxLen + 1` by appending. */
  function Bound(segs: seq<Segment>, overlap: bool): nat {
    var m := Longest(segs);
    Max(if overlap then 2 * m + 1 else m, MaxLen + 1)
  }

  function Max(a: nat, b: nat): nat {
    if a >= b then a else b
  }

  predicate Bounded(s: State, b: nat, m: nat) {
    && |s.last| <= m
    && |s.current| <= b
    && forall w :: w in s.writes ==> |w.0| <= b
  }

  lemma {:induction false} RunBounded(segs: seq<Segment>, overlap: bool)
    ensures Bounded(Run(segs, overlap), Bound(segs, overlap), Longest(segs))
  {
    if |segs| > 0 {
      var init := segs[..|segs| - 1];
      RunBounded(init, overlap);
      assert Bound(init, overlap) <= Bound(segs, overlap);
    }
  }

  /** Every chunk of the result is one of the writes to `output_dict`. */
  lemma ChunkWritten(segs: seq<Segment>, overlap: bool, c: Chunk)
    requires c in NaiveChunking(segs, overlap)
    ensures var s := Run(segs, overlap);
      (c.text, c.pageNo) in s.writes || (c.text, c.pageNo) == (s.current, s.page)
  {
    var ws := Writes(segs, overlap);
    var d := FromPairs(ws);
    FromPairsSpec(ws);
    var i :| 0 <= i < |d| && c == Chunk(d[i].0, d[i].1);
    GetAt(d, i);
    LastValueWritten(ws, c.text);
    assert (c.text, c.pageNo) in ws;
  }

  /** A text an accumulator restarts from at segment `j`: the segment itself, or
      with overlap `last_str + " " + t`, where `last_str` is still empty or is an
      earlier segment. */
  ghost predicate Seed(segs: seq<Segment>, overlap: bool, x: string) {
    exists j :: 0 <= j < |segs| && (
      || x == segs[j].text
      || (overlap && x == " " + segs[j].text)
      || (overlap && exists k :: 0 <= k < j && x == segs[k].text + " " + segs[j].text))
  }

  /** An accumulator text that has been appended to fits in `MaxLen + 1`; only an
      untouched seed can be longer. */
  ghost predicate LengthOk(segs: seq<Segment>, overlap: bool, x: string) {
    |x| <= MaxLen + 1 || Seed(segs, overlap, x)
  }

  /** `last_str` is empty or an earlier segment; the accumulator and every write
      have `LengthOk` texts. */
  ghost predicate Sized(s: State, segs: seq<Segment>, overlap: bool) {
    && (s.last == "" || exists k :: 0 <= k < |segs| && s.last == segs[k].text)
    && LengthOk(segs, overlap, s.current)
    && forall w :: w in s.writes ==> LengthOk(segs, overlap, w.0)
  }

  /** What holds of a prefix holds of the whole input. */
  lemma LengthOkGrows(segs: seq<Segment>, overlap: bool, x: string)
    requires |segs| > 0 && LengthOk(segs[..|segs| - 1], overlap, x)
    ensures LengthOk(segs, overlap, x)
  {
    var init := segs[..|segs| - 1];
    if |x| > MaxLen + 1 {
      var j :| 0 <= j < |init| && (
        || x == init[j].text
        || (overlap && x == " " + init[j].text)
        || (overlap && exists k :: 0 <= k < j && x == init[k].text + " " + init[j].text));
      assert init[j] == segs[j];
      if overlap && x != init[j].text && x != " " + init[j].text {
        var k :| 0 <= k < j && x == init[k].text + " " + init[j].text;
        assert init[k] == segs[k];
      }
    }
  }

  /** The segment just read is a seed. */
  lemma SeedLast(init: seq<Segment>, seg: Segment, overlap: bool, last: string, x: string)
    requires last == "" || exists k :: 0 <= k < |init| && last == init[k].text
    requires x == seg.text || (overlap && x == last + " " + seg.text)
    ensures Seed(init + [seg], overlap, x)
  {
    var segs := init + [seg];
    var j := |init|;
    assert segs[j] == seg;
    if x != seg.text && last != "" {
      var k :| 0 <= k < |init| && last == init[k].text;
      assert segs[k] == init[k];
    }
  }

  lemma StepSized(init: seq<Segment>, seg: Segment, overlap: bool)
    requires Sized(Run(init, overlap), init, overlap)
    ensures Sized(Step(Run(init, overlap), seg, overlap), init + [seg], overlap)
  {
    var s := Run(init, overlap);
    var segs := init + [seg];
    var r := Step(s, seg, overlap);
    assert segs[..|init|] == init;
    LengthOkGrows(segs, overlap, s.current);
    forall w | w in s.writes ensures LengthOk(segs, overlap, w.0) {
      LengthOkGrows(segs, overlap, w.0);
    }
    assert forall w :: w in r.writes ==> w in s.writes || w.0 == s.current;
    if s.last != "" {
      var k :| 0 <= k < |init| && s.last == init[k].text;
      assert segs[k] == init[k];
    }
    if IsHeading(seg.text) {
      SeedLast(init, seg, overlap, s.last, r.current);
    } else if Fits(s.current, seg.text) {
      assert segs[|init|] == seg;
      assert |r.current| <= MaxLen + 1;
    } else {
      SeedLast(init, seg, overlap, s.last, r.current);
    }
  }

  lemma {:induction false} RunSized(segs: seq<Segment>, overlap: bool)
    ensures Sized(Run(segs, overlap), segs, overlap)
  {
    if |segs| > 0 {
      var init := segs[..|segs| - 1];
      RunSized(init, overlap);
      StepSized(init, segs[|segs| - 1], overlap);
      assert init + [segs[|segs| - 1]] == segs;
    }
  }

  /** No chunk is longer than `Bound`, and a chunk longer than `MaxLen + 1` is
      never appended to: it is a single segment (a heading or an overflowing
      text), or, with overlap, the previous appended segment, a space and the
      overflowing one. */
  lemma ChunkLength(segs: seq<Segment>, overlap: bool)
    ensures forall c :: c in NaiveChunking(segs, overlap) ==> |c.text| <= Bound(segs, overlap)
    ensures forall c :: c in NaiveChunking(segs, overlap) ==> LengthOk(segs, overlap, c.text)
  {
    RunBounded(segs, overlap);
    RunSized(segs, overlap);
    forall c | c in NaiveChunking(segs, overlap)
      ensures |c.text| <= Bound(segs, overlap) && LengthOk(segs, overlap, c.text)
    {
      ChunkWritten(segs, overlap, c);
    }
  }

  /** Page bookkeeping: the page is unset exactly until the first segment; while it
      is unset the accumulator is empty; every page written is the page of some
      segment. */
  predicate PagesSound(s: State, pages: set<int>, started: bool) {
    && (s.page.None? <==> !started)
    && (s.page.None? ==> s.current == "")
    && (s.page.Some? ==> s.page.value in pages)
    && forall w :: w in s.writes ==> (w.1.None? ==> w.0 == "") && (w.1.Some? ==> w.1.value in pages)
  }

  lemma {:induction false} RunPages(segs: seq<Segment>, overlap: bool)
    ensures PagesSound(Run(segs, overlap), PagesOf(segs), |segs| > 0)
  {
    if |segs| > 0 {
      var init := segs[..|segs| - 1];
      RunPages(init, overlap);
      assert PagesOf(init) <= PagesOf(segs) by {
        forall p | p in PagesOf(init) ensures p in PagesOf(segs) {
          var i :| 0 <= i < |init| && init[i].page == p;
          assert segs[i].page == p;
        }
      }
      assert segs[|segs| - 1].page in PagesOf(segs);
    }
  }

  /** Every chunk's page is the page of one of its input segments, and the only
      chunk that can lack a page is the empty one (`ChunkPageRule` says which page
      and when a page is missing). */
  lemma ChunkPages(segs: seq<Segment>, overlap: bool)
    ensures forall c :: c in NaiveChunking(segs, overlap) ==>
      && (c.pageNo.Some? ==> c.pageNo.value in PagesOf(segs))
      && (c.pageNo.None? ==> c.text == "")
  {
    RunPages(segs, overlap);
    forall c | c in NaiveChunking(segs, overlap)
      ensures (c.pageNo.Some? ==> c.pageNo.value in PagesOf(segs)) && (c.pageNo.None? ==> c.text == "")
    {
      ChunkWritten(segs, overlap, c);
    }
  }

  // ---------------------------------------------------------------------------
  // Which page a chunk carries
  // ---------------------------------------------------------------------------

  /** Segment `i` starts a new accumulator: a heading, or text that does not fit. */
  predicate Starts(segs: seq<Segment>, overlap: bool, i: nat)
    requires i < |segs|
  {
    IsHeading(segs[i].text) || !Fits(Run(segs[..i], overlap).current, segs[i].text)
  }

  /** The smallest page among non-empty `ps`. */
  function MinPage(ps: seq<Segment>): int
    requires |ps| > 0
  {
    if |ps| == 1 then ps[0].page
    else
      var m := MinPage(ps[..|ps| - 1]);
      if ps[|ps| - 1].page < m then ps[|ps| - 1].page else m
  }

  /** `MinPage` is the page of one of the segments and no larger than any. */
  lemma {:induction false} MinPageSpec(ps: seq<Segment>)
    requires |ps| > 0
    ensures exists i :: 0 <= i < |ps| && ps[i].page == MinPage(ps)
    ensures forall i :: 0 <= i < |ps| ==> MinPage(ps) <= ps[i].page
  {
    if |ps| == 1 {
      assert ps[0].page == MinPage(ps);
    } else {
      var init := ps[..|ps| - 1];
      var last := |ps| - 1;
      MinPageSpec(init);
      var k :| 0 <= k < |init| && init[k].page == MinPage(init);
      assert ps[k] == init[k];
      if ps[last].page < MinPage(init) {
        assert ps[last].page == MinPage(ps);
      } else {
        assert ps[k].page == MinPage(ps);
      }
      forall i | 0 <= i < |ps| ensures MinPage(ps) <= ps[i].page {
        if i < last {
          assert ps[i] == init[i];
        }
      }
    }
  }

  /** The segment that started the accumulator holding segments up to `e`: the
      last one before `e` that starts a new accumulator, or the first segment. */
  ghost function LastStart(segs: seq<Segment>, overlap: bool, e: nat): (b: nat)
    requires 0 < e <= |segs|
    ensures b < e && (b == 0 || Starts(segs, overlap, b))
    ensures forall i :: b < i < e ==> !Starts(segs, overlap, i)
    decreases e
  {
    if e == 1 || Starts(segs, overlap, e - 1) then e - 1 else LastStart(segs, overlap, e - 1)
  }

  /** The page of an accumulator started at segment `b` (or the initial one, when
      `b` is 0) and appended to up to `e` is the smallest page among those
      segments: the starting segment's page, lowered by each smaller one appended. */
  lemma {:induction false} AccumulatorPage(segs: seq<Segment>, overlap: bool, b: nat, e: nat)
    requires b < e <= |segs| && (b == 0 || Starts(segs, overlap, b))
    requires forall i :: b < i < e ==> !Starts(segs, overlap, i)
    ensures Run(segs[..e], overlap).page == Some(MinPage(segs[b..e]))
    decreases e
  {
    if e == b + 1 {
      FirstPage(segs, overlap, b);
    } else {
      AccumulatorPage(segs, overlap, b, e - 1);
      AppendedPage(segs, overlap, b, e);
    }
  }

  /** The segment that starts an accumulator, or the first segment, sets the page. */
  lemma FirstPage(segs: seq<Segment>, overlap: bool, b: nat)
    requires b < |segs| && (b == 0 || Starts(segs, overlap, b))
    ensures Run(segs[..b + 1], overlap).page == Some(MinPage(segs[b..b + 1]))
  {
    var prev := Run(segs[..b], overlap);
    var seg := segs[b];
    assert segs[..b + 1][..b] == segs[..b];
    assert Run(segs[..b + 1], overlap) == Step(prev, seg, overlap);
    StepPage(prev, seg, overlap);
    assert segs[b..b + 1] == [seg];
    if b == 0 {
      assert segs[..0] == [];
    }
  }

  /** A segment appended lowers the page to its own when smaller. */
  lemma AppendedPage(segs: seq<Segment>, overlap: bool, b: nat, e: nat)
    requires b + 1 < e <= |segs| && !Starts(segs, overlap, e - 1)
    requires Run(segs[..e - 1], overlap).page == Some(MinPage(segs[b..e - 1]))
    ensures Run(segs[..e], overlap).page == Some(MinPage(segs[b..e]))
  {
    var prev := Run(segs[..e - 1], overlap);
    var seg := segs[e - 1];
    assert segs[..e][..e - 1] == segs[..e - 1];
    assert Run(segs[..e], overlap) == Step(prev, seg, overlap);
    StepPage(prev, seg, overlap);
    MinPageLast(segs[b..e]);
    assert segs[b..e][..e - 1 - b] == segs[b..e - 1];
  }

  lemma MinPageLast(ps: seq<Segment>)
    requires |ps| > 1
    ensures var m := MinPage(ps[..|ps| - 1]);
      MinPage(ps) == if ps[|ps| - 1].page < m then ps[|ps| - 1].page else m
  {
  }

  /** How one segment moves the page: set by a segment that starts an accumulator,
      or by the first one appended; lowered by a smaller one appended. */
  lemma StepPage(s: State, seg: Segment, overlap: bool)
    ensures var r := Step(s, seg, overlap);
      if IsHeading(seg.text) || !Fits(s.current, seg.text) || s.page.None? then r.page == Some(seg.page)
      else r.page == Some(if seg.page < s.page.value then seg.page else s.page.value)
  {
  }

  /** `e` ends an accumulator: segment `e` starts a new one, or the input ends. */
  predicate Boundary(segs: seq<Segment>, overlap: bool, e: nat) {
    0 < e <= |segs| && (e == |segs| || Starts(segs, overlap, e))
  }

  /** A write of the loop is the accumulator as it stood where a segment started a
      new one, or the empty initial accumulator when the very first segment is a
      text too long to fit. */
  ghost predicate SealedWrite(segs: seq<Segment>, overlap: bool, n: nat, w: (string, Option<int>)) {
    || (w == ("", None) && 0 < n <= |segs| && !IsHeading(segs[0].text) && |segs[0].text| > MaxLen)
    || exists e: nat :: 0 < e < n && Boundary(segs, overlap, e) && w == (Run(segs[..e], overlap).current, Run(segs[..e], overlap).page)
  }

  lemma {:induction false} WritesSealed(segs: seq<Segment>, overlap: bool, n: nat)
    requires n <= |segs|
    ensures forall w :: w in Run(segs[..n], overlap).writes ==> SealedWrite(segs, overlap, n, w)
    decreases n
  {
    if n > 0 {
      WritesSealed(segs, overlap, n - 1);
      var prev := Run(segs[..n - 1], overlap);
      assert segs[..n][..n - 1] == segs[..n - 1];
      assert Run(segs[..n], overlap) == Step(prev, segs[n - 1], overlap);
      forall w | w in Run(segs[..n], overlap).writes ensures SealedWrite(segs, overlap, n, w) {
        if w in prev.writes {
          assert SealedWrite(segs, overlap, n - 1, w);
        } else {
          assert w == (prev.current, prev.page);
          assert Starts(segs, overlap, n - 1);
          if n == 1 {
            assert segs[..0] == [];
          } else {
            assert Boundary(segs, overlap, n - 1);
          }
        }
      }
    }
  }

  /** The chunk `c` is the accumulator as it stood at boundary `e`, carrying the
      smallest page among the segments from the one that started it up to `e`. */
  ghost predicate SealedAt(segs: seq<Segment>, overlap: bool, c: Chunk, e: nat) {
    && Boundary(segs, overlap, e)
    && c.text == Run(segs[..e], overlap).current
    && c.pageNo == Some(MinPage(segs[LastStart(segs, overlap, e)..e]))
  }

  /** Page rule: every chunk with a page is the accumulator as it stood at a
      boundary `e`, and its page is the smallest page among the segments from the
      one that started that accumulator up to `e`. A chunk without a page is the
      empty initial accumulator, written only when the first segment is a text too
      long to fit, or returned for an empty input. */
  lemma ChunkPageRule(segs: seq<Segment>, overlap: bool)
    ensures forall c :: c in NaiveChunking(segs, overlap) && c.pageNo.Some? ==>
      exists e: nat :: SealedAt(segs, overlap, c, e)
    ensures forall c :: c in NaiveChunking(segs, overlap) && c.pageNo.None? ==>
      c.text == "" && (|segs| == 0 || (!IsHeading(segs[0].text) && |segs[0].text| > MaxLen))
  {
    forall c | c in NaiveChunking(segs, overlap)
      ensures c.pageNo.Some? ==> exists e: nat :: SealedAt(segs, overlap, c, e)
      ensures c.pageNo.None? ==> c.text == "" && (|segs| == 0 || (!IsHeading(segs[0].text) && |segs[0].text| > MaxLen))
    {
      ChunkWritten(segs, overlap, c);
      var s := Run(segs, overlap);
      if (c.text, c.pageNo) in s.writes {
        WrittenPage(segs, overlap, (c.text, c.pageNo));
      } else {
        FinalPage(segs, overlap);
      }
    }
  }

  /** The page rule for a write made inside the loop. */
  lemma WrittenPage(segs: seq<Segment>, overlap: bool, w: (string, Option<int>))
    requires w in Run(segs, overlap).writes
    ensures w.1.Some? ==> exists e: nat :: SealedAt(segs, overlap, Chunk(w.0, w.1), e)
    ensures w.1.None? ==> w.0 == "" && |segs| > 0 && !IsHeading(segs[0].text) && |segs[0].text| > MaxLen
  {
    var n := |segs|;
    assert segs[..n] == segs;
    WritesSealed(segs, overlap, n);
    assert SealedWrite(segs, overlap, n, w);
    if w.1.Some? {
      var e: nat :| 0 < e < n && Boundary(segs, overlap, e) && w == (Run(segs[..e], overlap).current, Run(segs[..e], overlap).page);
      AccumulatorPage(segs, overlap, LastStart(segs, overlap, e), e);
      assert SealedAt(segs, overlap, Chunk(w.0, w.1), e);
    }
  }

  /** The page rule for the final write after the loop. */
  lemma FinalPage(segs: seq<Segment>, overlap: bool)
    ensures var s := Run(segs, overlap);
      && (s.page.Some? ==> SealedAt(segs, overlap, Chunk(s.current, s.page), |segs|))
      && (s.page.None? ==> s.current == "" && |segs| == 0)
  {
    var n := |segs|;
    assert segs[..n] == segs;
    if n > 0 {
      AccumulatorPage(segs, overlap, LastStart(segs, overlap, n), n);
    }
  }

  // ---------------------------------------------------------------------------
  // No text is lost
  // ---------------------------------------------------------------------------

  /** `x` occurs in `y`: at its start when `atStart`, anywhere otherwise. */
  predicate Found(y: string, x: string, atStart: bool) {
    if atStart then Text.StartsWith(y, x) else Text.Contains(y, x)
  }

  /** `x` occurs in the accumulator or in a text already written, and the page is
      set, so the accumulator will be written too. */
  predicate Kept(s: State, x: string, atStart: bool) {
    && s.page.Some?
    && (Found(s.current, x, atStart) || exists w :: w in s.writes && Found(w.0, x, atStart))
  }

  /** Appending keeps an occurrence. */
  lemma FoundAppend(y: string, z: string, x: string, atStart: bool)
    requires Found(y, x, atStart)
    ensures Found(y + z, x, atStart)
  {
    if atStart {
      assert (y + z)[..|x|] == y[..|x|];
    } else {
      Text.ContainsOccurs(y, x);
      var i :| Text.OccursAt(y, x, i);
      assert (y + z)[i..i + |x|] == y[i..i + |x|];
      Text.ContainsAt(y + z, x, i);
    }
  }

  /** Reading a segment keeps whatever was kept. */
  lemma StepKeeps(s: State, seg: Segment, overlap: bool, x: string, atStart: bool)
    requires Kept(s, x, atStart)
    ensures Kept(Step(s, seg, overlap), x, atStart)
  {
    var r := Step(s, seg, overlap);
    if Found(s.current, x, atStart) {
      if !IsHeading(seg.text) && Fits(s.current, seg.text) {
        FoundAppend(s.current, " " + seg.text, x, atStart);
        assert s.current + (" " + seg.text) == r.current;
      } else {
        assert (s.current, s.page) in r.writes;
      }
    } else {
      var w :| w in s.writes && Found(w.0, x, atStart);
      assert w in r.writes;
    }
  }

  /** Reading segment `seg` keeps its text, and a heading at the start of the
      accumulator. */
  lemma StepStores(s: State, seg: Segment, overlap: bool)
    ensures Kept(Step(s, seg, overlap), seg.text, false)
    ensures IsHeading(seg.text) ==> Kept(Step(s, seg, overlap), seg.text, true)
  {
    var t := seg.text;
    var r := Step(s, seg, overlap);
    if IsHeading(t) {
      assert Text.StartsWith(t, t);
      Text.ContainsAt(t, t, 0);
    } else if Fits(s.current, t) {
      Text.ContainsMiddle(s.current + " ", t, "");
      assert s.current + " " + t + "" == r.current;
    } else if overlap {
      Text.ContainsMiddle(s.last + " ", t, "");
      assert s.last + " " + t + "" == r.current;
    } else {
      Text.ContainsAt(t, t, 0);
    }
  }

  lemma {:induction false} RunKeeps(segs: seq<Segment>, overlap: bool, x: string, atStart: bool, i: nat, n: nat)
    requires i <= n <= |segs| && Kept(Run(segs[..i], overlap), x, atStart)
    ensures Kept(Run(segs[..n], overlap), x, atStart)
    decreases n
  {
    if n > i {
      RunKeeps(segs, overlap, x, atStart, i, n - 1);
      assert segs[..n][..n - 1] == segs[..n - 1];
      StepKeeps(Run(segs[..n - 1], overlap), segs[n - 1], overlap, x, atStart);
    }
  }

  /** Every text written is the text of a chunk. */
  lemma WrittenIsChunk(segs: seq<Segment>, overlap: bool, w: (string, Option<int>))
    requires w in Writes(segs, overlap)
    ensures exists c :: c in NaiveChunking(segs, overlap) && c.text == w.0
  {
    var ws := Writes(segs, overlap);
    var r := NaiveChunking(segs, overlap);
    var d := FromPairs(ws);
    var i :| 0 <= i < |ws| && ws[i] == w;
    FromPairsKeys(ws, w.0);
    var k :| 0 <= k < |d| && Keys(d)[k] == w.0;
    assert r[k] == Chunk(d[k].0, d[k].1);
    assert r[k] in r;
  }

  /** No text is lost: every segment's text occurs in some chunk, and a heading
      occurs at the start of one. */
  lemma NoTextLost(segs: seq<Segment>, overlap: bool, j: nat)
    requires j < |segs|
    ensures exists c :: c in NaiveChunking(segs, overlap) && Text.Contains(c.text, segs[j].text)
    ensures IsHeading(segs[j].text) ==>
      exists c :: c in NaiveChunking(segs, overlap) && Text.StartsWith(c.text, segs[j].text)
  {
    var t := segs[j].text;
    assert segs[..j + 1][..j] == segs[..j];
    StepStores(Run(segs[..j], overlap), segs[j], overlap);
    assert segs[..|segs|] == segs;
    RunKeeps(segs, overlap, t, false, j + 1, |segs|);
    KeptIsChunk(segs, overlap, t, false);
    if IsHeading(t) {
      RunKeeps(segs, overlap, t, true, j + 1, |segs|);
      KeptIsChunk(segs, overlap, t, true);
    }
  }

  /** What the final state keeps is in a chunk. */
  lemma KeptIsChunk(segs: seq<Segment>, overlap: bool, x: string, atStart: bool)
    requires Kept(Run(segs, overlap), x, atStart)
    ensures exists c :: c in NaiveChunking(segs, overlap) && Found(c.text, x, atStart)
  {
    var s := Run(segs, overlap);
    var ws := Writes(segs, overlap);
    var w: (string, Option<int>);
    if Found(s.current, x, atStart) {
      w := (s.current, s.page);
      assert w == ws[|ws| - 1];
    } else {
      w :| w in s.writes && Found(w.0, x, atStart);
    }
    assert w in ws;
    WrittenIsChunk(segs, overlap, w);
  }

  /** A lone `#` is ordinary text, and a heading first in the input drops the empty
      leading accumulator because its page is still unset. */
  lemma HeadingExamples()
    ensures NaiveChunking([Segment("#", 3)], false) == [Chunk(" #", Some(3))]
    ensures NaiveChunking([Segment("# A", 1)], false) == [Chunk("# A", Some(1))]
  {
    var a := [Segment("#", 3)];
    assert a[..0] == [];
    assert Run(a[..0], false) == Init;
    assert "" + " " + "#" == " #";
    assert Run(a, false) == State(" #", "#", Some(3), []);
    var wa := Writes(a, false);
    assert wa == [(" #", Some(3))];
    assert wa[..0] == [];
    var b := [Segment("# A", 1)];
    assert b[..0] == [];
    var wb := Writes(b, false);
    assert wb == [("# A", Some(1))];
    assert wb[..0] == [];
  }
}
