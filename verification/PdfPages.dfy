/** Page-level heuristics of src/ingestor/pdf_util.py: the table-of-contents
    extraction with its font-size depth ranking, the page detector
    `detect_irrelevant_pages` with its TOC cascade, and `get_fullpage_tables`.

    PyMuPDF, langdetect and the regular expressions that inspect page text are
    replaced by per-page facts; only the decisions taken on those facts are
    modelled. Page indices here are 0-based, as `range(len(doc))` gives them. */
module PdfPages {

  import opened Wrappers
  import opened Text
  import opened DocItems

  // ---------------------------------------------------------------------------
  // Table of contents
  // ---------------------------------------------------------------------------

  /** One `(title, page, level)` entry of the table of contents. */
  datatype TocEntry = TocEntry(title: string, page: int, level: int)

  /** An entry of the PDF's own outline, `[level, title, page]` as `get_toc()` gives it. */
  datatype OutlineEntry = OutlineEntry(level: int, title: string, page: int)

  /** A dotted `title ..... page` line found in the page text, with the font size
      of the span that completed the match. */
  datatype DottedLine = DottedLine(title: string, page: int, size: real)

  predicate Descending(l: seq<real>) {
    forall i, j :: 0 <= i < j < |l| ==> l[i] > l[j]
  }

  /** Inserts `x` into a strictly descending list unless it is already there. */
  function InsertDescending(l: seq<real>, x: real): (r: seq<real>)
    ensures forall y :: y in r <==> y in l || y == x
    ensures Descending(l) ==> Descending(r)
  {
    if |l| == 0 then [x]
    else if x == l[0] then l
    else if x > l[0] then [x] + l
    else
      var rest := InsertDescending(l[1..], x);
      assert forall y :: y in l <==> y == l[0] || y in l[1..];
      assert Descending(l) ==> forall k :: 0 <= k < |rest| ==> rest[k] < l[0] by {
        if Descending(l) {
          forall k | 0 <= k < |rest| ensures rest[k] < l[0] {
            assert rest[k] in rest;
            if rest[k] != x {
              var m :| 0 <= m < |l[1..]| && l[1..][m] == rest[k];
              assert l[m + 1] == rest[k];
            }
          }
        }
      }
      [l[0]] + rest
  }

  /** Some dotted line is set in font size `y`. */
  predicate SizeOccurs(lines: seq<DottedLine>, y: real) {
    exists i :: 0 <= i < |lines| && lines[i].size == y
  }

  /** `sorted(font_size_set, reverse=True)`: the distinct sizes, largest first. */
  function SizesDescending(lines: seq<DottedLine>): (r: seq<real>)
    ensures Descending(r)
    ensures forall y :: y in r <==> SizeOccurs(lines, y)
  {
    if |lines| == 0 then []
    else
      var init := lines[..|lines| - 1];
      var last := lines[|lines| - 1].size;
      var r := InsertDescending(SizesDescending(init), last);
      assert forall y :: SizeOccurs(lines, y) <==> SizeOccurs(init, y) || y == last by {
        forall y | SizeOccurs(lines, y) ensures SizeOccurs(init, y) || y == last {
          var i :| 0 <= i < |lines| && lines[i].size == y;
          if i < |init| {
            assert init[i].size == y;
          }
        }
        forall y | SizeOccurs(init, y) ensures SizeOccurs(lines, y) {
          var i :| 0 <= i < |init| && init[i].size == y;
          assert lines[i].size == y;
        }
      }
      r
  }

  /** The position of `x` in `l`. */
  function IndexOf(l: seq<real>, x: real): (i: nat)
    requires x in l
    ensures i < |l| && l[i] == x
  {
    if l[0] == x then 0 else 1 + IndexOf(l[1..], x)
  }

  /** `extract_table_of_contents`: the document's outline when it has one;
      otherwise the dotted lines, each given the 1-based rank of its font size
      among the distinct sizes, largest first. */
  function ExtractToc(outline: seq<OutlineEntry>, lines: seq<DottedLine>): (r: seq<TocEntry>)
    ensures |outline| > 0 ==> |r| == |outline| && forall i :: 0 <= i < |r| ==>
      r[i] == TocEntry(outline[i].title, outline[i].page, outline[i].level)
    ensures |outline| == 0 ==> |r| == |lines| && forall i :: 0 <= i < |r| ==>
      && r[i].title == lines[i].title && r[i].page == lines[i].page
      && 1 <= r[i].level <= |SizesDescending(lines)|
  {
    if |outline| > 0 then
      seq(|outline|, i requires 0 <= i < |outline| => TocEntry(outline[i].title, outline[i].page, outline[i].level))
    else
      var sizes := SizesDescending(lines);
      seq(|lines|, i requires 0 <= i < |lines| =>
        assert SizeOccurs(lines, lines[i].size);
        TocEntry(lines[i].title, lines[i].page, IndexOf(sizes, lines[i].size) + 1))
  }

  /** Without an outline, a line set in a larger font always gets a strictly
      smaller depth, and lines in the same font get the same depth. */
  lemma LargerFontShallower(lines: seq<DottedLine>, i: nat, j: nat)
    requires i < |lines| && j < |lines|
    ensures var toc := ExtractToc([], lines);
      && (lines[i].size > lines[j].size ==> toc[i].level < toc[j].level)
      && (lines[i].size == lines[j].size ==> toc[i].level == toc[j].level)
  {
    assert SizeOccurs(lines, lines[i].size) && SizeOccurs(lines, lines[j].size);
  }

  // ---------------------------------------------------------------------------
  // Page detector
  // ---------------------------------------------------------------------------

  /** What the detector learns about one page (from its lower-cased text):
      the detected language (`None` when detection raised), the number of
      whitespace-separated words, whether `by|author|copyright|all rights reserved`
      matches, whether `notices|acknowledgments` matches, whether any of the six TOC
      indicator patterns matches, and the number of dotted page-number lines. */
  datatype PageFacts = PageFacts(
    lang: Option<string>,
    words: nat,
    titleWords: bool,
    notices: bool,
    tocIndicator: bool,
    dottedLines: nat)

  /** The loop variables: `pages_to_remove`, `in_toc_section`, `consecutive_toc_count`. */
  datatype ScanState = ScanState(removed: set<int>, inToc: bool, tocRun: nat)

  /** `set(range(lo, hi))`. */
  function Range(lo: int, hi: int): (r: set<int>)
    ensures forall x :: x in r <==> lo <= x < hi
    decreases hi - lo
  {
    if lo >= hi then {} else {lo} + Range(lo + 1, hi)
  }

  predicate IsEnglish(p: PageFacts) {
    p.lang == Some("en")
  }

  /** The title-page rule (applies to page 0 only). */
  predicate TitlePage(p: PageFacts) {
    p.words < 100 || p.titleWords
  }

  /** The TOC test for page `k` given whether the previous page was a TOC page. */
  predicate TocTest(p: PageFacts, k: int, inToc: bool) {
    (p.tocIndicator || (inToc && p.dottedLines > 2)) && k < 20
  }

  /** The body of the page loop for page index `k`. */
  function ScanPage(s: ScanState, p: PageFacts, k: int): ScanState {
    if IsEnglish(p) then
      var r1 := if k == 0 && TitlePage(p) then s.removed + {k} else s.removed;
      var r2 := if p.notices && k <= 10 then r1 + {k} else r1;
      if TocTest(p, k, s.inToc) then
        var r3 := r2 + {k} + (if !s.inToc then Range(0, k) else {});
        ScanState(r3, true, s.tocRun + 1)
      else
        ScanState(r2, false, 0)
    else
      s.(removed := s.removed + {k})
  }

  /** The loop state after the pages seen so far. */
  function Scan(pages: seq<PageFacts>): ScanState {
    if |pages| == 0 then ScanState({}, false, 0)
    else ScanPage(Scan(pages[..|pages| - 1]), pages[|pages| - 1], |pages| - 1)
  }

  /** The counter is positive exactly while inside a TOC section, so it never
      influences a decision. */
  lemma {:induction false} TocRunTracksInToc(pages: seq<PageFacts>)
    ensures Scan(pages).inToc <==> Scan(pages).tocRun > 0
  {
    if |pages| > 0 {
      TocRunTracksInToc(pages[..|pages| - 1]);
    }
  }

  /** Whether the scan is inside a TOC section when it reaches page `k`: the last
      English page before `k` passed the TOC test (non-English pages leave the flag
      alone). */
  predicate InTocBefore(pages: seq<PageFacts>, k: nat)
    requires k <= |pages|
    decreases k, 0
  {
    if k == 0 then false
    else if IsEnglish(pages[k - 1]) then IsTocPage(pages, k - 1)
    else InTocBefore(pages, k - 1)
  }

  /** Page `k` is English and passes the TOC test. */
  predicate IsTocPage(pages: seq<PageFacts>, k: nat)
    requires k < |pages|
    decreases k, 1
  {
    IsEnglish(pages[k]) && TocTest(pages[k], k, InTocBefore(pages, k))
  }

  /** Page `k` opens a TOC section. */
  predicate StartsToc(pages: seq<PageFacts>, k: nat)
    requires k < |pages|
  {
    IsTocPage(pages, k) && !InTocBefore(pages, k)
  }

  /** Why page `k` is removed by the scan, rule by rule. */
  predicate RemovedByScan(pages: seq<PageFacts>, k: nat)
    requires k < |pages|
  {
    || !IsEnglish(pages[k])
    || (k == 0 && TitlePage(pages[k]))
    || (pages[k].notices && k <= 10)
    || IsTocPage(pages, k)
    || exists t :: k < t < |pages| && StartsToc(pages, t)
  }

  lemma {:induction false} InTocBeforePrefix(pages: seq<PageFacts>, m: nat, k: nat)
    requires k <= m <= |pages|
    ensures InTocBefore(pages[..m], k) == InTocBefore(pages, k)
    decreases k
  {
    if k > 0 {
      assert pages[..m][k - 1] == pages[k - 1];
      InTocBeforePrefix(pages, m, k - 1);
    }
  }

  lemma {:induction false} ScanInToc(pages: seq<PageFacts>)
    ensures Scan(pages).inToc == InTocBefore(pages, |pages|)
  {
    if |pages| > 0 {
      var n := |pages| - 1;
      ScanInToc(pages[..n]);
      InTocBeforePrefix(pages, n, n);
    }
  }

  /** What one page iteration adds to the removed set: the page itself under any
      of the rules, and every earlier page when the page opens a TOC section. */
  lemma ScanPageRemoved(s: ScanState, p: PageFacts, k: int, x: int)
    ensures x in ScanPage(s, p, k).removed <==>
      || x in s.removed
      || (x == k && (|| !IsEnglish(p) || (k == 0 && TitlePage(p)) || (p.notices && k <= 10)
                     || TocTest(p, k, s.inToc)))
      || (IsEnglish(p) && TocTest(p, k, s.inToc) && !s.inToc && 0 <= x < k)
  {
  }

  /** Adding a page at the end removes an earlier page exactly when the earlier
      page was already removed by the shorter scan or the new page opens a TOC
      section. */
  lemma RemovedByScanExtend(pages: seq<PageFacts>, x: int)
    requires 0 <= x < |pages| - 1
    ensures RemovedByScan(pages, x) <==>
      RemovedByScan(pages[..|pages| - 1], x) || StartsToc(pages, |pages| - 1)
  {
    var n := |pages| - 1;
    var init := pages[..n];
    InTocBeforePrefix(pages, n, x);
    assert init[x] == pages[x];
    assert IsTocPage(init, x) == IsTocPage(pages, x);
    forall t | x < t < n ensures StartsToc(init, t) == StartsToc(pages, t) {
      InTocBeforePrefix(pages, n, t);
      assert init[t] == pages[t];
    }
  }

  /** The removed set after the scan, page by page: a page is removed when it is
      not English, when it is an English title page at index 0, an English notices
      page among the first eleven, an English TOC page, or any page before the
      start of a TOC section. Nothing outside the document is removed. */
  lemma {:induction false} ScanRemoved(pages: seq<PageFacts>, x: int)
    ensures x in Scan(pages).removed <==> 0 <= x < |pages| && RemovedByScan(pages, x)
  {
    if |pages| > 0 {
      var n := |pages| - 1;
      var init := pages[..n];
      ScanInToc(init);
      InTocBeforePrefix(pages, n, n);
      assert Scan(init).inToc == InTocBefore(pages, n);
      ScanRemoved(init, x);
      ScanPageRemoved(Scan(init), pages[n], n, x);
      if 0 <= x < n {
        RemovedByScanExtend(pages, x);
      }
    }
  }

  /** A page whose language is not English, or whose language could not be
      detected, is always removed. */
  lemma NonEnglishRemoved(pages: seq<PageFacts>, k: nat)
    requires k < |pages| && !IsEnglish(pages[k])
    ensures k in Scan(pages).removed
  {
    ScanRemoved(pages, k);
  }

  /** An English first page with fewer than 100 words or a by/author/copyright
      phrase is removed. */
  lemma TitlePageRemoved(pages: seq<PageFacts>)
    requires |pages| > 0 && TitlePage(pages[0])
    ensures 0 in Scan(pages).removed
  {
    ScanRemoved(pages, 0);
  }

  /** The page that opens a TOC section is removed together with every page
      before it. */
  lemma TocStartRemovesPreamble(pages: seq<PageFacts>, t: nat, k: nat)
    requires t < |pages| && StartsToc(pages, t) && k <= t
    ensures k in Scan(pages).removed
  {
    ScanRemoved(pages, k);
  }

  /** An English page among the first eleven that mentions notices or
      acknowledgments is removed. */
  lemma NoticesRemoved(pages: seq<PageFacts>, k: nat)
    requires k < |pages| && k <= 10 && pages[k].notices
    ensures k in Scan(pages).removed
  {
    ScanRemoved(pages, k);
  }

  /** The scan keeps every English page from index 20 on: the title, notices and
      TOC rules all stop earlier. */
  lemma LateEnglishPageKept(pages: seq<PageFacts>, k: nat)
    requires 20 <= k < |pages| && IsEnglish(pages[k])
    ensures k !in Scan(pages).removed
  {
    ScanRemoved(pages, k);
    forall t | k < t < |pages| ensures !StartsToc(pages, t) {
    }
  }

  // ---------------------------------------------------------------------------
  // TOC cascade
  // ---------------------------------------------------------------------------

  /** The title patterns of the cascade, matched as case-sensitive substrings. */
  const DenyList: seq<string> := ["other resources", "additional resources", "acronyms",
    "abbreviations", "abstract", "index", "recycling", "specifications"]

  predicate Denylisted(title: string) {
    exists i :: 0 <= i < |DenyList| && Contains(title, DenyList[i])
  }

  /** A title is clear of the denylist when, for each pattern, it is shorter than
      the pattern or lacks the pattern's first character. */
  lemma NotDenylisted(title: string)
    requires forall i :: 0 <= i < |DenyList| ==> |title| < |DenyList[i]| || DenyList[i][0] !in title
    ensures !Denylisted(title)
  {
    forall i | 0 <= i < |DenyList| ensures !Contains(title, DenyList[i]) {
      NotContains(title, DenyList[i]);
    }
  }

  /** The inner `for j in range(i+1, len(toc))` loop from `j` on: the pages of the
      later entries whose level differs from `level`. */
  function OtherLevelPages(toc: seq<TocEntry>, j: nat, level: int): set<int>
    decreases |toc| - j
  {
    if j >= |toc| then {}
    else (if toc[j].level != level then {toc[j].page} else {}) + OtherLevelPages(toc, j + 1, level)
  }

  /** What a denylisted entry `i` adds: its page, the later other-level pages, and,
      for the last entry, every page index from its page to the end of the document. */
  function EntryPages(toc: seq<TocEntry>, i: nat, pageCount: nat): set<int>
    requires i < |toc|
  {
    if Denylisted(toc[i].title) then
      {toc[i].page} + OtherLevelPages(toc, i + 1, toc[i].level)
        + (if i + 1 == |toc| then Range(toc[i].page, pageCount) else {})
    else {}
  }

  /** The outer `for i, item in enumerate(toc)` loop over the first `i` entries. */
  function CascadeUpTo(toc: seq<TocEntry>, i: nat, pageCount: nat): set<int>
    requires i <= |toc|
  {
    if i == 0 then {} else CascadeUpTo(toc, i - 1, pageCount) + EntryPages(toc, i - 1, pageCount)
  }

  function Cascade(toc: seq<TocEntry>, pageCount: nat): set<int> {
    CascadeUpTo(toc, |toc|, pageCount)
  }

  lemma {:induction false} OtherLevelPagesSpec(toc: seq<TocEntry>, j: nat, level: int, x: int)
    ensures x in OtherLevelPages(toc, j, level) <==>
      exists m :: j <= m < |toc| && toc[m].level != level && toc[m].page == x
    decreases |toc| - j
  {
    if j < |toc| {
      OtherLevelPagesSpec(toc, j + 1, level, x);
      if x in OtherLevelPages(toc, j + 1, level) {
        var m :| j + 1 <= m < |toc| && toc[m].level != level && toc[m].page == x;
        assert j <= m;
      }
      if exists m :: j <= m < |toc| && toc[m].level != level && toc[m].page == x {
        var m :| j <= m < |toc| && toc[m].level != level && toc[m].page == x;
        if m != j {
          assert j + 1 <= m;
        }
      }
    }
  }

  /** Whether denylisted entry `i` removes page `x`, stated directly. */
  predicate CascadeRemoves(toc: seq<TocEntry>, i: nat, pageCount: nat, x: int)
    requires i < |toc|
  {
    && Denylisted(toc[i].title)
    && (|| x == toc[i].page
        || (exists j :: i < j < |toc| && toc[j].level != toc[i].level && toc[j].page == x)
        || (i + 1 == |toc| && toc[i].page <= x < pageCount))
  }

  /** The cascade removes exactly: the page of every denylisted entry, the page of
      every later entry on a different level (deeper or shallower, with no early
      stop; same-level entries are kept), and, when the denylisted entry is the last
      one, every page from its page to the end of the document. */
  lemma {:induction false} CascadeSpec(toc: seq<TocEntry>, i: nat, pageCount: nat, x: int)
    requires i <= |toc|
    ensures x in CascadeUpTo(toc, i, pageCount) <==>
      exists e :: 0 <= e < i && CascadeRemoves(toc, e, pageCount, x)
  {
    if i > 0 {
      CascadeSpec(toc, i - 1, pageCount, x);
      OtherLevelPagesSpec(toc, i, toc[i - 1].level, x);
      if x in EntryPages(toc, i - 1, pageCount) {
        assert CascadeRemoves(toc, i - 1, pageCount, x);
      }
      if exists e :: 0 <= e < i && CascadeRemoves(toc, e, pageCount, x) {
        var e :| 0 <= e < i && CascadeRemoves(toc, e, pageCount, x);
        if e == i - 1 {
          assert x in EntryPages(toc, i - 1, pageCount);
        }
      }
    }
  }

  /** `detect_irrelevant_pages`: the page scan followed by the cascade over the
      extracted table of contents. */
  function DetectIrrelevantPages(pages: seq<PageFacts>, toc: seq<TocEntry>): set<int> {
    Scan(pages).removed + Cascade(toc, |pages|)
  }

  /** The detector's result, rule by rule. */
  lemma DetectSpec(pages: seq<PageFacts>, toc: seq<TocEntry>, x: int)
    ensures x in DetectIrrelevantPages(pages, toc) <==>
      || (0 <= x < |pages| && RemovedByScan(pages, x))
      || exists e :: 0 <= e < |toc| && CascadeRemoves(toc, e, |pages|, x)
  {
    ScanRemoved(pages, x);
    CascadeSpec(toc, |toc|, |pages|, x);
  }

  /** Without a denylisted title the cascade removes nothing. */
  lemma {:induction false} NoDenylistedTitle(toc: seq<TocEntry>, i: nat, pageCount: nat)
    requires i <= |toc|
    requires forall e :: 0 <= e < |toc| ==> !Denylisted(toc[e].title)
    ensures CascadeUpTo(toc, i, pageCount) == {}
  {
    if i > 0 {
      NoDenylistedTitle(toc, i - 1, pageCount);
    }
  }

  /** The denylist is case-sensitive: "index" is on it, "Index" is not. */
  lemma IndexCaseSensitive()
    ensures Denylisted("index") && !Denylisted("Index")
  {
    NotDenylisted("Index");
    assert DenyList[5] == "index";
    ContainsAt("index", "index", 0);
  }

  /** Titles the denylist lets through: the capitalised "Acronyms" (the list holds
      only "acronyms") and "notes", which contains no listed phrase. */
  lemma NotDenylistedTitles()
    ensures !Denylisted("Acronyms") && !Denylisted("notes")
  {
    NotDenylisted("Acronyms");
    NotDenylisted("notes");
  }

  /** Capitalised titles escape the case-sensitive denylist: "Acronyms" and
      "Index" remove nothing. */
  lemma CapitalisedTitlesKept()
    ensures Cascade([TocEntry("Acronyms", 40, 1), TocEntry("Index", 44, 1)], 50) == {}
  {
    var toc := [TocEntry("Acronyms", 40, 1), TocEntry("Index", 44, 1)];
    forall e | 0 <= e < |toc| ensures !Denylisted(toc[e].title) {
      if e == 0 {
        NotDenylistedTitles();
      } else {
        IndexCaseSensitive();
      }
    }
    NoDenylistedTitle(toc, |toc|, 50);
  }

  /** A table of contents with a lower-case "index" entry between entries that
      are not denylisted. */
  function IndexToc(): seq<TocEntry> {
    [TocEntry("notes", 1, 1), TocEntry("index", 5, 1), TocEntry("notes", 6, 2), TocEntry("notes", 7, 1)]
  }

  lemma IndexTocDenylist(e: int)
    requires 0 <= e < |IndexToc()|
    ensures Denylisted(IndexToc()[e].title) <==> e == 1
  {
    IndexCaseSensitive();
    NotDenylistedTitles();
  }

  /** The "index" entry removes its own page and the page of the deeper entry
      after it. */
  lemma CascadeExampleRemoved()
    ensures 5 in Cascade(IndexToc(), 10) && 6 in Cascade(IndexToc(), 10)
  {
    var toc := IndexToc();
    IndexTocDenylist(1);
    CascadeSpec(toc, 4, 10, 5);
    assert CascadeRemoves(toc, 1, 10, 5);
    CascadeSpec(toc, 4, 10, 6);
    assert CascadeRemoves(toc, 1, 10, 6) by {
      assert toc[2].level != toc[1].level && toc[2].page == 6;
    }
  }

  /** The later entry on the same level as "index" is kept, and so is a page no
      entry points at. */
  lemma CascadeExampleKept(x: int)
    requires x == 7 || x == 8
    ensures x !in Cascade(IndexToc(), 10)
  {
    var toc := IndexToc();
    CascadeSpec(toc, 4, 10, x);
    forall e | 0 <= e < 4 ensures !CascadeRemoves(toc, e, 10, x) {
      IndexTocDenylist(e);
    }
  }

  /** A lower-case "index" entry removes its own page and the deeper entry after
      it, but not the later entry on its own level. */
  lemma CascadeExample()
    ensures var toc := IndexToc();
      && 5 in Cascade(toc, 10) && 6 in Cascade(toc, 10)
      && 7 !in Cascade(toc, 10) && 8 !in Cascade(toc, 10)
  {
    CascadeExampleRemoved();
    CascadeExampleKept(7);
    CascadeExampleKept(8);
  }

  /** A denylisted last entry removes every page from its page to the end. */
  lemma LastEntryRemovesTail(toc: seq<TocEntry>, pageCount: nat, x: int)
    requires |toc| > 0 && Denylisted(toc[|toc| - 1].title)
    requires toc[|toc| - 1].page <= x < pageCount
    ensures x in Cascade(toc, pageCount)
  {
    CascadeSpec(toc, |toc|, pageCount, x);
    assert CascadeRemoves(toc, |toc| - 1, pageCount, x);
  }

  // ---------------------------------------------------------------------------
  // Full-page tables
  // ---------------------------------------------------------------------------

  /** `get_fullpage_tables`: adds the 0-based page of every exported table that
      the size test `fullPage` accepts, skipping items whose page is already in the
      set; returns the set unchanged when the document has no pages. */
  function FullPageTables(items: seq<DocItem>, pageCount: nat, pti: set<int>, fullPage: DocItem -> bool): set<int> {
    if pageCount == 0 then pti else AddTables(items, pti, fullPage)
  }

  /** The item loop of `get_fullpage_tables`. */
  function AddTables(items: seq<DocItem>, pti: set<int>, fullPage: DocItem -> bool): set<int> {
    if |items| == 0 then pti
    else
      var acc := AddTables(items[..|items| - 1], pti, fullPage);
      var item := items[|items| - 1];
      if !item.exported || PageIndex(item) in acc then acc
      else if item.kind.Table? && fullPage(item) then acc + {PageIndex(item)}
      else acc
  }

  /** An exported table the size test accepts. */
  predicate FullPageTable(item: DocItem, fullPage: DocItem -> bool) {
    item.exported && item.kind.Table? && fullPage(item)
  }

  /** The loop adds exactly the pages of the accepted exported tables. */
  lemma {:induction false} AddTablesSpec(items: seq<DocItem>, pti: set<int>, fullPage: DocItem -> bool, x: int)
    ensures x in AddTables(items, pti, fullPage) <==>
      x in pti || exists i :: 0 <= i < |items| && FullPageTable(items[i], fullPage) && PageIndex(items[i]) == x
  {
    if |items| > 0 {
      var n := |items| - 1;
      AddTablesSpec(items[..n], pti, fullPage, x);
      AddTablesSpec(items[..n], pti, fullPage, PageIndex(items[n]));
      if exists i :: 0 <= i < n && FullPageTable(items[..n][i], fullPage) && PageIndex(items[..n][i]) == x {
        var i :| 0 <= i < n && FullPageTable(items[..n][i], fullPage) && PageIndex(items[..n][i]) == x;
        assert items[i] == items[..n][i];
      }
      if exists i :: 0 <= i < |items| && FullPageTable(items[i], fullPage) && PageIndex(items[i]) == x {
        var i :| 0 <= i < |items| && FullPageTable(items[i], fullPage) && PageIndex(items[i]) == x;
        if i < n {
          assert items[..n][i] == items[i];
        }
      }
    }
  }

  /** The result is the input set plus the pages of accepted exported tables (and
      the input set alone for a document without pages); in particular it is a
      superset of the input. */
  lemma FullPageTablesSpec(items: seq<DocItem>, pageCount: nat, pti: set<int>, fullPage: DocItem -> bool, x: int)
    ensures pti <= FullPageTables(items, pageCount, pti, fullPage)
    ensures x in FullPageTables(items, pageCount, pti, fullPage) <==>
      x in pti || (pageCount > 0 && exists i :: 0 <= i < |items| && FullPageTable(items[i], fullPage) && PageIndex(items[i]) == x)
  {
    AddTablesSpec(items, pti, fullPage, x);
    forall y | y in pti ensures y in FullPageTables(items, pageCount, pti, fullPage) {
      AddTablesSpec(items, pti, fullPage, y);
    }
  }

  /** Tables on pages already in the input set are never measured: two size tests
      that agree on every other item give the same result. */
  lemma IgnoredPagesNotMeasured(items: seq<DocItem>, pageCount: nat, pti: set<int>, f: DocItem -> bool, g: DocItem -> bool)
    requires forall i :: 0 <= i < |items| && PageIndex(items[i]) !in pti ==> f(items[i]) == g(items[i])
    ensures FullPageTables(items, pageCount, pti, f) == FullPageTables(items, pageCount, pti, g)
  {
    forall x ensures x in FullPageTables(items, pageCount, pti, f) <==> x in FullPageTables(items, pageCount, pti, g) {
      FullPageTablesSpec(items, pageCount, pti, f, x);
      FullPageTablesSpec(items, pageCount, pti, g, x);
    }
  }
}
