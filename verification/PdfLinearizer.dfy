/** The element loop of `process_pdf` (src/ingestor/pdf_util.py) and its helper
    `stringify_list`: a single pass over the docling element stream that turns
    titles, section headers, list items, paragraphs and (optionally) tables into
    Markdown-like `(text, page_no)` segments, buffering consecutive list items and
    skipping items whose 0-based page index is in `pages_to_ignore`. */
module PdfLinearizer {

  import opened Wrappers
  import opened Text
  import opened DocItems
  import opened Segments
  import opened PdfPages

  /** Spaces of indentation per list nesting level. */
  const Indent: nat := 4

  datatype State = State(
    nesting: nat,              // list_nesting_level
    previous: int,             // previous_level
    inList: bool,              // in_list
    buffer: seq<string>,       // current_list
    listPage: Option<int>,     // current_list_page
    out: seq<Segment>)         // elements

  const Start := State(0, 0, false, [], None, [])

  /** A non-empty list buffer always has a page and is always inside a list. */
  predicate Inv(s: State) {
    s.buffer != [] ==> s.listPage.Some? && s.inList
  }

  /** `stringify_list`: the buffer joined by newlines becomes one segment. */
  function Flush(s: State): (r: State)
    requires s.listPage.Some?
    ensures r.buffer == [] && r.listPage == None
    ensures r.out == s.out + [Segment(Join("\n", s.buffer), s.listPage.value)]
  {
    s.(buffer := [], listPage := None, out := s.out + [Segment(Join("\n", s.buffer), s.listPage.value)])
  }

  /** What closing the list emits: the pending lines as one segment on the list
      page, or nothing when no line is pending. */
  function Pending(s: State): seq<Segment>
    requires Inv(s)
  {
    if s.buffer != [] then [Segment(Join("\n", s.buffer), s.listPage.value)] else []
  }

  /** The `if current_list and in_list: ... in_list = False` prologue shared by the
      title, section-header, text and table branches. */
  function CloseList(s: State): (r: State)
    requires Inv(s)
    ensures Inv(r) && !r.inList && r.buffer == []
    ensures r.nesting == s.nesting && r.previous == s.previous
    ensures s.out <= r.out
  {
    (if s.buffer != [] && s.inList then Flush(s) else s).(inList := false)
  }

  /** Closing a list emits the pending lines, if any, as one segment on the list
      page, and nothing else. */
  lemma CloseListSpec(s: State)
    requires Inv(s)
    ensures var r := CloseList(s);
      && !r.inList && r.buffer == [] && r.nesting == s.nesting && r.previous == s.previous
      && r.out == s.out + Pending(s)
      && r.listPage == (if s.buffer != [] then None else s.listPage)
  {
  }

  /** Section-header marker: `"#" * min(level, 6) + " "`, replaced by `"## "` when
      shorter than three characters. */
  function HeaderMarker(level: nat): (m: string)
    ensures m == Repeat('#', if level < 2 then 2 else if level > 6 then 6 else level) + " "
  {
    var m := Repeat('#', if level < 6 then level else 6) + " ";
    if |m| < 3 then "## " else m
  }

  /** A list item line: indentation for the nesting depth, the item's own marker
      when enumerated or `"- "`, the text, all stripped. Python's `" " * k` is empty
      for negative `k`. */
  function RenderListItem(nesting: nat, enumerated: bool, marker: string, text: string): string {
    var width := if nesting >= 1 then Indent * (nesting - 1) else 0;
    var m := if enumerated then marker + " " else "- ";
    Strip(Repeat(' ', width) + m + text)
  }

  /** The indentation never survives: `.strip()` removes it, so a list item renders
      the same at every nesting depth. */
  lemma ListIndentErased(nesting: nat, enumerated: bool, marker: string, text: string)
    ensures RenderListItem(nesting, enumerated, marker, text)
         == Strip((if enumerated then marker + " " else "- ") + text)
  {
    var width := if nesting >= 1 then Indent * (nesting - 1) else 0;
    var m := if enumerated then marker + " " else "- ";
    assert Repeat(' ', width) + m + text == Repeat(' ', width) + (m + text);
    StripSpacePrefix(Repeat(' ', width), m + text);
  }

  /** The nesting level after moving to tree depth `level`: reduced by the drop in
      depth, never below zero. */
  function AdjustNesting(nesting: nat, previous: int, level: nat): (r: nat)
    ensures level >= previous ==> r == nesting
    ensures level < previous ==> r == (if nesting >= previous - level then nesting - (previous - level) else 0)
  {
    if level < previous then
      var d := previous - level;
      if nesting - d > 0 then nesting - d else 0
    else nesting
  }

  /** The part of an iteration that runs for every item, kept or not: the nesting
      update, then the close of a pending list by any non-list item once something
      has been emitted (the `len(elements) > 0` guard). */
  function Prologue(s: State, item: DocItem): (r: State)
    requires Inv(s)
    ensures Inv(r) && r.nesting == AdjustNesting(s.nesting, s.previous, item.level) && r.previous == item.level
    ensures s.out <= r.out
  {
    var s1 := s.(nesting := AdjustNesting(s.nesting, s.previous, item.level), previous := item.level);
    if |s1.out| > 0 && !IsListOrGroup(item.kind) && s1.inList then
      (if s1.buffer != [] then Flush(s1) else s1).(inList := false)
    else s1
  }

  /** Every item moves the nesting level and the previous depth. A non-list item
      arriving while a list is open, once something has been emitted, closes the
      list and emits its pending lines; otherwise the list state and the output
      are left alone. */
  lemma PrologueSpec(s: State, item: DocItem)
    requires Inv(s)
    ensures var r := Prologue(s, item);
      && r.nesting == AdjustNesting(s.nesting, s.previous, item.level) && r.previous == item.level
      && (|s.out| > 0 && !IsListOrGroup(item.kind) && s.inList ==>
            && !r.inList && r.buffer == [] && r.out == s.out + Pending(s)
            && r.listPage == (if s.buffer != [] then None else s.listPage))
      && (!(|s.out| > 0 && !IsListOrGroup(item.kind) && s.inList) ==>
            r.inList == s.inList && r.buffer == s.buffer && r.listPage == s.listPage && r.out == s.out)
  {
  }

  /** Closes a pending list, then emits `seg`. */
  function CloseAndEmit(s: State, seg: Segment): (r: State)
    requires Inv(s)
    ensures Inv(r) && r.buffer == [] && !r.inList && s.out <= r.out
  {
    var c := CloseList(s);
    c.(out := c.out + [seg])
  }

  /** The branch on the kind of a kept item. */
  function Emit(s: State, item: DocItem, tables: bool): (r: State)
    requires Inv(s)
    ensures Inv(r) && s.out <= r.out
  {
    match item.kind
    case Title => CloseAndEmit(s, Segment("# " + item.text, item.page))
    case SectionHeader => CloseAndEmit(s, Segment(HeaderMarker(item.level) + item.text, item.page))
    case ListGroup =>
      s.(nesting := s.nesting + 1, inList := true, listPage := Some(item.page))
    case OtherGroup =>
      s.(out := s.out + [Segment(item.text, item.page)])
    case ListItem(enumerated, marker) =>
      var line := RenderListItem(s.nesting, enumerated, marker, item.text);
      s.(inList := true, listPage := Some(item.page), buffer := s.buffer + [line])
    case Text => CloseAndEmit(s, Segment(item.text, item.page))
    case Table => if tables then CloseAndEmit(s, Segment(item.text, item.page)) else s
    case Other => s
  }

  /** One iteration of `for item, level in result.document.iterate_items()`: items
      that are not exported, or lie on an excluded page, only run the prologue. */
  function Step(s: State, item: DocItem, ignore: set<int>, tables: bool): (r: State)
    requires Inv(s)
    ensures Inv(r) && s.out <= r.out
  {
    var s2 := Prologue(s, item);
    if !item.exported || PageIndex(item) in ignore then s2 else Emit(s2, item, tables)
  }

  /** The loop state after the whole stream. */
  function Run(items: seq<DocItem>, ignore: set<int>, tables: bool): (r: State)
    ensures Inv(r)
  {
    if |items| == 0 then Start
    else Step(Run(items[..|items| - 1], ignore, tables), items[|items| - 1], ignore, tables)
  }

  /** The element loop of `process_pdf` followed by the end-of-stream flush, which
      joins the remaining list lines with `""`. */
  function Linearize(items: seq<DocItem>, ignore: set<int>, tables: bool): seq<Segment> {
    var s := Run(items, ignore, tables);
    if s.buffer != [] then s.out + [Segment(Concat(s.buffer), s.listPage.value)] else s.out
  }

  /** Every segment emitted so far, and the page a pending list would be tagged
      with, lie on pages outside the exclusion set. */
  predicate PagesOutside(s: State, ignore: set<int>) {
    && (forall seg :: seg in s.out ==> seg.page - 1 !in ignore)
    && (s.listPage.Some? ==> s.listPage.value - 1 !in ignore)
  }

  lemma ProloguePagesOutside(s: State, item: DocItem, ignore: set<int>)
    requires Inv(s) && PagesOutside(s, ignore)
    ensures PagesOutside(Prologue(s, item), ignore)
  {
  }

  lemma CloseListPagesOutside(s: State, ignore: set<int>)
    requires Inv(s) && PagesOutside(s, ignore)
    ensures PagesOutside(CloseList(s), ignore)
  {
  }

  lemma CloseAndEmitPagesOutside(s: State, seg: Segment, ignore: set<int>)
    requires Inv(s) && PagesOutside(s, ignore) && seg.page - 1 !in ignore
    ensures PagesOutside(CloseAndEmit(s, seg), ignore)
  {
    CloseListPagesOutside(s, ignore);
  }

  lemma EmitPagesOutside(s: State, item: DocItem, ignore: set<int>, tables: bool)
    requires Inv(s) && PagesOutside(s, ignore) && PageIndex(item) !in ignore
    ensures PagesOutside(Emit(s, item, tables), ignore)
  {
    match item.kind
    case Title => CloseAndEmitPagesOutside(s, Segment("# " + item.text, item.page), ignore);
    case SectionHeader => CloseAndEmitPagesOutside(s, Segment(HeaderMarker(item.level) + item.text, item.page), ignore);
    case Text => CloseAndEmitPagesOutside(s, Segment(item.text, item.page), ignore);
    case Table => if tables { CloseAndEmitPagesOutside(s, Segment(item.text, item.page), ignore); }
    case _ =>
  }

  lemma StepPagesOutside(s: State, item: DocItem, ignore: set<int>, tables: bool)
    requires Inv(s) && PagesOutside(s, ignore)
    ensures PagesOutside(Step(s, item, ignore, tables), ignore)
  {
    ProloguePagesOutside(s, item, ignore);
    if item.exported && PageIndex(item) !in ignore {
      EmitPagesOutside(Prologue(s, item), item, ignore, tables);
    }
  }

  lemma {:induction false} RunPagesOutside(items: seq<DocItem>, ignore: set<int>, tables: bool)
    ensures PagesOutside(Run(items, ignore, tables), ignore)
  {
    if |items| > 0 {
      RunPagesOutside(items[..|items| - 1], ignore, tables);
      StepPagesOutside(Run(items[..|items| - 1], ignore, tables), items[|items| - 1], ignore, tables);
    }
  }

  /** Page exclusion: no segment of the result comes from an excluded page. */
  lemma ExcludedPagesContributeNoSegment(items: seq<DocItem>, ignore: set<int>, tables: bool)
    ensures forall seg :: seg in Linearize(items, ignore, tables) ==> seg.page - 1 !in ignore
  {
    RunPagesOutside(items, ignore, tables);
  }

  /** `a` and `b` differ at most in the text of items on excluded pages. */
  predicate SameUpToExcludedText(a: seq<DocItem>, b: seq<DocItem>, ignore: set<int>) {
    && |a| == |b|
    && forall i :: 0 <= i < |a| ==>
         a[i] == b[i] || (PageIndex(a[i]) in ignore && a[i].(text := b[i].text) == b[i])
  }

  lemma {:induction false} RunSameUpToExcludedText(a: seq<DocItem>, b: seq<DocItem>, ignore: set<int>, tables: bool)
    requires SameUpToExcludedText(a, b, ignore)
    ensures Run(a, ignore, tables) == Run(b, ignore, tables)
  {
    if |a| > 0 {
      var n := |a| - 1;
      assert SameUpToExcludedText(a[..n], b[..n], ignore);
      RunSameUpToExcludedText(a[..n], b[..n], ignore, tables);
    }
  }

  /** Page exclusion, text side: whatever an item on an excluded page says, the
      result is the same. (Such items still move the nesting level and can close a
      pending list, as in the source.) */
  lemma ExcludedTextIsIrrelevant(a: seq<DocItem>, b: seq<DocItem>, ignore: set<int>, tables: bool)
    requires SameUpToExcludedText(a, b, ignore)
    ensures Linearize(a, ignore, tables) == Linearize(b, ignore, tables)
  {
    RunSameUpToExcludedText(a, b, ignore, tables);
  }

  lemma {:induction false} RunExtends(items: seq<DocItem>, i: nat, ignore: set<int>, tables: bool)
    requires i <= |items|
    ensures Run(items[..i], ignore, tables).out <= Run(items, ignore, tables).out
    decreases |items| - i
  {
    if i < |items| {
      var n := |items| - 1;
      assert items[..n][..i] == items[..i];
      if i < n {
        RunExtends(items[..n], i, ignore, tables);
      } else {
        assert items[..i] == items[..n];
      }
    } else {
      assert items[..i] == items;
    }
  }

  /** The segment text an item produces on its own, for the kinds that emit one. */
  function Rendered(item: DocItem, tables: bool): Option<string> {
    match item.kind
    case Title => Some("# " + item.text)
    case SectionHeader => Some(HeaderMarker(item.level) + item.text)
    case OtherGroup => Some(item.text)
    case Text => Some(item.text)
    case Table => if tables then Some(item.text) else None
    case _ => None
  }

  /** A kept item of a kind that renders is emitted as the last segment. */
  lemma EmitRendered(s: State, item: DocItem, tables: bool)
    requires Inv(s) && Rendered(item, tables).Some?
    ensures var r := Emit(s, item, tables);
      |r.out| > 0 && r.out[|r.out| - 1] == Segment(Rendered(item, tables).value, item.page)
  {
  }

  /** Every exported title, section header, text, non-list group and (when tables
      are requested) table on a kept page appears in the result as its own segment,
      tagged with its page: titles as `"# " + text`, section headers behind
      `HeaderMarker(level)`, the others verbatim. */
  lemma KeptItemsEmitted(items: seq<DocItem>, i: nat, ignore: set<int>, tables: bool)
    requires i < |items| && items[i].exported && PageIndex(items[i]) !in ignore
    requires Rendered(items[i], tables).Some?
    ensures Segment(Rendered(items[i], tables).value, items[i].page) in Linearize(items, ignore, tables)
  {
    var seg := Segment(Rendered(items[i], tables).value, items[i].page);
    assert items[..i + 1][..i] == items[..i];
    var before := Run(items[..i], ignore, tables);
    EmitRendered(Prologue(before, items[i]), items[i], tables);
    var after := Run(items[..i + 1], ignore, tables);
    assert after == Step(before, items[i], ignore, tables);
    assert seg in after.out;
    RunExtends(items, i + 1, ignore, tables);
  }

  /** The number of list groups opened so far (exported, on kept pages). */
  function ListGroupsOpened(items: seq<DocItem>, ignore: set<int>): nat {
    if |items| == 0 then 0
    else
      var last := items[|items| - 1];
      ListGroupsOpened(items[..|items| - 1], ignore)
        + (if last.kind.ListGroup? && last.exported && PageIndex(last) !in ignore then 1 else 0)
  }

  /** The nesting counter never exceeds the number of list groups entered. */
  lemma {:induction false} NestingBounded(items: seq<DocItem>, ignore: set<int>, tables: bool)
    ensures Run(items, ignore, tables).nesting <= ListGroupsOpened(items, ignore)
  {
    if |items| > 0 {
      NestingBounded(items[..|items| - 1], ignore, tables);
    }
  }

  /** A kept list item never flushes: it appends its rendered line to the pending
      list, which now carries the item's page. */
  lemma StepListItem(s: State, item: DocItem, ignore: set<int>, tables: bool)
    requires Inv(s) && item.kind.ListItem? && item.exported && PageIndex(item) !in ignore
    ensures var n := AdjustNesting(s.nesting, s.previous, item.level);
      Step(s, item, ignore, tables)
        == State(n, item.level, true,
                 s.buffer + [RenderListItem(n, item.kind.enumerated, item.kind.marker, item.text)],
                 Some(item.page), s.out)
  {
    PrologueOfListItem(s, item);
    EmitListItem(Prologue(s, item), item, tables);
  }

  lemma PrologueOfListItem(s: State, item: DocItem)
    requires Inv(s) && IsListOrGroup(item.kind)
    ensures Prologue(s, item) == s.(nesting := AdjustNesting(s.nesting, s.previous, item.level), previous := item.level)
  {
  }

  lemma EmitListItem(s: State, item: DocItem, tables: bool)
    requires Inv(s) && item.kind.ListItem?
    ensures Emit(s, item, tables)
      == s.(inList := true, listPage := Some(item.page),
            buffer := s.buffer + [RenderListItem(s.nesting, item.kind.enumerated, item.kind.marker, item.text)])
  {
    match item.kind {
      case ListItem(e, m) =>
        var line := RenderListItem(s.nesting, e, m, item.text);
        assert Emit(s, item, tables) == s.(inList := true, listPage := Some(item.page), buffer := s.buffer + [line]);
    }
  }

  function Item(kind: ItemKind, text: string, page: int): DocItem {
    DocItem(kind, text, page, 1, true)
  }

  /** A plain list item whose text has no surrounding blanks renders as `"- " + text`. */
  lemma RenderDash(n: nat, text: string)
    requires |text| > 0 && !IsSpace(text[0]) && !IsSpace(text[|text| - 1])
    ensures RenderListItem(n, false, "", text) == "- " + text
  {
    ListIndentErased(n, false, "", text);
    var t := "- " + text;
    assert TrimLeft(t) == t;
    assert TrimRight(t) == t;
  }

  /** A paragraph, a two-item list spanning pages 1 and 2, and a paragraph. */
  function FlushItems(): seq<DocItem> {
    [Item(Text, "Intro", 1), Item(ListGroup, "", 1),
     Item(ListItem(false, ""), "a", 1), Item(ListItem(false, ""), "b", 2),
     Item(Text, "After", 2)]
  }

  lemma FlushItemsUpTo2()
    ensures Run(FlushItems()[..2], {}, false) == State(1, 1, true, [], Some(1), [Segment("Intro", 1)])
  {
    var items := FlushItems();
    assert items[..2][..1] == items[..1];
    assert items[..1][..0] == [];
  }

  lemma FlushItemsUpTo3()
    ensures Run(FlushItems()[..3], {}, false) == State(1, 1, true, ["- a"], Some(1), [Segment("Intro", 1)])
  {
    var items := FlushItems();
    RenderDash(1, "a");
    FlushItemsUpTo2();
    assert items[..3][..2] == items[..2];
    var prev := Run(items[..2], {}, false);
    assert items[2] == Item(ListItem(false, ""), "a", 1);
    assert Run(items[..3], {}, false) == Step(prev, items[2], {}, false);
    StepListItem(prev, items[2], {}, false);
    assert AdjustNesting(1, 1, 1) == 1;
    assert RenderListItem(1, false, "", "a") == "- a";
  }

  lemma FlushItemsUpTo4()
    ensures Run(FlushItems()[..4], {}, false) == State(1, 1, true, ["- a", "- b"], Some(2), [Segment("Intro", 1)])
  {
    var items := FlushItems();
    RenderDash(1, "b");
    FlushItemsUpTo3();
    assert items[..4][..3] == items[..3];
    var prev := Run(items[..3], {}, false);
    assert items[3] == Item(ListItem(false, ""), "b", 2);
    assert Run(items[..4], {}, false) == Step(prev, items[3], {}, false);
    StepListItem(prev, items[3], {}, false);
    assert AdjustNesting(1, 1, 1) == 1;
    assert RenderListItem(1, false, "", "b") == "- b";
  }

  /** A kept paragraph after a pending list, once something has been emitted,
      flushes the list (lines joined by newlines, on the list's page) and then
      emits itself. */
  lemma StepTextAfterList(s: State, item: DocItem, ignore: set<int>, tables: bool)
    requires Inv(s) && s.out != [] && s.buffer != []
    requires item.kind.Text? && item.exported && PageIndex(item) !in ignore
    ensures Step(s, item, ignore, tables)
         == State(AdjustNesting(s.nesting, s.previous, item.level), item.level, false, [], None,
                  s.out + [Segment(Join("\n", s.buffer), s.listPage.value), Segment(item.text, item.page)])
  {
    var p := Prologue(s, item);
    assert p.out == s.out + [Segment(Join("\n", s.buffer), s.listPage.value)];
    assert CloseList(p) == p;
  }

  lemma FlushItemsRun()
    ensures Run(FlushItems(), {}, false)
         == State(1, 1, false, [], None, [Segment("Intro", 1), Segment(Join("\n", ["- a", "- b"]), 2), Segment("After", 2)])
  {
    var items := FlushItems();
    FlushItemsUpTo4();
    var prev := Run(items[..4], {}, false);
    assert items[..4] == items[..|items| - 1];
    assert Run(items, {}, false) == Step(prev, items[4], {}, false);
    StepTextAfterList(prev, items[4], {}, false);
  }

  lemma JoinTwoLines()
    ensures Join("\n", ["- a", "- b"]) == "- a\n- b"
  {
  }

  /** A list interrupted by a paragraph is flushed there with its lines joined by
      newlines, on the page of its last item; the paragraph follows on its own. */
  lemma MidStreamFlushExample()
    ensures Linearize(FlushItems(), {}, false)
         == [Segment("Intro", 1), Segment("- a\n- b", 2), Segment("After", 2)]
  {
    FlushItemsRun();
    JoinTwoLines();
  }

  /** A list at the very start, interrupted by a picture, then continued. */
  function GuardItems(): seq<DocItem> {
    [Item(ListGroup, "", 1), Item(ListItem(false, ""), "a", 1), Item(Other, "", 1),
     Item(ListItem(false, ""), "b", 1)]
  }

  lemma GuardItemsUpTo3()
    ensures Run(GuardItems()[..3], {}, false) == State(1, 1, true, ["- a"], Some(1), [])
  {
    var items := GuardItems();
    RenderDash(1, "a");
    assert items[..1][..0] == [];
    assert items[..2][..1] == items[..1];
    assert items[..3][..2] == items[..2];
    assert Run(items[..1], {}, false) == State(1, 1, true, [], Some(1), []);
    var prev := Run(items[..1], {}, false);
    assert items[1] == Item(ListItem(false, ""), "a", 1);
    assert Run(items[..2], {}, false) == Step(prev, items[1], {}, false);
    StepListItem(prev, items[1], {}, false);
    assert AdjustNesting(1, 1, 1) == 1;
    assert RenderListItem(1, false, "", "a") == "- a";
    var mid := Run(items[..2], {}, false);
    assert mid == State(1, 1, true, ["- a"], Some(1), []);
    assert items[2] == Item(Other, "", 1);
    assert Run(items[..3], {}, false) == Step(mid, items[2], {}, false);
  }

  /** While nothing has been emitted yet, a non-list item does not close the list
      (the `len(elements) > 0` guard), so the lines before and after the picture
      stay in one list; the list still pending at the end is flushed with its lines
      joined by the empty string. */
  lemma LeadingListExample()
    ensures Linearize(GuardItems(), {}, false) == [Segment("- a- b", 1)]
  {
    var items := GuardItems();
    RenderDash(1, "b");
    GuardItemsUpTo3();
    var prev := Run(items[..3], {}, false);
    assert items[..3] == items[..|items| - 1];
    assert items[3] == Item(ListItem(false, ""), "b", 1);
    assert Run(items, {}, false) == Step(prev, items[3], {}, false);
    StepListItem(prev, items[3], {}, false);
    assert AdjustNesting(1, 1, 1) == 1;
    assert RenderListItem(1, false, "", "b") == "- b";
    assert Concat(["- a", "- b"]) == "- a- b";
  }

  /** `process_pdf`: unless `bigTables` is set, the pages holding full-page tables
      are added to the pages to ignore before the element loop runs. */
  function ProcessPdf(items: seq<DocItem>, pageCount: nat, pagesToIgnore: set<int>, tables: bool,
                      bigTables: bool, fullPage: DocItem -> bool): seq<Segment> {
    var ignore := if bigTables then pagesToIgnore else FullPageTables(items, pageCount, pagesToIgnore, fullPage);
    Linearize(items, ignore, tables)
  }

  /** No segment comes from a page the caller asked to ignore, nor, unless
      `bigTables` is set, from a page holding an accepted full-page table. */
  lemma ProcessPdfSkipsPages(items: seq<DocItem>, pageCount: nat, pagesToIgnore: set<int>, tables: bool,
                             bigTables: bool, fullPage: DocItem -> bool, seg: Segment)
    requires seg in ProcessPdf(items, pageCount, pagesToIgnore, tables, bigTables, fullPage)
    ensures seg.page - 1 !in pagesToIgnore
    ensures !bigTables && pageCount > 0 ==>
      forall i :: 0 <= i < |items| && FullPageTable(items[i], fullPage) ==> seg.page != items[i].page
  {
    var ignore := if bigTables then pagesToIgnore else FullPageTables(items, pageCount, pagesToIgnore, fullPage);
    ExcludedPagesContributeNoSegment(items, ignore, tables);
    FullPageTablesSpec(items, pageCount, pagesToIgnore, fullPage, seg.page - 1);
  }
}
