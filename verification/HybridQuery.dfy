/** `generate_sql_query` (src/coordinator/utils.py): builds the hybrid retrieval
    statement that fuses a vector-similarity ranking and a full-text ranking of the
    same table with reciprocal rank fusion.

    The statement is modelled in two layers: `Build` decides its structure (column
    set, device filter, the sanitised search text, the caps), and `Render` spells
    that structure out with the exact text of the source's string templates.
    `GenerateSqlQuery` then replaces every newline and tab by a space. */
module HybridQuery {

  import opened Wrappers
  import opened Text
  import opened Decimal

  // ---------------------------------------------------------------------------
  // Sanitisation
  // ---------------------------------------------------------------------------

  /** The characters `str.translate` deletes from the search text. */
  predicate Forbidden(c: char) {
    c == '"' || c == '\\' || c == '%' || c == '_' || c == '\''
  }

  predicate Clean(s: string) {
    forall i :: 0 <= i < |s| ==> !Forbidden(s[i])
  }

  /** `query_str.translate(translate_table)`. */
  function Sanitize(s: string): (r: string)
    ensures Clean(r)
    ensures |r| <= |s|
  {
    if |s| == 0 then []
    else (if Forbidden(s[0]) then [] else [s[0]]) + Sanitize(s[1..])
  }

  /** Sanitisation works character by character: it distributes over
      concatenation. */
  lemma {:induction false} SanitizeAppend(a: string, b: string)
    ensures Sanitize(a + b) == Sanitize(a) + Sanitize(b)
  {
    if |a| > 0 {
      assert (a + b)[0] == a[0];
      assert (a + b)[1..] == a[1..] + b;
      SanitizeAppend(a[1..], b);
    } else {
      assert a + b == b;
    }
  }

  /** A single character is deleted exactly when it is forbidden. */
  lemma SanitizeChar(c: char)
    ensures Sanitize([c]) == if Forbidden(c) then [] else [c]
  {
    assert [c][1..] == [];
  }

  /** Text without forbidden characters passes unchanged. */
  lemma {:induction false} SanitizeClean(s: string)
    requires Clean(s)
    ensures Sanitize(s) == s
  {
    if |s| > 0 {
      SanitizeClean(s[1..]);
      assert [s[0]] + s[1..] == s;
    }
  }

  /** Sanitising twice is sanitising once. */
  lemma SanitizeIdempotent(s: string)
    ensures Sanitize(Sanitize(s)) == Sanitize(s)
  {
    SanitizeClean(Sanitize(s));
  }

  // ---------------------------------------------------------------------------
  // Structure
  // ---------------------------------------------------------------------------

  /** The metadata columns carried through both branches and the grouping. */
  datatype ColumnSet =
    | TicketColumns      // ticketID
    | ManualColumns      // page_number, url, docType

  /** The statement: the union of a vector branch and a full-text branch over the
      same table, each capped at `branchCap` rows and optionally restricted to one
      device type, grouped by row and ordered by the summed fusion score, capped at
      `limit` rows. */
  datatype HybridQuery = HybridQuery(
    columns: ColumnSet,
    table: string,
    embedding: string,
    search: string,
    deviceFilter: Option<string>,
    branchCap: nat,
    limit: int)

  const BranchCap: nat := 40
  const DefaultLimit: int := 5

  /** Python's `str.format` of an optional value: `None` renders as `"None"`. */
  function DeviceText(device: Option<string>): string {
    match device
    case None => "None"
    case Some(d) => d
  }

  /** The decisions `generate_sql_query` takes: ticket columns exactly for the
      `"tickets"` table, a device filter exactly for the `"manuals"` table, the
      sanitised search text, and the fixed per-branch cap. */
  function Build(table: string, query: string, embedding: string, limit: int, device: Option<string>): (q: HybridQuery)
    ensures q.columns == TicketColumns <==> table == "tickets"
    ensures q.deviceFilter.Some? <==> table == "manuals"
    ensures q.deviceFilter.Some? ==> q.deviceFilter.value == DeviceText(device)
    ensures q.search == Sanitize(query) && Clean(q.search)
    ensures q.table == table && q.embedding == embedding && q.limit == limit && q.branchCap == 40
  {
    HybridQuery(
      if table == "tickets" then TicketColumns else ManualColumns,
      table, embedding, Sanitize(query),
      if table == "manuals" then Some(DeviceText(device)) else None,
      BranchCap, limit)
  }

  // ---------------------------------------------------------------------------
  // Rendering, with the text of the source's templates
  // ---------------------------------------------------------------------------

  function OuterColumns(c: ColumnSet): string {
    match c
    case TicketColumns => "searches.ticketID,"
    case ManualColumns => "searches.page_number,\n        searches.url,\n        searches.docType,"
  }

  function InnerColumns(c: ColumnSet): string {
    match c
    case TicketColumns => "ticketID,"
    case ManualColumns => "page_number,\n        url,\n        docType,"
  }

  function GroupColumns(c: ColumnSet): string {
    match c
    case TicketColumns => "searches.ticketID "
    case ManualColumns => "searches.page_number, " + "searches.url, " + "searches.docType "
  }

  const Head: string := "SELECT\n    searches.id,\n    searches.chunk, "
  const ScoreAndFirstSelect: string :=
    "sum(rrf_score(searches.rank::int)) AS score\nFROM (\n\t(\n\t\tSELECT\n            id,\n            chunk,"
  const SecondSelect: string := "UNION ALL\n\t(\n\t\tSELECT\n\t\t\tid,\n            chunk,"

  function VectorRank(q: HybridQuery): string {
    "rank() OVER (ORDER BY " + q.embedding + " <=> chunk_embedding)::int AS rank\n\t\tFROM " + q.table + "\n        "
  }

  function VectorFilter(q: HybridQuery): seq<string> {
    match q.deviceFilter
    case Some(d) => ["WHERE deviceType = '" + d + "' "]
    case None => []
  }

  function BranchTail(cap: nat): string {
    "ORDER BY rank\n\t\tLIMIT " + IntToString(cap) + "\n\t)"
  }

  function TextRank(q: HybridQuery): string {
    "rank() OVER (ORDER BY ts_rank_cd(to_tsvector(chunk), plainto_tsquery('" + q.search
      + "')) DESC) AS rank\n\t\tFROM " + q.table + "\n\t\tWHERE"
  }

  function TextFilter(q: HybridQuery): seq<string> {
    match q.deviceFilter
    case Some(d) => [" deviceType ='" + d + "' AND "]
    case None => []
  }

  /** The quoted search literal of the full-text condition. */
  function SearchCondition(search: string): string {
    "plainto_tsquery('english', '" + search + "')"
  }

  /** The closing clause: ordering by fused score and the overall cap. */
  function Tail(limit: int): string {
    "ORDER BY score DESC\n    LIMIT " + IntToString(limit) + ";"
  }

  /** The closing piece of the full-text branch and of the union. */
  function FullTextTail(cap: nat): string {
    " @@ to_tsvector('english', chunk)\n\t\tORDER BY rank\n\t\tLIMIT " + IntToString(cap) + "\n\t)\n) searches "
  }

  const GroupBy: string := "GROUP BY searches.id, searches.chunk,"

  /** The parts of the statement that depend on the query, each already filled
      into its template; the device filters are empty or one piece. */
  datatype Parts = Parts(
    outer: string, inner: string, vectorRank: string, vectorFilter: seq<string>,
    branchTail: string, textRank: string, textFilter: seq<string>,
    search: string, fullTextTail: string, group: string, tail: string)

  function PartsOf(q: HybridQuery): Parts {
    Parts(OuterColumns(q.columns), InnerColumns(q.columns), VectorRank(q), VectorFilter(q),
          BranchTail(q.branchCap), TextRank(q), TextFilter(q),
          SearchCondition(q.search), FullTextTail(q.branchCap), GroupColumns(q.columns), Tail(q.limit))
  }

  /** The order in which the source appends the pieces. */
  function Layout(p: Parts): seq<string> {
    [Head, p.outer, ScoreAndFirstSelect, p.inner, p.vectorRank] + p.vectorFilter
      + [p.branchTail, SecondSelect, p.inner, p.textRank] + p.textFilter
      + [" ", p.search, p.fullTextTail, GroupBy, p.group, p.tail]
  }

  /** The statement as the sequence of template pieces the source appends. */
  function Pieces(q: HybridQuery): seq<string> {
    Layout(PartsOf(q))
  }

  function Render(q: HybridQuery): string {
    Concat(Pieces(q))
  }

  /** `.replace("\n", " ").replace("\t", " ")`. */
  function SpaceOut(s: string): (r: string)
    ensures |r| == |s|
    ensures forall i :: 0 <= i < |s| ==> r[i] == if s[i] == '\n' || s[i] == '\t' then ' ' else s[i]
  {
    seq(|s|, i requires 0 <= i < |s| => if s[i] == '\n' || s[i] == '\t' then ' ' else s[i])
  }

  /** `generate_sql_query(table_name, query_str, embedding_str, limit, deviceType)`. */
  function GenerateSqlQuery(table: string, query: string, embedding: string, limit: int, device: Option<string>): string {
    SpaceOut(Render(Build(table, query, embedding, limit, device)))
  }

  // ---------------------------------------------------------------------------
  // Properties
  // ---------------------------------------------------------------------------

  lemma SpaceOutAppend(a: string, b: string)
    ensures SpaceOut(a + b) == SpaceOut(a) + SpaceOut(b)
  {
  }

  lemma SpaceOutFree(s: string)
    requires '\n' !in s && '\t' !in s
    ensures SpaceOut(s) == s
  {
  }

  /** Spacing out leaves no newline and no tab. */
  lemma SpaceOutNoBreaks(s: string)
    ensures '\n' !in SpaceOut(s) && '\t' !in SpaceOut(s)
  {
    var r := SpaceOut(s);
    forall i | 0 <= i < |r| ensures r[i] != '\n' && r[i] != '\t' {
    }
  }

  /** The statement is a single line: it holds no newline and no tab. */
  lemma NoLineBreaks(table: string, query: string, embedding: string, limit: int, device: Option<string>)
    ensures var r := GenerateSqlQuery(table, query, embedding, limit, device);
      '\n' !in r && '\t' !in r
  {
    SpaceOutNoBreaks(Render(Build(table, query, embedding, limit, device)));
  }

  /** Only the sanitised search text matters: queries that sanitise alike give
      the same statement. */
  lemma OnlySanitizedQueryMatters(table: string, q1: string, q2: string, embedding: string, limit: int, device: Option<string>)
    requires Sanitize(q1) == Sanitize(q2)
    ensures GenerateSqlQuery(table, q1, embedding, limit, device) == GenerateSqlQuery(table, q2, embedding, limit, device)
  {
  }

  /** The device type is used only for the `"manuals"` table. */
  lemma DeviceOnlyForManuals(table: string, query: string, embedding: string, limit: int, d1: Option<string>, d2: Option<string>)
    requires table != "manuals"
    ensures GenerateSqlQuery(table, query, embedding, limit, d1) == GenerateSqlQuery(table, query, embedding, limit, d2)
  {
  }

  /** `SpaceOut` piece by piece. */
  function SpaceOutAll(ps: seq<string>): (r: seq<string>)
    ensures |r| == |ps|
    ensures forall i :: 0 <= i < |ps| ==> r[i] == SpaceOut(ps[i])
  {
    seq(|ps|, i requires 0 <= i < |ps| => SpaceOut(ps[i]))
  }

  lemma {:induction false} SpaceOutConcat(ps: seq<string>)
    ensures SpaceOut(Concat(ps)) == Concat(SpaceOutAll(ps))
  {
    if |ps| > 0 {
      ConcatCons(ps);
      ConcatCons(SpaceOutAll(ps));
      assert SpaceOutAll(ps)[1..] == SpaceOutAll(ps[1..]);
      SpaceOutConcat(ps[1..]);
      SpaceOutAppend(ps[0], Concat(ps[1..]));
    }
  }

  /** Every piece, spaced out, occurs in the spaced-out concatenation. */
  lemma PieceInConcat(ps: seq<string>, i: nat)
    requires i < |ps|
    ensures Contains(SpaceOut(Concat(ps)), SpaceOut(ps[i]))
  {
    SpaceOutConcat(ps);
    ConcatContains(SpaceOutAll(ps), i);
  }

  /** Where each part sits among the pieces. */
  lemma LayoutPositions(p: Parts)
    ensures var ps := Layout(p); var n := |ps|; var v := |p.vectorFilter|;
      && n == 15 + v + |p.textFilter|
      && ps[1] == p.outer && ps[3] == p.inner && ps[5 + v] == p.branchTail
      && (v == 1 ==> ps[5] == p.vectorFilter[0])
      && (|p.textFilter| == 1 ==> ps[9 + v] == p.textFilter[0])
      && ps[n - 5] == p.search && ps[n - 2] == p.group && ps[n - 1] == p.tail
  {
  }

  /** The column lists and the cap of the vector branch occur in the statement. */
  lemma ColumnPartsIn(p: Parts)
    ensures var r := SpaceOut(Concat(Layout(p)));
      && Contains(r, SpaceOut(p.outer)) && Contains(r, SpaceOut(p.inner))
      && Contains(r, SpaceOut(p.group)) && Contains(r, SpaceOut(p.branchTail))
  {
    var ps := Layout(p);
    LayoutPositions(p);
    PieceInConcat(ps, 1);
    PieceInConcat(ps, 3);
    PieceInConcat(ps, |ps| - 2);
    PieceInConcat(ps, 5 + |p.vectorFilter|);
  }

  /** The search condition occurs in the statement. */
  lemma SearchPartIn(p: Parts)
    ensures Contains(SpaceOut(Concat(Layout(p))), SpaceOut(p.search))
  {
    var ps := Layout(p);
    LayoutPositions(p);
    PieceInConcat(ps, |ps| - 5);
  }

  /** Both device filters, when present, occur in the statement. */
  lemma FilterPartsIn(p: Parts)
    requires |p.vectorFilter| == 1 && |p.textFilter| == 1
    ensures var r := SpaceOut(Concat(Layout(p)));
      Contains(r, SpaceOut(p.vectorFilter[0])) && Contains(r, SpaceOut(p.textFilter[0]))
  {
    var ps := Layout(p);
    LayoutPositions(p);
    PieceInConcat(ps, 5);
    PieceInConcat(ps, 10);
  }

  /** The closing clause ends the statement. */
  lemma TailPartLast(p: Parts)
    ensures EndsWith(SpaceOut(Concat(Layout(p))), SpaceOut(p.tail))
  {
    var ps := Layout(p);
    var n := |ps| - 1;
    LayoutPositions(p);
    assert ps == ps[..n] + [ps[n]];
    ConcatAppend(ps[..n], [ps[n]]);
    assert Concat([ps[n]]) == ps[n] by {
      ConcatCons([ps[n]]);
    }
    SpaceOutAppend(Concat(ps[..n]), ps[n]);
  }

  lemma DigitsFree(n: int)
    ensures '\n' !in IntToString(n) && '\t' !in IntToString(n)
  {
    var d := NatToDecimal(if n < 0 then -n else n);
    assert forall i :: 0 <= i < |d| ==> IsDigit(d[i]);
  }

  lemma SpaceOutSearchCondition(s: string)
    ensures SpaceOut(SearchCondition(s)) == SearchCondition(SpaceOut(s))
  {
    var lead := "plainto_tsquery('english', '";
    SpaceOutAppend(lead + s, "')");
    SpaceOutAppend(lead, s);
    SpaceOutFree(lead);
    SpaceOutFree("')");
  }

  /** Clean text holds no quote and no backslash. */
  lemma CleanNoQuote(s: string)
    requires Clean(s)
    ensures '\'' !in s && '\\' !in s
  {
    assert forall i :: 0 <= i < |s| ==> !Forbidden(s[i]);
  }

  /** The full-text condition of a statement quotes its search text. */
  lemma SearchInRender(q: HybridQuery)
    ensures Contains(SpaceOut(Render(q)), SearchCondition(SpaceOut(q.search)))
  {
    SearchPartIn(PartsOf(q));
    SpaceOutSearchCondition(q.search);
  }

  /** The full-text condition quotes the sanitised search text, which holds no
      quote or backslash and so cannot close the literal. */
  lemma SearchLiteralPresent(table: string, query: string, embedding: string, limit: int, device: Option<string>)
    ensures var q := Build(table, query, embedding, limit, device);
      && Contains(GenerateSqlQuery(table, query, embedding, limit, device), SearchCondition(SpaceOut(q.search)))
      && '\'' !in q.search && '\\' !in q.search
  {
    var q := Build(table, query, embedding, limit, device);
    SearchInRender(q);
    CleanNoQuote(q.search);
  }

  lemma SpaceOutTail(limit: int)
    ensures SpaceOut(Tail(limit)) == "ORDER BY score DESC     LIMIT " + IntToString(limit) + ";"
  {
    var d := IntToString(limit);
    DigitsFree(limit);
    SpaceOutAppend("ORDER BY score DESC\n    LIMIT ", d + ";");
    SpaceOutFree(d + ";");
    assert SpaceOut("ORDER BY score DESC\n    LIMIT ") == "ORDER BY score DESC     LIMIT ";
    assert Tail(limit) == "ORDER BY score DESC\n    LIMIT " + (d + ";");
  }

  /** A statement ends with its closing clause. */
  lemma LastPiece(q: HybridQuery)
    ensures EndsWith(SpaceOut(Render(q)), SpaceOut(Tail(q.limit)))
  {
    TailPartLast(PartsOf(q));
  }

  /** The statement ends with the fused ordering and the overall cap. */
  lemma EndsWithLimit(table: string, query: string, embedding: string, limit: int, device: Option<string>)
    ensures EndsWith(GenerateSqlQuery(table, query, embedding, limit, device),
                     "ORDER BY score DESC     LIMIT " + IntToString(limit) + ";")
  {
    LastPiece(Build(table, query, embedding, limit, device));
    SpaceOutTail(limit);
  }

  lemma SpaceOutFilters(d: string)
    ensures SpaceOut("WHERE deviceType = '" + d + "' ") == "WHERE deviceType = '" + SpaceOut(d) + "' "
    ensures SpaceOut(" deviceType ='" + d + "' AND ") == " deviceType ='" + SpaceOut(d) + "' AND "
  {
    SpaceOutAppend("WHERE deviceType = '" + d, "' ");
    SpaceOutAppend("WHERE deviceType = '", d);
    SpaceOutAppend(" deviceType ='" + d, "' AND ");
    SpaceOutAppend(" deviceType ='", d);
  }

  /** A statement with a device filter restricts both branches to it. */
  lemma FiltersInRender(q: HybridQuery)
    requires q.deviceFilter.Some?
    ensures var r := SpaceOut(Render(q));
      var d := SpaceOut(q.deviceFilter.value);
      && Contains(r, "WHERE deviceType = '" + d + "' ")
      && Contains(r, " deviceType ='" + d + "' AND ")
  {
    FilterPartsIn(PartsOf(q));
    SpaceOutFilters(q.deviceFilter.value);
  }

  /** The `"manuals"` table restricts both branches to the device type (rendered
      verbatim, `"None"` when absent). */
  lemma ManualsFilterBothBranches(query: string, embedding: string, limit: int, device: Option<string>)
    ensures var r := GenerateSqlQuery("manuals", query, embedding, limit, device);
      var d := SpaceOut(DeviceText(device));
      && Contains(r, "WHERE deviceType = '" + d + "' ")
      && Contains(r, " deviceType ='" + d + "' AND ")
  {
    FiltersInRender(Build("manuals", query, embedding, limit, device));
  }

  /** A statement selects, carries and groups by its column set, and caps the
      vector branch. */
  lemma ColumnsInRender(q: HybridQuery)
    ensures var r := SpaceOut(Render(q));
      && Contains(r, SpaceOut(OuterColumns(q.columns)))
      && Contains(r, SpaceOut(InnerColumns(q.columns)))
      && Contains(r, GroupColumns(q.columns))
      && Contains(r, SpaceOut(BranchTail(q.branchCap)))
  {
    ColumnPartsIn(PartsOf(q));
    GroupColumnsFree(q.columns);
  }

  /** The `"tickets"` table selects, carries and groups by `ticketID`; every other
      table by `page_number, url, docType`. The vector branch is capped at 40 rows. */
  lemma ColumnsByTable(table: string, query: string, embedding: string, limit: int, device: Option<string>)
    ensures var c := if table == "tickets" then TicketColumns else ManualColumns;
      var r := GenerateSqlQuery(table, query, embedding, limit, device);
      && Contains(r, SpaceOut(OuterColumns(c)))
      && Contains(r, SpaceOut(InnerColumns(c)))
      && Contains(r, GroupColumns(c))
      && Contains(r, SpaceOut(BranchTail(40)))
  {
    ColumnsInRender(Build(table, query, embedding, limit, device));
  }

  /** The grouping list holds no line break, so spacing out leaves it as is. */
  lemma GroupColumnsFree(c: ColumnSet)
    ensures SpaceOut(GroupColumns(c)) == GroupColumns(c)
  {
    match c
    case TicketColumns =>
      SpaceOutFree("searches.ticketID ");
    case ManualColumns =>
      var a, b, d := "searches.page_number, ", "searches.url, ", "searches.docType ";
      SpaceOutFree(a);
      SpaceOutFree(b);
      SpaceOutFree(d);
      SpaceOutAppend(a, b);
      SpaceOutAppend(a + b, d);
  }
}
