/** The ticket-description normaliser of src/utils/utils_historic_tickets.py:
    e-mail addresses are blanked out, and descriptions in one of two headline
    formats are parsed into a dict of sections and rendered back as text; short
    unstructured descriptions are rejected.

    The regular expressions are not modelled: where the source runs `re.sub`,
    `re.search` or `re.findall`, the model takes the match results as inputs (the
    spans of the e-mail addresses, whether a format marker occurs, the
    `(headline, body)` pairs and the `(field, value)` pairs found in a section). */
module TicketText {

  import opened Wrappers
  import opened Text
  import opened OrderedDict

  // ---------------------------------------------------------------------------
  // remove_mail_addresses
  // ---------------------------------------------------------------------------

  /** One match of the e-mail pattern: the characters `start..end` of the text. */
  datatype Span = Span(start: nat, end: nat)

  /** `re.sub` matches are non-empty, inside the text, and left to right without
      overlap. */
  predicate ValidSpans(text: string, spans: seq<Span>) {
    (forall k :: 0 <= k < |spans| ==> spans[k].start < spans[k].end <= |text|)
    && forall k, l :: 0 <= k < l < |spans| ==> spans[k].end <= spans[l].start
  }

  /** `re.sub(pattern, " ", text)`: every match replaced by one space. */
  function RemoveMailAddresses(text: string, spans: seq<Span>): string
    requires ValidSpans(text, spans)
    decreases |spans|
  {
    if |spans| == 0 then text
    else
      var last := spans[|spans| - 1];
      RemoveMailAddresses(text[..last.start], spans[..|spans| - 1]) + " " + text[last.end..]
  }

  /** Position `i` lies inside one of the matches. */
  predicate Inside(spans: seq<Span>, i: int) {
    exists k :: 0 <= k < |spans| && spans[k].start <= i < spans[k].end
  }

  /** The number of characters the matches cover. */
  function Covered(spans: seq<Span>): int {
    if |spans| == 0 then 0 else Covered(spans[..|spans| - 1]) + spans[|spans| - 1].end - spans[|spans| - 1].start
  }

  /** The same substitution read left to right from position `p`: the text up to
      the first match, one space, then the rest after that match. */
  function ReplaceFrom(text: string, spans: seq<Span>, p: nat): string
    requires ValidSpans(text, spans) && p <= |text|
    requires |spans| > 0 ==> p <= spans[0].start
    decreases |spans|
  {
    if |spans| == 0 then text[p..]
    else text[p..spans[0].start] + " " + ReplaceFrom(text, spans[1..], spans[0].end)
  }

  /** Reading left to right, the last match can be split off the end. */
  lemma {:induction false} ReplaceFromLast(text: string, spans: seq<Span>, p: nat)
    requires ValidSpans(text, spans) && |spans| > 0 && p <= spans[0].start
    ensures var last := spans[|spans| - 1];
      ReplaceFrom(text, spans, p) == ReplaceFrom(text[..last.start], spans[..|spans| - 1], p) + " " + text[last.end..]
    decreases |spans|
  {
    var last := spans[|spans| - 1];
    var head := text[..last.start];
    if |spans| == 1 {
      assert spans[1..] == [];
      assert head[p..] == text[p..last.start];
    } else {
      var first := spans[0];
      var init := spans[..|spans| - 1];
      ReplaceFromLast(text, spans[1..], first.end);
      assert spans[1..][..|spans| - 2] == init[1..];
      assert head[p..first.start] == text[p..first.start];
    }
  }

  /** Each match shrinks to a single space and the text around the matches is
      kept in order: the result is the left-to-right substitution. Every character
      of the result is a space or a character of the text outside all matches. */
  lemma {:induction false} RemoveMailAddressesSpec(text: string, spans: seq<Span>)
    requires ValidSpans(text, spans)
    ensures var r := RemoveMailAddresses(text, spans);
      && r == ReplaceFrom(text, spans, 0)
      && |r| == |text| - Covered(spans) + |spans|
      && forall c :: c in r ==> c == ' ' || exists i :: 0 <= i < |text| && !Inside(spans, i) && text[i] == c
    decreases |spans|
  {
    if |spans| > 0 {
      var last := spans[|spans| - 1];
      var init := spans[..|spans| - 1];
      var head := text[..last.start];
      RemoveMailAddressesSpec(head, init);
      ReplaceFromLast(text, spans, 0);
      var r := RemoveMailAddresses(text, spans);
      var rh := RemoveMailAddresses(head, init);
      assert r == rh + " " + text[last.end..];
      forall c | c in r && c != ' '
        ensures exists i :: 0 <= i < |text| && !Inside(spans, i) && text[i] == c
      {
        if c in rh {
          var i :| 0 <= i < |head| && !Inside(init, i) && head[i] == c;
          OutsideBeforeLast(text, spans, i);
          assert text[i] == c;
        } else {
          assert c in text[last.end..];
          var j :| 0 <= j < |text[last.end..]| && text[last.end..][j] == c;
          var i := last.end + j;
          OutsideAfterLast(text, spans, i);
          assert text[i] == c;
        }
      }
    }
  }

  /** A position before the last match and outside the earlier ones is outside
      all matches. */
  lemma OutsideBeforeLast(text: string, spans: seq<Span>, i: int)
    requires ValidSpans(text, spans) && |spans| > 0
    requires i < spans[|spans| - 1].start && !Inside(spans[..|spans| - 1], i)
    ensures !Inside(spans, i)
  {
    forall k | 0 <= k < |spans| - 1 ensures !(spans[k].start <= i < spans[k].end) {
      assert spans[..|spans| - 1][k] == spans[k];
    }
  }

  /** A position after the last match is outside all matches. */
  lemma OutsideAfterLast(text: string, spans: seq<Span>, i: int)
    requires ValidSpans(text, spans) && |spans| > 0
    requires i >= spans[|spans| - 1].end
    ensures !Inside(spans, i)
  {
    forall k | 0 <= k < |spans| - 1 ensures spans[k].end <= spans[|spans| - 1].start {
    }
  }

  /** When every `@` of the text lies inside a match, none is left. */
  lemma NoAtSignLeft(text: string, spans: seq<Span>)
    requires ValidSpans(text, spans)
    requires forall i :: 0 <= i < |text| && text[i] == '@' ==> Inside(spans, i)
    ensures '@' !in RemoveMailAddresses(text, spans)
  {
    RemoveMailAddressesSpec(text, spans);
  }

  // ---------------------------------------------------------------------------
  // process_headlines_1 / process_headlines_2
  // ---------------------------------------------------------------------------

  /** A section body: the text itself, or the `dict` of its `field: value` lines. */
  datatype Section = Flat(text: string) | Nested(fields: Dict<string, string>)

  /** Section bodies the comprehensions drop. */
  const Placeholders: seq<string> := ["\n", " ", "null\n"]

  const Denylist1: seq<string> :=
    ["AGREEMENT", "DELIVERY", "PARTORDERS", "CONTACT", "ENTITLEMENT", "PARTS SHIPPED TO",
     "ATTACHMENTS", "ALTERNATE CONTACT", "WHERE"]

  /** Headlines of the first format whose bodies are split into fields. */
  const NestedKeys: seq<string> := ["MISC", "WORKORDER", "SKILLSETS", "CASE DETAILS", "CONTACT DETAILS"]

  const Denylist2: seq<string> :=
    ["BOOKING DETAILS:", "ACCOUNT:", "DEVICE:", "CONTACT:", "SKILLS:", "OTHER:", "PARTS SHIPPED TO:",
     "Kontakt Terminabstimmung:", "Additional info  :", "Contact Details for Onsite would be  :",
     "DISPATCHERS:"]

  /** The filter of the dict comprehension. */
  predicate Kept(p: (string, string), denylist: seq<string>) {
    p.1 !in Placeholders && p.0 !in denylist
  }

  /** The pairs the comprehension keeps, in order. */
  function KeepPairs(ps: seq<(string, string)>, denylist: seq<string>): (r: seq<(string, string)>)
    ensures forall p :: p in r <==> p in ps && Kept(p, denylist)
  {
    if |ps| == 0 then []
    else KeepPairs(ps[..|ps| - 1], denylist) + (if Kept(ps[|ps| - 1], denylist) then [ps[|ps| - 1]] else [])
  }

  /** The body a first-format headline ends up with. */
  function Parse1(key: string, body: string, fields: string -> seq<(string, string)>): Section {
    if key in NestedKeys then Nested(FromPairs(fields(body))) else Flat(body)
  }

  /** `process_headlines_1`, given the `(headline, body)` pairs `re.findall`
      returns and, for a body, the `(field, value)` pairs of the inner `re.findall`. */
  function ProcessHeadlines1(matches: seq<(string, string)>, fields: string -> seq<(string, string)>): Dict<string, Section> {
    MapValues(FromPairs(KeepPairs(matches, Denylist1)), (k, v) => Parse1(k, v, fields))
  }

  /** `process_headlines_2`; every section stays flat. */
  function ProcessHeadlines2(matches: seq<(string, string)>): Dict<string, Section> {
    MapValues(FromPairs(KeepPairs(matches, Denylist2)), (k, v) => Flat(v))
  }

  /** The first-format dict has distinct keys, in first-match order; a headline is
      present iff some match of it survives the filter, and then carries the last
      surviving body, split into fields exactly for the five nested headlines. */
  lemma Headlines1Spec(matches: seq<(string, string)>, fields: string -> seq<(string, string)>, k: string)
    ensures var r := ProcessHeadlines1(matches, fields);
      var last := LastValue(KeepPairs(matches, Denylist1), k);
      && Valid(r)
      && Keys(r) == Dedup(Keys(KeepPairs(matches, Denylist1)))
      && (Get(r, k).Some? <==> exists i :: 0 <= i < |matches| && matches[i].0 == k && Kept(matches[i], Denylist1))
      && (last.Some? ==> Get(r, k) == Some(Parse1(k, last.value, fields)))
  {
    MapFromPairs(KeepPairs(matches, Denylist1), (k, v) => Parse1(k, v, fields), k);
    KeepPairsKey(matches, Denylist1, k);
  }

  /** A key survives the filter iff some pair with that key is kept. */
  lemma KeepPairsKey(ps: seq<(string, string)>, denylist: seq<string>, k: string)
    ensures var kept := KeepPairs(ps, denylist);
      (exists i :: 0 <= i < |kept| && kept[i].0 == k)
      <==> exists i :: 0 <= i < |ps| && ps[i].0 == k && Kept(ps[i], denylist)
  {
    var kept := KeepPairs(ps, denylist);
    forall i | 0 <= i < |kept| && kept[i].0 == k
      ensures exists j :: 0 <= j < |ps| && ps[j].0 == k && Kept(ps[j], denylist)
    {
      assert kept[i] in ps && Kept(kept[i], denylist);
      var j :| 0 <= j < |ps| && ps[j] == kept[i];
      assert ps[j].0 == k && Kept(ps[j], denylist);
    }
    forall i | 0 <= i < |ps| && ps[i].0 == k && Kept(ps[i], denylist)
      ensures exists j :: 0 <= j < |kept| && kept[j].0 == k
    {
      assert ps[i] in kept;
      var j :| 0 <= j < |kept| && kept[j] == ps[i];
      assert kept[j].0 == k;
    }
  }

  /** No denylisted headline and no placeholder body survives the first format. */
  lemma Headlines1Filtered(matches: seq<(string, string)>, fields: string -> seq<(string, string)>, k: string)
    ensures var r := ProcessHeadlines1(matches, fields);
      && (k in Denylist1 ==> Get(r, k).None?)
      && (k in NestedKeys && Get(r, k).Some? ==> Get(r, k).value.Nested?)
      && (k !in NestedKeys && Get(r, k).Some? ==> Get(r, k).value.Flat? && Get(r, k).value.text !in Placeholders)
  {
    var kept := KeepPairs(matches, Denylist1);
    Headlines1Spec(matches, fields, k);
    FromPairsSpec(kept);
    var last := LastValue(kept, k);
    if last.Some? {
      LastValueWritten(kept, k);
    }
  }

  /** The second format keeps, for each surviving headline, its last surviving
      body; denylisted headlines and placeholder bodies are dropped. */
  lemma Headlines2Spec(matches: seq<(string, string)>, k: string)
    ensures var r := ProcessHeadlines2(matches);
      var last := LastValue(KeepPairs(matches, Denylist2), k);
      && Valid(r)
      && (Get(r, k).Some? <==> exists i :: 0 <= i < |matches| && matches[i].0 == k && Kept(matches[i], Denylist2))
      && (last.Some? ==> Get(r, k) == Some(Flat(last.value)) && last.value !in Placeholders)
      && (k in Denylist2 ==> Get(r, k).None?)
  {
    var kept := KeepPairs(matches, Denylist2);
    MapFromPairs(kept, (k, v) => Flat(v), k);
    KeepPairsKey(matches, Denylist2, k);
    var last := LastValue(kept, k);
    if last.Some? {
      LastValueWritten(kept, k);
    }
  }

  // ---------------------------------------------------------------------------
  // transform_dict_to_text
  // ---------------------------------------------------------------------------

  /** `"".join(f"  {k}: {v}\n" for k, v in fields.items())`. */
  function RenderFields(fields: Dict<string, string>): string {
    if |fields| == 0 then "" else "  " + fields[0].0 + ": " + fields[0].1 + "\n" + RenderFields(fields[1..])
  }

  /** The text one entry of the dict contributes before newline runs are collapsed. */
  function RenderSection(key: string, value: Section): (r: string)
    ensures StartsWith(r, key + ":\n")
  {
    match value
    case Flat(v) => key + ":\n" + v + "\n\n"
    case Nested(fields) => key + ":\n" + RenderFields(fields)
  }

  /** The entries rendered one after another, in dict order. */
  function RenderSections(d: Dict<string, Section>): string {
    if |d| == 0 then "" else RenderSection(d[0].0, d[0].1) + RenderSections(d[1..])
  }

  /** No three newlines in a row. */
  predicate TripleFree(s: string) {
    forall i :: 0 <= i && i + 2 < |s| ==> !(s[i] == '\n' && s[i + 1] == '\n' && s[i + 2] == '\n')
  }

  /** The number of newlines `s` starts with. */
  function LeadingNewlines(s: string): nat {
    if |s| > 0 && s[0] == '\n' then 1 + LeadingNewlines(s[1..]) else 0
  }

  /** `re.sub(r"\n\n\n+", "\n\n", s)`, scanning left to right; `run` counts the
      newlines just emitted. Each maximal run of three or more newlines becomes
      two; shorter runs stay. */
  function CollapseFrom(s: string, run: nat): string {
    if |s| == 0 then ""
    else if s[0] == '\n' then
      if run >= 2 then CollapseFrom(s[1..], 2) else "\n" + CollapseFrom(s[1..], run + 1)
    else [s[0]] + CollapseFrom(s[1..], 0)
  }

  function CollapseNewlines(s: string): string {
    CollapseFrom(s, 0)
  }

  /** `transform_dict_to_text`. */
  function TransformDictToText(d: Dict<string, Section>): string {
    CollapseNewlines(RenderSections(d))
  }

  /** `s` with its newlines deleted. */
  function Unlined(s: string): string {
    if |s| == 0 then "" else (if s[0] == '\n' then "" else [s[0]]) + Unlined(s[1..])
  }

  lemma {:induction false} CollapseFromTripleFree(s: string, run: nat)
    requires run <= 2
    ensures TripleFree(CollapseFrom(s, run))
    ensures LeadingNewlines(CollapseFrom(s, run)) + run <= 2
    decreases |s|
  {
    if |s| > 0 {
      if s[0] == '\n' && run >= 2 {
        CollapseFromTripleFree(s[1..], 2);
      } else {
        var next := if s[0] == '\n' then run + 1 else 0;
        CollapseFromTripleFree(s[1..], next);
        assert CollapseFrom(s, run) == [s[0]] + CollapseFrom(s[1..], next);
        TripleFreeCons(s[0], CollapseFrom(s[1..], next));
      }
    }
  }

  /** Putting one character in front keeps a text free of triple newlines unless
      it is a newline in front of two. */
  lemma TripleFreeCons(c: char, t: string)
    ensures TripleFree([c] + t) <==> TripleFree(t) && !(c == '\n' && LeadingNewlines(t) >= 2)
    ensures LeadingNewlines([c] + t) == if c == '\n' then 1 + LeadingNewlines(t) else 0
  {
    var s := [c] + t;
    assert s[1..] == t;
    LeadingNewlinesTwo(t);
    if TripleFree(s) {
      forall i | 0 <= i && i + 2 < |t| ensures !(t[i] == '\n' && t[i + 1] == '\n' && t[i + 2] == '\n') {
        assert t[i] == s[i + 1] && t[i + 1] == s[i + 2] && t[i + 2] == s[i + 3];
      }
      if c == '\n' && |t| >= 2 {
        assert s[0] == '\n' && s[1] == t[0] && s[2] == t[1];
      }
    }
    if TripleFree(t) && !(c == '\n' && LeadingNewlines(t) >= 2) {
      forall i | 0 <= i && i + 2 < |s| ensures !(s[i] == '\n' && s[i + 1] == '\n' && s[i + 2] == '\n') {
        if i > 0 {
          assert s[i] == t[i - 1] && s[i + 1] == t[i] && s[i + 2] == t[i + 1];
        } else {
          assert s[1] == t[0] && s[2] == t[1];
        }
      }
    }
  }

  /** A text starts with two newlines exactly when its first two characters are
      newlines. */
  lemma LeadingNewlinesTwo(s: string)
    ensures LeadingNewlines(s) >= 2 <==> |s| >= 2 && s[0] == '\n' && s[1] == '\n'
  {
    if |s| >= 2 {
      assert s[1..][0] == s[1];
    }
  }

  /** A text with no run of three newlines starts with at most two. */
  lemma TripleFreeLeading(s: string)
    requires TripleFree(s)
    ensures LeadingNewlines(s) <= 2
  {
    if |s| >= 2 && s[0] == '\n' && s[1] == '\n' {
      assert s[1..][0] == '\n';
      assert s[1..][1..] == s[2..];
      if |s| >= 3 {
        assert s[2..][0] == s[2];
      }
      assert LeadingNewlines(s[2..]) == 0;
    }
  }

  lemma {:induction false} CollapseFromIdentity(s: string, run: nat)
    requires TripleFree(s) && LeadingNewlines(s) + run <= 2
    ensures CollapseFrom(s, run) == s
    decreases |s|
  {
    if |s| > 0 {
      assert TripleFree(s[1..]);
      if s[0] != '\n' {
        TripleFreeLeading(s[1..]);
      }
      CollapseFromIdentity(s[1..], if s[0] == '\n' then run + 1 else 0);
      assert s == [s[0]] + s[1..];
    }
  }

  lemma UnlinedCons(c: char, t: string)
    ensures Unlined([c] + t) == (if c == '\n' then "" else [c]) + Unlined(t)
  {
    assert ([c] + t)[1..] == t;
  }

  lemma {:induction false} CollapseFromUnlined(s: string, run: nat)
    ensures Unlined(CollapseFrom(s, run)) == Unlined(s)
    decreases |s|
  {
    if |s| > 0 {
      UnlinedCons(s[0], s[1..]);
      assert s == [s[0]] + s[1..];
      if s[0] == '\n' {
        var next := if run >= 2 then 2 else run + 1;
        CollapseFromUnlined(s[1..], next);
        if run < 2 {
          UnlinedCons('\n', CollapseFrom(s[1..], next));
        }
      } else {
        CollapseFromUnlined(s[1..], 0);
        UnlinedCons(s[0], CollapseFrom(s[1..], 0));
      }
    }
  }

  /** The collapse leaves no run of three newlines, changes only newlines, leaves a
      text alone exactly when it has no such run, and is idempotent. */
  lemma CollapseNewlinesSpec(s: string)
    ensures TripleFree(CollapseNewlines(s))
    ensures !Contains(CollapseNewlines(s), "\n\n\n")
    ensures Unlined(CollapseNewlines(s)) == Unlined(s)
    ensures CollapseNewlines(s) == s <==> TripleFree(s)
    ensures CollapseNewlines(CollapseNewlines(s)) == CollapseNewlines(s)
  {
    var r := CollapseNewlines(s);
    CollapseFromTripleFree(s, 0);
    CollapseFromUnlined(s, 0);
    TripleFreeLeading(r);
    CollapseFromIdentity(r, 0);
    if TripleFree(s) {
      TripleFreeLeading(s);
      CollapseFromIdentity(s, 0);
    }
    if Contains(r, "\n\n\n") {
      ContainsTriple(r);
    }
  }

  /** A text containing `"\n\n\n"` has a run of three newlines. */
  lemma ContainsTriple(s: string)
    requires Contains(s, "\n\n\n")
    ensures !TripleFree(s)
  {
    ContainsOccurs(s, "\n\n\n");
    var i :| OccursAt(s, "\n\n\n", i);
    assert s[i..i + 3][0] == s[i];
    assert s[i..i + 3][1] == s[i + 1];
    assert s[i..i + 3][2] == s[i + 2];
  }

  /** The rendered description never contains three newlines in a row, holds the
      same non-newline characters as the entries rendered in dict order, and is
      exactly that rendering whenever it has no such run. */
  lemma TransformDictToTextSpec(d: Dict<string, Section>)
    ensures !Contains(TransformDictToText(d), "\n\n\n")
    ensures Unlined(TransformDictToText(d)) == Unlined(RenderSections(d))
    ensures TripleFree(RenderSections(d)) ==> TransformDictToText(d) == RenderSections(d)
  {
    CollapseNewlinesSpec(RenderSections(d));
  }

  /** A flat section whose body is empty gets only two newlines after its
      headline, not three: the collapse reaches across entries. */
  lemma EmptyBodyCollapses()
    ensures TransformDictToText([("A", Flat(""))]) == "A:\n\n"
  {
    assert RenderSections([("A", Flat(""))]) == "A:\n\n\n";
    assert "A:\n\n\n"[1..] == ":\n\n\n";
    assert ":\n\n\n"[1..] == "\n\n\n";
    assert "\n\n\n"[1..] == "\n\n";
    assert "\n\n"[1..] == "\n";
  }

  // ---------------------------------------------------------------------------
  // process_description / process_description_per_row
  // ---------------------------------------------------------------------------

  /** Python's `str | bool` result: `False`, or a description text. */
  datatype Outcome = Rejected | Described(text: string)

  /** What the regular expressions report about one description: the e-mail
      matches in the raw text; and, in the text with addresses removed, whether
      each format marker occurs and what each headline `findall` returns. */
  datatype Matches = Matches(
    mailSpans: seq<Span>,
    format1: bool,
    format2: bool,
    headlines1: seq<(string, string)>,
    headlines2: seq<(string, string)>)

  const MinLength: nat := 150

  /** `process_description(description, use_min_length)`. */
  function ProcessDescription(description: string, useMinLength: bool, m: Matches,
                              fields: string -> seq<(string, string)>): (r: Outcome)
    requires ValidSpans(description, m.mailSpans)
    ensures var stripped := RemoveMailAddresses(description, m.mailSpans);
      && (r.Rejected? <==> !m.format1 && !m.format2 && useMinLength && |stripped| <= MinLength)
      && (!m.format1 && !m.format2 && r.Described? ==> r.text == stripped)
      && (m.format1 || m.format2 ==> r.Described? && !Contains(r.text, "\n\n\n"))
  {
    var stripped := RemoveMailAddresses(description, m.mailSpans);
    if m.format1 then
      TransformDictToTextSpec(ProcessHeadlines1(m.headlines1, fields));
      Described(TransformDictToText(ProcessHeadlines1(m.headlines1, fields)))
    else if m.format2 then
      TransformDictToTextSpec(ProcessHeadlines2(m.headlines2));
      Described(TransformDictToText(ProcessHeadlines2(m.headlines2)))
    else if useMinLength && |stripped| <= MinLength then Rejected
    else Described(stripped)
  }

  /** The first format wins when both markers occur. */
  lemma Format1First(description: string, useMinLength: bool, m: Matches, fields: string -> seq<(string, string)>)
    requires ValidSpans(description, m.mailSpans) && m.format1
    ensures ProcessDescription(description, useMinLength, m, fields)
      == Described(TransformDictToText(ProcessHeadlines1(m.headlines1, fields)))
  {
  }

  /** Without the first marker, the second format is parsed whatever the length. */
  lemma Format2Second(description: string, useMinLength: bool, m: Matches, fields: string -> seq<(string, string)>)
    requires ValidSpans(description, m.mailSpans) && !m.format1 && m.format2
    ensures ProcessDescription(description, useMinLength, m, fields)
      == Described(TransformDictToText(ProcessHeadlines2(m.headlines2)))
  {
  }

  /** Without the length threshold nothing is rejected. */
  lemma NoMinLengthNeverRejects(description: string, m: Matches, fields: string -> seq<(string, string)>)
    requires ValidSpans(description, m.mailSpans)
    ensures ProcessDescription(description, false, m, fields).Described?
  {
  }

  /** A row is a string-valued record; `row["description"]` raises `KeyError` when
      the column is missing. */
  function ProcessDescriptionPerRow(row: Dict<string, string>, m: Matches,
                                    fields: string -> seq<(string, string)>): (r: Result<Outcome>)
    requires forall d :: Get(row, "description") == Some(d) ==> ValidSpans(d, m.mailSpans)
    ensures r.Err? <==> "description" !in Keys(row)
  {
    match Get(row, "description")
    case None => Err("KeyError: description")
    case Some(description) =>
      var stripped := RemoveMailAddresses(description, m.mailSpans);
      if m.format1 then Ok(Described(TransformDictToText(ProcessHeadlines1(m.headlines1, fields))))
      else if m.format2 then Ok(Described(TransformDictToText(ProcessHeadlines2(m.headlines2))))
      else if |stripped| <= MinLength then Ok(Rejected)
      else Ok(Described(stripped))
  }

  /** The per-row variant is `process_description` with the threshold on. */
  lemma PerRowIsProcessDescription(row: Dict<string, string>, m: Matches, fields: string -> seq<(string, string)>)
    requires forall d :: Get(row, "description") == Some(d) ==> ValidSpans(d, m.mailSpans)
    requires "description" in Keys(row)
    ensures ProcessDescriptionPerRow(row, m, fields)
      == Ok(ProcessDescription(Get(row, "description").value, true, m, fields))
  {
  }
}
