/** `elements_to_text` (src/ingestor/html_util.py): the HTML counterpart of the PDF
    linearizer. Elements come from the HTML partitioner as a typed stream; titles
    become Markdown headings, consecutive list items are buffered as `"- " + text`
    and emitted as one newline-joined piece, everything else is kept verbatim, and
    the pieces are joined by newlines and stripped. */
module HtmlLinearizer {

  import opened Text

  datatype Element =
    | Title(depth: nat, text: string)      // type "Title", metadata.category_depth
    | Narrative(text: string)              // type "NarrativeText"
    | ListItem(text: string)               // type "ListItem"
    | OtherElement(text: string)           // any other type

  /** The loop variables `text` and `current_list`. (`in_list` is assigned but never
      read, so it is not kept.) */
  datatype State = State(pieces: seq<string>, buffer: seq<string>)

  /** `"#" * (category_depth + 1) + " "`. */
  function TitleMarker(depth: nat): (m: string)
    ensures |m| == depth + 2 && m[depth + 1] == ' '
    ensures forall i :: 0 <= i <= depth ==> m[i] == '#'
  {
    Repeat('#', depth + 1) + " "
  }

  /** The pending list lines, if any, appended as one newline-joined piece. */
  function Close(s: State): seq<string> {
    if s.buffer != [] then s.pieces + [Join("\n", s.buffer)] else s.pieces
  }

  /** One iteration of the element loop. */
  function Step(s: State, e: Element): State {
    match e
    case ListItem(t) => s.(buffer := s.buffer + ["- " + t])
    case Title(d, t) => State(Close(s) + [TitleMarker(d) + t], [])
    case Narrative(t) => State(Close(s) + [t], [])
    case OtherElement(t) => State(Close(s) + [t], [])
  }

  function Run(els: seq<Element>): State {
    if |els| == 0 then State([], []) else Step(Run(els[..|els| - 1]), els[|els| - 1])
  }

  /** `elements_to_text(html_elements)`. */
  function ElementsToText(els: seq<Element>): string {
    Strip(Join("\n", Close(Run(els))))
  }

  /** Each element on its own: the line(s) it contributes. */
  function Render(e: Element): string {
    match e
    case Title(d, t) => TitleMarker(d) + t
    case Narrative(t) => t
    case ListItem(t) => "- " + t
    case OtherElement(t) => t
  }

  function Renders(els: seq<Element>): (r: seq<string>)
    ensures |r| == |els|
    ensures forall i :: 0 <= i < |els| ==> r[i] == Render(els[i])
  {
    if |els| == 0 then [] else Renders(els[..|els| - 1]) + [Render(els[|els| - 1])]
  }

  /** Closing the pending list joins the same lines as leaving them separate. */
  lemma CloseFlat(s: State)
    ensures Join("\n", Close(s)) == Join("\n", s.pieces + s.buffer)
    ensures |Close(s)| == 0 <==> |s.pieces + s.buffer| == 0
  {
    if s.buffer != [] {
      JoinNested("\n", s.pieces, s.buffer, []);
      assert s.pieces + [Join("\n", s.buffer)] + [] == Close(s);
      assert s.pieces + s.buffer + [] == s.pieces + s.buffer;
    } else {
      assert s.pieces + s.buffer == s.pieces;
    }
  }

  /** One step adds the element's own rendering as a new line. */
  lemma StepRender(s: State, e: Element)
    ensures |Close(Step(s, e))| > 0
    ensures Join("\n", Close(Step(s, e)))
         == if |Close(s)| == 0 then Render(e) else Join("\n", Close(s)) + "\n" + Render(e)
  {
    var x := Render(e);
    CloseFlat(s);
    if e.ListItem? {
      var t := Step(s, e);
      assert t.pieces + t.buffer == (s.pieces + s.buffer) + [x];
      CloseFlat(t);
      JoinSnoc("\n", s.pieces + s.buffer, x);
    } else {
      assert Close(Step(s, e)) == Close(s) + [x];
      JoinSnoc("\n", Close(s), x);
    }
  }

  lemma {:induction false} RunRenders(els: seq<Element>)
    ensures Join("\n", Close(Run(els))) == Join("\n", Renders(els))
    ensures |Close(Run(els))| > 0 <==> |els| > 0
  {
    if |els| > 0 {
      var init := els[..|els| - 1];
      var e := els[|els| - 1];
      RunRenders(init);
      assert Renders(els) == Renders(init) + [Render(e)];
      JoinSnoc("\n", Renders(init), Render(e));
      StepRender(Run(init), e);
    }
  }

  /** The buffering of list items is invisible in the result: the text is every
      element's own rendering, in input order, joined by newlines and stripped. */
  lemma ElementsToTextSpec(els: seq<Element>)
    ensures ElementsToText(els) == Strip(Join("\n", Renders(els)))
  {
    RunRenders(els);
  }

  /** No elements give the empty string. */
  lemma EmptyElements()
    ensures ElementsToText([]) == ""
  {
  }
}
