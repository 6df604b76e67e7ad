/** The unit passed from the PDF linearizer to the chunker: a piece of Markdown-like
    text and the page it came from (`Tuple[str, int]` in the source). */
module Segments {

  datatype Segment = Segment(text: string, page: int)

  /** The pages the segments carry. */
  function PagesOf(segs: seq<Segment>): set<int> {
    set i | 0 <= i < |segs| :: segs[i].page
  }

  /** The length of the longest segment text. */
  function Longest(segs: seq<Segment>): (m: nat)
    ensures forall i :: 0 <= i < |segs| ==> |segs[i].text| <= m
  {
    if |segs| == 0 then 0
    else
      var m := Longest(segs[..|segs| - 1]);
      var n := |segs[|segs| - 1].text|;
      if n > m then n else m
  }
}
