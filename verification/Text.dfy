/** The handful of Python `str` operations the pipeline relies on: `isspace`,
    `strip`, `sep.join`, `startswith`, the `in` substring test, `lower` and `*`
    (repetition). Strings are `seq<char>`. */
module Text {

  /** Python's `str.isspace` for one character. */
  predicate IsSpace(c: char) {
    || ('\t' <= c <= '\r')
    || ('\U{1C}' <= c <= '\U{1F}')
    || c == ' '
    || c == '\U{85}'
    || c == '\U{A0}'
    || c == '\U{1680}'
    || ('\U{2000}' <= c <= '\U{200A}')
    || c == '\U{2028}'
    || c == '\U{2029}'
    || c == '\U{202F}'
    || c == '\U{205F}'
    || c == '\U{3000}'
  }

  predicate AllSpace(s: string) {
    forall i :: 0 <= i < |s| ==> IsSpace(s[i])
  }

  /** `s.lstrip()`: drops the longest all-whitespace prefix. */
  function TrimLeft(s: string): (r: string)
    ensures |r| <= |s| && r == s[|s| - |r|..]
    ensures AllSpace(s[..|s| - |r|])
    ensures r == [] || !IsSpace(r[0])
  {
    if |s| > 0 && IsSpace(s[0]) then
      var r := TrimLeft(s[1..]);
      assert r == s[1..][|s| - 1 - |r|..] == s[|s| - |r|..];
      assert AllSpace(s[..|s| - |r|]) by {
        forall i | 0 < i < |s| - |r| ensures IsSpace(s[i]) {
          assert s[i] == s[1..][..|s| - 1 - |r|][i - 1];
        }
      }
      r
    else s
  }

  /** `s.rstrip()`: drops the longest all-whitespace suffix. */
  function TrimRight(s: string): (r: string)
    ensures |r| <= |s| && r == s[..|r|]
    ensures AllSpace(s[|r|..])
    ensures r == [] || !IsSpace(r[|r| - 1])
  {
    if |s| > 0 && IsSpace(s[|s| - 1]) then
      var r := TrimRight(s[..|s| - 1]);
      assert s[|r|..] == s[..|s| - 1][|r|..] + [s[|s| - 1]];
      r
    else s
  }

  /** `s.strip()`. */
  function Strip(s: string): string {
    TrimRight(TrimLeft(s))
  }

  /** Whitespace in front of a string never survives `lstrip`. */
  lemma {:induction false} TrimLeftSpacePrefix(ws: string, s: string)
    requires AllSpace(ws)
    ensures TrimLeft(ws + s) == TrimLeft(s)
  {
    if ws != [] {
      assert (ws + s)[0] == ws[0] && IsSpace(ws[0]);
      assert (ws + s)[1..] == ws[1..] + s;
      assert AllSpace(ws[1..]) by {
        forall i | 0 <= i < |ws[1..]| ensures IsSpace(ws[1..][i]) {
          assert ws[1..][i] == ws[i + 1];
        }
      }
      TrimLeftSpacePrefix(ws[1..], s);
    } else {
      assert ws + s == s;
    }
  }

  /** Hence whitespace in front of a string never survives `strip`. */
  lemma StripSpacePrefix(ws: string, s: string)
    requires AllSpace(ws)
    ensures Strip(ws + s) == Strip(s)
  {
    TrimLeftSpacePrefix(ws, s);
  }

  /** `sep.join(parts)`. */
  function Join(sep: string, parts: seq<string>): string {
    if |parts| == 0 then ""
    else if |parts| == 1 then parts[0]
    else parts[0] + sep + Join(sep, parts[1..])
  }

  /** `"".join(parts)`. */
  function Concat(parts: seq<string>): string {
    Join("", parts)
  }

  /** `"".join` takes the first part and then the rest. */
  lemma ConcatCons(parts: seq<string>)
    requires |parts| > 0
    ensures Concat(parts) == parts[0] + Concat(parts[1..])
  {
    if |parts| == 1 {
      assert parts[0] + "" == parts[0];
    }
  }

  /** `"".join` distributes over concatenation of the part lists. */
  lemma {:induction false} ConcatAppend(a: seq<string>, b: seq<string>)
    ensures Concat(a + b) == Concat(a) + Concat(b)
  {
    if |a| == 0 {
      assert a + b == b;
    } else {
      ConcatCons(a + b);
      ConcatCons(a);
      assert (a + b)[1..] == a[1..] + b;
      ConcatAppend(a[1..], b);
    }
  }

  /** Every part occurs in the concatenation. */
  lemma ConcatContains(parts: seq<string>, i: nat)
    requires i < |parts|
    ensures Contains(Concat(parts), parts[i])
  {
    assert parts == parts[..i] + [parts[i]] + parts[i + 1..];
    ConcatAppend(parts[..i] + [parts[i]], parts[i + 1..]);
    ConcatAppend(parts[..i], [parts[i]]);
    ContainsMiddle(Concat(parts[..i]), parts[i], Concat(parts[i + 1..]));
  }

  /** Joining two non-empty runs of parts puts exactly one separator between them. */
  lemma {:induction false} JoinAppend(sep: string, a: seq<string>, b: seq<string>)
    requires |a| > 0 && |b| > 0
    ensures Join(sep, a + b) == Join(sep, a) + sep + Join(sep, b)
  {
    if |a| == 1 {
      assert (a + b)[1..] == b;
    } else {
      assert (a + b)[1..] == a[1..] + b;
      JoinAppend(sep, a[1..], b);
    }
  }

  /** Appending one part adds a separator and the part, or is the part alone. */
  lemma JoinSnoc(sep: string, a: seq<string>, x: string)
    ensures Join(sep, a + [x]) == if |a| == 0 then x else Join(sep, a) + sep + x
  {
    if |a| > 0 {
      JoinAppend(sep, a, [x]);
    } else {
      assert a + [x] == [x];
    }
  }

  /** Joining a run of parts first and then joining again with the same separator
      gives the same text as one join over all the parts. */
  lemma JoinNested(sep: string, p: seq<string>, b: seq<string>, q: seq<string>)
    requires |b| > 0
    ensures Join(sep, p + [Join(sep, b)] + q) == Join(sep, p + b + q)
  {
    if |p| > 0 && |q| > 0 {
      JoinAppend(sep, p, [Join(sep, b)]);
      JoinAppend(sep, p + [Join(sep, b)], q);
      JoinAppend(sep, p, b);
      JoinAppend(sep, p + b, q);
    } else if |p| > 0 {
      assert p + [Join(sep, b)] + q == p + [Join(sep, b)];
      assert p + b + q == p + b;
      JoinAppend(sep, p, [Join(sep, b)]);
      JoinAppend(sep, p, b);
    } else if |q| > 0 {
      assert p + [Join(sep, b)] + q == [Join(sep, b)] + q;
      assert p + b + q == b + q;
      JoinAppend(sep, [Join(sep, b)], q);
      JoinAppend(sep, b, q);
    } else {
      assert p + [Join(sep, b)] + q == [Join(sep, b)];
      assert p + b + q == b;
    }
  }

  predicate StartsWith(s: string, prefix: string) {
    |prefix| <= |s| && s[..|prefix|] == prefix
  }

  /** Python's `s.endswith(suffix)`. */
  predicate EndsWith(s: string, suffix: string) {
    |suffix| <= |s| && s[|s| - |suffix|..] == suffix
  }

  /** Python's `sub in s` (equivalently, `re.search` for a literal pattern). */
  predicate Contains(s: string, sub: string)
    decreases |s|
  {
    StartsWith(s, sub) || (|s| > 0 && Contains(s[1..], sub))
  }

  /** `Contains` holds exactly when `sub` occurs at some position of `s`. */
  lemma {:induction false} ContainsAt(s: string, sub: string, i: nat)
    requires i + |sub| <= |s| && s[i..i + |sub|] == sub
    ensures Contains(s, sub)
    decreases i
  {
    if i > 0 {
      assert s[1..][i - 1..i - 1 + |sub|] == s[i..i + |sub|];
      ContainsAt(s[1..], sub, i - 1);
    }
  }

  /** `sub` occurs in `s` at position `i`. */
  predicate OccursAt(s: string, sub: string, i: int) {
    0 <= i && i + |sub| <= |s| && s[i..i + |sub|] == sub
  }

  /** `Contains` holds only when `sub` occurs at some position of `s`. */
  lemma {:induction false} ContainsOccurs(s: string, sub: string)
    requires Contains(s, sub)
    ensures exists i :: OccursAt(s, sub, i)
    decreases |s|
  {
    if StartsWith(s, sub) {
      assert s[0..|sub|] == sub;
      assert OccursAt(s, sub, 0);
    } else {
      ContainsOccurs(s[1..], sub);
      var i :| OccursAt(s[1..], sub, i);
      assert s[i + 1..i + 1 + |sub|] == s[1..][i..i + |sub|];
      assert OccursAt(s, sub, i + 1);
    }
  }

  /** A non-empty pattern whose first character does not occur in `s`, or which is
      longer than `s`, is not contained in `s`. */
  lemma NotContains(s: string, sub: string)
    requires |s| < |sub| || (|sub| > 0 && sub[0] !in s)
    ensures !Contains(s, sub)
  {
    if Contains(s, sub) {
      ContainsOccurs(s, sub);
      assert false;
    }
  }

  /** A string contains each of its own substrings once surrounded by anything. */
  lemma ContainsMiddle(a: string, sub: string, b: string)
    ensures Contains(a + sub + b, sub)
  {
    assert (a + sub + b)[|a|..|a| + |sub|] == sub;
    ContainsAt(a + sub + b, sub, |a|);
  }

  /** Python's `str.lower` on the ASCII letters. */
  function LowerChar(c: char): char {
    if 'A' <= c <= 'Z' then (c as int - 'A' as int + 'a' as int) as char else c
  }

  function Lower(s: string): (r: string)
    ensures |r| == |s|
    ensures forall i :: 0 <= i < |s| ==> r[i] == LowerChar(s[i])
  {
    seq(|s|, i requires 0 <= i < |s| => LowerChar(s[i]))
  }

  /** Python's `c * n` for a one-character string `c`. */
  function Repeat(c: char, n: nat): (r: string)
    ensures |r| == n
    ensures forall i :: 0 <= i < n ==> r[i] == c
  {
    seq(n, _ => c)
  }
}
