/** `determine_relevancy` (src/ingestor/utils.py): a manual is relevant when its
    `contentType`, or one of its `cat<digits>_name` fields, is a string that
    mentions one of six service keywords, in any letter case. */
module Relevancy {

  import opened Wrappers
  import opened Text
  import opened Decimal
  import opened OrderedDict

  /** A metadata value: a string, a list of strings (the download format gives
      `cat*_name` fields as lists), or anything else (numbers, `None`, ...). */
  datatype MetaValue = Str(s: string) | StrList(items: seq<string>) | OtherValue

  type Metadata = Dict<string, MetaValue>

  const Keywords: seq<string> :=
    ["maintenance", "repair", "troubleshooting", "service", "diagnostics", "troubleshoot"]

  const ContentType: string := "contentType"

  // ---------------------------------------------------------------------------
  // The key pattern `cat\d*_name`, searched anywhere in the key
  // ---------------------------------------------------------------------------

  /** `s` starts with `\d*_name`. */
  predicate DigitsThenName(s: string)
    decreases |s|
  {
    StartsWith(s, "_name") || (|s| > 0 && IsDigit(s[0]) && DigitsThenName(s[1..]))
  }

  /** `re.search(r"cat\d*_name", key)` succeeds. */
  predicate CatName(key: string)
    decreases |key|
  {
    (StartsWith(key, "cat") && DigitsThenName(key[3..])) || (|key| > 0 && CatName(key[1..]))
  }

  /** A match of `cat\d*_name` in `key` at position `i` whose digits end at `j`. */
  predicate MatchAt(key: string, i: int, j: int) {
    0 <= i && i + 3 <= j && j + 5 <= |key|
    && key[i..i + 3] == "cat" && AllDigits(key[i + 3..j]) && key[j..j + 5] == "_name"
  }

  /** `_name` after `j` digits at the start of `s`. */
  predicate NameAfter(s: string, j: int) {
    0 <= j && j + 5 <= |s| && AllDigits(s[..j]) && s[j..j + 5] == "_name"
  }

  lemma {:induction false} DigitsThenNameSpec(s: string)
    ensures DigitsThenName(s) <==> exists j :: NameAfter(s, j)
    decreases |s|
  {
    assert NameAfter(s, 0) ==> StartsWith(s, "_name");
    forall j | NameAfter(s, j) && j > 0 ensures IsDigit(s[0]) {
      assert s[..j][0] == s[0];
    }
    if StartsWith(s, "_name") {
      assert NameAfter(s, 0);
    } else if |s| > 0 && IsDigit(s[0]) {
      DigitsThenNameSpec(s[1..]);
      if DigitsThenName(s[1..]) {
        var j :| NameAfter(s[1..], j);
        assert s[..j + 1] == [s[0]] + s[1..][..j];
        assert s[j + 1..j + 6] == s[1..][j..j + 5];
        assert NameAfter(s, j + 1);
      }
      if j :| NameAfter(s, j) && j > 0 {
        assert s[1..][..j - 1] == s[1..j];
        assert s[1..][j - 1..j + 4] == s[j..j + 5];
        assert NameAfter(s[1..], j - 1);
      }
    }
  }

  /** A match at position `i` is found by the recursive search. */
  lemma {:induction false} CatNameAt(key: string, i: nat, j: int)
    requires MatchAt(key, i, j)
    ensures CatName(key)
    decreases i
  {
    if i == 0 {
      assert key[3..][..j - 3] == key[3..j];
      assert key[3..][j - 3..j + 2] == key[j..j + 5];
      assert NameAfter(key[3..], j - 3);
      DigitsThenNameSpec(key[3..]);
      assert StartsWith(key, "cat");
    } else {
      assert key[1..][i - 1..i + 2] == key[i..i + 3];
      assert key[1..][i + 2..j - 1] == key[i + 3..j];
      assert key[1..][j - 1..j + 4] == key[j..j + 5];
      CatNameAt(key[1..], i - 1, j - 1);
    }
  }

  lemma SliceOfTail(key: string, a: int, b: int)
    requires 0 <= a <= b <= |key| - 1
    ensures key[1..][a..b] == key[a + 1..b + 1]
  {
  }

  /** What the recursive search finds is a match. */
  lemma {:induction false} CatNameMatch(key: string)
    requires CatName(key)
    ensures exists i, j :: MatchAt(key, i, j)
    decreases |key|
  {
    if StartsWith(key, "cat") && DigitsThenName(key[3..]) {
      DigitsThenNameSpec(key[3..]);
      var j :| NameAfter(key[3..], j);
      assert key[3..][..j] == key[3..j + 3];
      assert key[3..][j..j + 5] == key[j + 3..j + 8];
      assert MatchAt(key, 0, j + 3);
    } else {
      CatNameMatch(key[1..]);
      var i, j :| MatchAt(key[1..], i, j);
      SliceOfTail(key, i, i + 3);
      SliceOfTail(key, i + 3, j);
      SliceOfTail(key, j, j + 5);
      assert MatchAt(key, i + 1, j + 1);
    }
  }

  /** The recursive search agrees with "there is a match somewhere". */
  lemma CatNameSpec(key: string)
    ensures CatName(key) <==> exists i, j :: MatchAt(key, i, j)
  {
    if CatName(key) {
      CatNameMatch(key);
    }
    if i, j :| MatchAt(key, i, j) {
      CatNameAt(key, i, j);
    }
  }

  // ---------------------------------------------------------------------------
  // The classifier
  // ---------------------------------------------------------------------------

  /** `["contentType"] + [key for key in manual.keys() if re.search(...)]`. */
  function RelevantFields(manual: Metadata): (fields: seq<string>)
    ensures |fields| >= 1 && fields[0] == ContentType
    ensures forall f :: f in fields[1..] <==> f in Keys(manual) && CatName(f)
  {
    [ContentType] + CatKeys(Keys(manual))
  }

  function CatKeys(keys: seq<string>): (r: seq<string>)
    ensures forall f :: f in r <==> f in keys && CatName(f)
  {
    if |keys| == 0 then []
    else (if CatName(keys[0]) then [keys[0]] else []) + CatKeys(keys[1..])
  }

  /** `isinstance(value, str) and any(keyword in value.lower() for ...)`. */
  predicate Mentions(value: Option<MetaValue>) {
    value.Some? && value.value.Str?
    && exists k :: 0 <= k < |Keywords| && Contains(Lower(value.value.s), Keywords[k])
  }

  /** Some examined field holds a string mentioning a keyword. */
  predicate Relevant(manual: Metadata) {
    exists f :: f in RelevantFields(manual) && Mentions(Get(manual, f))
  }

  /** `for x in xs: if p(x): return True`, then `return False`. */
  method Any<T>(xs: seq<T>, p: T -> bool) returns (found: bool)
    ensures found <==> exists x :: x in xs && p(x)
  {
    var i := 0;
    while i < |xs|
      invariant 0 <= i <= |xs|
      invariant forall k :: 0 <= k < i ==> !p(xs[k])
    {
      if p(xs[i]) {
        assert xs[i] in xs;
        return true;
      }
      i := i + 1;
    }
    return false;
  }

  /** The loop over the examined fields, returning at the first relevant one. */
  method DetermineRelevancy(manual: Metadata) returns (relevant: bool)
    ensures relevant <==> Relevant(manual)
  {
    relevant := Any(RelevantFields(manual), f => Mentions(Get(manual, f)));
  }

  /** The manual's keys holding a `cat<digits>_name` match and a keyword. */
  ghost predicate CatFieldMentions(manual: Metadata) {
    exists key :: key in Keys(manual) && (exists i, j :: MatchAt(key, i, j)) && Mentions(Get(manual, key))
  }

  /** The classifier in terms of the manual alone: `contentType`, or some key
      containing `cat<digits>_name`, holds a string mentioning a keyword. */
  lemma RelevancySpec(manual: Metadata)
    ensures Relevant(manual) <==> Mentions(Get(manual, ContentType)) || CatFieldMentions(manual)
  {
    if Relevant(manual) && !Mentions(Get(manual, ContentType)) {
      RelevantOnlyIf(manual);
    }
    if CatFieldMentions(manual) {
      RelevantIf(manual);
    }
  }

  lemma RelevantOnlyIf(manual: Metadata)
    requires Relevant(manual) && !Mentions(Get(manual, ContentType))
    ensures CatFieldMentions(manual)
  {
    var fields := RelevantFields(manual);
    var f :| f in fields && Mentions(Get(manual, f));
    assert f != ContentType;
    assert f in fields[1..] by { assert fields == [fields[0]] + fields[1..]; }
    CatNameMatch(f);
  }

  lemma RelevantIf(manual: Metadata)
    requires CatFieldMentions(manual)
    ensures Relevant(manual)
  {
    var key :| key in Keys(manual) && (exists i, j :: MatchAt(key, i, j)) && Mentions(Get(manual, key));
    var i, j :| MatchAt(key, i, j);
    CatNameAt(key, i, j);
    var fields := RelevantFields(manual);
    assert key in fields[1..];
    assert key in fields;
  }

  /** A metadata dict without entries is never relevant. */
  lemma EmptyNotRelevant()
    ensures !Relevant([])
  {
  }

  /** Only string values count: a value that is not a string (a list, a number,
      `None`) can be changed to anything else that is not a string without
      changing the verdict. */
  lemma NonStringIgnored(manual: Metadata, i: nat, v: MetaValue)
    requires i < |manual| && !manual[i].1.Str? && !v.Str?
    ensures var manual' := manual[i := (manual[i].0, v)];
      Relevant(manual)
      <==> Relevant(manual')
  {
    var manual' := manual[i := (manual[i].0, v)];
    assert Keys(manual') == Keys(manual);
    assert RelevantFields(manual') == RelevantFields(manual);
    if Relevant(manual) {
      var f :| f in RelevantFields(manual) && Mentions(Get(manual, f));
      GetReplace(manual, i, v, f);
      assert f in RelevantFields(manual') && Mentions(Get(manual', f));
    }
    if Relevant(manual') {
      var f :| f in RelevantFields(manual') && Mentions(Get(manual', f));
      GetReplace(manual, i, v, f);
      assert f in RelevantFields(manual) && Mentions(Get(manual, f));
    }
  }

  /** Replacing the value at position `i` by another one that is not a string
      changes no string lookup. */
  lemma {:induction false} GetReplace(d: Metadata, i: nat, v: MetaValue, f: string)
    requires i < |d| && !d[i].1.Str? && !v.Str?
    ensures var r := Get(d[i := (d[i].0, v)], f);
      var q := Get(d, f);
      (r.Some? && r.value.Str?) <==> (q.Some? && q.value.Str?)
    ensures var r := Get(d[i := (d[i].0, v)], f);
      var q := Get(d, f);
      r.Some? && r.value.Str? ==> r == q
    ensures var r := Get(d[i := (d[i].0, v)], f);
      var q := Get(d, f);
      q.Some? && q.value.Str? ==> r == q
  {
    if i > 0 {
      assert d[i := (d[i].0, v)][1..] == d[1..][i - 1 := (d[i].0, v)];
      GetReplace(d[1..], i - 1, v, f);
    }
  }

  /** Lowering the letters twice is lowering them once. */
  lemma LowerTwice(s: string)
    ensures Lower(Lower(s)) == Lower(s)
  {
    assert forall i :: 0 <= i < |s| ==> Lower(Lower(s))[i] == Lower(s)[i];
  }

  /** The keyword test is insensitive to the letter case of the value: a string
      mentions a keyword exactly when its lower-cased form does, so `Repair` counts
      as `repair`. */
  lemma UpperCaseKeyword(s: string)
    ensures Mentions(Some(Str(s))) <==> Mentions(Some(Str(Lower(s))))
    ensures Mentions(Some(Str("Repair")))
  {
    LowerTwice(s);
    assert Lower("Repair") == "repair";
    assert StartsWith("repair", Keywords[1]);
  }

  /** List-valued category fields are examined but never count, whatever they
      contain. */
  lemma ListValuedCategoryIgnored(items: seq<string>)
    ensures CatName("cat1_name")
    ensures !Mentions(Get([("cat1_name", StrList(items))], "cat1_name"))
  {
    assert StartsWith("cat1_name", "cat");
    assert "cat1_name"[3..] == "1_name";
    assert "1_name"[1..] == "_name";
    assert StartsWith("_name", "_name");
  }
}
