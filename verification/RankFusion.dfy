/** What the statement built by `generate_sql_query` (src/coordinator/utils.py)
    asks the database to compute: the first 40 hits of the vector ranking and the
    first 40 of the full-text ranking are put together with `UNION ALL`, grouped by
    row, each row scored by the sum of `rrf_score(rank)` over its hits, and the
    best `limit` rows returned by descending score.

    `rrf_score` is a database function whose definition is not part of this model;
    it is a parameter. Rows are identified by their `id` (the grouping key; the
    other grouped columns are attributes of the row). Ties in score may be returned
    in any order by the database; the model fixes one order and states only what
    holds for every order. */
module RankFusion {

  import opened OrderedDict

  /** One row of a branch: the row id and its rank in that branch. */
  datatype Hit = Hit(id: int, rank: int)

  const BranchCap: nat := 40

  /** `LIMIT n`. */
  function Take<T>(s: seq<T>, n: nat): (r: seq<T>)
    ensures |r| == if |s| <= n then |s| else n
    ensures r <= s
  {
    if |s| <= n then s else s[..n]
  }

  /** The `UNION ALL` of the two capped branches. */
  function Union(vector: seq<Hit>, text: seq<Hit>): seq<Hit> {
    Take(vector, BranchCap) + Take(text, BranchCap)
  }

  /** `sum(rrf_score(rank))` over the hits of one row. */
  function Score(hits: seq<Hit>, id: int, rrf: int -> real): real {
    if |hits| == 0 then 0.0
    else Score(hits[..|hits| - 1], id, rrf) + (if hits[|hits| - 1].id == id then rrf(hits[|hits| - 1].rank) else 0.0)
  }

  /** Scores add up over `UNION ALL`. */
  lemma {:induction false} ScoreAppend(a: seq<Hit>, b: seq<Hit>, id: int, rrf: int -> real)
    ensures Score(a + b, id, rrf) == Score(a, id, rrf) + Score(b, id, rrf)
  {
    if |b| > 0 {
      assert (a + b)[..|a + b| - 1] == a + b[..|b| - 1];
      ScoreAppend(a, b[..|b| - 1], id, rrf);
    } else {
      assert a + b == a;
    }
  }

  /** The score of one hit. */
  lemma ScoreSingle(h: Hit, id: int, rrf: int -> real)
    ensures Score([h], id, rrf) == if h.id == id then rrf(h.rank) else 0.0
  {
    assert [h][..0] == [];
  }

  function Ids(hits: seq<Hit>): (r: seq<int>)
    ensures |r| == |hits|
    ensures forall i :: 0 <= i < |hits| ==> r[i] == hits[i].id
  {
    seq(|hits|, i requires 0 <= i < |hits| => hits[i].id)
  }

  /** A row that is not hit scores zero. */
  lemma {:induction false} ScoreAbsent(hits: seq<Hit>, id: int, rrf: int -> real)
    requires id !in Ids(hits)
    ensures Score(hits, id, rrf) == 0.0
  {
    if |hits| > 0 {
      assert Ids(hits[..|hits| - 1]) == Ids(hits)[..|hits| - 1];
      ScoreAbsent(hits[..|hits| - 1], id, rrf);
    }
  }

  /** A ranking of the table lists each row at most once. */
  predicate OncePerRow(hits: seq<Hit>) {
    forall i, j :: 0 <= i < j < |hits| ==> hits[i].id != hits[j].id
  }

  /** Every hit of row `id` in `hits` has rank at least `rank`. */
  predicate RankedNoBetter(hits: seq<Hit>, id: int, rank: int) {
    forall h :: h in hits && h.id == id ==> h.rank >= rank
  }

  ghost predicate Positive(rrf: int -> real) {
    forall r :: rrf(r) > 0.0
  }

  /** A better (smaller) rank never fuses to a smaller value. */
  ghost predicate NonIncreasing(rrf: int -> real) {
    forall a, b :: a <= b ==> rrf(b) <= rrf(a)
  }

  lemma {:induction false} ScoreNonNegative(hits: seq<Hit>, id: int, rrf: int -> real)
    requires Positive(rrf)
    ensures Score(hits, id, rrf) >= 0.0
  {
    if |hits| > 0 {
      ScoreNonNegative(hits[..|hits| - 1], id, rrf);
    }
  }

  /** A row scores at least the fused value of each of its hits. */
  lemma {:induction false} ScoreAtLeast(hits: seq<Hit>, id: int, rrf: int -> real, k: nat)
    requires Positive(rrf)
    requires k < |hits| && hits[k].id == id
    ensures Score(hits, id, rrf) >= rrf(hits[k].rank)
  {
    var init := hits[..|hits| - 1];
    if k == |hits| - 1 {
      ScoreNonNegative(init, id, rrf);
    } else {
      assert init[k] == hits[k];
      ScoreAtLeast(init, id, rrf, k);
    }
  }

  /** In a ranking that lists each row once, a row scores at most `bound` when
      each of its hits fuses to at most `bound`. */
  lemma {:induction false} ScoreAtMost(hits: seq<Hit>, id: int, rrf: int -> real, bound: real)
    requires OncePerRow(hits) && bound >= 0.0
    requires forall h :: h in hits && h.id == id ==> rrf(h.rank) <= bound
    ensures Score(hits, id, rrf) <= bound
  {
    if |hits| > 0 {
      var init := hits[..|hits| - 1];
      var last := hits[|hits| - 1];
      assert last in hits;
      if last.id == id {
        forall k | 0 <= k < |init| ensures Ids(init)[k] != id {
          assert init[k] == hits[k];
        }
        ScoreAbsent(init, id, rrf);
      } else {
        assert forall h :: h in init ==> h in hits;
        ScoreAtMost(init, id, rrf, bound);
      }
    }
  }

  /** One side of the comparison: `x` has hits at `xa` in `found` and somewhere in
      `other`; `y` is missing from `other` and ranked no better than `x` in
      `found`. */
  lemma FoundByBothWins(found: seq<Hit>, other: seq<Hit>, x: int, y: int, xa: nat, xb: nat, rrf: int -> real)
    requires Positive(rrf) && NonIncreasing(rrf) && OncePerRow(found)
    requires xa < |found| && found[xa].id == x && xb < |other| && other[xb].id == x
    requires y !in Ids(other) && RankedNoBetter(found, y, found[xa].rank)
    ensures Score(found, x, rrf) + Score(other, x, rrf) > Score(found, y, rrf) + Score(other, y, rrf)
  {
    ScoreAtLeast(found, x, rrf, xa);
    ScoreAtLeast(other, x, rrf, xb);
    ScoreAbsent(other, y, rrf);
    ScoreAtMost(found, y, rrf, rrf(found[xa].rank));
  }

  /** With a positive fusion function that does not grow with rank, a row found by
      both capped branches outscores a row found by only one of them at a rank no
      better than the first row's rank in that branch. */
  lemma BothBranchesWin(vector: seq<Hit>, text: seq<Hit>, x: int, y: int, xa: nat, xb: nat, rrf: int -> real)
    requires Positive(rrf) && NonIncreasing(rrf)
    requires OncePerRow(Take(vector, BranchCap)) && OncePerRow(Take(text, BranchCap))
    requires xa < |Take(vector, BranchCap)| && Take(vector, BranchCap)[xa].id == x
    requires xb < |Take(text, BranchCap)| && Take(text, BranchCap)[xb].id == x
    requires (y !in Ids(Take(text, BranchCap)) && RankedNoBetter(Take(vector, BranchCap), y, Take(vector, BranchCap)[xa].rank))
          || (y !in Ids(Take(vector, BranchCap)) && RankedNoBetter(Take(text, BranchCap), y, Take(text, BranchCap)[xb].rank))
    ensures Score(Union(vector, text), x, rrf) > Score(Union(vector, text), y, rrf)
  {
    var v, t := Take(vector, BranchCap), Take(text, BranchCap);
    ScoreAppend(v, t, x, rrf);
    ScoreAppend(v, t, y, rrf);
    if y !in Ids(t) && RankedNoBetter(v, y, v[xa].rank) {
      FoundByBothWins(v, t, x, y, xa, xb, rrf);
    } else {
      FoundByBothWins(t, v, x, y, xb, xa, rrf);
    }
  }

  // ---------------------------------------------------------------------------
  // Ordering by score
  // ---------------------------------------------------------------------------

  predicate SortedDesc(l: seq<int>, f: int -> real) {
    forall i, j :: 0 <= i < j < |l| ==> f(l[i]) >= f(l[j])
  }

  /** Inserts `x` before the first element with a smaller score. */
  function Insert(x: int, l: seq<int>, f: int -> real): (r: seq<int>)
    ensures multiset(r) == multiset(l) + multiset{x}
  {
    if |l| == 0 then [x]
    else if f(x) >= f(l[0]) then [x] + l
    else
      assert l == [l[0]] + l[1..];
      [l[0]] + Insert(x, l[1..], f)
  }

  /** Inserting into a sorted list keeps it sorted. */
  lemma {:induction false} InsertSorted(x: int, l: seq<int>, f: int -> real)
    requires SortedDesc(l, f)
    ensures SortedDesc(Insert(x, l, f), f)
  {
    if |l| > 0 && f(x) < f(l[0]) {
      var rest := Insert(x, l[1..], f);
      InsertSorted(x, l[1..], f);
      forall k | 0 <= k < |rest| ensures f(l[0]) >= f(rest[k]) {
        assert rest[k] in multiset(rest);
        if rest[k] != x {
          assert rest[k] in multiset(l[1..]);
          var m :| 0 <= m < |l[1..]| && l[1..][m] == rest[k];
          assert l[m + 1] == rest[k];
        }
      }
    }
  }

  /** `ORDER BY score DESC`, with ties in input order reversed. */
  function SortByScore(l: seq<int>, f: int -> real): (r: seq<int>)
    ensures multiset(r) == multiset(l)
    ensures SortedDesc(r, f)
  {
    if |l| == 0 then []
    else
      assert l == l[..|l| - 1] + [l[|l| - 1]];
      var sorted := SortByScore(l[..|l| - 1], f);
      InsertSorted(l[|l| - 1], sorted, f);
      Insert(l[|l| - 1], sorted, f)
  }

  /** The rows of the result, best first. */
  function Fuse(vector: seq<Hit>, text: seq<Hit>, limit: nat, rrf: int -> real): seq<int> {
    var u := Union(vector, text);
    Take(SortByScore(Dedup(Ids(u)), id => Score(u, id, rrf)), limit)
  }

  /** The result lists distinct rows found by either capped branch, best score
      first; it has `limit` rows or every row found; and no row left out scores
      higher than a row returned. */
  lemma FuseSpec(vector: seq<Hit>, text: seq<Hit>, limit: nat, rrf: int -> real)
    ensures var u := Union(vector, text);
      var r := Fuse(vector, text, limit, rrf);
      var score := id => Score(u, id, rrf);
      && Distinct(r)
      && (forall i :: 0 <= i < |r| ==> r[i] in Ids(u))
      && SortedDesc(r, score)
      && |r| == (if |Dedup(Ids(u))| <= limit then |Dedup(Ids(u))| else limit)
      && forall id :: id in Ids(u) && id !in r ==> forall i :: 0 <= i < |r| ==> score(r[i]) >= score(id)
  {
    var u := Union(vector, text);
    var score := id => Score(u, id, rrf);
    var c := Dedup(Ids(u));
    DedupElements(Ids(u));
    var s := SortByScore(c, score);
    DistinctPermutation(c, s);
    TakeSorted(s, limit, score);
    forall id | id in Ids(u) ensures id in s {
      assert id in multiset(c);
    }
    forall id | id in s ensures id in Ids(u) {
      assert id in multiset(s);
    }
  }

  /** The first `n` of a list sorted best first, without repetitions, are
      distinct, sorted, and no worse than any element not taken. */
  lemma TakeSorted(s: seq<int>, n: nat, f: int -> real)
    requires Distinct(s) && SortedDesc(s, f)
    ensures var r := Take(s, n);
      && Distinct(r) && SortedDesc(r, f)
      && (forall i :: 0 <= i < |r| ==> r[i] in s)
      && forall id :: id in s && id !in r ==> forall i :: 0 <= i < |r| ==> f(r[i]) >= f(id)
  {
    var r := Take(s, n);
    forall id | id in s && id !in r
      ensures forall i :: 0 <= i < |r| ==> f(r[i]) >= f(id)
    {
      var j :| 0 <= j < |s| && s[j] == id;
      forall i | 0 <= i < |r| ensures f(r[i]) >= f(id) {
        assert r[i] == s[i];
      }
    }
  }

  /** A reordering of a list without repetitions has none. */
  lemma DistinctPermutation(a: seq<int>, b: seq<int>)
    requires Distinct(a) && multiset(a) == multiset(b)
    ensures Distinct(b)
  {
    forall i, j | 0 <= i < j < |b| ensures b[i] != b[j] {
      if b[i] == b[j] {
        assert multiset(b)[b[i]] >= 2 by {
          assert b == b[..i] + [b[i]] + b[i + 1..];
          assert b[j] in b[i + 1..];
          assert multiset(b[i + 1..])[b[i]] >= 1;
        }
        DistinctCount(a, b[i]);
      }
    }
  }

  lemma {:induction false} DistinctCount(a: seq<int>, x: int)
    requires Distinct(a)
    ensures multiset(a)[x] <= 1
  {
    if |a| > 0 {
      var init := a[..|a| - 1];
      assert a == init + [a[|a| - 1]];
      assert Distinct(init);
      DistinctCount(init, x);
      if x == a[|a| - 1] {
        assert x !in init;
      }
    }
  }
}
