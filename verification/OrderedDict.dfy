/** Python's `dict`: an association list whose keys are pairwise distinct and kept
    in first-insertion order. Writing an existing key replaces its value in place;
    writing a new key appends it. `FromPairs` is `dict(pairs)`, equivalently a
    sequence of `d[k] = v` writes starting from `{}`. */
module OrderedDict {

  import opened Wrappers

  type Dict<K, V> = seq<(K, V)>

  function Keys<K, V>(d: Dict<K, V>): (ks: seq<K>)
    ensures |ks| == |d|
    ensures forall i :: 0 <= i < |d| ==> ks[i] == d[i].0
  {
    if |d| == 0 then [] else [d[0].0] + Keys(d[1..])
  }

  predicate Distinct<K(==)>(ks: seq<K>) {
    forall i, j :: 0 <= i < j < |ks| ==> ks[i] != ks[j]
  }

  predicate Valid<K(==), V>(d: Dict<K, V>) {
    Distinct(Keys(d))
  }

  /** `d.get(k)`. */
  function Get<K(==), V>(d: Dict<K, V>, k: K): (r: Option<V>)
    ensures r.Some? <==> k in Keys(d)
  {
    if |d| == 0 then None
    else if d[0].0 == k then Some(d[0].1)
    else Get(d[1..], k)
  }

  /** `d[k] = v`. */
  function Put<K(==,!new), V>(d: Dict<K, V>, k: K, v: V): (r: Dict<K, V>)
    ensures Keys(r) == if k in Keys(d) then Keys(d) else Keys(d) + [k]
    ensures Get(r, k) == Some(v)
    ensures forall k' :: k' != k ==> Get(r, k') == Get(d, k')
  {
    if |d| == 0 then [(k, v)]
    else if d[0].0 == k then
      assert Keys([(k, v)] + d[1..]) == [k] + Keys(d[1..]);
      [(k, v)] + d[1..]
    else
      var rest := Put(d[1..], k, v);
      assert Keys([d[0]] + rest) == [d[0].0] + Keys(rest);
      assert Keys(d) == [d[0].0] + Keys(d[1..]);
      [d[0]] + rest
  }

  /** Writing keeps the keys pairwise distinct. */
  lemma PutValid<K(!new), V>(d: Dict<K, V>, k: K, v: V)
    requires Valid(d)
    ensures Valid(Put(d, k, v))
  {
  }

  /** `dict(pairs)`: the pairs written one after another into an empty dict. */
  function FromPairs<K(==,!new), V>(ps: seq<(K, V)>): Dict<K, V> {
    if |ps| == 0 then [] else Put(FromPairs(ps[..|ps| - 1]), ps[|ps| - 1].0, ps[|ps| - 1].1)
  }

  /** The value written last for `k`, if any. */
  function LastValue<K(==), V>(ps: seq<(K, V)>, k: K): Option<V> {
    if |ps| == 0 then None
    else if ps[|ps| - 1].0 == k then Some(ps[|ps| - 1].1)
    else LastValue(ps[..|ps| - 1], k)
  }

  /** The keys of `ks` with repetitions removed, each at its first occurrence. */
  function Dedup<K(==)>(ks: seq<K>): seq<K> {
    if |ks| == 0 then []
    else if ks[|ks| - 1] in Dedup(ks[..|ks| - 1]) then Dedup(ks[..|ks| - 1])
    else Dedup(ks[..|ks| - 1]) + [ks[|ks| - 1]]
  }

  lemma {:induction false} DedupElements<K>(ks: seq<K>)
    ensures forall k :: k in Dedup(ks) <==> k in ks
    ensures Distinct(Dedup(ks))
  {
    if |ks| > 0 {
      var init := ks[..|ks| - 1];
      DedupElements(init);
      assert ks == init + [ks[|ks| - 1]];
    }
  }

  /** `dict(pairs)` has pairwise distinct keys; its keys are the written keys in
      first-write order; each key carries the value written last for it. */
  lemma {:induction false} FromPairsSpec<K(!new), V>(ps: seq<(K, V)>)
    ensures Valid(FromPairs(ps))
    ensures Keys(FromPairs(ps)) == Dedup(Keys(ps))
    ensures forall k :: Get(FromPairs(ps), k) == LastValue(ps, k)
  {
    if |ps| > 0 {
      var init := ps[..|ps| - 1];
      FromPairsSpec(init);
      PutValid(FromPairs(init), ps[|ps| - 1].0, ps[|ps| - 1].1);
      assert Keys(ps)[..|ps| - 1] == Keys(init);
    }
  }

  /** Every written key is present, and only written keys are. */
  lemma FromPairsKeys<K(!new), V>(ps: seq<(K, V)>, k: K)
    ensures k in Keys(FromPairs(ps)) <==> exists i :: 0 <= i < |ps| && ps[i].0 == k
  {
    FromPairsSpec(ps);
    DedupElements(Keys(ps));
    if k in Keys(ps) {
      var i :| 0 <= i < |ps| && Keys(ps)[i] == k;
      assert ps[i].0 == k;
    }
  }

  /** In a dict with distinct keys, looking up the key stored at position `i` gives
      the value stored there. */
  lemma {:induction false} GetAt<K, V>(d: Dict<K, V>, i: nat)
    requires Valid(d) && i < |d|
    ensures Get(d, d[i].0) == Some(d[i].1)
  {
    if i > 0 {
      assert Keys(d)[0] != Keys(d)[i];
      assert Keys(d[1..]) == Keys(d)[1..];
      GetAt(d[1..], i - 1);
    }
  }

  /** The last value written for a key was written together with that key. */
  lemma {:induction false} LastValueWritten<K, V>(ps: seq<(K, V)>, k: K)
    requires LastValue(ps, k).Some?
    ensures (k, LastValue(ps, k).value) in ps
  {
    if ps[|ps| - 1].0 != k {
      LastValueWritten(ps[..|ps| - 1], k);
      assert ps[..|ps| - 1] <= ps;
    }
  }

  /** Applies `f` to every value, keeping keys and their order. */
  function MapValues<K, V, W>(d: Dict<K, V>, f: (K, V) -> W): (r: Dict<K, W>)
    ensures Keys(r) == Keys(d)
    ensures forall i :: 0 <= i < |d| ==> r[i] == (d[i].0, f(d[i].0, d[i].1))
  {
    if |d| == 0 then [] else [(d[0].0, f(d[0].0, d[0].1))] + MapValues(d[1..], f)
  }

  /** Looking up a key after `MapValues` applies `f` to what was stored there. */
  lemma {:induction false} GetMapValues<K, V, W>(d: Dict<K, V>, f: (K, V) -> W, k: K)
    ensures Get(MapValues(d, f), k) == if Get(d, k).Some? then Some(f(k, Get(d, k).value)) else None
  {
    if |d| > 0 {
      GetMapValues(d[1..], f, k);
      assert MapValues(d, f)[1..] == MapValues(d[1..], f);
    }
  }

  /** A dict built from pairs, then mapped by `f`: valid, keyed by the distinct
      keys in first-occurrence order, and holding `f` of the last value written. */
  lemma MapFromPairs<K(!new), V, W>(ps: seq<(K, V)>, f: (K, V) -> W, k: K)
    ensures var r := MapValues(FromPairs(ps), f);
      && Valid(r) && Keys(r) == Dedup(Keys(ps))
      && (Get(r, k).Some? <==> exists i :: 0 <= i < |ps| && ps[i].0 == k)
      && (LastValue(ps, k).Some? ==> Get(r, k) == Some(f(k, LastValue(ps, k).value)))
  {
    FromPairsSpec(ps);
    FromPairsKeys(ps, k);
    GetMapValues(FromPairs(ps), f, k);
  }
}
