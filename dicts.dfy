/** Python's insertion-ordered `dict`, as a sequence of (key, value) pairs,
    with the operations the routes perform on it: lookup, `d[k] += n`,
    "insert unless present", `max(d, key=d.get)`, and the label tallies
    that the sentiment code builds with nested loops. */
module Dicts {
  import opened Wrappers

  type Dict<K, V> = seq<(K, V)>

  function Keys<K, V>(d: Dict<K, V>): (ks: seq<K>)
    ensures |ks| == |d|
    ensures forall i :: 0 <= i < |d| ==> ks[i] == d[i].0
  {
    seq(|d|, i requires 0 <= i < |d| => d[i].0)
  }

  function Values<K, V>(d: Dict<K, V>): (vs: seq<V>)
    ensures |vs| == |d|
    ensures forall i :: 0 <= i < |d| ==> vs[i] == d[i].1
  {
    seq(|d|, i requires 0 <= i < |d| => d[i].1)
  }

  /** The dict built by pairing `ks` and `vs` position by position. */
  function Zip<K, V>(ks: seq<K>, vs: seq<V>): (d: Dict<K, V>)
    requires |ks| == |vs|
    ensures Keys(d) == ks && Values(d) == vs
  {
    seq(|ks|, i requires 0 <= i < |ks| => (ks[i], vs[i]))
  }

  /** No key occurs twice, as in every Python dict. */
  predicate DistinctKeys<K(==), V>(d: Dict<K, V>) {
    forall i, j :: 0 <= i < j < |d| ==> d[i].0 != d[j].0
  }

  /** Position of `k` in `d`, or `|d|` when `k` is absent. */
  function Find<K(==), V>(d: Dict<K, V>, k: K): (i: nat)
    ensures i <= |d|
    ensures i < |d| ==> d[i].0 == k
    ensures forall j :: 0 <= j < i ==> d[j].0 != k
    ensures i == |d| <==> k !in Keys(d)
  {
    if d == [] then 0
    else if d[0].0 == k then 0
    else
      var i := 1 + Find(d[1..], k);
      assert Keys(d) == [d[0].0] + Keys(d[1..]);
      i
  }

  /** `d.get(k)`. */
  function Lookup<K(==), V>(d: Dict<K, V>, k: K): (r: Option<V>)
    ensures r.Some? <==> k in Keys(d)
    ensures r.Some? ==> exists i :: 0 <= i < |d| && d[i] == (k, r.value)
  {
    var i := Find(d, k);
    if i < |d| then Some(d[i].1) else None
  }

  /** A value found by lookup is among `d.values()`. */
  lemma LookupInValues<K, V>(d: Dict<K, V>, k: K)
    requires Lookup(d, k).Some?
    ensures Lookup(d, k).value in Values(d)
  {
    var i := Find(d, k);
    assert Values(d)[i] == d[i].1;
  }

  /** `if k not in d: d[k] = v`: a present key keeps its value and its
      place; a new key goes last. */
  function PutIfAbsent<K(==), V>(d: Dict<K, V>, k: K, v: V): (r: Dict<K, V>)
    ensures k in Keys(d) ==> r == d
    ensures k !in Keys(d) ==> r == d + [(k, v)]
  {
    if k in Keys(d) then d else d + [(k, v)]
  }

  /** Looking a key up in `d + e` finds it in `d` first. */
  lemma {:induction false} FindAppend<K, V>(d: Dict<K, V>, e: Dict<K, V>, k: K)
    ensures Find(d + e, k) == if k in Keys(d) then Find(d, k) else |d| + Find(e, k)
  {
    if d == [] {
      assert d + e == e;
    } else if d[0].0 != k {
      assert (d + e)[1..] == d[1..] + e;
      assert (d + e)[0].0 != k;
      FindAppend(d[1..], e, k);
      assert Keys(d) == [d[0].0] + Keys(d[1..]);
    } else {
      assert (d + e)[0].0 == k && Keys(d)[0] == k;
    }
  }

  /** `for k, v in entries: if k not in d: d[k] = v`. */
  function InsertAll<K(==), V>(d: Dict<K, V>, entries: seq<(K, V)>): Dict<K, V>
    decreases |entries|
  {
    if entries == [] then d else InsertAll(PutIfAbsent(d, entries[0].0, entries[0].1), entries[1..])
  }

  /** One insertion at the front. */
  lemma InsertAllCons<K, V>(d: Dict<K, V>, k: K, v: V, entries: seq<(K, V)>)
    ensures InsertAll(d, [(k, v)] + entries) == InsertAll(PutIfAbsent(d, k, v), entries)
  {
    assert ([(k, v)] + entries)[1..] == entries;
  }

  /** The first insertion wins: a key of `d` keeps its value, and any other
      key gets the value of its first entry (`Lookup` on the entries finds
      the first one), or stays absent. */
  lemma {:induction false} InsertAllLookup<K, V>(d: Dict<K, V>, entries: seq<(K, V)>, k: K)
    ensures Lookup(InsertAll(d, entries), k) == if k in Keys(d) then Lookup(d, k) else Lookup(entries, k)
    decreases |entries|
  {
    if entries != [] {
      var (k0, v0) := entries[0];
      var p := PutIfAbsent(d, k0, v0);
      InsertAllLookup(p, entries[1..], k);
      LookupCons(k0, v0, entries[1..], k);
      assert entries == [(k0, v0)] + entries[1..];
      if k0 !in Keys(d) {
        LookupAppendOne(d, k0, v0, k);
      }
    }
  }

  lemma LookupCons<K, V>(k0: K, v0: V, rest: Dict<K, V>, k: K)
    ensures Lookup([(k0, v0)] + rest, k) == if k == k0 then Some(v0) else Lookup(rest, k)
  {
    var d := [(k0, v0)] + rest;
    assert d[0] == (k0, v0) && d[1..] == rest;
    if k != k0 {
      var i := Find(rest, k);
      assert Find(d, k) == 1 + i;
      if i < |rest| {
        assert d[1 + i] == rest[i];
      }
    }
  }

  lemma LookupAppendOne<K, V>(d: Dict<K, V>, k0: K, v0: V, k: K)
    ensures Lookup(d + [(k0, v0)], k) == if k in Keys(d) then Lookup(d, k) else if k == k0 then Some(v0) else None
    ensures Keys(d + [(k0, v0)]) == Keys(d) + [k0]
  {
    FindAppend(d, [(k0, v0)], k);
    assert Keys(d + [(k0, v0)]) == Keys(d) + [k0];
  }

  /** Inserting keeps the keys distinct. */
  lemma {:induction false} InsertAllDistinct<K, V>(d: Dict<K, V>, entries: seq<(K, V)>)
    requires DistinctKeys(d)
    ensures DistinctKeys(InsertAll(d, entries))
    decreases |entries|
  {
    if entries != [] {
      var p := PutIfAbsent(d, entries[0].0, entries[0].1);
      assert DistinctKeys(p) by {
        if entries[0].0 !in Keys(d) {
          assert forall i :: 0 <= i < |d| ==> p[i] == d[i];
        }
      }
      InsertAllDistinct(p, entries[1..]);
    }
  }

  /** Inserting in two rounds is inserting all entries in order. */
  lemma {:induction false} InsertAllAppend<K, V>(d: Dict<K, V>, a: seq<(K, V)>, b: seq<(K, V)>)
    ensures InsertAll(d, a + b) == InsertAll(InsertAll(d, a), b)
    decreases |a|
  {
    if a == [] {
      assert a + b == b;
    } else {
      assert (a + b)[1..] == a[1..] + b;
      InsertAllAppend(PutIfAbsent(d, a[0].0, a[0].1), a[1..], b);
    }
  }

  /** The count stored under `k`, or 0 when `k` is absent. */
  function Get<K(==)>(d: Dict<K, int>, k: K): int
  {
    var i := Find(d, k);
    if i < |d| then d[i].1 else 0
  }

  /** `d[k] += n` on a key that the dict already holds (no change otherwise). */
  function AddTo<K(==)>(d: Dict<K, int>, k: K, n: int): (r: Dict<K, int>)
    ensures Keys(r) == Keys(d)
  {
    var i := Find(d, k);
    if i < |d| then d[i := (k, d[i].1 + n)] else d
  }

  function Sum(xs: seq<int>): int
  {
    if xs == [] then 0 else xs[0] + Sum(xs[1..])
  }

  lemma {:induction false} SumAppend(xs: seq<int>, ys: seq<int>)
    ensures Sum(xs + ys) == Sum(xs) + Sum(ys)
  {
    if xs == [] {
      assert xs + ys == ys;
    } else {
      assert (xs + ys)[1..] == xs[1..] + ys;
      SumAppend(xs[1..], ys);
    }
  }

  lemma {:induction false} SumUpdate(xs: seq<int>, i: nat, v: int)
    requires i < |xs|
    ensures Sum(xs[i := v]) == Sum(xs) - xs[i] + v
  {
    if i > 0 {
      assert xs[i := v][1..] == xs[1..][i - 1 := v];
      SumUpdate(xs[1..], i - 1, v);
    }
  }

  lemma {:induction false} SumNonNegative(xs: seq<int>)
    requires forall i :: 0 <= i < |xs| ==> xs[i] >= 0
    ensures Sum(xs) >= 0
    ensures Sum(xs) == 0 <==> forall i :: 0 <= i < |xs| ==> xs[i] == 0
  {
    if xs != [] {
      SumNonNegative(xs[1..]);
      assert forall i :: 1 <= i < |xs| ==> xs[i] == xs[1..][i - 1];
    }
  }

  lemma {:induction false} ValuesAddTo<K>(d: Dict<K, int>, k: K, n: int)
    requires k in Keys(d)
    ensures Sum(Values(AddTo(d, k, n))) == Sum(Values(d)) + n
  {
    var i := Find(d, k);
    assert Values(AddTo(d, k, n)) == Values(d)[i := d[i].1 + n];
    SumUpdate(Values(d), i, d[i].1 + n);
  }

  lemma GetAddTo<K>(d: Dict<K, int>, k: K, n: int, k': K)
    ensures Get(AddTo(d, k, n), k') == Get(d, k') + (if k == k' && k in Keys(d) then n else 0)
  {
    var i := Find(d, k);
    if i < |d| {
      var r := AddTo(d, k, n);
      assert Keys(r) == Keys(d);
      assert Find(r, k') == Find(d, k') by { FindSameKeys(d, r, k'); }
    }
  }

  lemma {:induction false} FindSameKeys<K, V, W>(d: Dict<K, V>, e: Dict<K, W>, k: K)
    requires Keys(d) == Keys(e)
    ensures Find(d, k) == Find(e, k)
  {
    if d != [] && d[0].0 != k {
      assert Keys(d[1..]) == Keys(d)[1..] == Keys(e)[1..] == Keys(e[1..]);
      FindSameKeys(d[1..], e[1..], k);
    }
  }

  /** `{k: 0 for k in keys}`: every key once, in first-seen order, with 0. */
  function ZeroCounts<K(==)>(keys: seq<K>): (d: Dict<K, int>)
    ensures DistinctKeys(d)
    ensures forall i :: 0 <= i < |keys| ==> keys[i] in Keys(d)
    ensures forall i :: 0 <= i < |d| ==> d[i].1 == 0
  {
    if keys == [] then []
    else
      var d := ZeroCounts(keys[..|keys| - 1]);
      var k := keys[|keys| - 1];
      assert forall i :: 0 <= i < |keys| - 1 ==> keys[i] == keys[..|keys| - 1][i];
      assert Keys(d + [(k, 0)]) == Keys(d) + [k];
      PutIfAbsent(d, k, 0)
  }

  /** The counts after adding `hits[i]` to the entry of `keys[i]`, for each
      `i` in order: the loop `for row ...: d[key(row)] += hits(row)`. */
  function Tally<K(==)>(d: Dict<K, int>, keys: seq<K>, hits: seq<int>): (r: Dict<K, int>)
    requires |keys| == |hits|
    ensures Keys(r) == Keys(d)
    decreases |keys|
  {
    if keys == [] then d
    else AddTo(Tally(d, keys[..|keys| - 1], hits[..|hits| - 1]), keys[|keys| - 1], hits[|hits| - 1])
  }

  /** One more row: the tally of the first `i + 1` rows adds row `i` to
      the tally of the first `i`. */
  lemma TallyStep<K>(d: Dict<K, int>, keys: seq<K>, hits: seq<int>, i: nat)
    requires |keys| == |hits| && i < |keys|
    ensures Tally(d, keys[..i + 1], hits[..i + 1]) == AddTo(Tally(d, keys[..i], hits[..i]), keys[i], hits[i])
    ensures Sum(hits[..i + 1]) == Sum(hits[..i]) + hits[i]
  {
    assert keys[..i + 1][..i] == keys[..i] && hits[..i + 1][..i] == hits[..i];
    assert hits[..i + 1] == hits[..i] + [hits[i]];
    SumAppend(hits[..i], [hits[i]]);
  }

  /** The sum of `hits[i]` over the rows whose key is `k`. */
  function HitsFor<K(==)>(keys: seq<K>, hits: seq<int>, k: K): int
    requires |keys| == |hits|
    decreases |keys|
  {
    if keys == [] then 0
    else HitsFor(keys[..|keys| - 1], hits[..|hits| - 1], k) + (if keys[|keys| - 1] == k then hits[|hits| - 1] else 0)
  }

  /** Each key's final count is its start value plus the hits of exactly the
      rows carrying that key. */
  lemma {:induction false} TallyGet<K>(d: Dict<K, int>, keys: seq<K>, hits: seq<int>, k: K)
    requires |keys| == |hits|
    requires forall i :: 0 <= i < |keys| ==> keys[i] in Keys(d)
    ensures Get(Tally(d, keys, hits), k) == Get(d, k) + HitsFor(keys, hits, k)
    decreases |keys|
  {
    if keys != [] {
      var n := |keys| - 1;
      TallyGet(d, keys[..n], hits[..n], k);
      GetAddTo(Tally(d, keys[..n], hits[..n]), keys[n], hits[n], k);
    }
  }

  /** Every hit lands in some entry, so the counts grow by the sum of hits. */
  lemma {:induction false} TallySum<K>(d: Dict<K, int>, keys: seq<K>, hits: seq<int>)
    requires |keys| == |hits|
    requires forall i :: 0 <= i < |keys| ==> keys[i] in Keys(d)
    ensures Sum(Values(Tally(d, keys, hits))) == Sum(Values(d)) + Sum(hits)
    decreases |keys|
  {
    if keys != [] {
      var n := |keys| - 1;
      TallySum(d, keys[..n], hits[..n]);
      ValuesAddTo(Tally(d, keys[..n], hits[..n]), keys[n], hits[n]);
      assert hits == hits[..n] + [hits[n]];
      SumAppend(hits[..n], [hits[n]]);
    }
  }

  /** Index of the first largest value: Python's `max(d, key=d.get)`, which
      only replaces its candidate on a strictly larger value. */
  function ArgMaxReal(xs: seq<real>): (m: nat)
    requires |xs| > 0
    ensures m < |xs|
    ensures forall i :: 0 <= i < |xs| ==> xs[i] <= xs[m]
    ensures forall i :: 0 <= i < m ==> xs[i] < xs[m]
  {
    if |xs| == 1 then 0
    else
      var m := ArgMaxReal(xs[..|xs| - 1]);
      if xs[|xs| - 1] > xs[m] then |xs| - 1 else m
  }

  /** `ArgMaxReal` on integer values. */
  function ArgMaxInt(xs: seq<int>): (m: nat)
    requires |xs| > 0
    ensures m < |xs|
    ensures forall i :: 0 <= i < |xs| ==> xs[i] <= xs[m]
    ensures forall i :: 0 <= i < m ==> xs[i] < xs[m]
  {
    var rs := seq(|xs|, i requires 0 <= i < |xs| => xs[i] as real);
    var m := ArgMaxReal(rs);
    assert forall i :: 0 <= i < |xs| ==> rs[i] == xs[i] as real;
    m
  }
}
