/**
 Python's `dict` as a sequence of (key, value) entries in insertion order.
 Assigning to a key that is already present replaces its value in place;
 assigning to a new key appends an entry.
 */
module OrderedDict {
  import opened Wrappers

  type Dict<K, V> = seq<(K, V)>

  /** The keys in iteration order (`d.keys()`). */
  function Keys<K, V>(d: Dict<K, V>): seq<K> {
    seq(|d|, i requires 0 <= i < |d| => d[i].0)
  }

  ghost predicate Distinct<T>(s: seq<T>) {
    forall i, j | 0 <= i < j < |s| :: s[i] != s[j]
  }

  lemma KeysCons<K, V>(x: (K, V), d: Dict<K, V>)
    ensures Keys([x] + d) == [x.0] + Keys(d)
  {
  }

  lemma KeysSnoc<K, V>(d: Dict<K, V>, x: (K, V))
    ensures Keys(d + [x]) == Keys(d) + [x.0]
  {
  }

  lemma DistinctSnoc<T>(a: seq<T>, x: T)
    ensures Distinct(a + [x]) <==> Distinct(a) && x !in a
  {
    var b := a + [x];
    assert forall i | 0 <= i < |a| :: b[i] == a[i];
    assert b[|a|] == x;
    if Distinct(a) && x !in a {
      forall i, j | 0 <= i < j < |b| ensures b[i] != b[j] {
        if j == |a| {
          assert b[i] == a[i];
        }
      }
    }
  }

  /** `d.get(k)`: the value stored under `k`, if any. */
  function Get<K(==), V>(d: Dict<K, V>, k: K): (r: Option<V>)
    ensures r.Some? <==> k in Keys(d)
  {
    if |d| == 0 then None
    else if d[0].0 == k then
      assert Keys(d)[0] == k;
      Some(d[0].1)
    else
      assert Keys(d) == [d[0].0] + Keys(d[1..]);
      Get(d[1..], k)
  }

  /** `d[k] = v`. */
  function Put<K(==,!new), V>(d: Dict<K, V>, k: K, v: V): (r: Dict<K, V>)
    ensures Keys(r) == if k in Keys(d) then Keys(d) else Keys(d) + [k]
    ensures Get(r, k) == Some(v)
    ensures forall k' | k' != k :: Get(r, k') == Get(d, k')
  {
    if |d| == 0 then [(k, v)]
    else
      var tail := d[1..];
      assert d == [d[0]] + tail;
      KeysCons(d[0], tail);
      if d[0].0 == k then
        KeysCons((k, v), tail);
        assert ([(k, v)] + tail)[1..] == tail;
        [(k, v)] + tail
      else
        var rest := Put(tail, k, v);
        KeysCons(d[0], rest);
        assert ([d[0]] + rest)[1..] == rest;
        [d[0]] + rest
  }

  /** Assigns the pairs of `ps` in order, as a loop of `d[k] = v`. */
  function PutAll<K(==,!new), V>(d: Dict<K, V>, ps: seq<(K, V)>): Dict<K, V> {
    if |ps| == 0 then d
    else
      var last := ps[|ps| - 1];
      Put(PutAll(d, ps[..|ps| - 1]), last.0, last.1)
  }

  /** The dictionary built by assigning the pairs of `ps` in order to an
      empty one. */
  function FromPairs<K(==,!new), V>(ps: seq<(K, V)>): Dict<K, V> {
    PutAll([], ps)
  }

  /** Assigning pairs whose keys are all new appends them in order. */
  lemma {:induction false} PutAllFresh<K(!new), V>(d: Dict<K, V>, ps: seq<(K, V)>)
    requires Distinct(Keys(d) + Keys(ps))
    ensures Keys(PutAll(d, ps)) == Keys(d) + Keys(ps)
    ensures forall i | 0 <= i < |ps| :: Get(PutAll(d, ps), ps[i].0) == Some(ps[i].1)
    ensures forall k | k !in Keys(ps) :: Get(PutAll(d, ps), k) == Get(d, k)
  {
    if |ps| > 0 {
      var init := ps[..|ps| - 1];
      var last := ps[|ps| - 1];
      assert ps == init + [last];
      KeysSnoc(init, last);
      assert Keys(d) + Keys(ps) == (Keys(d) + Keys(init)) + [last.0];
      DistinctSnoc(Keys(d) + Keys(init), last.0);
      PutAllFresh(d, init);
      var prev := PutAll(d, init);
      var r := PutAll(d, ps);
      assert r == Put(prev, last.0, last.1);
      assert last.0 !in Keys(init);
      assert last.0 !in Keys(prev);
      forall i | 0 <= i < |ps| ensures Get(r, ps[i].0) == Some(ps[i].1) {
        if i < |ps| - 1 {
          assert ps[i] == init[i] && Keys(init)[i] == ps[i].0;
          assert ps[i].0 != last.0;
        }
      }
      forall k | k !in Keys(ps) ensures Get(r, k) == Get(d, k) {
        assert k != last.0 && k !in Keys(init);
      }
    }
  }

  /** `i` is the position of the last pair of `ps` with key `k`. */
  ghost predicate IsLastWith<K, V>(ps: seq<(K, V)>, k: K, i: int) {
    0 <= i < |ps| && ps[i].0 == k && forall j | i < j < |ps| :: ps[j].0 != k
  }

  /** `i` is the position of the first occurrence of `x` in `s`. */
  ghost predicate IsFirstIndex<T>(s: seq<T>, x: T, i: int) {
    0 <= i < |s| && s[i] == x && x !in s[..i]
  }

  /** Each key of a dictionary built from pairs holds the value of the last
      pair with that key; keys that never occur are absent. */
  lemma {:induction false} FromPairsValues<K(!new), V>(ps: seq<(K, V)>, k: K)
    ensures forall i | IsLastWith(ps, k, i) :: Get(FromPairs(ps), k) == Some(ps[i].1)
    ensures k !in Keys(ps) ==> Get(FromPairs(ps), k) == None
  {
    if |ps| > 0 {
      var init := ps[..|ps| - 1];
      var last := ps[|ps| - 1];
      FromPairsValues(init, k);
      assert Keys(ps) == Keys(init) + [last.0];
      forall i | IsLastWith(ps, k, i) ensures Get(FromPairs(ps), k) == Some(ps[i].1) {
        if i < |ps| - 1 {
          assert IsLastWith(init, k, i);
        }
      }
    }
  }

  /** Appending an element that already occurs does not move any first
      occurrence. */
  lemma FirstIndexAppend<T>(s: seq<T>, y: T, x: T, i: int)
    requires x in s
    ensures IsFirstIndex(s + [y], x, i) <==> IsFirstIndex(s, x, i)
  {
    if 0 <= i <= |s| {
      assert (s + [y])[..i] == s[..i];
    }
  }

  /** `ks` lists its elements in the order of their first occurrence in
      `names`. */
  ghost predicate OrderedByFirst<T>(ks: seq<T>, names: seq<T>) {
    forall a, b, ia, ib |
      0 <= a < b < |ks| && IsFirstIndex(names, ks[a], ia) && IsFirstIndex(names, ks[b], ib) :: ia < ib
  }

  /** Appending a name that already occurs keeps that order. */
  lemma OrderedAppendOld<T>(ks: seq<T>, names: seq<T>, y: T)
    requires forall x | x in ks :: x in names
    requires OrderedByFirst(ks, names)
    ensures OrderedByFirst(ks, names + [y])
  {
    forall a, b, ia, ib |
      0 <= a < b < |ks| && IsFirstIndex(names + [y], ks[a], ia) && IsFirstIndex(names + [y], ks[b], ib)
      ensures ia < ib
    {
      FirstIndexAppend(names, y, ks[a], ia);
      FirstIndexAppend(names, y, ks[b], ib);
    }
  }

  /** A new name comes after every earlier one. */
  lemma OrderedAppendNew<T>(ks: seq<T>, names: seq<T>, y: T)
    requires forall x | x in ks :: x in names
    requires y !in names
    requires OrderedByFirst(ks, names)
    ensures OrderedByFirst(ks + [y], names + [y])
  {
    var ks' := ks + [y];
    var names' := names + [y];
    forall a, b, ia, ib |
      0 <= a < b < |ks'| && IsFirstIndex(names', ks'[a], ia) && IsFirstIndex(names', ks'[b], ib)
      ensures ia < ib
    {
      assert ks'[a] == ks[a];
      FirstIndexAppend(names, y, ks[a], ia);
      if b < |ks| {
        assert ks'[b] == ks[b];
        FirstIndexAppend(names, y, ks[b], ib);
      } else {
        assert forall t | 0 <= t < |names| :: names'[t] == names[t];
        assert ib == |names|;
      }
    }
  }

  /** A dictionary built from pairs holds each key once, exactly the keys
      that occur in the pairs, ordered by the position of their first
      occurrence. */
  lemma {:induction false} FromPairsKeys<K(!new), V>(ps: seq<(K, V)>)
    ensures Distinct(Keys(FromPairs(ps)))
    ensures forall x :: x in Keys(FromPairs(ps)) <==> x in Keys(ps)
    ensures OrderedByFirst(Keys(FromPairs(ps)), Keys(ps))
  {
    if |ps| > 0 {
      var init := ps[..|ps| - 1];
      var last := ps[|ps| - 1];
      assert ps == init + [last];
      KeysSnoc(init, last);
      FromPairsKeys(init);
      var prev := Keys(FromPairs(init));
      if last.0 in prev {
        OrderedAppendOld(prev, Keys(init), last.0);
      } else {
        DistinctSnoc(prev, last.0);
        OrderedAppendNew(prev, Keys(init), last.0);
      }
    }
  }
}
