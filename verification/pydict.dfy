/** Python's `dict`: a finite map that remembers the order in which keys were
    first inserted. Assigning to an existing key replaces its value in place;
    a new key goes at the end. Iteration (`d.keys()`, `for k in d`) follows
    this order, so the model keeps the entries as a sequence. */
module PyDict {
  import opened Wrappers

  type Dict<K, V> = seq<(K, V)>

  predicate DistinctKeys<K(==), V>(d: Dict<K, V>) {
    forall i, j :: 0 <= i < j < |d| ==> d[i].0 != d[j].0
  }

  function KeySet<K, V>(d: Dict<K, V>): set<K> {
    set i | 0 <= i < |d| :: d[i].0
  }

  /** Position of `k` in the insertion order, if present. */
  function IndexOf<K(==), V>(d: Dict<K, V>, k: K): (r: Option<nat>)
    ensures r.Some? ==> r.value < |d| && d[r.value].0 == k
    ensures r.Some? ==> forall j :: 0 <= j < r.value ==> d[j].0 != k
    ensures r.None? <==> k !in KeySet(d)
    decreases |d|
  {
    if |d| == 0 then None
    else if d[0].0 == k then Some(0)
    else
      match IndexOf(d[1..], k)
      case None =>
        assert KeySet(d) == {d[0].0} + KeySet(d[1..]) by {
          forall x | x in KeySet(d) ensures x in {d[0].0} + KeySet(d[1..]) {
            var i :| 0 <= i < |d| && d[i].0 == x;
            if i > 0 { assert d[1..][i - 1].0 == x; }
          }
        }
        None
      case Some(i) => Some(i + 1)
  }

  /** `d[k]` when present. */
  function Get<K(==), V>(d: Dict<K, V>, k: K): Option<V> {
    match IndexOf(d, k)
    case None => None
    case Some(i) => Some(d[i].1)
  }

  lemma KeyOfMember<K, V>(d: Dict<K, V>, e: (K, V))
    requires e in d
    ensures e.0 in KeySet(d)
  {
    var i :| 0 <= i < |d| && d[i] == e;
  }

  lemma KeySetSnoc<K, V>(d: Dict<K, V>, e: (K, V))
    ensures KeySet(d + [e]) == KeySet(d) + {e.0}
  {
    var r := d + [e];
    forall x | x in KeySet(r) ensures x in KeySet(d) + {e.0} {
      var i :| 0 <= i < |r| && r[i].0 == x;
      if i < |d| { assert d[i].0 == x; }
    }
    forall x | x in KeySet(d) ensures x in KeySet(r) {
      var i :| 0 <= i < |d| && d[i].0 == x;
      assert r[i].0 == x;
    }
    assert r[|d|].0 == e.0;
  }

  lemma KeySetCons<K, V>(d: Dict<K, V>)
    requires |d| > 0
    ensures KeySet(d) == {d[0].0} + KeySet(d[1..])
  {
    forall x | x in KeySet(d) ensures x in {d[0].0} + KeySet(d[1..]) {
      var i :| 0 <= i < |d| && d[i].0 == x;
      if i > 0 { assert d[1..][i - 1].0 == x; }
    }
    forall x | x in KeySet(d[1..]) ensures x in KeySet(d) {
      var i :| 0 <= i < |d[1..]| && d[1..][i].0 == x;
      assert d[i + 1].0 == x;
    }
  }

  /** `d[k] = v` */
  function Put<K(==,!new), V>(d: Dict<K, V>, k: K, v: V): (r: Dict<K, V>)
    ensures DistinctKeys(d) ==> DistinctKeys(r)
    ensures KeySet(r) == KeySet(d) + {k}
    ensures Get(r, k) == Some(v)
    ensures forall x :: x != k ==> Get(r, x) == Get(d, x)
    ensures k in KeySet(d) ==> |r| == |d|
    ensures k !in KeySet(d) ==> |r| == |d| + 1
  {
    match IndexOf(d, k)
    case None =>
      var r := d + [(k, v)];
      KeySetSnoc(d, (k, v));
      assert forall x :: x != k ==> IndexOf(r, x) == IndexOf(d, x) by {
        forall x | x != k ensures IndexOf(r, x) == IndexOf(d, x) { SameIndexAfterAppend(d, x, (k, v)); }
      }
      SameIndexAfterAppendNew(d, k, v);
      r
    case Some(i) =>
      var r := d[i := (k, v)];
      assert KeySet(r) == KeySet(d) by {
        forall x | x in KeySet(d) ensures x in KeySet(r) {
          var j :| 0 <= j < |d| && d[j].0 == x;
          assert r[j].0 == x;
        }
        forall x | x in KeySet(r) ensures x in KeySet(d) {
          var j :| 0 <= j < |r| && r[j].0 == x;
          assert d[j].0 == x;
        }
      }
      SameIndexAfterUpdate(d, i, k, v);
      r
  }

  /** Looking up after `d[k] = v`. */
  lemma PutLookup<K(!new), V>(d: Dict<K, V>, k: K, v: V, x: K)
    ensures Get(Put(d, k, v), x) == if x == k then Some(v) else Get(d, x)
  {
  }

  lemma {:induction false} SameIndexAfterAppend<K, V>(d: Dict<K, V>, x: K, e: (K, V))
    requires e.0 != x
    ensures IndexOf(d + [e], x) == IndexOf(d, x)
    decreases |d|
  {
    if |d| > 0 {
      assert (d + [e])[1..] == d[1..] + [e];
      SameIndexAfterAppend(d[1..], x, e);
    }
  }

  lemma {:induction false} SameIndexAfterAppendNew<K, V>(d: Dict<K, V>, k: K, v: V)
    requires k !in KeySet(d)
    ensures IndexOf(d + [(k, v)], k) == Some(|d|)
    decreases |d|
  {
    if |d| > 0 {
      assert (d + [(k, v)])[1..] == d[1..] + [(k, v)];
      KeySetCons(d);
      SameIndexAfterAppendNew(d[1..], k, v);
    }
  }

  lemma {:induction false} SameIndexAfterUpdate<K, V>(d: Dict<K, V>, i: nat, k: K, v: V)
    requires i < |d| && d[i].0 == k
    ensures forall x :: IndexOf(d[i := (k, v)], x) == IndexOf(d, x)
    decreases |d|
  {
    if i > 0 {
      assert d[i := (k, v)][1..] == d[1..][i - 1 := (k, v)];
      SameIndexAfterUpdate(d[1..], i - 1, k, v);
    }
  }

  /** The dict built by `for (k, v) in pairs: d[k] = v`, starting empty: its
      keys are exactly the keys the pairs carry, each once. */
  function FromPairs<K(==,!new), V>(pairs: seq<(K, V)>): (d: Dict<K, V>)
    ensures DistinctKeys(d)
    ensures KeySet(d) == KeySet(pairs)
    ensures |d| <= |pairs|
    decreases |pairs|
  {
    if |pairs| == 0 then []
    else
      var init := pairs[..|pairs| - 1];
      var last := pairs[|pairs| - 1];
      assert pairs == init + [last];
      KeySetSnoc(init, last);
      Put(FromPairs(init), last.0, last.1)
  }

  /** No pair after pair `j` has its key. */
  predicate LastWithKey<K(==), V>(pairs: seq<(K, V)>, j: nat)
    requires j < |pairs|
  {
    forall l :: j < l < |pairs| ==> pairs[l].0 != pairs[j].0
  }

  /** The value a key ends up with is the one carried by the LAST pair with
      that key: a later pair with the same key overwrites an earlier one. */
  lemma {:induction false} FromPairsLastWins<K(!new), V>(pairs: seq<(K, V)>, j: nat)
    requires j < |pairs| && LastWithKey(pairs, j)
    ensures Get(FromPairs(pairs), pairs[j].0) == Some(pairs[j].1)
    decreases |pairs|
  {
    var n := |pairs| - 1;
    var init, last := pairs[..n], pairs[n];
    var d := FromPairs(init);
    var r := Put(d, last.0, last.1);
    assert FromPairs(pairs) == r;
    if j < n {
      assert init[j] == pairs[j];
      assert LastWithKey(init, j) by {
        forall l | j < l < |init| ensures init[l].0 != init[j].0 {
          assert init[l] == pairs[l];
        }
      }
      FromPairsLastWins(init, j);
      assert last.0 != pairs[j].0;
      PutLookup(d, last.0, last.1, pairs[j].0);
    } else {
      assert pairs[j] == last;
      PutLookup(d, last.0, last.1, last.0);
    }
  }

  /** `d[k].append(v)` if `k` is present, else `d[k] = [v]`. */
  function AppendTo<K(==,!new), V>(d: Dict<K, seq<V>>, k: K, v: V): (r: Dict<K, seq<V>>)
    ensures DistinctKeys(d) ==> DistinctKeys(r)
    ensures KeySet(r) == KeySet(d) + {k}
    ensures Total(r) == Total(d) + 1
    ensures Get(r, k) == Some(if Get(d, k).Some? then Get(d, k).value + [v] else [v])
    ensures forall x :: x != k ==> Get(r, x) == Get(d, x)
  {
    match Get(d, k)
    case None =>
      TotalAppend(d, (k, [v]));
      Put(d, k, [v])
    case Some(vs) =>
      var i := IndexOf(d, k).value;
      TotalUpdate(d, i, (k, vs + [v]));
      Put(d, k, vs + [v])
  }

  /** Number of values held across all lists of the dict. */
  function Total<K, V>(d: Dict<K, seq<V>>): nat
    decreases |d|
  {
    if |d| == 0 then 0 else Total(d[..|d| - 1]) + |d[|d| - 1].1|
  }

  lemma TotalAppend<K, V>(d: Dict<K, seq<V>>, e: (K, seq<V>))
    ensures Total(d + [e]) == Total(d) + |e.1|
  {
    assert (d + [e])[..|d|] == d;
  }

  lemma {:induction false} TotalUpdate<K, V>(d: Dict<K, seq<V>>, i: nat, e: (K, seq<V>))
    requires i < |d|
    ensures Total(d[i := e]) == Total(d) - |d[i].1| + |e.1|
    decreases |d|
  {
    var n := |d| - 1;
    if i < n {
      assert d[i := e][..n] == d[..n][i := e];
      TotalUpdate(d[..n], i, e);
    } else {
      assert d[i := e][..n] == d[..n];
    }
  }
}
