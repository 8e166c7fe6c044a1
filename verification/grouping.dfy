/** Sharing a sequence out among numbered bins, and the two dict-building
    loops the plotting code uses: grouping values under their keys and
    counting occurrences. */
module Grouping {
  import opened Wrappers
  import opened PyDict

  /** The elements of `xs` that `f` sends to bin `j`, in order. */
  function Pick<T(!new)>(xs: seq<T>, f: T -> int, j: int): (r: seq<T>)
    ensures |r| <= |xs|
    decreases |xs|
  {
    if |xs| == 0 then []
    else (if f(xs[0]) == j then [xs[0]] else []) + Pick(xs[1..], f, j)
  }

  /** Bin `j` holds exactly the elements `f` sends there. */
  lemma {:induction false} PickMembers<T(!new)>(xs: seq<T>, f: T -> int, j: int)
    ensures forall x :: x in Pick(xs, f, j) <==> x in xs && f(x) == j
    decreases |xs|
  {
    if |xs| > 0 {
      PickMembers(xs[1..], f, j);
      assert xs == [xs[0]] + xs[1..];
    }
  }

  /** `|Pick(xs, f, 0)| + ... + |Pick(xs, f, n - 1)|` */
  function Tally<T(!new)>(xs: seq<T>, f: T -> int, n: nat): nat
    decreases n
  {
    if n == 0 then 0 else Tally(xs, f, n - 1) + |Pick(xs, f, n - 1)|
  }

  lemma PickCons<T(!new)>(x: T, xs: seq<T>, f: T -> int, j: int)
    ensures |Pick([x] + xs, f, j)| == |Pick(xs, f, j)| + (if f(x) == j then 1 else 0)
  {
    assert ([x] + xs)[0] == x;
    assert ([x] + xs)[1..] == xs;
  }

  lemma {:induction false} TallyCons<T(!new)>(x: T, xs: seq<T>, f: T -> int, n: nat)
    ensures Tally([x] + xs, f, n) == Tally(xs, f, n) + (if 0 <= f(x) < n then 1 else 0)
    decreases n
  {
    if n > 0 {
      var ys := [x] + xs;
      TallyCons(x, xs, f, n - 1);
      PickCons(x, xs, f, n - 1);
      assert Tally(ys, f, n) == Tally(ys, f, n - 1) + |Pick(ys, f, n - 1)|;
      assert Tally(xs, f, n) == Tally(xs, f, n - 1) + |Pick(xs, f, n - 1)|;
    }
  }

  /** When every element goes to one of the bins `0 .. n - 1`, the bins
      together hold exactly as many elements as `xs`: nothing is lost and
      nothing counted twice. */
  lemma {:induction false} TallyAll<T(!new)>(xs: seq<T>, f: T -> int, n: nat)
    requires forall x :: x in xs ==> 0 <= f(x) < n
    ensures Tally(xs, f, n) == |xs|
    decreases |xs|
  {
    if |xs| > 0 {
      var y, ys := xs[0], xs[1..];
      assert xs == [y] + ys;
      assert y in xs;
      assert 0 <= f(y) < n;
      TallyAll(ys, f, n);
      TallyCons(y, ys, f, n);
    } else {
      TallyEmpty(xs, f, n);
    }
  }

  lemma {:induction false} TallyEmpty<T(!new)>(xs: seq<T>, f: T -> int, n: nat)
    requires |xs| == 0
    ensures Tally(xs, f, n) == 0
    decreases n
  {
    if n > 0 {
      TallyEmpty(xs, f, n - 1);
    }
  }

  /** The values paired with `k`, in order. */
  function ValuesOf<K(==), V>(es: seq<(K, V)>, k: K): seq<V>
    decreases |es|
  {
    if |es| == 0 then []
    else ValuesOf(es[..|es| - 1], k) + (if es[|es| - 1].0 == k then [es[|es| - 1].1] else [])
  }

  /** A value paired with `k` is among the values of `k`. */
  lemma {:induction false} ValuesOfMember<K, V>(es: seq<(K, V)>, e: (K, V))
    requires e in es
    ensures e.1 in ValuesOf(es, e.0)
    decreases |es|
  {
    var n := |es| - 1;
    assert es == es[..n] + [es[n]];
    if es[n] != e {
      assert e in es[..n];
      ValuesOfMember(es[..n], e);
    }
  }

  lemma {:induction false} ValuesOfAbsent<K, V>(es: seq<(K, V)>, k: K)
    requires k !in KeySet(es)
    ensures ValuesOf(es, k) == []
    decreases |es|
  {
    if |es| > 0 {
      var init := es[..|es| - 1];
      assert es == init + [es[|es| - 1]];
      KeySetSnoc(init, es[|es| - 1]);
      ValuesOfAbsent(init, k);
    }
  }

  /** `for (k, v) in es: d[k].append(v) if k in d else d[k] = [v]`: every
      key once, in first-seen order, holding all of its values in order. */
  function GroupBy<K(==,!new), V>(es: seq<(K, V)>): (d: Dict<K, seq<V>>)
    ensures DistinctKeys(d)
    ensures KeySet(d) == KeySet(es)
    ensures Total(d) == |es|
    ensures forall k :: k in KeySet(es) ==> Get(d, k) == Some(ValuesOf(es, k))
    decreases |es|
  {
    if |es| == 0 then []
    else
      var init := es[..|es| - 1];
      var last := es[|es| - 1];
      assert es == init + [last];
      KeySetSnoc(init, last);
      var g := GroupBy(init);
      var r := AppendTo(g, last.0, last.1);
      forall k | k in KeySet(es) ensures Get(r, k) == Some(ValuesOf(es, k)) {
        KeySetInit(es);
        if k !in KeySet(init) {
          assert IndexOf(g, k).None?;
          ValuesOfAbsent(init, k);
        }
        GroupByStep(es, g, k, k in KeySet(init));
      }
      r
  }

  lemma GroupByStep<K(!new), V>(es: seq<(K, V)>, g: Dict<K, seq<V>>, k: K, present: bool)
    requires |es| > 0
    requires present ==> Get(g, k) == Some(ValuesOf(es[..|es| - 1], k))
    requires !present ==> Get(g, k) == None && ValuesOf(es[..|es| - 1], k) == []
    requires present || k == es[|es| - 1].0
    ensures Get(AppendTo(g, es[|es| - 1].0, es[|es| - 1].1), k) == Some(ValuesOf(es, k))
  {
    ValuesOfSnoc(es, k);
    var last := es[|es| - 1];
    if k != last.0 {
      assert Get(AppendTo(g, last.0, last.1), k) == Get(g, k);
    }
  }

  lemma ValuesOfSnoc<K, V>(es: seq<(K, V)>, k: K)
    requires |es| > 0
    ensures es[|es| - 1].0 == k ==> ValuesOf(es, k) == ValuesOf(es[..|es| - 1], k) + [es[|es| - 1].1]
    ensures es[|es| - 1].0 != k ==> ValuesOf(es, k) == ValuesOf(es[..|es| - 1], k)
  {
    assert ValuesOf(es[..|es| - 1], k) + [] == ValuesOf(es[..|es| - 1], k);
  }

  lemma KeySetInit<K, V>(es: seq<(K, V)>)
    requires |es| > 0
    ensures KeySet(es) == KeySet(es[..|es| - 1]) + {es[|es| - 1].0}
  {
    assert es == es[..|es| - 1] + [es[|es| - 1]];
    KeySetSnoc(es[..|es| - 1], es[|es| - 1]);
  }

  /** Sum of the counts of a dict. */
  function Weight<K>(d: Dict<K, nat>): nat
    decreases |d|
  {
    if |d| == 0 then 0 else Weight(d[..|d| - 1]) + d[|d| - 1].1
  }

  lemma WeightAppend<K>(d: Dict<K, nat>, e: (K, nat))
    ensures Weight(d + [e]) == Weight(d) + e.1
  {
    assert (d + [e])[..|d|] == d;
  }

  lemma {:induction false} WeightUpdate<K>(d: Dict<K, nat>, i: nat, e: (K, nat))
    requires i < |d|
    ensures Weight(d[i := e]) == Weight(d) - d[i].1 + e.1
    decreases |d|
  {
    var n := |d| - 1;
    if i < n {
      assert d[i := e][..n] == d[..n][i := e];
      WeightUpdate(d[..n], i, e);
    } else {
      assert d[i := e][..n] == d[..n];
    }
  }

  /** `for x in xs: d[x] += 1 if x in d else d[x] = 1`: each distinct value
      once, with the number of times it occurs. */
  function Histogram<K(==,!new)>(xs: seq<K>): (d: Dict<K, nat>)
    ensures DistinctKeys(d)
    ensures KeySet(d) == Elements(xs)
    ensures Weight(d) == |xs|
    ensures forall x :: x in xs ==> Get(d, x) == Some(multiset(xs)[x])
    decreases |xs|
  {
    if |xs| == 0 then []
    else
      var h := Histogram(xs[..|xs| - 1]);
      HistogramStep(xs, h);
      Put<K, nat>(h, xs[|xs| - 1], CountOf(h, xs[|xs| - 1]) + 1)
  }

  /** `set(xs)` */
  function Elements<K>(xs: seq<K>): set<K> {
    set y | y in xs
  }

  /** `d[x]`, or 0 when `x` is not a key yet. */
  function CountOf<K(==)>(h: Dict<K, nat>, x: K): nat {
    if Get(h, x).Some? then Get(h, x).value else 0
  }

  lemma HistogramStep<K(!new)>(xs: seq<K>, h: Dict<K, nat>)
    requires |xs| > 0
    requires KeySet(h) == Elements(xs[..|xs| - 1])
    requires forall y :: y in xs[..|xs| - 1] ==> Get(h, y) == Some(multiset(xs[..|xs| - 1])[y])
    ensures var x := xs[|xs| - 1];
      var r := Put<K, nat>(h, x, CountOf(h, x) + 1);
      KeySet(r) == Elements(xs)
      && Weight(r) == Weight(h) + 1
      && forall y :: y in xs ==> Get(r, y) == Some(multiset(xs)[y])
  {
    var init, x := xs[..|xs| - 1], xs[|xs| - 1];
    assert xs == init + [x];
    var c := CountOf(h, x);
    HistogramCount(init, x, h);
    HistogramWeight(h, x, c);
    HistogramGet(init, x, h, c);
    assert Elements(xs) == Elements(init) + {x};
  }

  lemma HistogramCount<K(!new)>(init: seq<K>, x: K, h: Dict<K, nat>)
    requires KeySet(h) == set y | y in init
    requires forall y :: y in init ==> Get(h, y) == Some(multiset(init)[y])
    ensures CountOf(h, x) == multiset(init)[x]
  {
    if x !in init {
      assert x !in KeySet(h);
    }
  }

  lemma HistogramWeight<K(!new)>(h: Dict<K, nat>, x: K, c: nat)
    requires c == CountOf(h, x)
    ensures Weight(Put<K, nat>(h, x, c + 1)) == Weight(h) + 1
  {
    if Get(h, x).Some? {
      WeightUpdate(h, IndexOf(h, x).value, (x, c + 1));
    } else {
      WeightAppend(h, (x, 1));
    }
  }

  lemma HistogramGet<K(!new)>(init: seq<K>, x: K, h: Dict<K, nat>, c: nat)
    requires forall y :: y in init ==> Get(h, y) == Some(multiset(init)[y])
    requires c == multiset(init)[x]
    ensures forall y :: y in init + [x] ==> Get(Put<K, nat>(h, x, c + 1), y) == Some(multiset(init + [x])[y])
  {
    forall y | y in init + [x] ensures Get(Put<K, nat>(h, x, c + 1), y) == Some(multiset(init + [x])[y]) {
      HistogramGetOne(init, x, h, c, y);
    }
  }

  lemma HistogramGetOne<K(!new)>(init: seq<K>, x: K, h: Dict<K, nat>, c: nat, y: K)
    requires y in init + [x]
    requires y in init ==> Get(h, y) == Some(multiset(init)[y])
    requires c == multiset(init)[x]
    ensures Get(Put<K, nat>(h, x, c + 1), y) == Some(multiset(init + [x])[y])
  {
    assert multiset(init + [x]) == multiset(init) + multiset{x};
    PutLookup(h, x, c + 1, y);
    if y != x {
      assert y in init;
    }
  }
}
