/** What `funcgen` (emixa/function.py) and `visualize`
    (emixa/visualization.py) share: the positions of the run parameters
    that vary across a batch of results, and the module name built from a
    result's values at those positions. */
module Batch {
  import opened Results
  import opened Sweep
  import opened Console

  /** `char.params[i]` exists for every result and every position of the
      first result's parameters. */
  predicate Indexable(chars: seq<Characterization>) {
    |chars| > 0 ==> forall k :: 0 <= k < |chars| ==> |chars[k].params| >= |chars[0].params|
  }

  /** `set([char.params[i] for char in chars])` */
  function Values(chars: seq<Characterization>, i: nat): set<Param> {
    set k | 0 <= k < |chars| && i < |chars[k].params| :: chars[k].params[i]
  }

  /** Two results disagree at position `i`. */
  predicate Differs(chars: seq<Characterization>, i: nat)
    requires Indexable(chars) && |chars| > 0 && i < |chars[0].params|
  {
    exists k :: 0 <= k < |chars| && chars[k].params[i] != chars[0].params[i]
  }

  /** Over a non-empty batch, position `i` holds one value exactly when no
      two results disagree there. */
  lemma SingleValue(chars: seq<Characterization>, i: nat)
    requires Indexable(chars) && |chars| > 0 && i < |chars[0].params|
    ensures |Values(chars, i)| == 1 <==> !Differs(chars, i)
  {
    var v := chars[0].params[i];
    assert v in Values(chars, i);
    if Differs(chars, i) {
      var k :| 0 <= k < |chars| && chars[k].params[i] != v;
      var u := chars[k].params[i];
      assert u in Values(chars, i);
      assert {v, u} <= Values(chars, i);
      assert |{v, u}| == 2;
      SubsetCard({v, u}, Values(chars, i));
    } else {
      assert Values(chars, i) == {v};
    }
  }

  lemma SubsetCard<T>(a: set<T>, b: set<T>)
    requires a <= b
    ensures |a| <= |b|
  {
    assert b == a + (b - a);
  }

  /** `diffind` from position `i` on. */
  function DiffIndicesFrom(chars: seq<Characterization>, i: nat): (r: seq<nat>)
    requires Indexable(chars) && |chars| > 0 && i <= |chars[0].params|
    ensures forall k :: 0 <= k < |r| ==> i <= r[k] < |chars[0].params| && Differs(chars, r[k])
    ensures forall j :: i <= j < |chars[0].params| && Differs(chars, j) ==> j in r
    ensures forall k, l :: 0 <= k < l < |r| ==> r[k] < r[l]
    decreases |chars[0].params| - i
  {
    if i == |chars[0].params| then []
    else
      SingleValue(chars, i);
      var rest := DiffIndicesFrom(chars, i + 1);
      if |Values(chars, i)| != 1 then [i] + rest else rest
  }

  /** `diffind`: the positions, in ascending order, at which the results of
      a non-empty batch do not all share one value. */
  function DiffIndices(chars: seq<Characterization>): (r: seq<nat>)
    requires Indexable(chars) && |chars| > 0
    ensures forall j: nat :: j in r <==> j < |chars[0].params| && Differs(chars, j)
    ensures forall k, l :: 0 <= k < l < |r| ==> r[k] < r[l]
  {
    DiffIndicesFrom(chars, 0)
  }

  /** `diffparams`: a result's parameters at the varying positions. */
  function DiffParams(c: Characterization, idx: seq<nat>): (ps: seq<Param>)
    requires forall k :: 0 <= k < |idx| ==> idx[k] < |c.params|
    ensures |ps| == |idx|
    ensures forall k :: 0 <= k < |idx| ==> ps[k] == c.params[idx[k]]
  {
    seq(|idx|, k requires 0 <= k < |idx| => c.params[idx[k]])
  }

  /** Two results of a batch whose parameter lists differ (having the same
      length, as all results of one characterization do) get different
      `diffparams`, so the varying positions are enough to tell the results
      apart. */
  lemma DiffParamsSeparate(chars: seq<Characterization>, a: nat, b: nat)
    requires Indexable(chars) && a < |chars| && b < |chars|
    requires |chars[a].params| == |chars[b].params| == |chars[0].params|
    requires chars[a].params != chars[b].params
    ensures DiffParams(chars[a], DiffIndices(chars)) != DiffParams(chars[b], DiffIndices(chars))
  {
    var idx := DiffIndices(chars);
    var j :| 0 <= j < |chars[0].params| && chars[a].params[j] != chars[b].params[j];
    assert Differs(chars, j) by {
      if chars[a].params[j] == chars[0].params[j] {
        assert chars[b].params[j] != chars[0].params[j];
      }
    }
    var k :| 0 <= k < |idx| && idx[k] == j;
    assert DiffParams(chars[a], idx)[k] != DiffParams(chars[b], idx)[k];
  }

  /** Parameters that are the same in every result never reach the module
      name. */
  lemma SharedParamsDropped(chars: seq<Characterization>, j: nat)
    requires Indexable(chars) && |chars| > 0 && j < |chars[0].params|
    requires forall k :: 0 <= k < |chars| ==> chars[k].params[j] == chars[0].params[j]
    ensures j !in DiffIndices(chars)
  {
  }

  /** `"".join(map(lambda p: f"_{p}", diffparams))` */
  function Suffix(ps: seq<Param>): (s: string)
    ensures |ps| > 0 ==> |s| > 0 && s[0] == '_'
    decreases |ps|
  {
    if |ps| == 0 then "" else "_" + Render(ps[0]) + Suffix(ps[1..])
  }

  /** `modname`: the module followed by `_value` for each varying
      parameter. */
  function ModName(kind: Module, ps: seq<Param>): string {
    KindName(kind) + Suffix(ps)
  }
}
