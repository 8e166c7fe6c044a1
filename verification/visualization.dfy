/** The integer preprocessing of emixa/visualization.py: what each plot is
    drawn from, before matplotlib draws it.
    - exhaustive: the errors grouped under their recomputed exact result,
      and the occurrence count of every error value;
    - random 2D: the results on the horizontal axis and the non-zero mean
      error distances the histogram bins;
    - random 3D: the mean absolute error of each of the 4 x 4 operand
      interval cells.
    Means stay exact (`sum`, `count`) pairs; the mean error distances stay
    the 8 bytes of a big-endian IEEE 754 double. */
module Visualization {
  import opened Wrappers
  import opened BigEndian
  import opened PyDict
  import opened Results
  import opened TwosComplement
  import opened Grouping
  import opened Batch
  import opened Decoders
  import Synthesis
  import Sweep

  /** Exceptions the plotting code raises before it saves a plot:
      - `FractionalBound`: `range` over `2**(w-1)` or `2**w` computed as
        a float (`TypeError`);
      - `IndexOutOfRange`: the error table lookup;
      - `NegativeShift`: the histogram's `1 << w` for a negative width;
      - `NotIterable`: iterating over a `float`. */
  datatype VisError = FractionalBound | IndexOutOfRange | NegativeShift | NotIterable

  /** `reswdth`: a sum has the operands' width, a product twice that. */
  function ResWidth(kind: Module, w: nat): nat {
    match kind
    case Adder => w
    case Multiplier => 2 * w
  }

  /** The widths for which `2**(w-1)` and `2**w` are integers. */
  predicate Bounded(c: Characterization) {
    c.width >= 0 && (c.sgn ==> c.width >= 1)
  }

  function Lowest(w: nat, sgn: bool): int
    requires sgn ==> w >= 1
  {
    if sgn then -Pow2(w - 1) else 0
  }

  /** `xlim`: the end points of the horizontal axis. */
  function Xlim(w: nat, sgn: bool): (r: (int, int))
    requires sgn ==> w >= 1
    ensures forall x :: r.0 <= x <= r.1 <==> InRange(x, w, sgn)
  {
    if sgn then (-Pow2(w - 1), Pow2(w - 1) - 1) else (0, Pow2(w) - 1)
  }

  /** `oprng`: every operand of a `w`-bit operator once, in ascending
      order. */
  function OperandRange(w: nat, sgn: bool): (r: seq<int>)
    requires sgn ==> w >= 1
    ensures |r| == Pow2(w)
    ensures forall x :: x in r <==> InRange(x, w, sgn)
    ensures forall i, j :: 0 <= i < j < |r| ==> r[i] < r[j]
  {
    var lo := Lowest(w, sgn);
    assert sgn ==> Pow2(w) == 2 * Pow2(w - 1);
    var r := seq(Pow2(w), i => lo + i);
    assert forall x :: InRange(x, w, sgn) ==> r[x - lo] == x;
    r
  }

  /* --------------------------------------------------------- exhaustive */

  /** `res = op(a, b) & resmask`, then `res |= resext` when the operator is
      signed and bit `reswdth - 1` of `res` is set. `res` lies below
      `2^reswdth` and `resext` is `-2^reswdth`, which has no bit below
      `reswdth` set, so the `|` adds the two. */
  function ExactKey(kind: Module, sgn: bool, w: nat, a: int, b: int): (r: int)
    requires sgn ==> w >= 1
    ensures InRange(r, ResWidth(kind, w), sgn)
    ensures Low(r, ResWidth(kind, w)) == Low(Synthesis.Exact(kind, a, b), ResWidth(kind, w))
  {
    var rw := ResWidth(kind, w);
    var res := Low(Synthesis.Exact(kind, a, b), rw);
    LowOfShift(res, rw);
    if sgn && res / Pow2(rw - 1) == 1 then
      TopBit(res, rw);
      assert Pow2(rw) == 2 * Pow2(rw - 1);
      res - Pow2(rw)
    else
      assert sgn ==> res < Pow2(rw - 1) by { if sgn { TopBit(res, rw); } }
      res
  }

  /** The recomputed result is the emitted operators' output reduction,
      taken at the result width: for a multiplier, `2w` bits where the
      emitted class keeps `w`. */
  lemma ExactKeyIsOutput(kind: Module, sgn: bool, w: nat, a: int, b: int)
    requires sgn ==> w >= 1
    ensures ExactKey(kind, sgn, w, a, b)
      == Synthesis.Output(Synthesis.Exact(kind, a, b), ResWidth(kind, w), sgn)
  {
    Synthesis.OutputUnique(Synthesis.Exact(kind, a, b), ExactKey(kind, sgn, w, a, b), ResWidth(kind, w), sgn);
  }

  /** Two unsigned bits, `3 * 3`: the plot places the error at `9`, where
      the emitted multiplier returns `1`. */
  lemma ProductKeyIsWide()
    ensures ExactKey(Multiplier, false, 2, 3, 3) == 9
  {
    assert Pow2(4) == 16;
    DivModUnique(9, 16, 0, 9);
  }

  /** For every product the plot key keeps `2w` bits where the emitted
      multiplier keeps `w`: the emitted class returns the plot key plus
      the pair's error, reduced to `w` bits. */
  lemma ProductKeyVsCall<W>(op: Synthesis.Operator<W>, x: int, y: int, predict: (W, int) -> int)
    requires op.ExhaustiveOp? && op.kind == Multiplier && Synthesis.WellFormed(op)
    requires |op.errors| == Pow2(op.width)
    requires forall i :: 0 <= i < |op.errors| ==> |op.errors[i]| == Pow2(op.width)
    requires InRange(x, op.width, op.sgn) && InRange(y, op.width, op.sgn)
    ensures InRange(ExactKey(Multiplier, op.sgn, op.width, x, y), 2 * op.width, op.sgn)
    ensures 0 <= Low(x, op.width) < Pow2(op.width) && 0 <= Low(y, op.width) < Pow2(op.width)
    ensures Synthesis.Call(op, x, y, predict) == Ok(Synthesis.Output(
      ExactKey(Multiplier, op.sgn, op.width, x, y) + op.errors[Low(x, op.width)][Low(y, op.width)],
      op.width, op.sgn))
  {
    var w := op.width;
    var k := ExactKey(Multiplier, op.sgn, w, x, y);
    Synthesis.ExhaustiveCall(op, x, y, predict);
    var e := op.errors[Low(x, w)][Low(y, w)];
    LowOfWide(k, x * y, e, w);
    Synthesis.OutputUnique(k + e, Synthesis.Output(x * y + e, w, op.sgn), w, op.sgn);
  }

  /** `char.data[a & opmask][b & opmask]` */
  function ErrorAt(grid: seq<seq<int>>, a: int, b: int, w: nat): (r: Option<int>)
    ensures r.Some? <==> Low(a, w) < |grid| && Low(b, w) < |grid[Low(a, w)]|
  {
    var i, j := Low(a, w), Low(b, w);
    if i < |grid| && j < |grid[i]| then Some(grid[i][j]) else None
  }

  /** On a `2^w x 2^w` table no lookup fails. */
  lemma SquareLookup(grid: seq<seq<int>>, a: int, b: int, w: nat)
    requires |grid| == Pow2(w)
    requires forall i :: 0 <= i < |grid| ==> |grid[i]| == Pow2(w)
    ensures ErrorAt(grid, a, b, w).Some?
  {
  }

  /** One iteration of the inner loop: the recomputed result and the
      error of the pair. */
  function Record(c: Characterization, a: int, b: int): (r: Option<(int, int)>)
    requires c.data.Exhaustive? && Bounded(c)
    ensures r.Some? <==> ErrorAt(c.data.grid, a, b, c.width).Some?
    ensures r.Some? ==> InRange(r.value.0, ResWidth(c.kind, c.width), c.sgn)
  {
    match ErrorAt(c.data.grid, a, b, c.width)
    case None => None
    case Some(e) => Some((ExactKey(c.kind, c.sgn, c.width, a, b), e))
  }

  /** The inner loop over `ys` for one `a`. */
  function RowRecords(c: Characterization, a: int, ys: seq<int>): (r: Option<seq<(int, int)>>)
    requires c.data.Exhaustive? && Bounded(c)
    ensures r.Some? <==> forall j :: 0 <= j < |ys| ==> Record(c, a, ys[j]).Some?
    ensures r.Some? ==> |r.value| == |ys|
    ensures r.Some? ==> forall j :: 0 <= j < |ys| ==> r.value[j] == Record(c, a, ys[j]).value
    decreases |ys|
  {
    if |ys| == 0 then Some([])
    else
      match Record(c, a, ys[0])
      case None => None
      case Some(e) =>
        match RowRecords(c, a, ys[1..])
        case None => None
        case Some(rest) => Some([e] + rest)
  }

  /** Both loops: the records of every pair of `xs` and `ys`, `xs` major. */
  function AllRecords(c: Characterization, xs: seq<int>, ys: seq<int>): (r: Option<seq<(int, int)>>)
    requires c.data.Exhaustive? && Bounded(c)
    ensures r.Some? <==> forall i, j :: 0 <= i < |xs| && 0 <= j < |ys| ==> Record(c, xs[i], ys[j]).Some?
    ensures r.Some? ==> |r.value| == |xs| * |ys|
    ensures r.Some? ==> forall e :: e in r.value ==> InRange(e.0, ResWidth(c.kind, c.width), c.sgn)
    decreases |xs|
  {
    if |xs| == 0 then Some([])
    else
      match RowRecords(c, xs[0], ys)
      case None => None
      case Some(row) =>
        match AllRecords(c, xs[1..], ys)
        case None => None
        case Some(rest) =>
          Sweep.MulPred(|xs|, |ys|);
          assert forall e :: e in row ==> exists j :: 0 <= j < |ys| && e == Record(c, xs[0], ys[j]).value;
          Some(row + rest)
  }

  /** The record of every operand pair is among the records. */
  lemma {:induction false} AllRecordsHoldEveryPair(c: Characterization, xs: seq<int>, ys: seq<int>, i: nat, j: nat)
    requires c.data.Exhaustive? && Bounded(c) && AllRecords(c, xs, ys).Some?
    requires i < |xs| && j < |ys|
    ensures Record(c, xs[i], ys[j]).value in AllRecords(c, xs, ys).value
    decreases |xs|
  {
    var row := RowRecords(c, xs[0], ys).value;
    var rest := AllRecords(c, xs[1..], ys).value;
    assert AllRecords(c, xs, ys).value == row + rest;
    if i == 0 {
      assert row[j] == Record(c, xs[0], ys[j]).value;
    } else {
      AllRecordsHoldEveryPair(c, xs[1..], ys, i - 1, j);
      assert xs[1..][i - 1] == xs[i];
    }
  }

  /** What the two exhaustive plots are drawn from. */
  datatype ExhaustiveView = ExhaustiveView(
    errors: Dict<int, seq<int>>,  // `resdict` of the first plot
    counts: Dict<int, nat>,       // `resdict` of the second plot
    cnt: nat,
    paths: seq<string>)

  /** `./output/{name}/{prefix}{modname}.pdf` */
  function PlotPath(c: Characterization, prefix: string, ps: seq<Param>): string {
    "./output/" + c.name + "/" + prefix + ModName(c.kind, ps) + ".pdf"
  }

  /** `visualize_exhaustive(char, diffparams)` */
  function VisualizeExhaustive(c: Characterization, ps: seq<Param>): (r: Result<ExhaustiveView, VisError>)
    requires c.data.Exhaustive?
    ensures r == Err(FractionalBound) <==> !Bounded(c)
    ensures r.Err? ==> r.error in {FractionalBound, IndexOutOfRange}
    ensures r.Ok? ==> (Bounded(c)
      && Total(r.value.errors) == Pow2(c.width) * Pow2(c.width)
      && (forall k :: k in KeySet(r.value.errors) ==> InRange(k, ResWidth(c.kind, c.width), c.sgn))
      && Weight(r.value.counts) == r.value.cnt == |Flatten(c.data.grid)|
      && r.value.paths == [PlotPath(c, "mepr_", ps), PlotPath(c, "hist_", ps)])
    ensures r.Ok? ==> (AllRecords(c, OperandRange(c.width, c.sgn), OperandRange(c.width, c.sgn)).Some?
      && r.value.errors == GroupBy(AllRecords(c, OperandRange(c.width, c.sgn), OperandRange(c.width, c.sgn)).value))
    ensures r.Ok? ==> r.value.counts == Histogram(Flatten(c.data.grid))
  {
    if !Bounded(c) then Err(FractionalBound)
    else
      var rng := OperandRange(c.width, c.sgn);
      match AllRecords(c, rng, rng)
      case None => Err(IndexOutOfRange)
      case Some(records) =>
        var data := Flatten(c.data.grid);
        Ok(ExhaustiveView(GroupBy(records), Histogram(data), |data|,
          [PlotPath(c, "mepr_", ps), PlotPath(c, "hist_", ps)]))
  }

  /** For the table a decoded exhaustive characterization holds, every
      operand pair contributes exactly one error: the grouped lists and the
      histogram both count `2^(2w)` entries. */
  lemma ExhaustiveCounts(c: Characterization, ps: seq<Param>)
    requires c.data.Exhaustive? && Bounded(c)
    requires |c.data.grid| == Pow2(c.width)
    requires forall i :: 0 <= i < |c.data.grid| ==> |c.data.grid[i]| == Pow2(c.width)
    ensures VisualizeExhaustive(c, ps).Ok?
    ensures Total(VisualizeExhaustive(c, ps).value.errors) == Pow2(2 * c.width)
    ensures VisualizeExhaustive(c, ps).value.cnt == Pow2(2 * c.width)
  {
    var n: nat := c.width;
    SquareRecords(c);
    var v := VisualizeExhaustive(c, ps).value;
    FlattenLength(c.data.grid, Pow2(n));
    assert Total(v.errors) == Pow2(n) * Pow2(n) && v.cnt == Pow2(n) * Pow2(n);
    Pow2Double(n);
  }

  /** Every operand pair's error is listed under the pair's recomputed
      exact result. */
  lemma ExhaustiveErrorsGrouped(c: Characterization, ps: seq<Param>, a: int, b: int)
    requires c.data.Exhaustive? && VisualizeExhaustive(c, ps).Ok?
    requires Bounded(c) && InRange(a, c.width, c.sgn) && InRange(b, c.width, c.sgn)
    ensures ErrorAt(c.data.grid, a, b, c.width).Some?
    ensures var k := ExactKey(c.kind, c.sgn, c.width, a, b);
      Get(VisualizeExhaustive(c, ps).value.errors, k).Some?
      && ErrorAt(c.data.grid, a, b, c.width).value in Get(VisualizeExhaustive(c, ps).value.errors, k).value
  {
    var rng := OperandRange(c.width, c.sgn);
    var records := AllRecords(c, rng, rng).value;
    PairRecorded(c, a, b);
    var e := Record(c, a, b).value;
    ValuesOfMember(records, e);
    KeyOfMember(records, e);
  }

  lemma PairRecorded(c: Characterization, a: int, b: int)
    requires c.data.Exhaustive? && Bounded(c) && InRange(a, c.width, c.sgn) && InRange(b, c.width, c.sgn)
    requires AllRecords(c, OperandRange(c.width, c.sgn), OperandRange(c.width, c.sgn)).Some?
    ensures Record(c, a, b).Some?
    ensures Record(c, a, b).value in AllRecords(c, OperandRange(c.width, c.sgn), OperandRange(c.width, c.sgn)).value
  {
    var rng := OperandRange(c.width, c.sgn);
    var i, j := OperandAt(c.width, c.sgn, a), OperandAt(c.width, c.sgn, b);
    AllRecordsHoldEveryPair(c, rng, rng, i, j);
  }

  /** The position of an operand in `oprng`. */
  function OperandAt(w: nat, sgn: bool, x: int): (i: nat)
    requires (sgn ==> w >= 1) && InRange(x, w, sgn)
    ensures i < |OperandRange(w, sgn)| && OperandRange(w, sgn)[i] == x
  {
    assert sgn ==> Pow2(w) == 2 * Pow2(w - 1);
    x - Lowest(w, sgn)
  }

  lemma {:induction false} Pow2Double(n: nat)
    ensures Pow2(2 * n) == Pow2(n) * Pow2(n)
  {
    Pow2Add(n, n);
  }

  lemma SquareRecords(c: Characterization)
    requires c.data.Exhaustive? && Bounded(c)
    requires |c.data.grid| == Pow2(c.width)
    requires forall i :: 0 <= i < |c.data.grid| ==> |c.data.grid[i]| == Pow2(c.width)
    ensures AllRecords(c, OperandRange(c.width, c.sgn), OperandRange(c.width, c.sgn)).Some?
  {
    var rng := OperandRange(c.width, c.sgn);
    forall i, j | 0 <= i < |rng| && 0 <= j < |rng| ensures Record(c, rng[i], rng[j]).Some? {
      SquareLookup(c.data.grid, rng[i], rng[j], c.width);
    }
  }

  /* ---------------------------------------------------------- random 2D */

  /** `k if k < 2**(r-1) else k - 2**r`; for `r == 0` the bound
      `2**(-1)` is one half. */
  function WrapKey(k: int, r: nat): int {
    if (r >= 1 && k < Pow2(r - 1)) || (r == 0 && k <= 0) then k else k - Pow2(r)
  }

  /** On the `r`-bit patterns the wrap is the signed reading: a bijection
      onto the signed range. */
  lemma WrapKeyIsSignChange(k: int, r: nat)
    requires r >= 1 && 0 <= k < Pow2(r)
    ensures WrapKey(k, r) == SignChange(k, r)
    ensures InRange(WrapKey(k, r), r, true) && Low(WrapKey(k, r), r) == k
  {
    SignChangeBijection(r);
  }

  /** The horizontal positions of the first plot as written: every key
      wrapped, whatever the signedness. */
  function AxisKeysAsWritten(d: Dict<int, seq<Byte>>, r: nat): (ks: seq<int>)
    ensures |ks| == |d|
    ensures forall i :: 0 <= i < |d| ==> ks[i] == WrapKey(d[i].0, r)
  {
    seq(|d|, i requires 0 <= i < |d| => WrapKey(d[i].0, r))
  }

  /** As written, an unsigned result in the upper half of its range is
      drawn at a negative position, left of the axis, which starts at 0. */
  lemma UnsignedKeyLeavesAxis(d: Dict<int, seq<Byte>>, r: nat, i: nat)
    requires r >= 1 && i < |d| && Pow2(r - 1) <= d[i].0 < Pow2(r)
    ensures AxisKeysAsWritten(d, r)[i] < Xlim(r, false).0
  {
  }

  /** The horizontal positions, wrapped only for a signed operator, as the
      exhaustive and random 3D plots do. */
  function AxisKeys(d: Dict<int, seq<Byte>>, r: nat, sgn: bool): (ks: seq<int>)
    ensures |ks| == |d|
    ensures forall i :: 0 <= i < |d| ==> ks[i] == if sgn then WrapKey(d[i].0, r) else d[i].0
  {
    seq(|d|, i requires 0 <= i < |d| => if sgn then WrapKey(d[i].0, r) else d[i].0)
  }

  /** Every `r`-bit result lands inside the axis limits, in both
      signednesses, and distinct results stay apart. */
  lemma AxisKeysInLimits(d: Dict<int, seq<Byte>>, r: nat, sgn: bool, i: nat, j: nat)
    requires r >= 1 && i < |d| && j < |d|
    requires 0 <= d[i].0 < Pow2(r) && 0 <= d[j].0 < Pow2(r)
    ensures Xlim(r, sgn).0 <= AxisKeys(d, r, sgn)[i] <= Xlim(r, sgn).1
    ensures d[i].0 != d[j].0 ==> AxisKeys(d, r, sgn)[i] != AxisKeys(d, r, sgn)[j]
  {
    if sgn {
      WrapKeyIsSignChange(d[i].0, r);
      WrapKeyIsSignChange(d[j].0, r);
    }
  }

  /** The 8 bytes of an IEEE 754 double that compares equal to zero: `+0.0`
      or `-0.0`. */
  predicate IsZeroDouble(b: seq<Byte>) {
    |b| == 8 && (b[0] == 0 || b[0] == 0x80) && forall i :: 1 <= i < 8 ==> b[i] == 0
  }

  /** Bin 1 for a record whose mean error distance is not zero, bin 0
      otherwise. */
  function NonZeroBin(e: (int, seq<Byte>)): int {
    if IsZeroDouble(e.1) then 0 else 1
  }

  /** The histogram's input as written: `for v in char.data[res]` iterates
      over a `float`, which raises as soon as there is one record. */
  function HistogramDataAsWritten(d: Dict<int, seq<Byte>>): (r: Result<seq<seq<Byte>>, VisError>)
    ensures r.Ok? ==> r.value == []
  {
    if |d| == 0 then Ok([]) else Err(NotIterable)
  }

  lemma HistogramAlwaysRaises(d: Dict<int, seq<Byte>>)
    requires |d| > 0
    ensures HistogramDataAsWritten(d) == Err(NotIterable)
  {
  }

  /** The histogram's input as intended: the non-zero mean error
      distances, in key order. */
  function HistogramData(d: Dict<int, seq<Byte>>): (r: seq<seq<Byte>>)
    ensures |r| == |Pick(d, NonZeroBin, 1)|
    ensures forall i :: 0 <= i < |r| ==> r[i] == Pick(d, NonZeroBin, 1)[i].1
  {
    var kept := Pick(d, NonZeroBin, 1);
    seq(|kept|, i requires 0 <= i < |kept| => kept[i].1)
  }

  /** A record's payload reaches the histogram exactly when it is not
      zero; the records it leaves out are the zero ones, and together the
      two account for every record. */
  lemma HistogramDataKeepsNonZero(d: Dict<int, seq<Byte>>)
    ensures forall e :: e in Pick(d, NonZeroBin, 1) <==> e in d && !IsZeroDouble(e.1)
    ensures forall e :: e in Pick(d, NonZeroBin, 0) <==> e in d && IsZeroDouble(e.1)
    ensures |HistogramData(d)| + |Pick(d, NonZeroBin, 0)| == |d|
  {
    TallyAll(d, NonZeroBin, 2);
  }

  /** `1 << opwdth if opwdth <= 6 else 64` */
  function Bins(w: int): (r: Result<int, VisError>)
    ensures r.Ok? <==> w >= 0
    ensures r.Ok? ==> 1 <= r.value <= 64
  {
    if w < 0 then Err(NegativeShift)
    else if w <= 6 then
      assert Pow2(6) == 64;
      Pow2Mono(w, 6);
      Ok(Pow2(w))
    else Ok(64)
  }

  lemma {:induction false} Pow2Mono(a: nat, b: nat)
    requires a <= b
    ensures Pow2(a) <= Pow2(b)
    decreases b
  {
    if a < b { Pow2Mono(a, b - 1); }
  }

  /** What the two random 2D plots are drawn from. */
  datatype Random2DView = Random2DView(
    keys: seq<int>,
    meds: seq<seq<Byte>>,
    nonzero: seq<seq<Byte>>,
    bins: int,
    paths: seq<string>)

  /** `visualize_random2d(char, diffparams)`, with the axis positions
      wrapped only when signed and the histogram fed the non-zero mean
      error distances. */
  function VisualizeRandom2D(c: Characterization, ps: seq<Param>): (r: Result<Random2DView, VisError>)
    requires c.data.Random2D?
    ensures r.Err? <==> c.width < 0
    ensures r.Err? ==> r.error == NegativeShift
    ensures r.Ok? ==> (|r.value.keys| == |r.value.meds| == |c.data.meds|
      && (forall i :: 0 <= i < |c.data.meds| ==> r.value.meds[i] == c.data.meds[i].1)
      && r.value.keys == AxisKeys(c.data.meds, ResWidth(c.kind, c.width), c.sgn)
      && r.value.nonzero == HistogramData(c.data.meds)
      && r.value.bins == Bins(c.width).value && 1 <= r.value.bins <= 64
      && r.value.paths == [PlotPath(c, "mepr_", ps), PlotPath(c, "hist_", ps)])
  {
    if c.width < 0 then Err(NegativeShift)
    else
      var d := c.data.meds;
      var meds := seq(|d|, i requires 0 <= i < |d| => d[i].1);
      var bins := Bins(c.width).value;
      Ok(Random2DView(AxisKeys(d, ResWidth(c.kind, c.width), c.sgn), meds, HistogramData(d), bins,
        [PlotPath(c, "mepr_", ps), PlotPath(c, "hist_", ps)]))
  }

  /* ---------------------------------------------------------- random 3D */

  /** `dmnstep = 2**w // 4` */
  function Step(w: nat): (s: int)
    requires w >= 2
    ensures s == Pow2(w - 2) && 4 * s == Pow2(w)
  {
    assert Pow2(w) == 4 * Pow2(w - 2);
    Pow2(w) / 4
  }

  /** The interval `d` of an operand: `(x - opmin) // dmnstep`, or `-1`
      outside the operand range. */
  function Interval(x: int, w: nat, sgn: bool): (d: int)
    requires w >= 2
    ensures InRange(x, w, sgn) ==> 0 <= d < 4
  {
    if InRange(x, w, sgn) then
      var q := (x - Lowest(w, sgn)) / Step(w);
      assert Pow2(w) == 2 * Pow2(w - 1);
      assert q < 4 by { FloorBelow(x - Lowest(w, sgn), Step(w), 4); }
      q
    else -1
  }

  /** A quotient by `s` of a value below `n * s` is below `n`. */
  lemma FloorBelow(y: int, s: int, n: int)
    requires s >= 1 && 0 <= y < n * s
    ensures 0 <= y / s < n
  {
    var q := y / s;
    assert y == q * s + y % s;
    if q >= n { MulMono(q, n, s); }
  }

  /** The intervals `[opmin + d * step, opmin + (d + 1) * step)` tile the
      operand range: an operand lies in interval `d` exactly when it is in
      range and `Interval` names `d`. */
  lemma IntervalTiling(x: int, w: nat, sgn: bool, d: int)
    requires w >= 2 && 0 <= d < 4
    ensures Lowest(w, sgn) + d * Step(w) <= x < Lowest(w, sgn) + (d + 1) * Step(w)
      <==> InRange(x, w, sgn) && Interval(x, w, sgn) == d
  {
    var lo, s := Lowest(w, sgn), Step(w);
    assert Pow2(w) == 2 * Pow2(w - 1);
    if lo + d * s <= x < lo + (d + 1) * s {
      MulMono(d, 0, s);
      MulMono(4, d + 1, s);
      DivModUnique(x - lo, s, d, x - lo - d * s);
    }
    if InRange(x, w, sgn) && Interval(x, w, sgn) == d {
      DivModUnique(x - lo, s, (x - lo) / s, (x - lo) % s);
    }
  }

  /** For unsigned operands the plot's intervals are the emitted operator's
      domains; for signed operands interval `d` is domain `(d + 2) % 4`,
      because the domains follow the bit pattern and the intervals start
      at the most negative operand. */
  lemma IntervalIsDomain(x: int, w: nat, sgn: bool)
    requires w >= 2 && InRange(x, w, sgn)
    ensures Interval(x, w, sgn) == if sgn then (DomainIndex(x, w) + 2) % 4 else DomainIndex(x, w)
  {
    if !sgn {
      DomainIndexIsQuarter(x, w);
    } else if x >= 0 {
      IntervalUpperHalf(x, w);
    } else {
      IntervalLowerHalf(x, w);
    }
  }

  /** A non-negative signed operand lies in interval 2 or 3, its domain
      being 0 or 1. */
  lemma IntervalUpperHalf(x: int, w: nat)
    requires w >= 2 && 0 <= x < Pow2(w - 1)
    ensures Interval(x, w, true) == DomainIndex(x, w) + 2
  {
    var s := Step(w);
    assert Pow2(w) == 2 * Pow2(w - 1);
    assert x - Lowest(w, true) == x + 2 * s;
    DomainIndexIsQuarter(x, w);
    DivShift(x, s, 2);
  }

  /** A negative signed operand lies in interval 0 or 1, its bit pattern
      `x + 2^w` being in domain 2 or 3. */
  lemma IntervalLowerHalf(x: int, w: nat)
    requires w >= 2 && -Pow2(w - 1) <= x < 0
    ensures Interval(x, w, true) == DomainIndex(x, w) - 2
  {
    var s := Step(w);
    var k := x + Pow2(w);
    assert Pow2(w) == 2 * Pow2(w - 1);
    assert x - Lowest(w, true) == x + 2 * s;
    assert k == (x + 2 * s) + 2 * s;
    DomainIndexOfLow(x, w);
    LowOfShift(k, w);
    DomainIndexIsQuarter(k, w);
    DivShift(x + 2 * s, s, 2);
  }

  lemma DivShift(y: int, s: int, k: int)
    requires s >= 1
    ensures (y + k * s) / s == y / s + k
  {
    DivModUnique(y + k * s, s, y / s + k, y % s);
  }

  /** The operand keys the plot works with: read as signed `w`-bit values
      when signed (a later record wins when two keys meet), unchanged
      otherwise. */
  function PlotData(d: Dict<(int, int), int>, w: nat, sgn: bool): (r: Dict<(int, int), int>)
    requires sgn ==> w >= 1
    ensures !sgn ==> r == d
    ensures sgn ==> KeySet(r) == set k | k in KeySet(d) :: (SignChange(k.0, w), SignChange(k.1, w))
  {
    if sgn then
      var pairs := seq(|d|, i requires 0 <= i < |d| => ((SignChange(d[i].0.0, w), SignChange(d[i].0.1, w)), d[i].1));
      assert forall k :: k in KeySet(pairs) <==> k in set k | k in KeySet(d) :: (SignChange(k.0, w), SignChange(k.1, w)) by {
        forall k | k in KeySet(d) ensures (SignChange(k.0, w), SignChange(k.1, w)) in KeySet(pairs) {
          var i :| 0 <= i < |d| && d[i].0 == k;
          assert pairs[i].0 == (SignChange(k.0, w), SignChange(k.1, w));
        }
      }
      FromPairs(pairs)
    else d
  }

  /** The cell `4 * da + db` of a record, or `-1` when an operand lies
      outside the operand range and so in no interval. */
  function PairBin(w: nat, sgn: bool): (((int, int), int)) -> int
    requires w >= 2
  {
    (e: ((int, int), int)) =>
      if InRange(e.0.0, w, sgn) && InRange(e.0.1, w, sgn) then 4 * Interval(e.0.0, w, sgn) + Interval(e.0.1, w, sgn)
      else -1
  }

  /** `dmndata` of cell `(da, db)`, as records. */
  function PlotCell(d: Dict<(int, int), int>, w: nat, sgn: bool, da: int, db: int): seq<((int, int), int)>
    requires w >= 2
  {
    Pick(d, PairBin(w, sgn), 4 * da + db)
  }

  /** A cell holds exactly the records that the plotting code's interval
      test puts in it. */
  lemma PlotCellMembers(d: Dict<(int, int), int>, w: nat, sgn: bool, da: int, db: int, e: ((int, int), int))
    requires w >= 2 && 0 <= da < 4 && 0 <= db < 4
    ensures var lo, s := Lowest(w, sgn), Step(w);
      e in PlotCell(d, w, sgn, da, db) <==>
        (e in d && lo + da * s <= e.0.0 < lo + (da + 1) * s && lo + db * s <= e.0.1 < lo + (db + 1) * s)
  {
    PickMembers(d, PairBin(w, sgn), 4 * da + db);
    IntervalTiling(e.0.0, w, sgn, da);
    IntervalTiling(e.0.1, w, sgn, db);
  }

  /** When every operand is in range, the sixteen cells together hold every
      record once. */
  lemma PlotCellsPartition(d: Dict<(int, int), int>, w: nat, sgn: bool)
    requires w >= 2
    requires forall e :: e in d ==> InRange(e.0.0, w, sgn) && InRange(e.0.1, w, sgn)
    ensures Tally(d, PairBin(w, sgn), 16) == |d|
  {
    forall e | e in d ensures 0 <= PairBin(w, sgn)(e) < 16 {
    }
    TallyAll(d, PairBin(w, sgn), 16);
  }

  /** The smallest `int64`, `-2^63`. */
  const Int64Min: int := -0x8000_0000_0000_0000

  /** `np.abs` on an `int64` element: `-2^63` has no positive counterpart
      in 64 bits and comes back unchanged. */
  function Abs(v: int): int {
    if v < 0 && v != Int64Min then -v else v
  }

  /** On `int64` values `np.abs` stays an `int64`, and it is the magnitude
      exactly when the value is not `-2^63`. */
  lemma AbsInt64(v: int)
    requires IsInt64(v)
    ensures IsInt64(Abs(v))
    ensures Abs(v) >= 0 <==> v != Int64Min
    ensures v != Int64Min ==> Abs(v) == if v < 0 then -v else v
  {
    assert Pow256(8) / 2 == -Int64Min by { Pow256Eight(); }
  }

  lemma Pow256Eight()
    ensures Pow256(8) == 0x1_0000_0000_0000_0000
  {
    assert Pow256(2) == 0x1_0000;
    assert Pow256(4) == 0x1_0000_0000;
    assert Pow256(8) == 0x1_0000_0000_0000_0000;
  }

  /** `sum(np.abs(dmndata))`, summed without wrapping as `np.mean` does in
      floating point. */
  function AbsSum(es: seq<((int, int), int)>): (s: int)
    ensures |es| == 0 ==> s == 0
    ensures (forall i :: 0 <= i < |es| ==> es[i].1 != Int64Min) ==> s >= 0
    decreases |es|
  {
    if |es| == 0 then 0 else AbsSum(es[..|es| - 1]) + Abs(es[|es| - 1].1)
  }

  /** A cell whose only record has error `-2^63` has a negative mean
      absolute error. */
  lemma Int64MinCellMean(k: (int, int))
    ensures AbsMean([(k, Int64Min)]) == Some(Synthesis.Mean(Int64Min, 1))
  {
    assert [(k, Int64Min)][..0] == [];
  }

  /** `np.mean(np.abs(dmndata))`: `None` stands for the `nan` of an empty
      cell. */
  predicate IsAbsMean(cell: seq<((int, int), int)>, m: Option<Synthesis.Mean>) {
    if |cell| == 0 then m.None? else m == Some(Synthesis.Mean(AbsSum(cell), |cell|))
  }

  function AbsMean(cell: seq<((int, int), int)>): (m: Option<Synthesis.Mean>)
    ensures IsAbsMean(cell, m)
  {
    if |cell| == 0 then None else Some(Synthesis.Mean(AbsSum(cell), |cell|))
  }

  /** What the random 3D plot is drawn from. */
  datatype Random3DView = Random3DView(cells: seq<seq<Option<Synthesis.Mean>>>, paths: seq<string>)

  /** `visualize_random3d(char, diffparams)`. Below two bits the step is 0,
      every interval is empty and every cell is `nan`. */
  function VisualizeRandom3D(c: Characterization, ps: seq<Param>): (r: Random3DView)
    requires c.data.Random3D?
    ensures |r.cells| == 4 && forall i :: 0 <= i < 4 ==> |r.cells[i]| == 4
    ensures c.width < 2 ==> forall i, j :: 0 <= i < 4 && 0 <= j < 4 ==> r.cells[i][j].None?
    ensures c.width >= 2 ==> forall i, j :: 0 <= i < 4 && 0 <= j < 4 ==>
      IsAbsMean(PlotCell(PlotData(c.data.results, c.width, c.sgn), c.width, c.sgn, i, j), r.cells[i][j])
    ensures r.paths == [PlotPath(c, "med_", ps)]
  {
    if c.width < 2 then
      Random3DView(seq(4, _ => seq(4, _ => None)), [PlotPath(c, "med_", ps)])
    else
      var d := PlotData(c.data.results, c.width, c.sgn);
      var cells := seq(4, i => seq(4, j => AbsMean(PlotCell(d, c.width, c.sgn, i, j))));
      Random3DView(cells, [PlotPath(c, "med_", ps)])
  }

  /* ---------------------------------------------------------- visualize */

  /** The plots of one result. */
  function VisualizeOne(c: Characterization, ps: seq<Param>): (r: Result<seq<string>, VisError>)
    ensures r.Ok? ==> |r.value| == PlotCount(c)
  {
    match c.data
    case Exhaustive(_) =>
      (match VisualizeExhaustive(c, ps)
       case Err(e) => Err(e)
       case Ok(v) => Ok(v.paths))
    case Random2D(_) =>
      (match VisualizeRandom2D(c, ps)
       case Err(e) => Err(e)
       case Ok(v) => Ok(v.paths))
    case Random3D(_) => Ok(VisualizeRandom3D(c, ps).paths)
  }

  /** Two plots for an exhaustive or random 2D result, one for a random 3D
      result. */
  function PlotCount(c: Characterization): nat {
    if c.data.Random3D? then 1 else 2
  }

  function PlotCounts(chars: seq<Characterization>): nat
    decreases |chars|
  {
    if |chars| == 0 then 0 else PlotCount(chars[0]) + PlotCounts(chars[1..])
  }

  function VisualizeAll(chars: seq<Characterization>, idx: seq<nat>): (r: Result<seq<string>, VisError>)
    requires forall k, j :: 0 <= k < |chars| && 0 <= j < |idx| ==> idx[j] < |chars[k].params|
    ensures r.Ok? ==> |r.value| == PlotCounts(chars)
    ensures r.Ok? <==> forall k :: 0 <= k < |chars| ==> VisualizeOne(chars[k], DiffParams(chars[k], idx)).Ok?
    decreases |chars|
  {
    if |chars| == 0 then Ok([])
    else
      var first :- VisualizeOne(chars[0], DiffParams(chars[0], idx));
      var rest :- VisualizeAll(chars[1..], idx);
      Ok(first + rest)
  }

  /** `visualize(chars)`: `None` for an empty batch; otherwise the paths of
      every plot, two per exhaustive or random 2D result and one per random
      3D result, named after the same varying parameters as `funcgen`
      uses; or the first exception a plot raises. */
  function Visualize(chars: seq<Characterization>): (r: Result<Option<seq<string>>, VisError>)
    requires Indexable(chars)
    ensures r == Ok(None) <==> |chars| == 0
    ensures r.Ok? && r.value.Some? ==> |r.value.value| == PlotCounts(chars)
    ensures |chars| > 0 ==> (r.Ok? <==> forall k :: 0 <= k < |chars| ==>
      VisualizeOne(chars[k], DiffParams(chars[k], DiffIndices(chars))).Ok?)
  {
    if |chars| == 0 then Ok(None)
    else
      var ps :- VisualizeAll(chars, DiffIndices(chars));
      Ok(Some(ps))
  }
}
