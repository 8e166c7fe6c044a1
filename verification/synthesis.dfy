/** `funcgen` and the three generators of emixa/function.py. Each generator
    turns a characterization into a Python class whose `__add__` (adder) or
    `__mul__` (multiplier) imitates the approximate operator. The model
    keeps what the emitted class is meant to compute, not its source text
    (as written, the class reads its table through a mangled name and every
    in-range call raises `NameError`; see `CallAsWritten`):
    - exhaustive: the exact result plus the recorded error of the operand
      pair, masked to `w` bits;
    - random 2D: the exact result plus a per-domain linear prediction of the
      error; the regression is a parameter (`fit`, `predict`);
    - random 3D: the exact result plus the mean error of the operands' 4 x 4
      domain cell, the mean kept as an exact fraction.
    Every output is masked to `w` bits and, for a signed operator,
    sign-extended from bit `w - 1`. */
module Synthesis {
  import opened Wrappers
  import opened BigEndian
  import opened PyDict
  import opened Results
  import opened TwosComplement
  import opened Grouping
  import opened Batch

  /** Exceptions raised while generating a class: a negative shift count
      (`ValueError`), a regression that refuses its samples, and the
      `ZeroDivisionError` of the mean of an empty random 3D cell. */
  datatype SynthError =
    | NegativeShift
    | FitFailed(dom: int)
    | EmptyCell(adom: int, bdom: int)

  /** Exceptions the emitted class raises when called: the operand
      assertion, a list index out of range, the negative shift a random
      class narrower than two bits performs, and the `NameError` of a table
      read through its mangled name. */
  datatype CallError = OutOfRange | BadIndex | ShiftAtCall | UnboundTable

  type Pos = n: int | n >= 1 witness 1

  /** A random 3D cell's mean error `sum / count`, kept exact. */
  datatype Mean = Mean(sum: int, count: Pos)

  /** An emitted class: the module, signedness, width and the table it
      embeds (`__errors`, `__model_weights` or `__meds`). */
  datatype Operator<W> =
    | ExhaustiveOp(kind: Module, sgn: bool, width: nat, errors: seq<seq<int>>)
    | Random2DOp(kind: Module, sgn: bool, width: nat, weights: seq<W>)
    | Random3DOp(kind: Module, sgn: bool, width: nat, meds: seq<seq<Mean>>)

  /** The generators only build classes whose bounds exist: a signed class
      has at least one bit. */
  predicate WellFormed<W>(op: Operator<W>) {
    op.sgn ==> op.width >= 1
  }

  /* ------------------------------------------------------ integer kernel */

  /** The operand reaching the `w`-bit pattern `p`: `p` itself, or its
      signed reading. */
  function Operand(p: int, w: nat, sgn: bool): int
    requires sgn ==> w >= 1
    requires 0 <= p < Pow2(w)
  {
    if sgn then SignChange(p, w) else p
  }

  /** Equal low `w` bits and a distance below `2^w` mean equal numbers. */
  lemma LowInjective(x: int, y: int, w: nat)
    requires Low(x, w) == Low(y, w)
    requires -Pow2(w) < x - y < Pow2(w)
    ensures x == y
  {
    if x >= y {
      LowInjectiveOrdered(x, y, w);
    } else {
      LowInjectiveOrdered(y, x, w);
    }
  }

  lemma LowInjectiveOrdered(x: int, y: int, w: nat)
    requires Low(x, w) == Low(y, w)
    requires 0 <= x - y < Pow2(w)
    ensures x == y
  {
    ModInjective(x, y, Pow2(w));
  }

  lemma ModInjective(x: int, y: int, m: int)
    requires m >= 1 && x % m == y % m && 0 <= x - y < m
    ensures x == y
  {
    var q, r, t := x / m, x % m, x - y;
    if t <= r {
      DivModUnique(y, m, q, r - t);
    } else {
      assert (q - 1) * m == q * m - m;
      DivModUnique(y, m, q - 1, m + r - t);
    }
  }

  /** The operands a class accepts (`__min <= x <= __max`) hold one
      representative of each `w`-bit pattern: `Low` is one-to-one on them
      and reaches every pattern. So `2^w` operands meet the `2^w` rows of
      an error table, and the sign extension that closes every operator
      picks the one representative of its masked result. */
  lemma OperandPatterns(w: nat, sgn: bool)
    requires sgn ==> w >= 1
    ensures forall x, y :: InRange(x, w, sgn) && InRange(y, w, sgn) && Low(x, w) == Low(y, w) ==> x == y
    ensures forall p :: 0 <= p < Pow2(w) ==> InRange(Operand(p, w, sgn), w, sgn) && Low(Operand(p, w, sgn), w) == p
  {
    if sgn {
      assert Pow2(w) == 2 * Pow2(w - 1);
      SignChangeBijection(w);
    }
    forall x, y | InRange(x, w, sgn) && InRange(y, w, sgn) && Low(x, w) == Low(y, w) ensures x == y {
      if sgn { assert Pow2(w) == 2 * Pow2(w - 1); }
      LowInjective(x, y, w);
    }
    forall p | 0 <= p < Pow2(w) ensures InRange(Operand(p, w, sgn), w, sgn) && Low(Operand(p, w, sgn), w) == p {
      if !sgn { LowOfShift(p, w); }
    }
  }

  /** The closing `pos = v & __mask`, followed by `sext | pos` when signed:
      a result in the operator's range congruent to `v` modulo `2^w`. */
  function Output(v: int, w: nat, sgn: bool): (r: int)
    requires sgn ==> w >= 1
    ensures InRange(r, w, sgn)
    ensures Low(r, w) == Low(v, w)
  {
    var pos := Low(v, w);
    if sgn then SignExtend(pos, w) else (LowOfShift(pos, w); pos)
  }

  /** Only one value has both properties: the output is the representative
      of `v` in the operator's range. */
  lemma OutputUnique(v: int, r: int, w: nat, sgn: bool)
    requires sgn ==> w >= 1
    requires InRange(r, w, sgn) && Low(r, w) == Low(v, w)
    ensures r == Output(v, w, sgn)
  {
    OperandPatterns(w, sgn);
  }

  /** `x + y` or `x * y` */
  function Exact(kind: Module, x: int, y: int): int {
    match kind
    case Adder => x + y
    case Multiplier => x * y
  }

  /** `s[i]` with Python's negative indexing. */
  function PyIndex<T>(s: seq<T>, i: int): (r: Option<T>)
    ensures r.Some? <==> -|s| <= i < |s|
  {
    if 0 <= i < |s| then Some(s[i])
    else if -|s| <= i < 0 then Some(s[|s| + i])
    else None
  }

  /** On a list of `2^w` entries, an accepted operand, negative or not,
      reads the entry of its `w`-bit pattern. */
  lemma PyIndexOfPattern<T>(s: seq<T>, x: int, w: nat, sgn: bool)
    requires sgn ==> w >= 1
    requires |s| == Pow2(w) && InRange(x, w, sgn)
    ensures PyIndex(s, x) == Some(s[Low(x, w)])
  {
    if sgn { assert Pow2(w) == 2 * Pow2(w - 1); }
    if x < 0 {
      LowOfShift(x + Pow2(w), w);
    } else {
      LowOfShift(x, w);
    }
  }

  /** `int(n / d)` for exact rationals: division truncated toward zero. */
  function TruncDiv(n: int, d: Pos): (q: int)
    ensures n >= 0 ==> 0 <= q * d <= n < q * d + d
    ensures n < 0 ==> n <= q * d < n + d && q <= 0
  {
    if n >= 0 then
      FloorBounds(n, d);
      n / d
    else
      FloorBounds(-n, d);
      assert (-((-n) / d)) * d == -(((-n) / d) * d);
      -((-n) / d)
  }

  lemma FloorBounds(n: int, d: int)
    requires n >= 0 && d >= 1
    ensures 0 <= (n / d) * d <= n < (n / d) * d + d && n / d >= 0
  {
    MulMono(n / d, 0, d);
  }

  /** What the emitted `__add__` or `__mul__` returns for `x` and `y`. The
      random 2D class evaluates its linear model through `predict`, which
      stands for `int(wghts[0] * exact + wghts[1])`. */
  function Call<W>(op: Operator<W>, x: int, y: int, predict: (W, int) -> int): (r: Result<int, CallError>)
    requires WellFormed(op)
    ensures r.Ok? ==> InRange(r.value, op.width, op.sgn)
    ensures r == Err(OutOfRange) <==> !(InRange(x, op.width, op.sgn) && InRange(y, op.width, op.sgn))
  {
    var w := op.width;
    if !(InRange(x, w, op.sgn) && InRange(y, w, op.sgn)) then Err(OutOfRange)
    else
      match op
      case ExhaustiveOp(kind, sgn, _, errors) =>
        (match PyIndex(errors, x)
         case None => Err(BadIndex)
         case Some(row) =>
           (match PyIndex(row, y)
            case None => Err(BadIndex)
            case Some(e) => Ok(Output(Exact(kind, x, y) + e, w, sgn))))
      case Random2DOp(kind, sgn, _, weights) =>
        if w < 2 then Err(ShiftAtCall)
        else
          var exact := Low(Exact(kind, x, y), w);
          var d := DomainIndex(exact, w);
          if d >= |weights| then Err(BadIndex)
          else Ok(Output(exact + predict(weights[d], exact), w, sgn))
      case Random3DOp(kind, sgn, _, meds) =>
        if w < 2 then Err(ShiftAtCall)
        else
          var exact := Low(Exact(kind, x, y), w);
          var a, b := DomainIndex(x, w), DomainIndex(y, w);
          if a >= |meds| || b >= |meds[a]| then Err(BadIndex)
          else
            var m := meds[a][b];
            Ok(Output(TruncDiv(exact * m.count + m.sum, m.count), w, sgn))
  }

  /* --------------------------------------------------------- exhaustive */

  /** `gen_exhaustive`: the class embeds the error table unchanged. Its
      bounds need `1 << w` and, when signed, `1 << (w - 1)`. */
  function GenExhaustive<W>(c: Characterization): (r: Result<Operator<W>, SynthError>)
    requires c.data.Exhaustive?
    ensures r.Ok? <==> c.width >= 0 && (c.sgn ==> c.width >= 1)
    ensures r.Err? ==> r.error == NegativeShift
    ensures r.Ok? ==> (WellFormed(r.value) && r.value.ExhaustiveOp?
      && r.value.errors == c.data.grid && r.value.width == c.width
      && r.value.sgn == c.sgn && r.value.kind == c.kind)
  {
    if c.width < 0 || (c.sgn && c.width == 0) then Err(NegativeShift)
    else Ok(ExhaustiveOp(c.kind, c.sgn, c.width, c.data.grid))
  }

  /** On a `2^w x 2^w` table, the emitted exhaustive operator returns
      `x op y + errors[x][y]` reduced to the operator's range, where a
      negative operand selects the row or column of its `w`-bit pattern. */
  lemma ExhaustiveCall<W>(op: Operator<W>, x: int, y: int, predict: (W, int) -> int)
    requires op.ExhaustiveOp? && WellFormed(op)
    requires |op.errors| == Pow2(op.width)
    requires forall i :: 0 <= i < |op.errors| ==> |op.errors[i]| == Pow2(op.width)
    requires InRange(x, op.width, op.sgn) && InRange(y, op.width, op.sgn)
    ensures 0 <= Low(x, op.width) < Pow2(op.width) && 0 <= Low(y, op.width) < Pow2(op.width)
    ensures Call(op, x, y, predict) ==
      Ok(Output(Exact(op.kind, x, y) + op.errors[Low(x, op.width)][Low(y, op.width)], op.width, op.sgn))
  {
    var w := op.width;
    PyIndexOfPattern(op.errors, x, w, op.sgn);
    PyIndexOfPattern(op.errors[Low(x, w)], y, w, op.sgn);
  }

  /* ------------------------------------------- the table's mangled name */

  /** The module-level name each generator gives its table. */
  function TableName<W>(op: Operator<W>): string {
    match op
    case ExhaustiveOp(_, _, _, _) => "__errors"
    case Random2DOp(_, _, _, _) => "__model_weights"
    case Random3DOp(_, _, _, _) => "__meds"
  }

  /** `cls.lstrip('_')` */
  function StripUnderscores(cls: string): (t: string)
    ensures |t| <= |cls| && t == cls[|cls| - |t|..]
    ensures |t| > 0 ==> t[0] != '_'
    ensures |cls| > 0 && cls[0] != '_' ==> t == cls
    decreases |cls|
  {
    if |cls| > 0 && cls[0] == '_' then StripUnderscores(cls[1..]) else cls
  }

  /** Python's private-name mangling: inside `class cls`, an identifier that
      starts with two underscores and does not end with two is looked up as
      `_` + `cls.lstrip('_')` + identifier, unless the class name is all
      underscores. It applies to global names as well as attributes. */
  function Mangle(cls: string, id: string): string {
    var bare := StripUnderscores(cls);
    if |id| >= 2 && id[..2] == "__" && id[|id| - 2..] != "__" && |bare| > 0 then "_" + bare + id
    else id
  }

  /** A private name inside a class whose name is not all underscores
      never mangles to itself. */
  lemma MangleRenames(cls: string, id: string)
    requires |id| >= 2 && id[..2] == "__" && id[|id| - 2..] != "__"
    requires |StripUnderscores(cls)| > 0
    ensures Mangle(cls, id) != id
  {
    var m := Mangle(cls, id);
    assert m[1] == StripUnderscores(cls)[0] != '_';
    assert id[1] == id[..2][1] == '_';
  }

  /** `__add__` or `__mul__` as written: after the operand assertion the
      method reads its table through the mangled name, while the module
      defines only the unmangled one, so the read raises `NameError`
      before any shift or index. Only a class name that mangles nothing
      would reach the intended computation, `Call`. */
  function CallAsWritten<W>(op: Operator<W>, cls: string, x: int, y: int, predict: (W, int) -> int)
    : (r: Result<int, CallError>)
    requires WellFormed(op)
    ensures r == Err(OutOfRange) <==> !(InRange(x, op.width, op.sgn) && InRange(y, op.width, op.sgn))
    ensures r.Ok? ==> r == Call(op, x, y, predict)
  {
    if !(InRange(x, op.width, op.sgn) && InRange(y, op.width, op.sgn)) then Err(OutOfRange)
    else if Mangle(cls, TableName(op)) != TableName(op) then Err(UnboundTable)
    else Call(op, x, y, predict)
  }

  /** As written, every call of an emitted class whose operands pass the
      assertion raises `NameError`: its name `modname` starts with the
      module name, so every table name is mangled. */
  lemma CallAlwaysRaises<W>(op: Operator<W>, ps: seq<Param>, x: int, y: int, predict: (W, int) -> int)
    requires WellFormed(op)
    requires InRange(x, op.width, op.sgn) && InRange(y, op.width, op.sgn)
    ensures CallAsWritten(op, ModName(op.kind, ps), x, y, predict) == Err(UnboundTable)
  {
    var cls := ModName(op.kind, ps);
    assert cls[0] == 'a' || cls[0] == 'm';
    var id := TableName(op);
    assert id[..2] == "__";
    MangleRenames(cls, id);
  }

  /** An unsigned 2-bit adder with an all-zero table: the intended class
      gives `1 + 2 == 3`, the class as written raises. */
  lemma AdderCallRaises(predict: (int, int) -> int)
    ensures Call(ExhaustiveOp(Adder, false, 2, seq(4, _ => [0, 0, 0, 0])), 1, 2, predict) == Ok(3)
    ensures CallAsWritten(ExhaustiveOp(Adder, false, 2, seq(4, _ => [0, 0, 0, 0])), "adder", 1, 2, predict)
      == Err(UnboundTable)
  {
    var op: Operator<int> := ExhaustiveOp(Adder, false, 2, seq(4, _ => [0, 0, 0, 0]));
    assert Pow2(2) == 4;
    ExhaustiveCall(op, 1, 2, predict);
    DivModUnique(3, 4, 0, 3);
    DivModUnique(1, 4, 0, 1);
    DivModUnique(2, 4, 0, 2);
    MangleRenames("adder", "__errors");
  }

  /** With an all-zero table the emitted operator is exact `w`-bit
      arithmetic: its result is the one in range congruent to `x op y`. */
  lemma ZeroErrorsExact<W>(op: Operator<W>, x: int, y: int, predict: (W, int) -> int)
    requires op.ExhaustiveOp? && WellFormed(op)
    requires |op.errors| == Pow2(op.width)
    requires forall i :: 0 <= i < |op.errors| ==> |op.errors[i]| == Pow2(op.width)
    requires forall i, j :: 0 <= i < |op.errors| && 0 <= j < |op.errors[i]| ==> op.errors[i][j] == 0
    requires InRange(x, op.width, op.sgn) && InRange(y, op.width, op.sgn)
    ensures Call(op, x, y, predict).Ok?
    ensures Low(Call(op, x, y, predict).value, op.width) == Low(Exact(op.kind, x, y), op.width)
  {
    ExhaustiveCall(op, x, y, predict);
  }

  /** The emitted multiplier keeps only `w` bits of the product: with a
      zero table, `3 * 3` on two unsigned bits gives `1`. */
  lemma MultiplierKeepsLowBits(predict: (int, int) -> int)
    ensures Call(ExhaustiveOp(Multiplier, false, 2, seq(4, _ => [0, 0, 0, 0])), 3, 3, predict) == Ok(1)
  {
    var op: Operator<int> := ExhaustiveOp(Multiplier, false, 2, seq(4, _ => [0, 0, 0, 0]));
    assert Pow2(2) == 4;
    ExhaustiveCall(op, 3, 3, predict);
    DivModUnique(3, 4, 0, 3);
    DivModUnique(9, 4, 2, 1);
  }

  /* ---------------------------------------------------------- random 2D */

  /** The domain of a random 2D record: the two bits below bit `w` of its
      result (`(k >> (w - 2)) & 3`). */
  function SegmentOf(w: int): ((int, seq<Byte>)) -> int {
    (e: (int, seq<Byte>)) => if w >= 2 then DomainIndex(e.0, w) else 0
  }

  /** The records of domain `dom`, in key order (`xs` of `gen_random2d`). */
  function Segment(d: Dict<int, seq<Byte>>, w: int, dom: int): seq<(int, seq<Byte>)> {
    if w < 2 then [] else Pick(d, SegmentOf(w), dom)
  }

  /** A segment holds exactly the records whose result lies in its domain. */
  lemma SegmentMembers(d: Dict<int, seq<Byte>>, w: int, dom: int, e: (int, seq<Byte>))
    requires w >= 2
    ensures e in Segment(d, w, dom) <==> e in d && DomainIndex(e.0, w) == dom
  {
    PickMembers(d, SegmentOf(w), dom);
  }

  /** Every record falls into exactly one of the four domains, so the four
      segments together hold every record once. */
  lemma SegmentsPartition(d: Dict<int, seq<Byte>>, w: int)
    requires w >= 2
    ensures |Segment(d, w, 0)| + |Segment(d, w, 1)| + |Segment(d, w, 2)| + |Segment(d, w, 3)| == |d|
  {
    TallyAll(d, SegmentOf(w), 4);
  }

  /** The regression of each domain in turn, from `dom` on; the first
      domain whose fit fails ends the loop. */
  function FitAll<W>(d: Dict<int, seq<Byte>>, w: int, fit: seq<(int, seq<Byte>)> -> Option<W>, dom: nat)
    : (r: Result<seq<W>, SynthError>)
    requires dom <= 4
    ensures r.Ok? ==> |r.value| == 4 - dom
    ensures r.Ok? ==> forall j :: 0 <= j < |r.value| ==> fit(Segment(d, w, dom + j)) == Some(r.value[j])
    ensures r.Ok? <==> forall j :: dom <= j < 4 ==> fit(Segment(d, w, j)).Some?
    ensures r.Err? ==> r.error.FitFailed? && dom <= r.error.dom < 4 && fit(Segment(d, w, r.error.dom)).None?
    decreases 4 - dom
  {
    if dom == 4 then Ok([])
    else
      match fit(Segment(d, w, dom))
      case None => Err(FitFailed(dom))
      case Some(m) =>
        var rest :- FitAll(d, w, fit, dom + 1);
        Ok([m] + rest)
  }

  /** `gen_random2d`: fit one model per domain, then compute the bounds. A
      key can only be shifted by `w - 2` when `w >= 2`. */
  function GenRandom2D<W>(c: Characterization, fit: seq<(int, seq<Byte>)> -> Option<W>)
    : (r: Result<Operator<W>, SynthError>)
    requires c.data.Random2D?
    ensures c.width < 2 && |c.data.meds| > 0 ==> r == Err(NegativeShift)
    ensures r.Ok? ==> (WellFormed(r.value) && r.value.Random2DOp? && |r.value.weights| == 4
      && r.value.width == c.width && r.value.sgn == c.sgn && r.value.kind == c.kind
      && forall j :: 0 <= j < 4 ==> fit(Segment(c.data.meds, c.width, j)) == Some(r.value.weights[j]))
  {
    var d := c.data.meds;
    if c.width < 2 && |d| > 0 then Err(NegativeShift)
    else
      var ws :- FitAll(d, c.width, fit, 0);
      if c.width < 0 || (c.sgn && c.width == 0) then Err(NegativeShift)
      else Ok(Random2DOp(c.kind, c.sgn, c.width, ws))
  }

  /** The emitted random 2D operator looks its model up with the same shift
      and mask as synthesis: the weights applied to an exact result are
      those fitted on its domain, the segment that holds the records of
      that result (`SegmentMembers`). */
  lemma Random2DLookup<W>(c: Characterization, fit: seq<(int, seq<Byte>)> -> Option<W>,
                          x: int, y: int, predict: (W, int) -> int)
    requires c.data.Random2D? && GenRandom2D(c, fit).Ok? && c.width >= 2
    requires InRange(x, c.width, c.sgn) && InRange(y, c.width, c.sgn)
    ensures var op := GenRandom2D(c, fit).value;
      var exact := Low(Exact(c.kind, x, y), c.width);
      var dom := DomainIndex(exact, c.width);
      Call(op, x, y, predict) == Ok(Output(exact + predict(op.weights[dom], exact), c.width, c.sgn))
      && fit(Segment(c.data.meds, c.width, dom)) == Some(op.weights[dom])
  {
  }

  /* ---------------------------------------------------------- random 3D */

  /** The cell of a random 3D record: `4 * adom + bdom` for the domains of
      its two operands. */
  function CellOf(w: int): (((int, int), int)) -> int {
    (e: ((int, int), int)) => if w >= 2 then 4 * DomainIndex(e.0.0, w) + DomainIndex(e.0.1, w) else 0
  }

  /** The records whose operands lie in domains `a` and `b` (`keys` of
      `gen_random3d`), in key order. */
  function Cell(d: Dict<(int, int), int>, w: int, a: int, b: int): seq<((int, int), int)> {
    if w < 2 then [] else Pick(d, CellOf(w), 4 * a + b)
  }

  /** A cell holds exactly the records whose first operand lies in domain
      `a` and whose second lies in domain `b`. */
  lemma CellMembers(d: Dict<(int, int), int>, w: int, a: int, b: int, e: ((int, int), int))
    requires w >= 2 && 0 <= a < 4 && 0 <= b < 4
    ensures e in Cell(d, w, a, b) <==> e in d && DomainIndex(e.0.0, w) == a && DomainIndex(e.0.1, w) == b
  {
    PickMembers(d, CellOf(w), 4 * a + b);
  }

  lemma CellIsPick(d: Dict<(int, int), int>, w: int, a: int, b: int)
    requires w >= 2
    ensures Cell(d, w, a, b) == Pick(d, CellOf(w), 4 * a + b)
  {
  }

  /** Every record falls into one of the sixteen cells. */
  lemma CellsInRange(d: Dict<(int, int), int>, w: int)
    requires w >= 2
    ensures forall e :: e in d ==> 0 <= CellOf(w)(e) < 16
  {
  }

  /** `sum(ress)` */
  function Sum(es: seq<((int, int), int)>): int
    decreases |es|
  {
    if |es| == 0 then 0 else Sum(es[..|es| - 1]) + es[|es| - 1].1
  }

  /** `m` is `sum(ress) / len(ress)` of the records of `cell`. */
  predicate IsMean(cell: seq<((int, int), int)>, m: Mean) {
    m.count == |cell| && m.sum == Sum(cell)
  }

  /** The records of each cell, by domain pair. */
  type Cells = (int, int) -> seq<((int, int), int)>

  function CellsOf(d: Dict<(int, int), int>, w: int): Cells {
    (a: int, b: int) => Cell(d, w, a, b)
  }

  /** Row `a` of `meds`, from column `b` on. */
  function MedRow(cells: Cells, a: nat, b: nat): (r: Result<seq<Mean>, SynthError>)
    requires b <= 4
    ensures r.Ok? ==> |r.value| == 4 - b
    ensures r.Ok? ==> forall j :: 0 <= j < |r.value| ==> IsMean(cells(a, b + j), r.value[j])
    ensures r.Ok? <==> forall j :: b <= j < 4 ==> |cells(a, j)| > 0
    ensures r.Err? ==> (r.error.EmptyCell? && r.error.adom == a && b <= r.error.bdom < 4
      && |cells(a, r.error.bdom)| == 0)
    decreases 4 - b
  {
    if b == 4 then Ok([])
    else
      var cell := cells(a, b);
      if |cell| == 0 then Err(EmptyCell(a, b))
      else
        var rest :- MedRow(cells, a, b + 1);
        Ok([Mean(Sum(cell), |cell|)] + rest)
  }

  /** `meds` from row `a` on: the mean of every cell, or the first cell, in
      row-major order, that holds no record. */
  function MedTable(cells: Cells, a: nat): (r: Result<seq<seq<Mean>>, SynthError>)
    requires a <= 4
    ensures r.Ok? ==> |r.value| == 4 - a
    ensures r.Ok? ==> forall i :: 0 <= i < |r.value| ==>
      |r.value[i]| == 4 && forall j :: 0 <= j < 4 ==> IsMean(cells(a + i, j), r.value[i][j])
    ensures r.Ok? <==> forall i, j :: a <= i < 4 && 0 <= j < 4 ==> |cells(i, j)| > 0
    ensures r.Err? ==> (r.error.EmptyCell? && a <= r.error.adom < 4 && 0 <= r.error.bdom < 4
      && |cells(r.error.adom, r.error.bdom)| == 0)
    decreases 4 - a
  {
    if a == 4 then Ok([])
    else
      var row :- MedRow(cells, a, 0);
      var rest :- MedTable(cells, a + 1);
      Ok([row] + rest)
  }

  /** `gen_random3d`: the 4 x 4 table of cell means, then the bounds. */
  function GenRandom3D<W>(c: Characterization): (r: Result<Operator<W>, SynthError>)
    requires c.data.Random3D?
    ensures c.width < 2 && |c.data.results| > 0 ==> r == Err(NegativeShift)
    ensures r.Ok? ==> (WellFormed(r.value) && r.value.Random3DOp? && r.value.width == c.width >= 2
      && r.value.sgn == c.sgn && r.value.kind == c.kind && |r.value.meds| == 4
      && forall i :: 0 <= i < 4 ==> (|r.value.meds[i]| == 4
        && forall j :: 0 <= j < 4 ==> IsMean(Cell(c.data.results, c.width, i, j), r.value.meds[i][j])))
    ensures r.Err? && r.error.EmptyCell? ==> |Cell(c.data.results, c.width, r.error.adom, r.error.bdom)| == 0
  {
    var d := c.data.results;
    if c.width < 2 && |d| > 0 then Err(NegativeShift)
    else
      var t :- MedTable(CellsOf(d, c.width), 0);
      assert |Cell(d, c.width, 0, 0)| > 0;
      Ok(Random3DOp(c.kind, c.sgn, c.width, t))
  }

  /** Over the records of a random 3D characterization, the sixteen cell
      counts of a generated table add up to the number of records. */
  lemma MedTableCounts<W>(c: Characterization)
    requires c.data.Random3D? && GenRandom3D<W>(c).Ok?
    ensures var t := GenRandom3D<W>(c).value.meds;
      t[0][0].count + t[0][1].count + t[0][2].count + t[0][3].count
      + t[1][0].count + t[1][1].count + t[1][2].count + t[1][3].count
      + t[2][0].count + t[2][1].count + t[2][2].count + t[2][3].count
      + t[3][0].count + t[3][1].count + t[3][2].count + t[3][3].count == |c.data.results|
  {
    var d, w := c.data.results, c.width;
    var t: seq<seq<Mean>> := GenRandom3D<W>(c).value.meds;
    CellCounts<W>(c);
    CellsInRange(d, w);
    TableTotal(t, d, CellOf(w));
  }

  /** Cell `(i, j)` of a generated table counts bin `4 * i + j`. */
  lemma CellCounts<W>(c: Characterization)
    requires c.data.Random3D? && GenRandom3D<W>(c).Ok?
    ensures c.width >= 2
    ensures var t := GenRandom3D<W>(c).value.meds;
      |t| == 4 && (forall i :: 0 <= i < 4 ==> |t[i]| == 4)
      && forall i, j :: 0 <= i < 4 && 0 <= j < 4 ==>
        t[i][j].count == |Pick(c.data.results, CellOf(c.width), 4 * i + j)|
  {
    forall i, j | 0 <= i < 4 && 0 <= j < 4
      ensures GenRandom3D<W>(c).value.meds[i][j].count == |Pick(c.data.results, CellOf(c.width), 4 * i + j)|
    {
      CellIsPick(c.data.results, c.width, i, j);
    }
  }

  /** A 4 x 4 table whose cell `(i, j)` counts bin `4 * i + j`, over
      elements that all fall into one of those sixteen bins, counts every
      element once. */
  lemma TableTotal<T(!new)>(t: seq<seq<Mean>>, xs: seq<T>, f: T -> int)
    requires |t| == 4 && forall i :: 0 <= i < 4 ==> |t[i]| == 4
    requires forall i, j :: 0 <= i < 4 && 0 <= j < 4 ==> t[i][j].count == |Pick(xs, f, 4 * i + j)|
    requires forall x :: x in xs ==> 0 <= f(x) < 16
    ensures t[0][0].count + t[0][1].count + t[0][2].count + t[0][3].count
      + t[1][0].count + t[1][1].count + t[1][2].count + t[1][3].count
      + t[2][0].count + t[2][1].count + t[2][2].count + t[2][3].count
      + t[3][0].count + t[3][1].count + t[3][2].count + t[3][3].count == |xs|
  {
    TableTally(t, xs, f, 0);
    TallyAll(xs, f, 16);
  }

  /** A 4 x 4 table whose cell `(i, j)` counts bin `k + 4 * i + j` counts
      the sixteen bins from `k` on. */
  lemma TableTally<T(!new)>(t: seq<seq<Mean>>, xs: seq<T>, f: T -> int, k: nat)
    requires |t| == 4 && forall i :: 0 <= i < 4 ==> |t[i]| == 4
    requires forall i, j :: 0 <= i < 4 && 0 <= j < 4 ==> t[i][j].count == |Pick(xs, f, k + 4 * i + j)|
    ensures t[0][0].count + t[0][1].count + t[0][2].count + t[0][3].count
      + t[1][0].count + t[1][1].count + t[1][2].count + t[1][3].count
      + t[2][0].count + t[2][1].count + t[2][2].count + t[2][3].count
      + t[3][0].count + t[3][1].count + t[3][2].count + t[3][3].count == Tally(xs, f, k + 16) - Tally(xs, f, k)
  {
    RowCount(t[0], xs, f, k);
    RowCount(t[1], xs, f, k + 4);
    RowCount(t[2], xs, f, k + 8);
    RowCount(t[3], xs, f, k + 12);
  }

  /** A row whose cell `j` counts bin `k + j` counts the four bins from `k`
      on. */
  lemma RowCount<T(!new)>(row: seq<Mean>, xs: seq<T>, f: T -> int, k: nat)
    requires |row| == 4
    requires row[0].count == |Pick(xs, f, k)| && row[1].count == |Pick(xs, f, k + 1)|
    requires row[2].count == |Pick(xs, f, k + 2)| && row[3].count == |Pick(xs, f, k + 3)|
    ensures row[0].count + row[1].count + row[2].count + row[3].count == Tally(xs, f, k + 4) - Tally(xs, f, k)
  {
    TallyFour(xs, f, k);
  }

  lemma TallyFour<T(!new)>(xs: seq<T>, f: T -> int, n: nat)
    ensures Tally(xs, f, n + 4) == Tally(xs, f, n) + |Pick(xs, f, n)| + |Pick(xs, f, n + 1)|
      + |Pick(xs, f, n + 2)| + |Pick(xs, f, n + 3)|
  {
    assert Tally(xs, f, n + 4) == Tally(xs, f, n + 3) + |Pick(xs, f, n + 3)|;
    assert Tally(xs, f, n + 3) == Tally(xs, f, n + 2) + |Pick(xs, f, n + 2)|;
    assert Tally(xs, f, n + 2) == Tally(xs, f, n + 1) + |Pick(xs, f, n + 1)|;
  }

  /** The emitted random 3D operator reads the mean of the cell its two
      operands' domains select, with the same shift and mask as synthesis:
      the cell that holds the records of that operand pair
      (`CellMembers`). */
  lemma Random3DLookup<W>(c: Characterization, x: int, y: int, predict: (W, int) -> int)
    requires c.data.Random3D? && GenRandom3D<W>(c).Ok?
    requires InRange(x, c.width, c.sgn) && InRange(y, c.width, c.sgn)
    ensures c.width >= 2
    ensures var op := GenRandom3D<W>(c).value;
      var a, b := DomainIndex(x, c.width), DomainIndex(y, c.width);
      var m := op.meds[a][b];
      var exact := Low(Exact(c.kind, x, y), c.width);
      IsMean(Cell(c.data.results, c.width, a, b), m)
      && Call(op, x, y, predict) == Ok(Output(TruncDiv(exact * m.count + m.sum, m.count), c.width, c.sgn))
  {
    var op := GenRandom3D<W>(c).value;
    var a, b := DomainIndex(x, c.width), DomainIndex(y, c.width);
    assert IsMean(Cell(c.data.results, c.width, a, b), op.meds[a][b]);
    Call3D(op, x, y, predict, c.kind, c.sgn, c.width);
  }

  /** A random 3D operator with a full 4 x 4 table answers every in-range
      call from the cell its operands' domains select. */
  lemma Call3D<W>(op: Operator<W>, x: int, y: int, predict: (W, int) -> int, kind: Module, sgn: bool, w: int)
    requires WellFormed(op) && op.Random3DOp? && op.width == w >= 2 && op.kind == kind && op.sgn == sgn
    requires |op.meds| == 4 && forall i :: 0 <= i < 4 ==> |op.meds[i]| == 4
    requires InRange(x, w, sgn) && InRange(y, w, sgn)
    ensures var m := op.meds[DomainIndex(x, w)][DomainIndex(y, w)];
      Call(op, x, y, predict) == Ok(Output(TruncDiv(Low(Exact(kind, x, y), w) * m.count + m.sum, m.count), w, sgn))
  {
  }

  /* ------------------------------------------------------------ funcgen */

  /** The class of one result, chosen by the kind of its data. */
  function Generate<W>(c: Characterization, fit: seq<(int, seq<Byte>)> -> Option<W>)
    : Result<Operator<W>, SynthError>
  {
    match c.data
    case Exhaustive(_) => GenExhaustive(c)
    case Random2D(_) => GenRandom2D(c, fit)
    case Random3D(_) => GenRandom3D(c)
  }

  /** `./output/{name}/{modname}.py` */
  function FilePath(c: Characterization, ps: seq<Param>): string {
    "./output/" + c.name + "/" + ModName(c.kind, ps) + ".py"
  }

  /** One emitted file: its path and the class it holds. */
  datatype Emitted<W> = Emitted(path: string, op: Operator<W>)

  function GenerateAll<W>(chars: seq<Characterization>, idx: seq<nat>, fit: seq<(int, seq<Byte>)> -> Option<W>)
    : (r: Result<seq<Emitted<W>>, SynthError>)
    requires forall k, j :: 0 <= k < |chars| && 0 <= j < |idx| ==> idx[j] < |chars[k].params|
    ensures r.Ok? ==> |r.value| == |chars|
    ensures r.Ok? ==> forall k :: 0 <= k < |chars| ==>
      Generate(chars[k], fit) == Ok(r.value[k].op)
      && r.value[k].path == FilePath(chars[k], DiffParams(chars[k], idx))
    ensures r.Ok? <==> forall k :: 0 <= k < |chars| ==> Generate(chars[k], fit).Ok?
    decreases |chars|
  {
    if |chars| == 0 then Ok([])
    else
      var op :- Generate(chars[0], fit);
      var rest :- GenerateAll(chars[1..], idx, fit);
      Ok([Emitted(FilePath(chars[0], DiffParams(chars[0], idx)), op)] + rest)
  }

  /** `funcgen(chars)`: `None` for an empty batch; otherwise one file per
      result, named after the module and the result's varying
      parameters, or the first exception a generator raises. */
  function FuncGen<W>(chars: seq<Characterization>, fit: seq<(int, seq<Byte>)> -> Option<W>)
    : (r: Result<Option<seq<Emitted<W>>>, SynthError>)
    requires Indexable(chars)
    ensures r == Ok(None) <==> |chars| == 0
    ensures r.Ok? && r.value.Some? ==> |r.value.value| == |chars| && forall k :: 0 <= k < |chars| ==>
      Generate(chars[k], fit) == Ok(r.value.value[k].op)
      && r.value.value[k].path == FilePath(chars[k], DiffParams(chars[k], DiffIndices(chars)))
    ensures r.Err? <==> exists k :: 0 <= k < |chars| && Generate(chars[k], fit).Err?
  {
    if |chars| == 0 then Ok(None)
    else
      var idx := DiffIndices(chars);
      var gs :- GenerateAll(chars, idx, fit);
      Ok(Some(gs))
  }
}
