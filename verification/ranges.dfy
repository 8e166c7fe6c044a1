/** Python's `range` and the `start:stop[:by]` range arguments of
    emixa/characterization.py (`parse_range`). Both bounds of a range
    argument are meant inclusively, which the parser realises by moving the
    exclusive `stop` of the `range` one step further. */
module Ranges {
  import opened Wrappers
  import opened Strings
  import TwosComplement

  /** `range(start, stop, step)`. */
  datatype PyRange = PyRange(start: int, stop: int, step: int)

  /** `x` has not yet reached `stop`, going in the direction of `step`. */
  predicate Before(x: int, stop: int, step: int) {
    if step > 0 then x < stop else x > stop
  }

  /** The values `range(start, stop, step)` yields, in order (`step != 0`,
      or Python raises `ValueError` before building the range). They form
      the arithmetic progression `start, start + step, ...` cut off at the
      first value that reaches `stop`. */
  function Elements(r: PyRange): (xs: seq<int>)
    requires r.step != 0
    ensures forall i :: 0 <= i < |xs| ==> xs[i] == r.start + i * r.step
    ensures forall i :: 0 <= i < |xs| ==> Before(xs[i], r.stop, r.step)
    ensures !Before(r.start + |xs| * r.step, r.stop, r.step)
    decreases if r.step > 0 then r.stop - r.start else r.start - r.stop
  {
    if Before(r.start, r.stop, r.step) then
      var rest := Elements(PyRange(r.start + r.step, r.stop, r.step));
      assert forall i :: 0 <= i < |rest| ==> rest[i] == r.start + (i + 1) * r.step by {
        forall i | 0 <= i < |rest| ensures rest[i] == r.start + (i + 1) * r.step {
          assert (i + 1) * r.step == i * r.step + r.step;
        }
      }
      assert r.start + r.step + |rest| * r.step == r.start + (|rest| + 1) * r.step;
      [r.start] + rest
    else
      []
  }

  /** Why a range argument did not become a range. All but `ZeroStep` are
      reported and turned into `None`; `ZeroStep` is the `ValueError` that
      `range(s, s, 0)` raises, which nothing catches. */
  datatype RangeError =
    | WrongPartCount(count: nat)
    | InvalidPart(component: string, part: string)
    | Malformed(start: int, stop: int, step: int)
    | ZeroStep

  const Labels: seq<string> := ["start", "stop", "by"]

  /** The first index from `i` on whose part is not an integer. */
  function FirstInvalid(parts: seq<string>, i: nat): (r: Option<nat>)
    ensures r.Some? ==> i <= r.value < |parts| && ParseInt(parts[r.value]).None?
    ensures r.Some? ==> forall k :: i <= k < r.value ==> ParseInt(parts[k]).Some?
    ensures r.None? <==> forall k :: i <= k < |parts| ==> ParseInt(parts[k]).Some?
    decreases |parts| - i
  {
    if i >= |parts| then None
    else if ParseInt(parts[i]).None? then Some(i)
    else FirstInvalid(parts, i + 1)
  }

  /** `parse_range(arg)`. */
  function ParseRange(arg: string): (r: Result<PyRange, RangeError>)
    ensures r.Ok? ==> r.value.step != 0
    ensures (r.Err? && r.error.WrongPartCount?) <==> |Split(arg, ':')| !in {2, 3}
    ensures (r.Err? && r.error.InvalidPart?) <==>
      |Split(arg, ':')| in {2, 3} &&
      exists k :: 0 <= k < |Split(arg, ':')| && ParseInt(Split(arg, ':')[k]).None?
  {
    var parts := Split(arg, ':');
    if |parts| != 2 && |parts| != 3 then
      Err(WrongPartCount(|parts|))
    else
      match FirstInvalid(parts, 0)
      case Some(k) => Err(InvalidPart(Labels[k], parts[k]))
      case None =>
        var start := ParseInt(parts[0]).value;
        var stop := ParseInt(parts[1]).value;
        if |parts| == 2 then
          var dir := if stop < start then -1 else 1;
          Ok(PyRange(start, stop + dir, 1))
        else
          var step := ParseInt(parts[2]).value;
          if (stop < start && step >= 0) || (stop > start && step <= 0) then
            Err(Malformed(start, stop, step))
          else if step == 0 then
            Err(ZeroStep)
          else
            Ok(PyRange(start, stop + step, step))
  }

  /** Only the first part that is not an integer is reported, with its
      label. */
  lemma FirstInvalidReported(arg: string, k: nat)
    requires |Split(arg, ':')| in {2, 3}
    requires k < |Split(arg, ':')| && ParseInt(Split(arg, ':')[k]).None?
    requires forall j :: 0 <= j < k ==> ParseInt(Split(arg, ':')[j]).Some?
    ensures ParseRange(arg) == Err(InvalidPart(Labels[k], Split(arg, ':')[k]))
  {
  }

  /** `start:stop` with `start <= stop` yields exactly `start, ..., stop`. */
  lemma TwoPartAscending(arg: string, a: int, b: int)
    requires |Split(arg, ':')| == 2
    requires ParseInt(Split(arg, ':')[0]) == Some(a) && ParseInt(Split(arg, ':')[1]) == Some(b)
    requires a <= b
    ensures ParseRange(arg).Ok?
    ensures Elements(ParseRange(arg).value) == seq(b - a + 1, i => a + i)
  {
    assert ParseRange(arg) == Ok(PyRange(a, b + 1, 1));
    UnitRange(a, b);
  }

  /** `range(a, b + 1)` is `a, a + 1, ..., b`. */
  lemma UnitRange(a: int, b: int)
    requires a <= b
    ensures Elements(PyRange(a, b + 1, 1)) == seq(b - a + 1, i => a + i)
  {
    var xs := Elements(PyRange(a, b + 1, 1));
    assert a + |xs| * 1 >= b + 1;
    assert xs[|xs| - 1] < b + 1;
    assert |xs| == b - a + 1;
  }

  /** `start:stop` with `stop < start` yields nothing: the bound moves down
      by one but the step stays `1`. */
  lemma TwoPartDescendingEmpty(arg: string, a: int, b: int)
    requires |Split(arg, ':')| == 2
    requires ParseInt(Split(arg, ':')[0]) == Some(a) && ParseInt(Split(arg, ':')[1]) == Some(b)
    requires b < a
    ensures ParseRange(arg) == Ok(PyRange(a, b - 1, 1))
    ensures Elements(ParseRange(arg).value) == []
  {
  }

  /** `start:stop:by` is rejected exactly when the sign of `by` disagrees
      with the direction from `start` to `stop`; `s:s:0` gets past that
      guard and then raises; everything else becomes
      `range(start, stop + by, by)`. */
  lemma ThreePartOutcome(arg: string, a: int, b: int, step: int)
    requires |Split(arg, ':')| == 3
    requires ParseInt(Split(arg, ':')[0]) == Some(a)
    requires ParseInt(Split(arg, ':')[1]) == Some(b)
    requires ParseInt(Split(arg, ':')[2]) == Some(step)
    ensures (ParseRange(arg).Err? && ParseRange(arg).error.Malformed?) <==>
      (b < a && step >= 0) || (b > a && step <= 0)
    ensures ParseRange(arg) == Err(ZeroStep) <==> a == b && step == 0
    ensures ParseRange(arg).Ok? <==> !((b < a && step >= 0) || (b > a && step <= 0)) && step != 0
    ensures ParseRange(arg).Ok? ==> ParseRange(arg).value == PyRange(a, b + step, step)
  {
  }

  /** Euclidean division by a divisor of either sign is determined by its
      quotient and remainder. */
  lemma DivModUniqueSigned(x: int, m: int, q: int)
    requires m != 0 && x == q * m
    ensures x % m == 0 && x / m == q
  {
    if m > 0 {
      TwosComplement.DivModUnique(x, m, q, 0);
    } else {
      var q', r' := x / m, x % m;
      assert x == q' * m + r' && 0 <= r' < -m;
      assert (q - q') * m == r';
      if q > q' { TwosComplement.MulMono(q - q', 1, -m); }
      if q' > q { TwosComplement.MulMono(q' - q, 1, -m); }
    }
  }

  /** Scaling by a positive factor keeps the order, both ways. */
  lemma MulLe(x: int, y: int, m: int)
    requires m > 0
    ensures x <= y <==> x * m <= y * m
  {
    if x <= y {
      TwosComplement.MulMono(y, x, m);
    } else {
      TwosComplement.MulMono(x, y + 1, m);
      assert (y + 1) * m == y * m + m;
    }
  }

  /** Past the guard, the inclusive `stop` of `start:stop:by` is yielded
      exactly when `by` divides `stop - start`. */
  lemma ThreePartStop(a: int, b: int, step: int)
    requires step != 0
    requires !((b < a && step >= 0) || (b > a && step <= 0))
    ensures b in Elements(PyRange(a, b + step, step)) <==> (b - a) % step == 0
  {
    if (b - a) % step == 0 {
      StopYielded(a, b, step);
    }
    if b in Elements(PyRange(a, b + step, step)) {
      YieldedStopDivides(a, b, step);
    }
  }

  lemma StopYielded(a: int, b: int, step: int)
    requires step != 0 && (b - a) % step == 0
    requires !((b < a && step >= 0) || (b > a && step <= 0))
    ensures b in Elements(PyRange(a, b + step, step))
  {
    var xs := Elements(PyRange(a, b + step, step));
    var k := (b - a) / step;
    TwosComplement.ExactQuotient(b - a, step);
    if step > 0 {
      StopReachedAscending(a, b, step, k);
    } else {
      StopReachedDescending(a, b, step, k);
    }
    assert xs[k] == b;
  }

  lemma YieldedStopDivides(a: int, b: int, step: int)
    requires step != 0 && b in Elements(PyRange(a, b + step, step))
    ensures (b - a) % step == 0
  {
    var xs := Elements(PyRange(a, b + step, step));
    var i :| 0 <= i < |xs| && xs[i] == b;
    DivModUniqueSigned(b - a, step, i);
  }

  lemma StopReachedAscending(a: int, b: int, step: int, k: int)
    requires step > 0 && a <= b && b - a == k * step
    ensures 0 <= k < |Elements(PyRange(a, b + step, step))|
  {
    var n := |Elements(PyRange(a, b + step, step))|;
    MulLe(k, -1, step);
    assert (k + 1) * step == k * step + step;
    MulLe(k + 1, n, step);
  }

  lemma StopReachedDescending(a: int, b: int, step: int, k: int)
    requires step < 0 && b <= a && b - a == k * step
    ensures 0 <= k < |Elements(PyRange(a, b + step, step))|
  {
    var n := |Elements(PyRange(a, b + step, step))|;
    var m := -step;
    assert a - b == k * m;
    assert n * step == -(n * m);
    MulLe(k, -1, m);
    assert (k + 1) * m == k * m + m;
    MulLe(k + 1, n, m);
  }
}
