/** Integer semantics of the bit manipulations the tool performs on Python's
    unbounded integers: masking to `w` bits, two's-complement sign extension
    and the two-most-significant-bit domain index. Python's `&` with the mask
    `(1 << w) - 1` keeps the low `w` bits of the infinite two's-complement
    representation, which is the Euclidean remainder modulo `2^w`; Python's
    `>>` by a non-negative amount is floor division by a power of two. */
module TwosComplement {

  function Pow2(n: nat): (p: int)
    ensures p >= 1
  {
    if n == 0 then 1 else 2 * Pow2(n - 1)
  }

  lemma {:induction false} Pow2Add(a: nat, b: nat)
    ensures Pow2(a + b) == Pow2(a) * Pow2(b)
    decreases a
  {
    if a > 0 {
      Pow2Add(a - 1, b);
    }
  }

  /** `(1 << w) - 1` */
  function Mask(w: nat): int {
    Pow2(w) - 1
  }

  /** `x & ((1 << w) - 1)`: the unique value in `[0, 2^w)` congruent to `x`. */
  function Low(x: int, w: nat): (r: int)
    ensures 0 <= r <= Mask(w)
    ensures (x - r) % Pow2(w) == 0
  {
    var r := x % Pow2(w);
    DivModUnique(x - r, Pow2(w), x / Pow2(w), 0);
    r
  }

  /** The operands a `w`-bit operator accepts: `[0, 2^w - 1]` unsigned,
      `[-2^(w-1), 2^(w-1) - 1]` signed. */
  predicate InRange(x: int, w: nat, sgn: bool)
    requires sgn ==> w >= 1
  {
    if sgn then -Pow2(w - 1) <= x < Pow2(w - 1) else 0 <= x < Pow2(w)
  }

  /** `sext | pos` with `sext = -(pos >> (w - 1)) << w`, for `0 <= pos < 2^w`.
      `pos >> (w - 1)` is the top bit of `pos`; `sext` is then `0` or `-2^w`,
      which has no bit below `w` set, so the `|` adds the two. The result is
      the signed `w`-bit reading of `pos`. */
  function SignExtend(pos: int, w: nat): (r: int)
    requires w >= 1 && 0 <= pos < Pow2(w)
    ensures InRange(r, w, true)
    ensures Low(r, w) == pos
  {
    var top := pos / Pow2(w - 1);
    var sext := -(top * Pow2(w));
    TopBit(pos, w);
    LowOfShift(pos, w);
    sext + pos
  }

  lemma SextTerm(pos: int, w: nat)
    requires w >= 1 && 0 <= pos < Pow2(w)
    ensures (pos / Pow2(w - 1)) * Pow2(w) == (if pos < Pow2(w - 1) then 0 else Pow2(w))
  {
    TopBit(pos, w);
  }

  /** `pos >> (w - 1)` of a `w`-bit pattern is its top bit. */
  lemma TopBit(pos: int, w: nat)
    requires w >= 1 && 0 <= pos < Pow2(w)
    ensures pos / Pow2(w - 1) == (if pos < Pow2(w - 1) then 0 else 1)
  {
    if pos < Pow2(w - 1) {
      DivModUnique(pos, Pow2(w - 1), 0, pos);
    } else {
      DivModUnique(pos, Pow2(w - 1), 1, pos - Pow2(w - 1));
    }
  }

  /** `k if k < 2**(n-1) else k - 2**n` */
  function SignChange(k: int, n: nat): int
    requires n >= 1
  {
    if k < Pow2(n - 1) then k else k - Pow2(n)
  }

  /** The emitted sign extension and the plotting code's sign change agree
      on every `n`-bit pattern. */
  lemma SignExtendIsSignChange(pos: int, n: nat)
    requires n >= 1 && 0 <= pos < Pow2(n)
    ensures SignExtend(pos, n) == SignChange(pos, n)
  {
    SextTerm(pos, n);
  }

  /** `SignChange` maps `[0, 2^n)` into the signed range and `Low` undoes it,
      and it undoes `Low` on the signed range: a bijection from `[0, 2^n)`
      onto `[-2^(n-1), 2^(n-1))`. */
  lemma SignChangeBijection(n: nat)
    requires n >= 1
    ensures forall k :: 0 <= k < Pow2(n) ==> InRange(SignChange(k, n), n, true)
    ensures forall k :: 0 <= k < Pow2(n) ==> Low(SignChange(k, n), n) == k
    ensures forall v :: InRange(v, n, true) ==> 0 <= Low(v, n) < Pow2(n) && SignChange(Low(v, n), n) == v
  {
    forall k | 0 <= k < Pow2(n) ensures Low(SignChange(k, n), n) == k {
      LowOfShift(k, n);
    }
    forall v | InRange(v, n, true) ensures 0 <= Low(v, n) < Pow2(n) && SignChange(Low(v, n), n) == v {
      if v < 0 {
        LowOfShift(v + Pow2(n), n);
      } else {
        LowOfShift(v, n);
      }
    }
  }

  lemma LowOfShift(k: int, n: nat)
    requires 0 <= k < Pow2(n)
    ensures Low(k, n) == k && Low(k - Pow2(n), n) == k
  {
    DivModUnique(k, Pow2(n), 0, k);
    DivModUnique(k - Pow2(n), Pow2(n), -1, k);
  }

  /** `(k >> (w - 2)) & 3`: the two bits just below bit `w`. */
  function DomainIndex(k: int, w: nat): (d: int)
    requires w >= 2
    ensures 0 <= d < 4
  {
    (k / Pow2(w - 2)) % 4
  }

  /** On a `w`-bit pattern the domain index is the value of its two most
      significant bits, so the four domains are four equal consecutive
      quarters of `[0, 2^w)`. */
  lemma DomainIndexIsQuarter(k: int, w: nat)
    requires w >= 2 && 0 <= k < Pow2(w)
    ensures DomainIndex(k, w) == k / Pow2(w - 2)
    ensures DomainIndex(k, w) * Pow2(w - 2) <= k < (DomainIndex(k, w) + 1) * Pow2(w - 2)
  {
    Pow2Add(2, w - 2);
    assert Pow2(2) == 4;
    QuarterOf(k, Pow2(w - 2));
  }

  lemma QuarterOf(k: int, q: int)
    requires q >= 1 && 0 <= k < 4 * q
    ensures (k / q) % 4 == k / q
    ensures (k / q) * q <= k < (k / q + 1) * q
  {
    var d, r := k / q, k % q;
    assert k == d * q + r;
    if d < 0 {
      MulMono(-1, d, q);
    }
    if d >= 4 {
      MulMono(d, 4, q);
    }
    DivModUnique(d, 4, 0, d);
    assert (d + 1) * q == d * q + q;
  }

  /** A negative operand lands in the domain of its `w`-bit two's-complement
      pattern: the index depends on `k` only modulo `2^w`. */
  lemma DomainIndexOfLow(k: int, w: nat)
    requires w >= 2
    ensures DomainIndex(k, w) == DomainIndex(Low(k, w), w)
  {
    var q := Pow2(w - 2);
    Pow2Add(2, w - 2);
    var m := k / Pow2(w);
    var low := Low(k, w);
    var l := low / q;
    assert k == m * (4 * q) + low;
    assert low == l * q + low % q;
    assert (4 * m + l) * q == m * (4 * q) + l * q;
    DivModUnique(k, q, 4 * m + l, low % q);
    DivModUnique(4 * m + l, 4, m + l / 4, l % 4);
    DivModUnique(l, 4, l / 4, l % 4);
  }

  /** Adding a multiple of `2^w` leaves the low `w` bits alone. */
  lemma LowOfMultiple(a: int, t: int, w: nat)
    ensures Low(a + t * Pow2(w), w) == Low(a, w)
  {
    var m := Pow2(w);
    DivModUnique(a + t * m, m, a / m + t, a % m);
  }

  /** Values that agree in their low `2w` bits agree in their low `w`
      bits, also after adding the same `e` to both. */
  lemma LowOfWide(k: int, v: int, e: int, w: nat)
    requires Low(k, 2 * w) == Low(v, 2 * w)
    ensures Low(k + e, w) == Low(v + e, w)
  {
    var m, mm := Pow2(w), Pow2(2 * w);
    Pow2Add(w, w);
    var l := Low(k, 2 * w);
    ExactQuotient(k - l, mm);
    ExactQuotient(v - l, mm);
    var t := (k - l) / mm - (v - l) / mm;
    assert k - v == t * mm;
    assert t * mm == (t * m) * m;
    LowOfMultiple(v + e, t * m, w);
  }

  /** Euclidean division is determined by quotient and remainder. */
  lemma DivModUnique(a: int, m: int, q: int, r: int)
    requires m >= 1 && 0 <= r < m && a == q * m + r
    ensures a / m == q && a % m == r
  {
    var q', r' := a / m, a % m;
    assert a == q' * m + r';
    if q > q' { MulMono(q - q', 1, m); }
    if q' > q { MulMono(q' - q, 1, m); }
  }

  lemma ExactQuotient(x: int, m: int)
    requires m != 0 && x % m == 0
    ensures x == (x / m) * m
  {
  }

  lemma MulDivExact(x: int, m: int)
    requires m >= 1
    ensures (m * x) % m == 0 && (m * x) / m == x
  {
    DivModUnique(m * x, m, x, 0);
  }

  lemma MulMono(a: int, b: int, m: int)
    requires a >= b && m >= 0
    ensures a * m >= b * m
  {
  }
}
