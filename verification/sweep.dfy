/** The sweep expansion of `characterize` in emixa/characterization.py:
    every positional argument containing `:` is parsed as a range, the
    ranges are combined with `itertools.product`, and each combination is
    bound back into the argument positions to give the parameters of one
    harness run, passed on as `-Darg{i}={value}` flags. */
module Sweep {
  import opened Wrappers
  import opened Strings
  import opened Ranges
  import opened Results
  import TwosComplement

  /* ------------------------------------------------------------ arguments */

  /** One positional argument after parsing: the same value in every run, or
      the integers of a range, one per run. */
  datatype Arg = Fixed(value: Param) | Swept(values: seq<int>)

  /** `parse_range(arg) if ':' in arg else arg`. A range argument that the
      parser rejects becomes `None`; only the `ValueError` of a zero step
      escapes, as `Err(ZeroStep)`. */
  function ParseArg(arg: string): (r: Result<Arg, RangeError>)
    ensures ':' !in arg ==> r == Ok(Fixed(Text(arg)))
    ensures r.Err? <==> ':' in arg && ParseRange(arg) == Err(ZeroStep)
    ensures r.Err? ==> r.error == ZeroStep
    ensures (r.Ok? && r.value.Swept?) <==> ':' in arg && ParseRange(arg).Ok?
    ensures r.Ok? && r.value.Swept? ==> r.value.values == Elements(ParseRange(arg).value)
    ensures (r.Ok? && r.value.Fixed? && r.value.value == NoneValue) <==>
      ':' in arg && ParseRange(arg).Err? && ParseRange(arg).error != ZeroStep
  {
    if ':' !in arg then Ok(Fixed(Text(arg)))
    else
      match ParseRange(arg)
      case Ok(rng) => Ok(Swept(Elements(rng)))
      case Err(ZeroStep) => Err(ZeroStep)
      case Err(_) => Ok(Fixed(NoneValue))
  }

  /** `list(map(...))` over all arguments: the first zero-step range raises
      and nothing else is parsed. */
  function ParseArgs(args: seq<string>): (r: Result<seq<Arg>, RangeError>)
    ensures r.Ok? ==> |r.value| == |args|
    ensures r.Ok? ==> forall i :: 0 <= i < |args| ==> ParseArg(args[i]) == Ok(r.value[i])
    ensures r.Err? <==> exists i :: 0 <= i < |args| && ParseArg(args[i]).Err?
    decreases |args|
  {
    if |args| == 0 then Ok([])
    else
      match ParseArg(args[0])
      case Err(e) => Err(e)
      case Ok(a) =>
        match ParseArgs(args[1..])
        case Err(e) =>
          Err(e)
        case Ok(rest) =>
          assert forall i :: 1 <= i < |args| ==> args[i] == args[1..][i - 1];
          Ok([a] + rest)
  }

  /* ----------------------------------------------------------- the product */

  /** Number of combinations: the product of the lengths. */
  function Count(lists: seq<seq<int>>): nat
    decreases |lists|
  {
    if |lists| == 0 then 1 else |lists[0]| * Count(lists[1..])
  }

  /** `[[x] + t for t in tails]` */
  function Prepend(x: int, tails: seq<seq<int>>): (r: seq<seq<int>>)
    ensures |r| == |tails|
    ensures forall i :: 0 <= i < |tails| ==> r[i] == [x] + tails[i]
  {
    seq(|tails|, i requires 0 <= i < |tails| => [x] + tails[i])
  }

  /** `[[x] + t for x in xs for t in tails]` */
  function Prefixed(xs: seq<int>, tails: seq<seq<int>>): (r: seq<seq<int>>)
    ensures |r| == |xs| * |tails|
    decreases |xs|
  {
    if |xs| == 0 then []
    else
      var rest := Prefixed(xs[1..], tails);
      assert |xs| * |tails| == (|xs| - 1) * |tails| + |tails|;
      Prepend(xs[0], tails) + rest
  }

  /** `list(itertools.product(*lists))`. */
  function Product(lists: seq<seq<int>>): (combs: seq<seq<int>>)
    ensures |combs| == Count(lists)
    decreases |lists|
  {
    if |lists| == 0 then [[]] else Prefixed(lists[0], Product(lists[1..]))
  }

  /** Position `i` of `Prefixed` takes its head from `xs[i / |tails|]` and
      its tail from `tails[i % |tails|]`. */
  lemma {:induction false} PrefixedIndex(xs: seq<int>, tails: seq<seq<int>>, i: nat)
    requires i < |xs| * |tails|
    ensures |tails| > 0 && i / |tails| < |xs|
    ensures Prefixed(xs, tails)[i] == [xs[i / |tails|]] + tails[i % |tails|]
    decreases |xs|
  {
    var t := |tails|;
    PositiveFactors(|xs|, t);
    assert Prefixed(xs, tails) == Prepend(xs[0], tails) + Prefixed(xs[1..], tails);
    if i < t {
      TwosComplement.DivModUnique(i, t, 0, i);
    } else {
      var j := i - t;
      MulPred(|xs|, t);
      PrefixedIndex(xs[1..], tails, j);
      DivStep(i, t);
    }
  }

  lemma MulPred(n: int, t: int)
    ensures n * t == (n - 1) * t + t
  {
  }

  /** Dropping one divisor's worth lowers the quotient by one and keeps
      the remainder. */
  lemma DivStep(i: int, t: int)
    requires t >= 1 && i >= t
    ensures i / t == (i - t) / t + 1 && i % t == (i - t) % t
  {
    var j := i - t;
    assert j == (j / t) * t + j % t;
    assert (j / t + 1) * t == (j / t) * t + t;
    TwosComplement.DivModUnique(i, t, j / t + 1, j % t);
  }

  lemma {:induction false} PrefixedMember(xs: seq<int>, tails: seq<seq<int>>, c: seq<int>)
    ensures c in Prefixed(xs, tails) <==> |c| >= 1 && c[0] in xs && c[1..] in tails
    decreases |xs|
  {
    if |xs| > 0 {
      PrefixedMember(xs[1..], tails, c);
      if |c| >= 1 && c[0] == xs[0] && c[1..] in tails {
        var i :| 0 <= i < |tails| && tails[i] == c[1..];
        assert Prepend(xs[0], tails)[i] == c;
      }
      if c in Prepend(xs[0], tails) {
        var i :| 0 <= i < |tails| && Prepend(xs[0], tails)[i] == c;
        assert c[1..] == tails[i];
      }
      assert xs == [xs[0]] + xs[1..];
    }
  }

  /** A list is a combination exactly when it picks one value from each
      list, in order. */
  lemma {:induction false} ProductMember(lists: seq<seq<int>>, c: seq<int>)
    ensures c in Product(lists) <==>
      |c| == |lists| && forall j :: 0 <= j < |lists| ==> c[j] in lists[j]
    decreases |lists|
  {
    if |lists| == 0 {
      if |c| == 0 { assert c == []; }
    } else {
      PrefixedMember(lists[0], Product(lists[1..]), c);
      if |c| >= 1 {
        ProductMember(lists[1..], c[1..]);
        if |c| == |lists| && forall j :: 0 <= j < |lists| ==> c[j] in lists[j] {
          assert forall j :: 0 <= j < |lists| - 1 ==> c[1..][j] in lists[1..][j] by {
            forall j | 0 <= j < |lists| - 1 ensures c[1..][j] in lists[1..][j] {
              assert c[1..][j] == c[j + 1];
            }
          }
        }
        if c in Product(lists) {
          forall j | 0 <= j < |lists| ensures c[j] in lists[j] {
            if j > 0 { assert c[j] == c[1..][j - 1]; }
          }
        }
      }
    }
  }

  /** The product of the lengths splits at any point. */
  lemma {:induction false} CountSplit(lists: seq<seq<int>>, k: nat)
    requires k <= |lists|
    ensures Count(lists) == Count(lists[..k]) * Count(lists[k..])
    decreases k
  {
    if k > 0 {
      CountSplit(lists[1..], k - 1);
      assert lists[..k][1..] == lists[1..][..k - 1];
      assert lists[1..][k - 1..] == lists[k..];
      var a, b, c := |lists[0]|, Count(lists[1..][..k - 1]), Count(lists[k..]);
      assert Count(lists) == a * (b * c);
      assert Count(lists[..k]) == a * b;
      MulAssoc(a, b, c);
    }
  }

  lemma MulAssoc(a: int, b: int, c: int)
    ensures a * (b * c) == (a * b) * c
  {
  }

  lemma ModOfMod(i: int, p: int, q: int)
    requires p >= 1 && q >= 1
    ensures p * q >= 1
    ensures (i % (p * q)) % q == i % q
  {
    TwosComplement.MulMono(p, 1, q);
    var a, r := i / (p * q), i % (p * q);
    var b, c := r / q, r % q;
    assert i == a * (p * q) + r;
    assert r == b * q + c;
    assert i == (a * p + b) * q + c;
    TwosComplement.DivModUnique(i, q, a * p + b, c);
  }

  lemma DivOfMod(x: int, l: int, s: int)
    requires l >= 1 && s >= 1
    ensures l * s >= 1
    ensures (x / s) % l == (x % (l * s)) / s
  {
    TwosComplement.MulMono(l, 1, s);
    var a, r := x / (l * s), x % (l * s);
    var c, d := r / s, r % s;
    assert r == c * s + d;
    MulLe(l, c, s);
    assert c < l;
    assert x == (a * l + c) * s + d;
    TwosComplement.DivModUnique(x, s, a * l + c, d);
    TwosComplement.DivModUnique(a * l + c, l, a, c);
  }

  lemma DivNat(x: int, m: int)
    requires x >= 0 && m >= 1
    ensures x / m >= 0 && 0 <= x % m < m
  {
    var q, r := x / m, x % m;
    assert x == q * m + r;
    MulLe(q, -1, m);
  }

  lemma ModSmall(x: int, l: int)
    requires 0 <= x < l
    ensures x % l == x
  {
    TwosComplement.DivModUnique(x, l, 0, x);
  }

  lemma ModDivMod(i: int, p: int, l: int, s: int)
    requires p >= 1 && l >= 1 && s >= 1
    ensures p * (l * s) >= 1
    ensures ((i % (p * (l * s))) / s) % l == (i / s) % l
  {
    DivOfMod(i % (p * (l * s)), l, s);
    ModOfMod(i, p, l * s);
    DivOfMod(i, l, s);
  }

  lemma PositiveFactors(x: nat, y: nat)
    requires x * y >= 1
    ensures x >= 1 && y >= 1
  {
    assert x == 0 ==> x * y == 0;
    assert y == 0 ==> x * y == 0;
  }

  /** The first list picks the slowest digit: combination `i` starts with
      `lists[0][i / C]` and goes on with combination `i % C` of the rest,
      `C` being the number of those. */
  lemma ProductHead(lists: seq<seq<int>>, i: nat)
    requires |lists| >= 1 && i < Count(lists)
    ensures Count(lists[1..]) >= 1
    ensures 0 <= i / Count(lists[1..]) < |lists[0]|
    ensures i % Count(lists[1..]) < Count(lists[1..])
    ensures Product(lists)[i] ==
      [lists[0][i / Count(lists[1..])]] + Product(lists[1..])[i % Count(lists[1..])]
  {
    var c := Count(lists[1..]);
    var tails := Product(lists[1..]);
    assert |tails| == c;
    assert Product(lists) == Prefixed(lists[0], tails);
    PrefixedIndex(lists[0], tails, i);
    DivNat(i, c);
  }

  /** The combinations of `lists[1..]` come in blocks of those of
      `lists[j..]`, which are `|lists[j]|` blocks of those after `j`. */
  lemma CountAfterHead(lists: seq<seq<int>>, j: nat)
    requires 1 <= j < |lists|
    ensures Count(lists[1..]) == Count(lists[1..j]) * (|lists[j]| * Count(lists[j + 1..]))
    ensures lists[1..][j - 1] == lists[j] && lists[1..][j..] == lists[j + 1..]
  {
    var rest := lists[1..];
    CountSplit(rest, j - 1);
    assert rest[..j - 1] == lists[1..j];
    assert rest[j - 1..] == lists[j..];
    assert lists[j..][1..] == lists[j + 1..];
  }

  /** `itertools.product` order: combination `i` is the mixed-radix reading
      of `i` with the LAST list as the fastest digit. Position `j` of it is
      the digit `(i / S) % |lists[j]|`, where `S` is the number of
      combinations of the lists after `j`. */
  lemma {:induction false} ProductIndex(lists: seq<seq<int>>, i: nat, j: nat)
    requires i < Count(lists) && j < |lists|
    ensures Count(lists[j + 1..]) >= 1 && |lists[j]| >= 1
    ensures |Product(lists)[i]| == |lists|
    ensures Product(lists)[i][j] == lists[j][(i / Count(lists[j + 1..])) % |lists[j]|]
    decreases j
  {
    var t := Count(lists[1..]);
    ProductHead(lists, i);
    ProductIndexLength(lists[1..], i % t);
    if j == 0 {
      ModSmall(i / t, |lists[0]|);
    } else {
      ProductIndex(lists[1..], i % t, j - 1);
      CountAfterHead(lists, j);
      var s := Count(lists[j + 1..]);
      var l := |lists[j]|;
      var p := Count(lists[1..j]);
      PositiveFactors(p, l * s);
      ModDivMod(i, p, l, s);
    }
  }

  /** The number of combinations is zero exactly when some list is empty. */
  lemma {:induction false} CountZero(lists: seq<seq<int>>)
    ensures Count(lists) == 0 <==> exists j :: 0 <= j < |lists| && |lists[j]| == 0
    decreases |lists|
  {
    if |lists| > 0 {
      CountZero(lists[1..]);
      if Count(lists[1..]) > 0 && |lists[0]| > 0 {
        TwosComplement.MulMono(|lists[0]|, 1, Count(lists[1..]));
      }
      if exists j :: 0 <= j < |lists| - 1 && |lists[1..][j]| == 0 {
        var j :| 0 <= j < |lists| - 1 && |lists[1..][j]| == 0;
        assert |lists[j + 1]| == 0;
      }
      if exists j :: 0 <= j < |lists| && |lists[j]| == 0 {
        var j :| 0 <= j < |lists| && |lists[j]| == 0;
        if j > 0 { assert |lists[1..][j - 1]| == 0; }
      }
    }
  }

  /* --------------------------------------------------------------- binding */

  /** The value lists of the swept arguments, in argument order
      (`rangeparams`). */
  function SweptLists(args: seq<Arg>): seq<seq<int>>
    decreases |args|
  {
    if |args| == 0 then []
    else
      var init := SweptLists(args[..|args| - 1]);
      var last := args[|args| - 1];
      if last.Swept? then init + [last.values] else init
  }

  /** `rangeinds[i]`: how many swept arguments precede position `i`. */
  function Rank(args: seq<Arg>, i: nat): nat
    requires i <= |args|
  {
    |SweptLists(args[..i])|
  }

  lemma {:induction false} SweptListsPrefix(args: seq<Arg>, k: nat)
    requires k <= |args|
    ensures |SweptLists(args[..k])| <= |SweptLists(args)|
    ensures SweptLists(args)[..|SweptLists(args[..k])|] == SweptLists(args[..k])
    decreases |args|
  {
    if k < |args| {
      var init := args[..|args| - 1];
      assert init[..k] == args[..k];
      SweptListsPrefix(init, k);
    } else {
      assert args[..k] == args;
    }
  }

  /** A swept argument's values sit in `SweptLists` at its rank. */
  lemma SweptAtRank(args: seq<Arg>, i: nat)
    requires i < |args| && args[i].Swept?
    ensures Rank(args, i) < |SweptLists(args)|
    ensures SweptLists(args)[Rank(args, i)] == args[i].values
  {
    var pre := args[..i + 1];
    assert pre[..|pre| - 1] == args[..i];
    SweptListsPrefix(args, i + 1);
  }

  /** `runparams`: the combination's values at the swept positions, the
      argument itself everywhere else. */
  function Bind(args: seq<Arg>, comb: seq<int>): (ps: seq<Param>)
    requires |comb| == |SweptLists(args)|
    ensures |ps| == |args|
    ensures forall i :: 0 <= i < |args| && args[i].Fixed? ==> ps[i] == args[i].value
    ensures forall i :: 0 <= i < |args| && args[i].Swept? ==>
      Rank(args, i) < |comb| && ps[i] == Int(comb[Rank(args, i)])
  {
    assert forall i :: 0 <= i < |args| && args[i].Swept? ==> Rank(args, i) < |comb| by {
      forall i | 0 <= i < |args| && args[i].Swept? ensures Rank(args, i) < |comb| {
        SweptAtRank(args, i);
      }
    }
    seq(|args|, i requires 0 <= i < |args| =>
      if args[i].Swept? then Int(comb[Rank(args, i)]) else args[i].value)
  }

  /** The parameters of every run, in execution order. */
  function Runs(args: seq<Arg>): (runs: seq<seq<Param>>)
    ensures |runs| == Count(SweptLists(args))
  {
    var combs := Product(SweptLists(args));
    seq(|combs|, k requires 0 <= k < |combs| =>
      ProductIndexLength(SweptLists(args), k);
      Bind(args, combs[k]))
  }

  lemma ProductIndexLength(lists: seq<seq<int>>, k: nat)
    requires k < |Product(lists)|
    ensures |Product(lists)[k]| == |lists|
  {
    ProductMember(lists, Product(lists)[k]);
  }

  /** Every run passes the literal arguments unchanged at their positions,
      and an integer of the matching range at every swept position. */
  lemma RunsShape(args: seq<Arg>, k: nat, i: nat)
    requires k < |Runs(args)| && i < |args|
    ensures |Runs(args)[k]| == |args|
    ensures args[i].Fixed? ==> Runs(args)[k][i] == args[i].value
    ensures args[i].Swept? ==> Runs(args)[k][i].Int? && Runs(args)[k][i].value in args[i].values
  {
    if args[i].Swept? {
      var lists := SweptLists(args);
      var c := Product(lists)[k];
      ProductMember(lists, c);
      SweptAtRank(args, i);
    }
  }

  /** Every choice of one value per range is run. */
  lemma RunsComplete(args: seq<Arg>, choice: seq<int>)
    requires |choice| == |SweptLists(args)|
    requires forall j :: 0 <= j < |choice| ==> choice[j] in SweptLists(args)[j]
    ensures exists k :: 0 <= k < |Runs(args)| && Runs(args)[k] == Bind(args, choice)
  {
    var lists := SweptLists(args);
    ProductMember(lists, choice);
    var k :| 0 <= k < |Product(lists)| && Product(lists)[k] == choice;
    assert Runs(args)[k] == Bind(args, choice);
  }

  /** Without range arguments there is exactly one run, with the arguments
      as given. */
  lemma {:induction false} NoRangesOneRun(args: seq<Arg>)
    requires forall i :: 0 <= i < |args| ==> args[i].Fixed?
    ensures SweptLists(args) == []
    ensures Runs(args) == [seq(|args|, i requires 0 <= i < |args| => args[i].value)]
    decreases |args|
  {
    if |args| > 0 {
      NoRangesOneRun(args[..|args| - 1]);
    }
    assert SweptLists(args) == [];
    assert Product(SweptLists(args)) == [[]];
    var run := Bind(args, []);
    assert run == seq(|args|, i requires 0 <= i < |args| => args[i].value);
    assert Runs(args) == [run];
  }

  /* ----------------------------------------------------------------- flags */

  /** `str(param)` */
  function Render(p: Param): string {
    match p
    case Text(t) => t
    case Int(v) => ShowInt(v)
    case NoneValue => "None"
  }

  /** `f'-Darg{i}={param}'` */
  function Flag(i: nat, p: Param): string {
    "-Darg" + ShowInt(i) + "=" + Render(p)
  }

  function Flags(ps: seq<Param>): (fs: seq<string>)
    ensures |fs| == |ps|
    ensures forall i :: 0 <= i < |ps| ==> fs[i] == Flag(i, ps[i])
  {
    seq(|ps|, i requires 0 <= i < |ps| => Flag(i, ps[i]))
  }

  /** `cmdparams`: the flags joined by single spaces. */
  function CmdParams(ps: seq<Param>): string {
    Join(Flags(ps), ' ')
  }

  /** The sbt task of one run: `testOnly {name} -- {cmdparams}`. */
  function Command(name: string, ps: seq<Param>): string {
    "testOnly " + name + " -- " + CmdParams(ps)
  }

  /** `s.split('=', 1)` when `s` holds a `=`. */
  function SplitAtEquals(s: string): (r: Option<(string, string)>)
    ensures r.Some? ==> '=' !in r.value.0 && s == r.value.0 + "=" + r.value.1
    ensures r.None? <==> '=' !in s
    decreases |s|
  {
    if |s| == 0 then None
    else if s[0] == '=' then Some(("", s[1..]))
    else
      match SplitAtEquals(s[1..])
      case None => None
      case Some((k, v)) => Some(([s[0]] + k, v))
  }

  /** How the harness reads one flag back: the position after `-Darg`, the
      value after the first `=`. */
  function ReadFlag(f: string): Option<(int, string)> {
    if !StartsWith(f, "-Darg") then None
    else
      match SplitAtEquals(f[5..])
      case None => None
      case Some((k, v)) =>
        match ParseInt(k)
        case None => None
        case Some(i) => Some((i, v))
  }

  lemma ShowIntNoSpecials(n: int)
    ensures '=' !in ShowInt(n) && ' ' !in ShowInt(n)
  {
    ShowNatDigits(if n < 0 then -n else n);
    if n < 0 { assert ShowInt(n)[1..] == ShowNat(-n); }
  }

  lemma {:induction false} SplitAtEqualsUnique(k: string, v: string)
    requires '=' !in k
    ensures SplitAtEquals(k + "=" + v) == Some((k, v))
    decreases |k|
  {
    var s := k + "=" + v;
    if |k| > 0 {
      assert s[0] == k[0] && s[1..] == k[1..] + "=" + v;
      SplitAtEqualsUnique(k[1..], v);
      assert [k[0]] + k[1..] == k;
    } else {
      assert s[0] == '=' && s[1..] == v;
    }
  }

  /** Each flag reads back as its position and the rendered parameter; an
      integer parameter reads back as the same integer. */
  lemma FlagRoundTrip(i: nat, p: Param)
    ensures ReadFlag(Flag(i, p)) == Some((i, Render(p)))
    ensures p.Int? ==> ParseInt(ReadFlag(Flag(i, p)).value.1) == Some(p.value)
  {
    var f := Flag(i, p);
    assert StartsWith(f, "-Darg");
    assert f[5..] == ShowInt(i) + "=" + Render(p);
    ShowIntNoSpecials(i);
    SplitAtEqualsUnique(ShowInt(i), Render(p));
    ParseShowInt(i);
    if p.Int? { ParseShowInt(p.value); }
  }

  /** As long as no parameter contains a space, `cmdparams` splits back on
      spaces into exactly one flag per parameter, in position order. */
  lemma CmdParamsWords(ps: seq<Param>)
    requires |ps| >= 1
    requires forall i :: 0 <= i < |ps| ==> ' ' !in Render(ps[i])
    ensures Split(CmdParams(ps), ' ') == Flags(ps)
  {
    var fs := Flags(ps);
    forall i | 0 <= i < |fs| ensures ' ' !in fs[i] {
      ShowIntNoSpecials(i);
      assert fs[i] == "-Darg" + ShowInt(i) + "=" + Render(ps[i]);
    }
    JoinSplit(fs, ' ');
  }
}
