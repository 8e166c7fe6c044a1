/** The handful of Python `str` operations the tool relies on: substring
    tests, `split`/`join` on a single separator, ASCII `lower`, `replace`
    of one character by nothing, and the decimal `int`/`str` conversions. */
module Strings {
  import opened Wrappers

  /** `s.startswith(p)` */
  predicate StartsWith(s: string, p: string) {
    |p| <= |s| && s[..|p|] == p
  }

  /** `p in s` for a string `p` */
  predicate Contains(s: string, p: string)
    decreases |s|
  {
    StartsWith(s, p) || (|s| > 0 && Contains(s[1..], p))
  }

  lemma ContainsInTail(c: char, s: string, p: string)
    requires Contains(s, p)
    ensures Contains([c] + s, p)
  {
    assert ([c] + s)[1..] == s;
  }

  lemma ContainsPrefix(s: string, t: string, p: string)
    requires StartsWith(s, t) && Contains(t, p)
    ensures Contains(s, p)
    decreases |t|
  {
    if StartsWith(t, p) {
      assert s[..|p|] == t[..|p|];
    } else {
      ContainsPrefix(s[1..], t[1..], p);
    }
  }

  /* ---------------------------------------------------------------- split/join */

  /** `s.split(sep)` with an explicit one-character separator: every
      occurrence separates, so `n` separators always give `n + 1` parts. */
  function Split(s: string, sep: char): (parts: seq<string>)
    ensures |parts| >= 1
    decreases |s|
  {
    if |s| == 0 then [""]
    else
      var rest := Split(s[1..], sep);
      if s[0] == sep then [""] + rest
      else [[s[0]] + rest[0]] + rest[1..]
  }

  /** `sep.join(parts)`; the empty list joins to the empty string. */
  function Join(parts: seq<string>, sep: char): string
    decreases |parts|
  {
    if |parts| == 0 then ""
    else if |parts| == 1 then parts[0]
    else parts[0] + [sep] + Join(parts[1..], sep)
  }

  /** Splitting never leaves a separator inside a part, and joining the parts
      back gives the original string. */
  lemma {:induction false} SplitJoin(s: string, sep: char)
    ensures forall i :: 0 <= i < |Split(s, sep)| ==> sep !in Split(s, sep)[i]
    ensures Join(Split(s, sep), sep) == s
    decreases |s|
  {
    if |s| > 0 {
      var rest := Split(s[1..], sep);
      SplitJoin(s[1..], sep);
      if s[0] == sep {
        assert Split(s, sep) == [""] + rest;
        assert ([""] + rest)[1..] == rest;
      } else {
        var parts := Split(s, sep);
        assert parts == [[s[0]] + rest[0]] + rest[1..];
        if |rest| == 1 {
          assert s == [s[0]] + s[1..];
        } else {
          assert parts[1..] == rest[1..];
          assert Join(rest, sep) == rest[0] + [sep] + Join(rest[1..], sep);
          assert s == [s[0]] + s[1..];
        }
      }
    }
  }

  /** The converse direction: parts free of the separator are recovered by
      splitting their join. */
  lemma {:induction false} JoinSplit(parts: seq<string>, sep: char)
    requires |parts| >= 1
    requires forall i :: 0 <= i < |parts| ==> sep !in parts[i]
    ensures Split(Join(parts, sep), sep) == parts
    decreases |parts|, |parts[0]|
  {
    if |parts[0]| == 0 {
      if |parts| > 1 {
        JoinSplit(parts[1..], sep);
        var j := Join(parts, sep);
        assert j == [sep] + Join(parts[1..], sep);
        assert j[1..] == Join(parts[1..], sep);
        assert parts == [""] + parts[1..];
      }
    } else {
      var head := parts[0];
      var shorter := [head[1..]] + parts[1..];
      assert shorter[1..] == parts[1..];
      assert forall i :: 0 <= i < |shorter| ==> sep !in shorter[i] by {
        forall i | 0 <= i < |shorter| ensures sep !in shorter[i] {
          if i == 0 {
            assert forall k :: 0 <= k < |head[1..]| ==> head[1..][k] == head[k + 1];
          } else {
            assert shorter[i] == parts[i];
          }
        }
      }
      JoinSplit(shorter, sep);
      var j := Join(parts, sep);
      assert head == [head[0]] + head[1..];
      if |parts| == 1 {
        assert j == head;
        assert j[1..] == Join(shorter, sep);
      } else {
        assert j == head + [sep] + Join(parts[1..], sep);
        assert Join(shorter, sep) == head[1..] + [sep] + Join(parts[1..], sep);
        assert j[1..] == Join(shorter, sep);
      }
      assert head[0] != sep by { assert head[0] == parts[0][0]; }
      assert parts == [[head[0]] + shorter[0]] + shorter[1..];
    }
  }

  /** A separator-free pattern found in `s` lies wholly inside one part of
      `s.split(sep)`. */
  lemma {:induction false} ContainsSomePart(s: string, sep: char, p: string)
    requires Contains(s, p) && sep !in p
    ensures exists i :: 0 <= i < |Split(s, sep)| && Contains(Split(s, sep)[i], p)
    decreases |s|
  {
    var parts := Split(s, sep);
    if StartsWith(s, p) {
      FirstPartKeepsPrefix(s, sep, p);
      assert Contains(parts[0], p);
    } else {
      ContainsSomePart(s[1..], sep, p);
      var rest := Split(s[1..], sep);
      var i :| 0 <= i < |rest| && Contains(rest[i], p);
      if s[0] == sep {
        assert parts[i + 1] == rest[i];
      } else if i == 0 {
        ContainsInTail(s[0], rest[0], p);
        assert parts[0] == [s[0]] + rest[0];
      } else {
        assert parts[i] == rest[i];
      }
    }
  }

  lemma {:induction false} FirstPartKeepsPrefix(s: string, sep: char, p: string)
    requires StartsWith(s, p) && sep !in p
    ensures StartsWith(Split(s, sep)[0], p)
    decreases |p|
  {
    if |p| > 0 {
      assert s[0] == p[0];
      assert StartsWith(s[1..], p[1..]);
      FirstPartKeepsPrefix(s[1..], sep, p[1..]);
      var rest := Split(s[1..], sep);
      assert Split(s, sep)[0] == [s[0]] + rest[0];
    }
  }

  /** A separator-free head followed by a separator splits off as the
      first part. */
  lemma {:induction false} SplitCons(a: string, b: string, sep: char)
    requires sep !in a
    ensures Split(a + [sep] + b, sep) == [a] + Split(b, sep)
    decreases |a|
  {
    var s := a + [sep] + b;
    if |a| == 0 {
      assert s == [sep] + b;
      assert s[1..] == b;
    } else {
      assert s[1..] == a[1..] + [sep] + b;
      SplitCons(a[1..], b, sep);
      assert [a[0]] + a[1..] == a;
    }
  }

  /** The first part is exactly a separator-free head when what follows it
      is empty or starts with the separator. */
  lemma {:induction false} SplitFirstExact(k: string, rest: string, sep: char)
    requires sep !in k
    requires rest == [] || rest[0] == sep
    ensures Split(k + rest, sep)[0] == k
    decreases |k|
  {
    var s := k + rest;
    if |k| == 0 {
      assert s == rest;
    } else {
      assert s[1..] == k[1..] + rest;
      SplitFirstExact(k[1..], rest, sep);
      assert [k[0]] + k[1..] == k;
    }
  }

  /* ------------------------------------------------------------ lower/replace */

  function LowerChar(c: char): char {
    if 'A' <= c <= 'Z' then (c as int + 32) as char else c
  }

  /** `s.lower()` restricted to ASCII letters. */
  function Lower(s: string): (r: string)
    ensures |r| == |s|
    ensures forall i :: 0 <= i < |s| ==> r[i] == LowerChar(s[i])
  {
    seq(|s|, i requires 0 <= i < |s| => LowerChar(s[i]))
  }

  /** `s.replace(c, '')` for a single character `c`. */
  function Remove(s: string, c: char): (r: string)
    ensures c !in r
    decreases |s|
  {
    if |s| == 0 then ""
    else if s[0] == c then Remove(s[1..], c)
    else [s[0]] + Remove(s[1..], c)
  }

  /* ------------------------------------------------------------ int and str */

  predicate IsDigit(c: char) {
    '0' <= c <= '9'
  }

  predicate AllDigits(s: string) {
    forall i :: 0 <= i < |s| ==> IsDigit(s[i])
  }

  /** Decimal value of a string of digits, most significant first. */
  function DigitsValue(ds: string): nat
    requires AllDigits(ds)
    decreases |ds|
  {
    if |ds| == 0 then 0
    else DigitsValue(ds[..|ds| - 1]) * 10 + (ds[|ds| - 1] as int - '0' as int)
  }

  /** `int(s)` for an optional sign followed by at least one decimal digit;
      anything else is a `ValueError`, returned here as `None`. */
  function ParseInt(s: string): Option<int> {
    if |s| > 1 && (s[0] == '-' || s[0] == '+') && AllDigits(s[1..]) then
      var magnitude: int := DigitsValue(s[1..]);
      Some(if s[0] == '-' then -magnitude else magnitude)
    else if |s| > 0 && AllDigits(s) then
      Some(DigitsValue(s))
    else
      None
  }

  function Digit(d: nat): char
    requires d < 10
  {
    ('0' as int + d) as char
  }

  /** `str(n)` for a natural number: no sign, no leading zero. */
  function ShowNat(n: nat): string
    decreases n
  {
    if n < 10 then [Digit(n)] else ShowNat(n / 10) + [Digit(n % 10)]
  }

  /** `str(n)` for any integer. */
  function ShowInt(n: int): string {
    if n < 0 then "-" + ShowNat(-n) else ShowNat(n)
  }

  lemma {:induction false} ShowNatDigits(n: nat)
    ensures |ShowNat(n)| >= 1 && AllDigits(ShowNat(n))
    ensures DigitsValue(ShowNat(n)) == n
    decreases n
  {
    if n >= 10 {
      ShowNatDigits(n / 10);
      var s := ShowNat(n);
      assert s[..|s| - 1] == ShowNat(n / 10);
    }
  }

  /** `int(str(n)) == n`: the decimal text passed to the harness reads back
      as the same integer. */
  lemma ParseShowInt(n: int)
    ensures ParseInt(ShowInt(n)) == Some(n)
  {
    if n < 0 {
      ShowNatDigits(-n);
      var s := ShowInt(n);
      assert s[1..] == ShowNat(-n);
    } else {
      ShowNatDigits(n);
    }
  }
}
