/** The relabelling of build-tool log levels into the tool's own labels
    (`relabel` in emixa/util.py): three literal substitutions applied one
    after the other, `[info]`, then `[warning]`, then `[error]`. */
module Util {
  import opened Strings

  const Esc: char := 27 as char

  const InfoTag := "[info]"
  const WarningTag := "[warning]"
  const ErrorTag := "[error]"

  /** `_info`, `_warning` and `_error`: the warning and error labels carry
      ANSI colour escapes. */
  const InfoLabel := "[emixa-info]"
  const WarningLabel := "[" + [Esc] + "[1;33memixa-warning" + [Esc] + "[0;0m]"
  const ErrorLabel := "[" + [Esc] + "[1;31memixa-error" + [Esc] + "[0;0m]"

  predicate IsTag(q: string) {
    q == InfoTag || q == WarningTag || q == ErrorTag
  }

  /** `re.sub` with a pattern that matches the literal text `pat`: scan
      left to right, replace each occurrence and resume after it, so
      occurrences never overlap. */
  function ReplaceAll(s: string, pat: string, rep: string): string
    requires |pat| > 0
    decreases |s|
  {
    if |s| < |pat| then s
    else if s[..|pat|] == pat then rep + ReplaceAll(s[|pat|..], pat, rep)
    else [s[0]] + ReplaceAll(s[1..], pat, rep)
  }

  /** `relabel(string)`. A string with no tag in it comes back unchanged. */
  function Relabel(s: string): (r: string)
    ensures !Contains(s, InfoTag) && !Contains(s, WarningTag) && !Contains(s, ErrorTag) ==> r == s
  {
    var afterInfo := ReplaceAll(s, InfoTag, InfoLabel);
    var afterWarning := ReplaceAll(afterInfo, WarningTag, WarningLabel);
    var r := ReplaceAll(afterWarning, ErrorTag, ErrorLabel);
    assert !Contains(s, InfoTag) && !Contains(s, WarningTag) && !Contains(s, ErrorTag) ==> r == s by {
      if !Contains(s, InfoTag) && !Contains(s, WarningTag) && !Contains(s, ErrorTag) {
        ReplaceAbsent(s, InfoTag, InfoLabel);
        ReplaceAbsent(s, WarningTag, WarningLabel);
        ReplaceAbsent(s, ErrorTag, ErrorLabel);
      }
    }
    r
  }

  /** Reference definition: one left-to-right scan that replaces whichever
      tag starts at the current position and copies every other character. */
  function RelabelOnePass(s: string): string
    decreases |s|
  {
    if |s| == 0 then ""
    else if StartsWith(s, InfoTag) then InfoLabel + RelabelOnePass(s[|InfoTag|..])
    else if StartsWith(s, WarningTag) then WarningLabel + RelabelOnePass(s[|WarningTag|..])
    else if StartsWith(s, ErrorTag) then ErrorLabel + RelabelOnePass(s[|ErrorTag|..])
    else [s[0]] + RelabelOnePass(s[1..])
  }

  /* ------------------------------------------------------- generic facts */

  lemma {:induction false} ReplaceAbsent(s: string, pat: string, rep: string)
    requires |pat| > 0 && !Contains(s, pat)
    ensures ReplaceAll(s, pat, rep) == s
    decreases |s|
  {
    if |s| >= |pat| {
      ReplaceAbsent(s[1..], pat, rep);
      assert s == [s[0]] + s[1..];
    }
  }

  /** One step of the scan when no occurrence starts at the front. */
  lemma ReplaceStep(s: string, pat: string, rep: string)
    requires |pat| > 0 && |s| > 0 && !StartsWith(s, pat)
    ensures ReplaceAll(s, pat, rep) == [s[0]] + ReplaceAll(s[1..], pat, rep)
  {
    if |s| < |pat| {
      assert s == [s[0]] + s[1..];
    }
  }

  /** `a` and `p` differ at some position both have: nothing that starts
      with `a` can start with `p`. */
  predicate Diverges(a: string, p: string)
    decreases |a|
  {
    |a| > 0 && |p| > 0 && (a[0] != p[0] || Diverges(a[1..], p[1..]))
  }

  /** No occurrence of `p` can start inside `x`, whatever follows `x`. */
  predicate Safe(x: string, p: string)
    requires |p| > 0
    decreases |x|
  {
    |x| == 0 || ((x[0] != p[0] || Diverges(x, p)) && Safe(x[1..], p))
  }

  lemma {:induction false} DivergesNoStart(a: string, t: string, p: string)
    requires Diverges(a, p)
    ensures !StartsWith(a + t, p)
    decreases |a|
  {
    if a[0] == p[0] {
      DivergesNoStart(a[1..], t, p[1..]);
      assert (a + t)[1..] == a[1..] + t;
    }
  }

  lemma {:induction false} DivergesExtend(a: string, t: string, p: string)
    requires Diverges(a, p)
    ensures Diverges(a + t, p)
    decreases |a|
  {
    if a[0] == p[0] {
      DivergesExtend(a[1..], t, p[1..]);
      assert (a + t)[1..] == a[1..] + t;
    }
  }

  lemma {:induction false} SafeConcat(x: string, y: string, p: string)
    requires |p| > 0 && Safe(x, p) && Safe(y, p)
    ensures Safe(x + y, p)
    decreases |x|
  {
    if |x| == 0 {
      assert x + y == y;
    } else {
      if x[0] == p[0] { DivergesExtend(x, y, p); }
      SafeConcat(x[1..], y, p);
      assert (x + y)[1..] == x[1..] + y;
    }
  }

  lemma {:induction false} SafeWithoutOpener(x: string, p: string)
    requires |p| > 0 && p[0] !in x
    ensures Safe(x, p)
    decreases |x|
  {
    if |x| > 0 { SafeWithoutOpener(x[1..], p); }
  }

  /** A piece that opens with `p`'s first character once and then departs
      from `p` is safe. */
  lemma SafeOpening(x: string, p: string)
    requires |p| > 0 && |x| > 0 && Diverges(x, p) && p[0] !in x[1..]
    ensures Safe(x, p)
  {
    SafeWithoutOpener(x[1..], p);
  }

  /** Text that cannot host an occurrence is copied through unchanged. */
  lemma {:induction false} ReplaceSkips(a: string, t: string, pat: string, rep: string)
    requires |pat| > 0 && Safe(a, pat)
    ensures ReplaceAll(a + t, pat, rep) == a + ReplaceAll(t, pat, rep)
    decreases |a|
  {
    if |a| == 0 {
      assert a + t == t;
    } else {
      if a[0] == pat[0] {
        DivergesNoStart(a, t, pat);
      }
      ReplaceStep(a + t, pat, rep);
      assert (a + t)[1..] == a[1..] + t;
      ReplaceSkips(a[1..], t, pat, rep);
    }
  }

  lemma ConsPrefix(c: char, r: string, q: string)
    requires |q| > 0
    ensures StartsWith([c] + r, q) <==> c == q[0] && StartsWith(r, q[1..])
  {
    if StartsWith([c] + r, q) {
      assert r[..|q| - 1] == ([c] + r)[1..|q|];
    }
    if c == q[0] && StartsWith(r, q[1..]) {
      assert ([c] + r)[..|q|] == [c] + r[..|q| - 1];
    }
  }

  lemma TailHasNoOpener(u: string)
    requires |u| > 0 && '[' !in u
    ensures '[' !in u[1..]
  {
    forall i | 0 <= i < |u[1..]| ensures u[1..][i] != '[' { assert u[1..][i] == u[i + 1]; }
  }

  /** A prefix without `[` seen in the output was already in the input,
      because every replacement starts with `[`. */
  lemma {:induction false} ReplacePrefixBack(s: string, u: string, pat: string, rep: string)
    requires |pat| > 0 && |rep| > 0 && rep[0] == '[' && '[' !in u
    ensures StartsWith(ReplaceAll(s, pat, rep), u) ==> StartsWith(s, u)
    decreases |u|
  {
    if |u| > 0 && |s| > 0 && !StartsWith(s, pat) {
      ReplaceStep(s, pat, rep);
      ConsPrefix(s[0], ReplaceAll(s[1..], pat, rep), u);
      TailHasNoOpener(u);
      ReplacePrefixBack(s[1..], u[1..], pat, rep);
      assert s == [s[0]] + s[1..];
      ConsPrefix(s[0], s[1..], u);
    } else if |u| > 0 && |s| > 0 {
      assert ReplaceAll(s, pat, rep)[0] == '[' by {
        assert s[..|pat|] == pat;
      }
    }
  }

  /* ------------------------------------------------ the concrete labels */

  lemma DivergesFromTags(x: string)
    requires |x| >= 2 && x[0] == '[' && x[1] != 'i' && x[1] != 'w' && x[1] != 'e'
    ensures Diverges(x, InfoTag) && Diverges(x, WarningTag) && Diverges(x, ErrorTag)
  {
    assert x[1..][0] == x[1];
  }

  lemma SafeAgainstTags(x: string, q: string)
    requires |x| >= 2 && x[0] == '[' && x[1] != 'i' && x[1] != 'w' && x[1] != 'e' && '[' !in x[1..]
    requires IsTag(q)
    ensures Safe(x, q)
  {
    DivergesFromTags(x);
    SafeOpening(x, q);
  }

  lemma SafeConcat4(a: string, b: string, c: string, d: string, q: string)
    requires |q| > 0 && Safe(a, q) && Safe(b, q) && Safe(c, q) && Safe(d, q)
    ensures Safe(a + b + c + d, q)
  {
    SafeConcat(a, b, q);
    SafeConcat(a + b, c, q);
    SafeConcat(a + b + c, d, q);
  }

  lemma OpenPieceSafe(q: string)
    requires IsTag(q)
    ensures Safe("[" + [Esc], q) && Safe([Esc], q) && Safe("[0;0m]", q)
  {
    SafeAgainstTags("[" + [Esc], q);
    SafeWithoutOpener([Esc], q);
    SafeAgainstTags("[0;0m]", q);
  }

  lemma WarningPieceSafe(q: string)
    requires IsTag(q)
    ensures Safe("[1;33memixa-warning", q)
  {
    SafeAgainstTags("[1;33memixa-warning", q);
  }

  lemma ErrorPieceSafe(q: string)
    requires IsTag(q)
    ensures Safe("[1;31memixa-error", q)
  {
    SafeAgainstTags("[1;31memixa-error", q);
  }

  lemma WarningLabelSafe(q: string)
    requires IsTag(q)
    ensures Safe(WarningLabel, q)
  {
    OpenPieceSafe(q);
    WarningPieceSafe(q);
    SafeConcat4("[" + [Esc], "[1;33memixa-warning", [Esc], "[0;0m]", q);
  }

  lemma ErrorLabelSafe(q: string)
    requires IsTag(q)
    ensures Safe(ErrorLabel, q)
  {
    OpenPieceSafe(q);
    ErrorPieceSafe(q);
    SafeConcat4("[" + [Esc], "[1;31memixa-error", [Esc], "[0;0m]", q);
  }

  lemma InfoLabelSafe(q: string)
    requires IsTag(q)
    ensures Safe(InfoLabel, q)
  {
    assert Diverges(InfoLabel, q) by {
      assert InfoLabel[1..][1..] == "mixa-info]";
    }
    assert q[0] == '[';
    assert InfoLabel[1..] == "emixa-info]";
    SafeOpening(InfoLabel, q);
  }

  /** A tag followed by anything cannot host a different tag. */
  lemma TagSafe(p: string, q: string)
    requires IsTag(p) && IsTag(q) && p != q
    ensures Safe(p, q)
  {
    assert Diverges(p, q) by {
      assert InfoTag[1..][0] == 'i';
      assert WarningTag[1..][0] == 'w';
      assert ErrorTag[1..][0] == 'e';
    }
    SafeOpening(p, q);
  }

  /* ------------------------------------------------------------ results */

  lemma OnePassInfoCase(s: string)
    requires StartsWith(s, InfoTag)
    requires Relabel(s[|InfoTag|..]) == RelabelOnePass(s[|InfoTag|..])
    ensures Relabel(s) == RelabelOnePass(s)
  {
    var t := s[|InfoTag|..];
    assert s == InfoTag + t;
    var r1 := ReplaceAll(t, InfoTag, InfoLabel);
    assert ReplaceAll(s, InfoTag, InfoLabel) == InfoLabel + r1;
    InfoLabelSafe(WarningTag);
    InfoLabelSafe(ErrorTag);
    ReplaceSkips(InfoLabel, r1, WarningTag, WarningLabel);
    ReplaceSkips(InfoLabel, ReplaceAll(r1, WarningTag, WarningLabel), ErrorTag, ErrorLabel);
  }

  lemma OnePassWarningCase(s: string)
    requires StartsWith(s, WarningTag)
    requires Relabel(s[|WarningTag|..]) == RelabelOnePass(s[|WarningTag|..])
    ensures Relabel(s) == RelabelOnePass(s)
  {
    var t := s[|WarningTag|..];
    assert s == WarningTag + t;
    assert !StartsWith(s, InfoTag) by { assert s[1] == 'w'; }
    var r1 := ReplaceAll(t, InfoTag, InfoLabel);
    TagSafe(WarningTag, InfoTag);
    ReplaceSkips(WarningTag, t, InfoTag, InfoLabel);
    var r2 := ReplaceAll(r1, WarningTag, WarningLabel);
    assert (WarningTag + r1)[..|WarningTag|] == WarningTag;
    assert (WarningTag + r1)[|WarningTag|..] == r1;
    assert ReplaceAll(WarningTag + r1, WarningTag, WarningLabel) == WarningLabel + r2;
    WarningLabelSafe(ErrorTag);
    ReplaceSkips(WarningLabel, r2, ErrorTag, ErrorLabel);
  }

  lemma OnePassErrorCase(s: string)
    requires StartsWith(s, ErrorTag)
    requires Relabel(s[|ErrorTag|..]) == RelabelOnePass(s[|ErrorTag|..])
    ensures Relabel(s) == RelabelOnePass(s)
  {
    var t := s[|ErrorTag|..];
    assert s == ErrorTag + t;
    assert !StartsWith(s, InfoTag) && !StartsWith(s, WarningTag) by { assert s[1] == 'e'; }
    var r1 := ReplaceAll(t, InfoTag, InfoLabel);
    TagSafe(ErrorTag, InfoTag);
    ReplaceSkips(ErrorTag, t, InfoTag, InfoLabel);
    var r2 := ReplaceAll(r1, WarningTag, WarningLabel);
    TagSafe(ErrorTag, WarningTag);
    ReplaceSkips(ErrorTag, r1, WarningTag, WarningLabel);
    assert (ErrorTag + r2)[..|ErrorTag|] == ErrorTag;
    assert (ErrorTag + r2)[|ErrorTag|..] == r2;
    assert ReplaceAll(ErrorTag + r2, ErrorTag, ErrorLabel) == ErrorLabel + ReplaceAll(r2, ErrorTag, ErrorLabel);
  }

  /** A character that does not start an occurrence in the input does not
      start one in the partly relabelled text either. */
  lemma StepThrough(c: char, t: string, r: string, pat: string, rep: string)
    requires |pat| > 0 && !StartsWith([c] + t, pat)
    requires StartsWith(r, pat[1..]) ==> StartsWith(t, pat[1..])
    ensures ReplaceAll([c] + r, pat, rep) == [c] + ReplaceAll(r, pat, rep)
  {
    ConsPrefix(c, t, pat);
    ConsPrefix(c, r, pat);
    ReplaceStep([c] + r, pat, rep);
    assert ([c] + r)[1..] == r;
  }

  lemma TagTailsHaveNoOpener()
    ensures '[' !in InfoTag[1..] && '[' !in WarningTag[1..] && '[' !in ErrorTag[1..]
    ensures InfoLabel[0] == '[' && WarningLabel[0] == '[' && ErrorLabel[0] == '['
  {
  }

  /** Three substitutions in a row copy a character that starts none of the
      patterns, provided each replacement opens with `[` and no pattern has a
      `[` after its first character: a replacement cannot complete a later
      pattern that the copied character would begin. */
  lemma ChainStep(s: string, p1: string, l1: string, p2: string, l2: string, p3: string, l3: string)
    requires |p1| > 0 && |p2| > 0 && |p3| > 0
    requires |l1| > 0 && l1[0] == '[' && |l2| > 0 && l2[0] == '['
    requires '[' !in p2[1..] && '[' !in p3[1..]
    requires |s| > 0 && !StartsWith(s, p1) && !StartsWith(s, p2) && !StartsWith(s, p3)
    ensures ReplaceAll(ReplaceAll(ReplaceAll(s, p1, l1), p2, l2), p3, l3)
         == [s[0]] + ReplaceAll(ReplaceAll(ReplaceAll(s[1..], p1, l1), p2, l2), p3, l3)
  {
    var c, t := s[0], s[1..];
    assert s == [c] + t;
    var r1 := ReplaceAll(t, p1, l1);
    ReplaceStep(s, p1, l1);
    var r2 := ReplaceAll(r1, p2, l2);
    ReplacePrefixBack(t, p2[1..], p1, l1);
    StepThrough(c, t, r1, p2, l2);
    ReplacePrefixBack(r1, p3[1..], p2, l2);
    ReplacePrefixBack(t, p3[1..], p1, l1);
    StepThrough(c, t, r2, p3, l3);
  }

  lemma OnePassOtherCase(s: string)
    requires |s| > 0 && !StartsWith(s, InfoTag) && !StartsWith(s, WarningTag) && !StartsWith(s, ErrorTag)
    requires Relabel(s[1..]) == RelabelOnePass(s[1..])
    ensures Relabel(s) == RelabelOnePass(s)
  {
    TagTailsHaveNoOpener();
    ChainStep(s, InfoTag, InfoLabel, WarningTag, WarningLabel, ErrorTag, ErrorLabel);
  }

  /** The three successive substitutions do the same as one scan that
      replaces each of `[info]`, `[warning]` and `[error]` by its label and
      keeps all other text, in order. */
  lemma {:induction false} RelabelIsOnePass(s: string)
    ensures Relabel(s) == RelabelOnePass(s)
    decreases |s|
  {
    if |s| == 0 {
    } else if StartsWith(s, InfoTag) {
      RelabelIsOnePass(s[|InfoTag|..]);
      OnePassInfoCase(s);
    } else if StartsWith(s, WarningTag) {
      RelabelIsOnePass(s[|WarningTag|..]);
      OnePassWarningCase(s);
    } else if StartsWith(s, ErrorTag) {
      RelabelIsOnePass(s[|ErrorTag|..]);
      OnePassErrorCase(s);
    } else {
      RelabelIsOnePass(s[1..]);
      OnePassOtherCase(s);
    }
  }

  /** A prefix without `[` seen in the relabelled text was already in the
      input. */
  lemma {:induction false} OnePassPrefixBack(s: string, u: string)
    requires '[' !in u
    ensures StartsWith(RelabelOnePass(s), u) ==> StartsWith(s, u)
    decreases |u|
  {
    if |u| > 0 && |s| > 0 {
      if StartsWith(s, InfoTag) || StartsWith(s, WarningTag) || StartsWith(s, ErrorTag) {
        assert RelabelOnePass(s)[0] == '[';
      } else {
        var rest := RelabelOnePass(s[1..]);
        ConsPrefix(s[0], rest, u);
        TailHasNoOpener(u);
        OnePassPrefixBack(s[1..], u[1..]);
        assert s == [s[0]] + s[1..];
        ConsPrefix(s[0], s[1..], u);
      }
    }
  }

  lemma {:induction false} SafeContains(a: string, x: string, q: string)
    requires |q| > 0 && Safe(a, q)
    ensures Contains(a + x, q) ==> Contains(x, q)
    decreases |a|
  {
    if |a| == 0 {
      assert a + x == x;
    } else {
      if a[0] == q[0] {
        DivergesNoStart(a, x, q);
      }
      assert (a + x)[1..] == a[1..] + x;
      SafeContains(a[1..], x, q);
    }
  }

  lemma {:induction false} OnePassLeavesNoTag(s: string, q: string)
    requires IsTag(q)
    ensures !Contains(RelabelOnePass(s), q)
    decreases |s|
  {
    if |s| > 0 {
      if StartsWith(s, InfoTag) {
        OnePassLeavesNoTag(s[|InfoTag|..], q);
        InfoLabelSafe(q);
        SafeContains(InfoLabel, RelabelOnePass(s[|InfoTag|..]), q);
      } else if StartsWith(s, WarningTag) {
        OnePassLeavesNoTag(s[|WarningTag|..], q);
        WarningLabelSafe(q);
        SafeContains(WarningLabel, RelabelOnePass(s[|WarningTag|..]), q);
      } else if StartsWith(s, ErrorTag) {
        OnePassLeavesNoTag(s[|ErrorTag|..], q);
        ErrorLabelSafe(q);
        SafeContains(ErrorLabel, RelabelOnePass(s[|ErrorTag|..]), q);
      } else {
        var rest := RelabelOnePass(s[1..]);
        OnePassLeavesNoTag(s[1..], q);
        assert '[' !in q[1..];
        OnePassPrefixBack(s[1..], q[1..]);
        ConsPrefix(s[0], rest, q);
        assert s == [s[0]] + s[1..];
        ConsPrefix(s[0], s[1..], q);
        assert ([s[0]] + rest)[1..] == rest;
      }
    }
  }

  /** After relabelling no `[info]`, `[warning]` or `[error]` is left: no
      label contains a tag, and none can be formed across a label's edge. */
  lemma RelabelLeavesNoTag(s: string, q: string)
    requires IsTag(q)
    ensures !Contains(Relabel(s), q)
  {
    RelabelIsOnePass(s);
    OnePassLeavesNoTag(s, q);
  }

  /** Relabelling twice is relabelling once. */
  lemma RelabelIdempotent(s: string)
    ensures Relabel(Relabel(s)) == Relabel(s)
  {
    RelabelLeavesNoTag(s, InfoTag);
    RelabelLeavesNoTag(s, WarningTag);
    RelabelLeavesNoTag(s, ErrorTag);
  }

  lemma {:induction false} NoOpenerNoTag(s: string, q: string)
    requires |q| > 0 && q[0] == '[' && '[' !in s
    ensures !Contains(s, q)
    decreases |s|
  {
    if |s| > 0 {
      NoOpenerNoTag(s[1..], q);
    }
  }

  /** Matching is literal: text without a `[` (bare `info`, `error`, ...)
      is never touched. */
  lemma RelabelKeepsBareWords(s: string)
    requires '[' !in s
    ensures Relabel(s) == s
  {
    NoOpenerNoTag(s, InfoTag);
    NoOpenerNoTag(s, WarningTag);
    NoOpenerNoTag(s, ErrorTag);
  }
}
