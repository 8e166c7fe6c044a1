/** The reading of one harness run's console output in `characterize`
    (emixa/characterization.py): four failure markers tested in a fixed
    order, each with its own excerpt of the output as the report, and
    otherwise the metadata line the characterizer prints. */
module Console {
  import opened Strings
  import opened Util
  import opened Results

  const NoTestsMarker := "No tests to run"
  const NotExecutedMarker := "No tests were executed"
  const CharacterizerErrorMarker := "emixa-error"
  const CompileErrorMarker := "[error]"
  const EmixaPrefix := "emixa-"

  /** Why a run stops the whole batch (`characterize` returns `None`). */
  datatype Verdict =
    | NoSuchTest
    | NotExecuted(report: string)
    | CharacterizerError(report: string)
    | CompileError(report: string)
    | Unsupported(kind: string)

  /** The `IndexError`s of reading the metadata line: there is none, or it
      has fewer than four space-separated tokens. */
  datatype InfoError = NoInfoLine | ShortInfoLine

  datatype Classification =
    | Stop(verdict: Verdict)
    | Crash(error: InfoError)
    | Proceed(chartype: string, sgn: bool, kind: Module)

  /* ------------------------------------------------------- list utilities */

  /** `list(filter(lambda l: p in l, lines))` */
  function Filter(lines: seq<string>, p: string): (r: seq<string>)
    ensures |r| <= |lines|
    ensures forall k :: 0 <= k < |r| ==> Contains(r[k], p)
    ensures forall k :: 0 <= k < |lines| && Contains(lines[k], p) ==> lines[k] in r
    decreases |lines|
  {
    if |lines| == 0 then []
    else
      var rest := Filter(lines[1..], p);
      assert forall k :: 1 <= k < |lines| ==> lines[k] == lines[1..][k - 1];
      (if Contains(lines[0], p) then [lines[0]] else []) + rest
  }

  /** Filtering on a text every line already contains keeps every line. */
  lemma {:induction false} FilterKeepsAll(lines: seq<string>, p: string)
    requires forall k :: 0 <= k < |lines| ==> Contains(lines[k], p)
    ensures Filter(lines, p) == lines
    decreases |lines|
  {
    if |lines| > 0 {
      FilterKeepsAll(lines[1..], p);
    }
  }

  /** A text that contains `p` contains every prefix of `p`. */
  lemma {:induction false} ContainsOfPrefix(s: string, p: string, q: string)
    requires Contains(s, p) && StartsWith(p, q)
    ensures Contains(s, q)
    decreases |s|
  {
    if StartsWith(s, p) {
      assert s[..|q|] == p[..|q|];
    } else {
      ContainsOfPrefix(s[1..], p, q);
    }
  }

  /** A marker without a line break that occurs in the output occurs in one
      of its lines, and that line survives filtering on any prefix of the
      marker. */
  lemma MarkerLineSurvives(out: string, marker: string, keep: string)
    requires Contains(out, marker) && '\n' !in marker && StartsWith(marker, keep)
    ensures |Filter(Split(out, '\n'), keep)| >= 1
  {
    var lines := Split(out, '\n');
    ContainsSomePart(out, '\n', marker);
    var k :| 0 <= k < |lines| && Contains(lines[k], marker);
    ContainsOfPrefix(lines[k], marker, keep);
  }

  /** `sum([(i if p in l else 0) for i, l in enumerate(lines)])` */
  function SumIndex(lines: seq<string>, p: string): nat
    decreases |lines|
  {
    if |lines| == 0 then 0
    else
      var n := |lines| - 1;
      SumIndex(lines[..n], p) + (if Contains(lines[n], p) then n else 0)
  }

  /** With exactly one line mentioning `p`, the sum is that line's index;
      with none, it is `0`. */
  lemma {:induction false} SumIndexSingle(lines: seq<string>, p: string, k: int)
    requires -1 <= k < |lines|
    requires forall j :: 0 <= j < |lines| ==> (Contains(lines[j], p) <==> j == k)
    ensures SumIndex(lines, p) == if k < 0 then 0 else k
    decreases |lines|
  {
    if |lines| > 0 {
      var n := |lines| - 1;
      assert forall j :: 0 <= j < n ==> lines[..n][j] == lines[j];
      SumIndexSingle(lines[..n], p, if k == n then -1 else k);
    }
  }

  /** `min([(i if p in l else 0) for i, l in enumerate(lines)])` on a
      non-empty list. Every term is at least `0` and the first is `0`, so
      the minimum is always `0`. */
  function MinIndex(lines: seq<string>, p: string): (m: nat)
    requires |lines| >= 1
    ensures m == 0
    decreases |lines|
  {
    if |lines| == 1 then 0
    else
      var n := |lines| - 1;
      var term: nat := if Contains(lines[n], p) then n else 0;
      var init := MinIndex(lines[..n], p);
      if term < init then term else init
  }

  /** `max([(i if p in l else 0) for i, l in enumerate(lines)])` on a
      non-empty list: the index of the LAST line mentioning `p`, or `0`. */
  function MaxIndex(lines: seq<string>, p: string): (m: nat)
    requires |lines| >= 1
    ensures m < |lines|
    ensures m == 0 || Contains(lines[m], p)
    ensures forall k :: 0 <= k < |lines| && Contains(lines[k], p) ==> k <= m
    decreases |lines|
  {
    if |lines| == 1 then 0
    else
      var n := |lines| - 1;
      var init := MaxIndex(lines[..n], p);
      assert forall k :: 0 <= k < n ==> lines[..n][k] == lines[k];
      if Contains(lines[n], p) then n else init
  }

  /** `lines[a:a + n]`: Python clamps both ends to the length. */
  function Window(lines: seq<string>, a: nat, n: nat): (w: seq<string>)
    ensures |w| <= n
    ensures a + n <= |lines| ==> w == lines[a..a + n]
    ensures a >= |lines| ==> w == []
  {
    var lo := if a <= |lines| then a else |lines|;
    var hi := if a + n <= |lines| then a + n else |lines|;
    lines[lo..hi]
  }

  /* ----------------------------------------------------------- classifying */

  function Lines(out: string): seq<string> {
    Split(out, '\n')
  }

  /** The report for "No tests were executed": four lines starting at the
      SUM of the indices of the lines that mention the test name. */
  function NotExecutedReport(out: string, name: string): (r: string)
    ensures NoTags(r)
  {
    var lines := Lines(out);
    var r := Relabel(Join(Window(lines, SumIndex(lines, name), 4), '\n'));
    RelabelHasNoTags(Join(Window(lines, SumIndex(lines, name), 4), '\n'));
    r
  }

  /** The report for a characterizer error: the `emixa-` lines from the
      minimum index on, filtered once more on `emixa`. */
  function CharacterizerErrorReport(out: string): (r: string)
    requires Contains(out, CharacterizerErrorMarker)
    ensures NoTags(r)
  {
    var lines := Filter(Lines(out), EmixaPrefix);
    MarkerLineSurvives(out, CharacterizerErrorMarker, EmixaPrefix);
    var index := MinIndex(lines, CharacterizerErrorMarker);
    RelabelHasNoTags(Join(Filter(lines[index..], "emixa"), '\n'));
    Relabel(Join(Filter(lines[index..], "emixa"), '\n'))
  }

  /** The report for a compile error: the block of `[error]` lines that
      ends with the last caret. */
  function CompileErrorReport(out: string): (r: string)
    requires Contains(out, CompileErrorMarker)
    ensures NoTags(r)
  {
    var lines := Filter(Lines(out), CompileErrorMarker);
    MarkerLineSurvives(out, CompileErrorMarker, CompileErrorMarker);
    RelabelHasNoTags(Join(CaretBlock(lines), '\n'));
    Relabel(Join(CaretBlock(lines), '\n'))
  }

  /** `lines[:index + 1]` with `index` the maximum caret index: the lines up
      to and including the LAST one with a caret, or the first line alone
      when none has one. */
  function CaretBlock(lines: seq<string>): (b: seq<string>)
    requires |lines| >= 1
    ensures 1 <= |b| <= |lines| && b == lines[..|b|]
    ensures |b| == 1 || Contains(b[|b| - 1], "^")
    ensures forall j :: |b| <= j < |lines| ==> !Contains(lines[j], "^")
  {
    lines[..MaxIndex(lines, "^") + 1]
  }

  /** None of the build tool's raw `[info]`, `[warning]` and `[error]` tags
      occurs. */
  predicate NoTags(r: string) {
    !Contains(r, InfoTag) && !Contains(r, WarningTag) && !Contains(r, ErrorTag)
  }

  lemma RelabelHasNoTags(s: string)
    ensures NoTags(Relabel(s))
  {
    RelabelLeavesNoTag(s, InfoTag);
    RelabelLeavesNoTag(s, WarningTag);
    RelabelLeavesNoTag(s, ErrorTag);
  }

  /** The metadata read from the first `[emixa-info]` line: tokens 1, 2
      and 3, lower-cased, as test kind, signedness and module. */
  function ReadInfo(out: string): Classification {
    var infos := Filter(Lines(out), InfoLabel);
    if |infos| == 0 then Crash(NoInfoLine)
    else
      var specs := Split(infos[0], ' ');
      if |specs| < 4 then Crash(ShortInfoLine)
      else
        var kind := Lower(specs[3]);
        if kind == "adder" then Proceed(Lower(specs[1]), Lower(specs[2]) == "signed", Adder)
        else if kind == "multiplier" then Proceed(Lower(specs[1]), Lower(specs[2]) == "signed", Multiplier)
        else Stop(Unsupported(kind))
  }

  /** Lines 242-268 of `characterize` for one run's output. */
  function Classify(out: string, name: string): (c: Classification)
    ensures c.Stop? && c.verdict.NoSuchTest? <==> Contains(out, NoTestsMarker)
    ensures c.Stop? && !c.verdict.NoSuchTest? && !c.verdict.Unsupported? ==> NoTags(c.verdict.report)
  {
    if Contains(out, NoTestsMarker) then Stop(NoSuchTest)
    else if Contains(out, NotExecutedMarker) then Stop(NotExecuted(NotExecutedReport(out, name)))
    else if Contains(out, CharacterizerErrorMarker) then Stop(CharacterizerError(CharacterizerErrorReport(out)))
    else if Contains(out, CompileErrorMarker) then Stop(CompileError(CompileErrorReport(out)))
    else ReadInfo(out)
  }

  /* --------------------------------------------------------------- lemmas */

  predicate HasMarker(out: string) {
    Contains(out, NoTestsMarker) || Contains(out, NotExecutedMarker) ||
    Contains(out, CharacterizerErrorMarker) || Contains(out, CompileErrorMarker)
  }

  /** The four markers stop the batch in the order 'No tests to run',
      'No tests were executed', 'emixa-error', '[error]': each verdict is
      reached exactly when its marker is present and no earlier one is.
      Without a marker the metadata line decides. */
  lemma ClassifyPrecedence(out: string, name: string)
    ensures Classify(out, name).Stop? && Classify(out, name).verdict.NotExecuted? <==>
      !Contains(out, NoTestsMarker) && Contains(out, NotExecutedMarker)
    ensures Classify(out, name).Stop? && Classify(out, name).verdict.CharacterizerError? <==>
      !Contains(out, NoTestsMarker) && !Contains(out, NotExecutedMarker) &&
      Contains(out, CharacterizerErrorMarker)
    ensures Classify(out, name).Stop? && Classify(out, name).verdict.CompileError? <==>
      !Contains(out, NoTestsMarker) && !Contains(out, NotExecutedMarker) &&
      !Contains(out, CharacterizerErrorMarker) && Contains(out, CompileErrorMarker)
    ensures !HasMarker(out) ==> Classify(out, name) == ReadInfo(out)
  {
  }

  /** Despite the index arithmetic, the characterizer-error report is every
      line of the output that mentions `emixa-`, relabelled. */
  lemma CharacterizerErrorIsAllEmixaLines(out: string)
    requires Contains(out, CharacterizerErrorMarker)
    ensures CharacterizerErrorReport(out) == Relabel(Join(Filter(Lines(out), EmixaPrefix), '\n'))
  {
    var lines := Filter(Lines(out), EmixaPrefix);
    MarkerLineSurvives(out, CharacterizerErrorMarker, EmixaPrefix);
    forall k | 0 <= k < |lines| ensures Contains(lines[k], "emixa") {
      ContainsOfPrefix(lines[k], EmixaPrefix, "emixa");
    }
    assert lines[0..] == lines;
    FilterKeepsAll(lines, "emixa");
  }

  function KindName(k: Module): string {
    match k
    case Adder => "adder"
    case Multiplier => "multiplier"
  }

  function SignName(sgn: bool): string {
    if sgn then "signed" else "unsigned"
  }

  /** The metadata line as the characterizer prints it:
      `[emixa-info] <kind of test> <signedness> <module> ...`. */
  function InfoLine(chartype: string, sgn: bool, kind: Module): string {
    InfoLabel + " " + chartype + " " + SignName(sgn) + " " + KindName(kind)
  }

  /** Reading the metadata back: whatever follows the module token, the
      first metadata line yields the test kind, signedness and module the
      characterizer printed (the test kind as a lower-case word). */
  lemma InfoRoundTrip(out: string, chartype: string, sgn: bool, kind: Module, rest: string)
    requires ' ' !in chartype && Lower(chartype) == chartype
    requires rest == "" || rest[0] == ' '
    requires |Filter(Lines(out), InfoLabel)| >= 1
    requires Filter(Lines(out), InfoLabel)[0] == InfoLine(chartype, sgn, kind) + rest
    ensures ReadInfo(out) == Proceed(chartype, sgn, kind)
  {
    InfoLineTokens(chartype, sgn, kind, rest);
    LowerNames(sgn, kind);
  }

  lemma InfoLineTokens(chartype: string, sgn: bool, kind: Module, rest: string)
    requires ' ' !in chartype
    requires rest == "" || rest[0] == ' '
    ensures |Split(InfoLine(chartype, sgn, kind) + rest, ' ')| >= 4
    ensures Split(InfoLine(chartype, sgn, kind) + rest, ' ')[1] == chartype
    ensures Split(InfoLine(chartype, sgn, kind) + rest, ' ')[2] == SignName(sgn)
    ensures Split(InfoLine(chartype, sgn, kind) + rest, ' ')[3] == KindName(kind)
  {
    var a, c, d := InfoLabel, SignName(sgn), KindName(kind);
    NamesHaveNoSpace(sgn, kind);
    FourTokens(a, chartype, c, d, rest);
    assert InfoLine(chartype, sgn, kind) + rest == a + " " + chartype + " " + c + " " + d + rest;
  }

  lemma TailAppend(s: string, d: string, rest: string)
    ensures s + d + rest == s + (d + rest)
  {
  }

  lemma NamesHaveNoSpace(sgn: bool, kind: Module)
    ensures ' ' !in InfoLabel && ' ' !in SignName(sgn) && ' ' !in KindName(kind)
  {
  }

  /** Four space-free tokens joined by spaces are the first four parts of
      the split, whatever follows from a space on. */
  lemma FourTokens(a: string, b: string, c: string, d: string, rest: string)
    requires ' ' !in a && ' ' !in b && ' ' !in c && ' ' !in d
    requires rest == "" || rest[0] == ' '
    ensures |Split(a + " " + b + " " + c + " " + d + rest, ' ')| >= 4
    ensures var parts := Split(a + " " + b + " " + c + " " + d + rest, ' ');
      parts[0] == a && parts[1] == b && parts[2] == c && parts[3] == d
  {
    var t := d + rest;
    TailAppend(a + " " + b + " " + c + " ", d, rest);
    SpacedConcat(a, b, c, t);
    SplitThree(a, b, c, t);
    SplitFirstExact(d, rest, ' ');
    var parts := [a, b, c] + Split(t, ' ');
    assert parts[0] == a && parts[1] == b && parts[2] == c && parts[3] == d;
  }

  lemma SpacedConcat(a: string, b: string, c: string, t: string)
    ensures a + " " + b + " " + c + " " + t == a + [' '] + (b + [' '] + (c + [' '] + t))
  {
    assert " " == [' '];
  }

  lemma SplitThree(a: string, b: string, c: string, t: string)
    requires ' ' !in a && ' ' !in b && ' ' !in c
    ensures Split(a + [' '] + (b + [' '] + (c + [' '] + t)), ' ') == [a, b, c] + Split(t, ' ')
  {
    SplitCons(c, t, ' ');
    SplitCons(b, c + [' '] + t, ' ');
    SplitCons(a, b + [' '] + (c + [' '] + t), ' ');
  }

  lemma LowerNames(sgn: bool, kind: Module)
    ensures Lower(SignName(sgn)) == SignName(sgn)
    ensures Lower(KindName(kind)) == KindName(kind)
  {
    assert Lower("signed") == "signed";
    assert Lower("unsigned") == "unsigned";
    assert Lower("adder") == "adder";
    assert Lower("multiplier") == "multiplier";
  }

  /** When exactly one output line names the test, the not-executed report
      is the four lines starting there; when none does, the first four. */
  lemma NotExecutedWindow(out: string, name: string, k: int)
    requires -1 <= k < |Lines(out)|
    requires forall j :: 0 <= j < |Lines(out)| ==> (Contains(Lines(out)[j], name) <==> j == k)
    ensures NotExecutedReport(out, name) ==
      Relabel(Join(Window(Lines(out), if k < 0 then 0 else k, 4), '\n'))
  {
    SumIndexSingle(Lines(out), name, k);
  }
}
