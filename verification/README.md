# emixa core in Dafny

emixa (Error Modeling of Inexact Arithmetic) drives a hardware test harness
that characterizes approximate adders and multipliers, reads the error data
the harness writes back, and turns each characterization into a Python class
imitating the operator (`funcgen`) and into plots (`visualize`). This project
models the integer and string core of that pipeline and proves properties of
it:

- `bigendian.dfy`, `twos.dfy`: Python's `struct` formats `>i`/`>q`, and the
  masking, sign extension and two-most-significant-bit domain index that the
  tool performs on Python's unbounded integers.
- `strings.dfy`, `pydict.dfy`, `grouping.dfy`: the `str` operations, the
  insertion-ordered `dict`, and the filter / group / count loops.
- `decoders.dfy`: the three readers of `errors.bin`, over the file's bytes.
- `ranges.dfy`, `sweep.dfy`: `parse_range`, the `itertools.product` sweep,
  the binding of each combination into the run parameters and the
  `-Darg{i}={value}` flags.
- `relabel.dfy` (module `Util`): `relabel`.
- `classify.dfy` (module `Console`): the reading of one run's console
  output: four markers in a fixed precedence, their report excerpts, and
  the metadata line.
- `characterize.dfy`: `characterize`, with the harness as a parameter.
- `results.dfy`, `batch.dfy`: the three characterization variants, and the
  varying-parameter detection shared by `funcgen` and `visualize`.
- `synthesis.dfy`: `funcgen` and its three generators, and what the emitted
  operator classes are meant to compute. As written, every call of an
  emitted class that passes its operand assertion raises `NameError`
  (fourth Findings row).
- `visualization.dfy`: the integer preprocessing behind every plot.
- `cli.dfy`: flag reading and gating in `emixa(args)`.

Exceptions the Python code raises are error variants of `Result`. A reader
that returns `None` or `False` makes its caller's tuple unpacking raise, so
the whole `characterize` call raises. Means stay exact `(sum, count)` pairs.
The 8-byte `double` payload of a random 2D record stays opaque bytes.

Some behaviours of the code are easy to misread; the model follows the code,
and a lemma pins each one:

- A random 2D record is a fixed 16 bytes: an 8-byte result and an 8-byte
  double. It is not a count-prefixed list of samples
  (`Decoders.Records2DFields`).
- A two-part range `start:stop` with `stop < start` is empty, because the
  step stays `1`. It does not count down (`Ranges.TwoPartDescendingEmpty`).
- The compile-error report runs up to the LAST line with a caret
  (`Console.CaretBlock`).
- The not-executed report starts at the SUM of the indices of the lines
  naming the test, not at the first such line (`Console.SumIndexSingle`,
  `Console.NotExecutedWindow`).
- The characterizer-error report holds every `emixa-` line, because the
  minimum index it starts from is always `0` (`Console.MinIndex`,
  `Console.CharacterizerErrorIsAllEmixaLines`).
- No probe invocation and no named arguments exist. Arguments are bound
  by position only (`Sweep.Bind`, `Sweep.Flags`).

## Model

| member | source | states |
|---|---|---|
| BigEndian.Signed | emixa/characterization.py:73-74 | a big-endian two's-complement field of `n` bytes reads as a value in `[-256^n/2, 256^n/2)` |
| BigEndian.SignedRoundTrip | emixa/characterization.py:73-74 | reading the `n`-byte encoding of a representable value gives that value back |
| BigEndian.EncodeSignedRoundTrip | emixa/characterization.py:80 | re-encoding a decoded field gives the same bytes, so each field encodes exactly one value |
| BigEndian.UnsignedEncodeRoundTrip | emixa/characterization.py:80 | unsigned big-endian reading inverts the unsigned encoding |
| BigEndian.EncodeUnsignedRoundTrip | emixa/characterization.py:80 | the unsigned encoding inverts the unsigned reading |
| TwosComplement.Low | emixa/function.py:19 | `x & ((1 << w) - 1)` lies in `[0, 2^w)` and is congruent to `x` modulo `2^w` |
| TwosComplement.SignExtend | emixa/function.py:41-44 | `sext \| pos` lies in the signed `w`-bit range and keeps `pos` as its low `w` bits |
| TwosComplement.SignExtendIsSignChange | emixa/function.py:43-44 | the emitted sign extension agrees with the plotting code's `k - 2**n` sign change on every pattern |
| TwosComplement.SignChangeBijection | emixa/visualization.py:199 | `k if k < 2**(n-1) else k - 2**n` is a bijection from `[0, 2^n)` onto the signed range, inverted by masking |
| TwosComplement.DomainIndex | emixa/function.py:82 | `(k >> (w - 2)) & 3` is one of the four domains |
| TwosComplement.DomainIndexIsQuarter | emixa/function.py:78-82 | on a `w`-bit pattern the domain index is `k div 2^(w-2)`, so the domains are four equal quarters |
| TwosComplement.DomainIndexOfLow | emixa/function.py:193 | a negative operand falls into the domain of its `w`-bit pattern |
| Strings.SplitJoin | emixa/characterization.py:158 | `split` leaves no separator inside a part, and joining the parts restores the string |
| Strings.JoinSplit | emixa/characterization.py:227 | parts free of the separator come back from splitting their join |
| Strings.ContainsSomePart | emixa/characterization.py:263 | a separator-free text found in the output lies inside one of its lines |
| Strings.Lower | emixa/characterization.py:265 | `lower` keeps the length and lowers each character in place |
| Strings.Remove | emixa.py:51 | `replace('-', '')` leaves no `-` |
| Strings.ParseShowInt | emixa/characterization.py:164-169 | `int(str(n)) == n` for every integer |
| PyDict.IndexOf | emixa/characterization.py:113 | a key's position is its first occurrence, and a key has no position exactly when it is absent |
| PyDict.Put | emixa/characterization.py:113 | `d[k] = v` makes `k` map to `v`, leaves every other key alone, keeps keys distinct, and grows the dict only for a new key |
| PyDict.FromPairs | emixa/characterization.py:109-113 | the dict built from the records has exactly their keys, each once |
| PyDict.FromPairsLastWins | emixa/characterization.py:110-113 | a key ends up with the value of the last record carrying it |
| PyDict.AppendTo | emixa/visualization.py:55-58 | append-or-create adds one value to the key's list and changes no other key |
| Grouping.PickMembers | emixa/function.py:82 | a filter over bins keeps exactly the elements sent to that bin |
| Grouping.TallyAll | emixa/function.py:159-164 | when every element goes to one of `n` bins, the bins together hold each element once |
| Grouping.GroupBy | emixa/visualization.py:55-58 | grouping keeps each key once, holds all of its values in order, and loses no value |
| Grouping.Histogram | emixa/visualization.py:82-89 | counting gives each distinct value once with its number of occurrences, and the counts add up to the input length |
| Ranges.Elements | emixa/characterization.py:183 | `range(start, stop, step)` is the progression `start + i * step`, cut at the first value that reaches `stop` |
| Ranges.ParseRange | emixa/characterization.py:158-176 | a range argument fails on a part count other than 2 or 3, or on a part that is not an integer; a range it returns never has step 0 |
| Ranges.FirstInvalidReported | emixa/characterization.py:171-176 | only the first non-integer part is reported, with its label `start`/`stop`/`by` |
| Ranges.TwoPartAscending | emixa/characterization.py:179-183 | `start:stop` with `start <= stop` yields exactly `start, ..., stop` |
| Ranges.UnitRange | emixa/characterization.py:183 | the range a two-part argument builds from `a <= b` is `a, a + 1, ..., b`, both ends included |
| Ranges.TwoPartDescendingEmpty | emixa/characterization.py:179-183 | `start:stop` with `stop < start` yields nothing |
| Ranges.ThreePartOutcome | emixa/characterization.py:184-192 | `start:stop:by` is rejected iff the sign of `by` disagrees with the direction; `s:s:0` gets past that check and raises; otherwise the range is `range(start, stop + by, by)` |
| Ranges.ThreePartStop | emixa/characterization.py:184-192 | past the check, `stop` is yielded iff `by` divides `stop - start` |
| Sweep.ParseArg | emixa/characterization.py:214 | an argument without `:` stays literal; a valid range becomes its integers; a rejected range becomes `None`; only a zero step raises |
| Sweep.ParseArgs | emixa/characterization.py:214 | every argument is parsed in place, and the call raises iff some argument has a zero step |
| Sweep.Product | emixa/characterization.py:219 | the number of combinations is the product of the range lengths |
| Sweep.ProductMember | emixa/characterization.py:219 | a list is a combination iff it picks one value from each range, in order |
| Sweep.ProductIndex | emixa/characterization.py:219 | combination `i` is the mixed-radix reading of `i`, with the last range as the fastest digit |
| Sweep.CountZero | emixa/characterization.py:219 | there is no run iff some range is empty |
| Sweep.SweptAtRank | emixa/characterization.py:217-218 | `rangeinds` sends each range argument to its own list of values |
| Sweep.Bind | emixa/characterization.py:226 | a run passes literal arguments unchanged and the combination's value at each range position |
| Sweep.RunsShape | emixa/characterization.py:224-226 | every run has one parameter per argument: the literal, or an integer of that argument's range |
| Sweep.RunsComplete | emixa/characterization.py:219-226 | every choice of one value per range is run |
| Sweep.NoRangesOneRun | emixa/characterization.py:217-226 | without ranges there is exactly one run, with the arguments as given |
| Sweep.Flags | emixa/characterization.py:227 | one `-Darg{i}={param}` flag per parameter, at its position |
| Sweep.FlagRoundTrip | emixa/characterization.py:227 | each flag reads back as its position and the rendered parameter; an integer reads back as itself |
| Sweep.CmdParamsWords | emixa/characterization.py:227 | without spaces in the parameters, `cmdparams` splits back into exactly the flags, in order |
| Util.Relabel | emixa/util.py:18-20 | a string with no `[info]`, `[warning]` or `[error]` comes back unchanged |
| Util.RelabelIsOnePass | emixa/util.py:4-20 | the three substitutions replace each tag literally by its label and keep all other text in order |
| Util.RelabelLeavesNoTag | emixa/util.py:4-20 | after relabelling no tag is left, not even one formed across a label's edge |
| Util.RelabelIdempotent | emixa/util.py:18-20 | relabelling twice is relabelling once |
| Util.RelabelKeepsBareWords | emixa/util.py:18-20 | text without `[`, such as a bare `info` or `error`, is never touched |
| Console.Filter | emixa/characterization.py:252 | the filter keeps exactly the lines containing the text |
| Console.MarkerLineSurvives | emixa/characterization.py:257-259 | when the marker occurs, at least one line survives the filter, so the index list is never empty |
| Console.SumIndexSingle | emixa/characterization.py:247 | with one line naming the test, the summed index is that line's; with none, `0` |
| Console.MinIndex | emixa/characterization.py:253 | the minimum index is always `0` |
| Console.MaxIndex | emixa/characterization.py:259 | the maximum index is that of the last line with a caret, or `0` |
| Console.Window | emixa/characterization.py:248 | a slice clamps to the list: the exact window inside it, nothing past its end |
| Console.CaretBlock | emixa/characterization.py:259-260 | the compile-error block is a prefix ending at the last caret line, and no later line has a caret |
| Console.NotExecutedReport | emixa/characterization.py:246-248 | the not-executed report carries no raw tag |
| Console.CharacterizerErrorReport | emixa/characterization.py:252-254 | the characterizer-error report carries no raw tag |
| Console.CompileErrorReport | emixa/characterization.py:258-260 | the compile-error report carries no raw tag |
| Console.Classify | emixa/characterization.py:242-268 | a run stops with "no such test" iff its output says "No tests to run", and every other report carries no raw tag |
| Console.ClassifyPrecedence | emixa/characterization.py:242-268 | each verdict is reached iff its marker is present and no earlier one is; without a marker the metadata line decides |
| Console.CharacterizerErrorIsAllEmixaLines | emixa/characterization.py:251-254 | the characterizer-error report is every `emixa-` line of the output, relabelled |
| Console.NotExecutedWindow | emixa/characterization.py:245-248 | with one line naming the test, the report is the four lines from there; with none, the first four |
| Console.InfoLineTokens | emixa/characterization.py:263-265 | tokens 1, 2 and 3 of a metadata line are the test kind, the signedness and the module |
| Console.InfoRoundTrip | emixa/characterization.py:263-268 | reading the first metadata line gives back the kind, signedness and module the characterizer printed |
| Decoders.Header | emixa/characterization.py:73-77 | the header is accepted iff both width fields agree; a file shorter than 8 bytes raises |
| Decoders.FrameHeader | emixa/characterization.py:73-77 | a file written with width `w` reads back width `w` and its body |
| Decoders.Words | emixa/characterization.py:79-80 | the body reads as one signed 64-bit word per 8 bytes, word `k` at offset `8k` |
| Decoders.WordsRoundTrip | emixa/characterization.py:79-80 | reading back encoded 64-bit words gives the words |
| Decoders.EncodeWordsRoundTrip | emixa/characterization.py:79-80 | every body of whole words is the encoding of what it reads as |
| Decoders.Reshape | emixa/characterization.py:86 | cutting `m * n` words into rows gives `m` rows of `n` |
| Decoders.FlattenReshape | emixa/characterization.py:86 | reshaping loses nothing: the rows in order are the words |
| Decoders.ReshapeFlatten | emixa/characterization.py:86 | every table with rows of equal length is the reshaping of its flattening |
| Decoders.ReshapeCell | emixa/characterization.py:86 | cell `(i, j)` is word `i * n + j` |
| Decoders.ReadExhaustive | emixa/characterization.py:61-88 | an exhaustive file is accepted iff its widths agree, its body is whole words, its width is not negative and it holds `2^w * 2^w` words; the result is a `2^w x 2^w` table of those words |
| Decoders.ExhaustiveCell | emixa/characterization.py:79-86 | cell `(a, b)` is the word at byte offset `8 + 8 * (a * 2^w + b)` |
| Decoders.ExhaustiveRoundTrip | emixa/characterization.py:61-88 | reading what the harness writes for a `2^w x 2^w` table gives that table and `w` |
| Decoders.Records2D | emixa/characterization.py:110-112 | a random 2D body holds one record per 16 bytes |
| Decoders.Records2DFields | emixa/characterization.py:110-112 | record `k` is the word at offset `16k` and the 8 bytes after it |
| Decoders.Records2DRoundTrip | emixa/characterization.py:110-112 | reading back encoded random 2D records gives the records |
| Decoders.ReadRandom2D | emixa/characterization.py:92-115 | a random 2D file is accepted iff its widths agree and its body is whole 16-byte records |
| Decoders.Record2DAt | emixa/characterization.py:110-112 | record `k` is read at file offset `8 + 16k` |
| Decoders.Random2DKeys | emixa/characterization.py:109-113 | the decoded dict has one entry per distinct result and no other |
| Decoders.Random2DLastRecordWins | emixa/characterization.py:110-113 | a result keeps the payload of its last record |
| Decoders.Random2DRoundTrip | emixa/characterization.py:92-115 | reading a written random 2D file gives the dict of its records and the width |
| Decoders.Records3D | emixa/characterization.py:137-140 | a random 3D body holds one record per 24 bytes |
| Decoders.Records3DFields | emixa/characterization.py:137-140 | record `k` is the three words at offsets `24k`, `24k + 8` and `24k + 16` |
| Decoders.Records3DRoundTrip | emixa/characterization.py:137-140 | reading back encoded random 3D records gives the records |
| Decoders.ReadRandom3D | emixa/characterization.py:119-143 | a random 3D file is accepted iff its widths agree and its body is whole 24-byte records |
| Decoders.Record3DAt | emixa/characterization.py:137-140 | record `k` is read at file offset `8 + 24k` |
| Decoders.Random3DKeys | emixa/characterization.py:136-141 | the decoded dict has one entry per distinct operand pair and no other |
| Decoders.Random3DLastRecordWins | emixa/characterization.py:137-141 | an operand pair keeps the result of its last record |
| Decoders.Random3DRoundTrip | emixa/characterization.py:119-143 | reading a written random 3D file gives the dict of its records and the width |
| Characterize.Decode | emixa/characterization.py:275-286 | the test kind selects the reader, and the data has that kind's shape |
| Characterize.RunStep | emixa/characterization.py:242-290 | a run either appends a result or ends the batch with a verdict or an exception, never with a list |
| Characterize.RunAll | emixa/characterization.py:222-293 | a completed batch has one result per run |
| Characterize.Characterize | emixa/characterization.py:209-214 | no argument raises at `pop(0)`; a zero-step range raises before any run |
| Characterize.RunAllSteps | emixa/characterization.py:224-290 | result `k` is what run `k` produced given result `k - 1` as the previous `conf` |
| Characterize.CompletedResult | emixa/characterization.py:274-289 | result `k` is run `k`'s decoded data, name, signedness, width, module and parameters, or for an unknown test kind result `k - 1` again |
| Characterize.CompletedOnlyWithoutVerdicts | emixa/characterization.py:242-268 | a batch completes only if every run got past the markers and named an adder or multiplier |
| Characterize.AbortedByARun | emixa/characterization.py:242-268 | an aborted batch reports the verdict of one of its runs |
| Characterize.UnknownKindFirst | emixa/characterization.py:275-289 | an unknown test kind on the first run raises, because `conf` was never assigned |
| Characterize.CharacterizeRuns | emixa/characterization.py:214-238 | a completed `characterize` is the loop over the runs of the parsed arguments, one result per combination; command `k` passed the markers, and when it names a known kind, result `k` holds the data and width decoded from its error file and the `k`-th run's parameters |
| Characterize.ReadExhaustiveAsWritten | emixa/characterization.py:86-88 | the exhaustive reader returns its table as a plain list |
| Characterize.ExhaustiveCharAsWritten | emixa/characterization.py:31-36 | `ExhaustiveChar` accepts its data iff the data is an `ndarray` |
| Characterize.ExhaustiveAlwaysAsserts | emixa/characterization.py:275-278 | as written, every exhaustive result that was read successfully fails the assertion |
| Characterize.ExhaustiveStep | emixa/characterization.py:275-278 | with the table handed over as intended, an exhaustive run yields the `2^w x 2^w` table read from its file |
| Batch.SingleValue | emixa/function.py:234-235 | a position has one value across the batch iff no two results disagree there |
| Batch.DiffIndices | emixa/function.py:234-235 | `diffind` holds exactly the positions where results disagree, in ascending order |
| Batch.DiffParams | emixa/function.py:245 | `diffparams` is the result's parameters at those positions |
| Batch.DiffParamsSeparate | emixa/function.py:234-245 | two results with different parameters get different `diffparams` |
| Batch.SharedParamsDropped | emixa/function.py:234-235 | a parameter shared by every result never reaches the module name |
| Synthesis.OperandPatterns | emixa/function.py:19-25 | the accepted operands hold one representative of each `w`-bit pattern |
| Synthesis.Output | emixa/function.py:41-44 | an emitted result lies in the operator's range and is congruent to the raw value modulo `2^w` |
| Synthesis.OutputUnique | emixa/function.py:41-44 | only one value has both properties |
| Synthesis.PyIndex | emixa/function.py:48 | Python indexing succeeds iff `-len <= i < len` |
| Synthesis.PyIndexOfPattern | emixa/function.py:48 | on a list of `2^w` entries, an accepted operand reads the entry of its `w`-bit pattern, negative or not |
| Synthesis.TruncDiv | emixa/function.py:194 | `int(n / d)` rounds toward zero |
| Synthesis.Call | emixa/function.py:34-54 | an emitted operator raises on an operand out of range, and every result it returns is in range |
| Synthesis.StripUnderscores | emixa/function.py:28 | `cls.lstrip('_')` is a suffix of the class name that does not start with `_`, and the name itself when it does not |
| Synthesis.MangleRenames | emixa/function.py:28-48 | inside a class whose name is not all underscores, a name like `__errors` is looked up under a different, mangled name |
| Synthesis.CallAsWritten | emixa/function.py:46-49 | the class as written raises on an operand out of range, otherwise `NameError` unless its table name is left unmangled, and then it returns what `Call` returns |
| Synthesis.CallAlwaysRaises | emixa/function.py:28-49 | every in-range call of an emitted class named `modname` raises `NameError`, for all three generators |
| Synthesis.AdderCallRaises | emixa/function.py:46-49 | on an unsigned 2-bit adder with a zero table, the intended `1 + 2` is `3`, while the class as written raises |
| Synthesis.GenExhaustive | emixa/function.py:6-60 | the exhaustive class embeds the table unchanged, and fails only on a negative shift |
| Synthesis.ExhaustiveCall | emixa/function.py:46-49 | the exhaustive class returns `x op y + errors[x][y]`, reduced to the operator's range |
| Synthesis.ZeroErrorsExact | emixa/function.py:46-49 | with an all-zero table the class is exact `w`-bit arithmetic |
| Synthesis.MultiplierKeepsLowBits | emixa/function.py:46-49 | the emitted multiplier keeps `w` bits of the product: `3 * 3` on two bits gives `1` |
| Synthesis.SegmentMembers | emixa/function.py:81-82 | a segment holds exactly the records whose result lies in its domain |
| Synthesis.SegmentsPartition | emixa/function.py:78-82 | the four segments together hold every record once |
| Synthesis.FitAll | emixa/function.py:81-85 | each domain's weights come from the fit of its own segment; the first domain whose fit fails ends the loop |
| Synthesis.GenRandom2D | emixa/function.py:64-139 | the random 2D class holds four weight pairs, one fitted per domain, and a width too small to shift raises |
| Synthesis.Random2DLookup | emixa/function.py:114-117 | the emitted class applies the weights fitted on the segment of its exact result's domain |
| Synthesis.CellMembers | emixa/function.py:160-162 | a cell holds exactly the records whose two operands lie in its two domains |
| Synthesis.MedRow | emixa/function.py:161-164 | a row holds each cell's mean, or fails at the first empty cell |
| Synthesis.MedTable | emixa/function.py:159-164 | the table holds every cell's mean, or fails at the first empty cell in row-major order |
| Synthesis.GenRandom3D | emixa/function.py:143-216 | the random 3D class embeds a 4 x 4 table of cell means, and an empty cell raises |
| Synthesis.MedTableCounts | emixa/function.py:159-164 | the sixteen cell counts of a generated table add up to the number of records |
| Synthesis.Random3DLookup | emixa/function.py:193-200 | the emitted class reads the mean of the cell its operands' domains select, and that is the cell holding their records |
| Synthesis.Call3D | emixa/function.py:193-205 | an in-range call returns `int(exact + med)` for the selected cell, reduced to the range |
| Synthesis.GenerateAll | emixa/function.py:237-257 | one class per result, each at the path named after its `diffparams`, or the first failure |
| Synthesis.FuncGen | emixa/function.py:220-259 | `funcgen` returns `None` iff the batch is empty; otherwise one file per result, or it raises iff some generator does |
| Visualization.Xlim | emixa/visualization.py:39 | the axis limits enclose exactly the operator's range |
| Visualization.OperandRange | emixa/visualization.py:38 | `oprng` lists every operand of the range once, ascending |
| Visualization.ExactKey | emixa/visualization.py:43-53 | a recomputed result lies in the result-width range and agrees with the exact result modulo `2^reswdth` |
| Visualization.ExactKeyIsOutput | emixa/visualization.py:43-53 | the recomputed result is the operator's output reduction taken at the result width |
| Visualization.ProductKeyIsWide | emixa/visualization.py:36 | the plot places `3 * 3` on two unsigned bits at `9`, where the emitted class returns `1` |
| Visualization.ProductKeyVsCall | emixa/visualization.py:36-53 | for every pair of operands, the multiplier plot key lies in the `2w`-bit range, and the emitted class returns that key plus the pair's error, reduced to `w` bits |
| Visualization.ErrorAt | emixa/visualization.py:54 | the table lookup succeeds iff both masked operands index the table |
| Visualization.SquareLookup | emixa/visualization.py:54 | on a `2^w x 2^w` table no lookup fails |
| Visualization.RowRecords | emixa/visualization.py:47-58 | the inner loop records each `b` in order, or fails iff some lookup fails |
| Visualization.AllRecords | emixa/visualization.py:46-58 | both loops give one record per pair of `xs` and `ys` with keys in range, or fail iff some lookup fails |
| Visualization.AllRecordsHoldEveryPair | emixa/visualization.py:46-58 | every operand pair's record is among the records |
| Visualization.VisualizeExhaustive | emixa/visualization.py:16-104 | `resdict` of the first plot is every operand pair's record grouped by recomputed result, totalling one per pair with keys in range; `resdict` of the second plot is the occurrence count of every error value, adding up to `cnt`; and the two plot paths |
| Visualization.ExhaustiveErrorsGrouped | emixa/visualization.py:46-58 | the error of every operand pair is listed under that pair's recomputed exact result |
| Visualization.PairRecorded | emixa/visualization.py:46-53 | the inner loop reaches every pair of `oprng` without an index failure, and its record is among the records |
| Visualization.ExhaustiveCounts | emixa/visualization.py:46-89 | on a `2^w x 2^w` table the grouped lists and the histogram both count `2^(2w)` entries |
| Visualization.WrapKeyIsSignChange | emixa/visualization.py:134 | on `r`-bit patterns the wrap is the signed reading |
| Visualization.AxisKeysAsWritten | emixa/visualization.py:134 | every key is wrapped, whatever the signedness |
| Visualization.UnsignedKeyLeavesAxis | emixa/visualization.py:128-134 | as written, an unsigned result in the upper half is drawn left of the axis |
| Visualization.AxisKeys | emixa/visualization.py:132-134 | keys are wrapped only for a signed operator |
| Visualization.AxisKeysInLimits | emixa/visualization.py:128-134 | every result then lands inside the axis limits, and distinct results stay apart |
| Visualization.HistogramDataAsWritten | emixa/visualization.py:153-155 | as written, the histogram input can only be empty |
| Visualization.HistogramAlwaysRaises | emixa/visualization.py:153-155 | iterating over a float payload raises as soon as there is one record |
| Visualization.HistogramData | emixa/visualization.py:153-155 | the intended histogram input is the non-zero payloads, in key order |
| Visualization.HistogramDataKeepsNonZero | emixa/visualization.py:153-155 | a payload reaches the histogram iff it is not zero, and the zero and non-zero records account for every record |
| Visualization.Bins | emixa/visualization.py:159 | the bin count is between 1 and 64, and a negative width raises |
| Visualization.VisualizeRandom2D | emixa/visualization.py:108-168 | the axis positions are the results wrapped only when signed (`AxisKeys`), one payload per result, the non-zero payloads, the bin count `Bins(w)`, and the two plot paths |
| Visualization.Step | emixa/visualization.py:198 | `dmnstep` is a quarter of the range |
| Visualization.Interval | emixa/visualization.py:197-207 | an operand in range lies in one of the four intervals |
| Visualization.IntervalTiling | emixa/visualization.py:197-207 | the four intervals tile the operand range: an operand lies in interval `d` iff it is in range and `Interval` names `d` |
| Visualization.IntervalIsDomain | emixa/visualization.py:197-207 | unsigned intervals are the emitted class's domains; a signed interval `d` is domain `(d + 2) % 4` |
| Visualization.PlotData | emixa/visualization.py:199-200 | signed keys are re-read as signed values, unsigned data is unchanged |
| Visualization.PlotCellMembers | emixa/visualization.py:202-207 | a cell holds exactly the records whose operands fall into its two intervals |
| Visualization.PlotCellsPartition | emixa/visualization.py:202-207 | with operands in range, the sixteen cells hold every record once |
| Visualization.AbsInt64 | emixa/visualization.py:208 | `np.abs` on an `int64` stays an `int64`; it is the magnitude for every value except `-2^63`, which stays negative |
| Visualization.AbsSum | emixa/visualization.py:208 | the summed absolute errors are `0` for an empty cell and non-negative when no record is `-2^63` |
| Visualization.Int64MinCellMean | emixa/visualization.py:208 | a cell holding one record with error `-2^63` has mean `-2^63` |
| Visualization.AbsMean | emixa/visualization.py:208 | the cell value is the mean of the `int64` absolute errors of its records, `nan` when empty |
| Visualization.VisualizeRandom3D | emixa/visualization.py:172-230 | a 4 x 4 table whose cell `(i, j)` is the mean `int64` absolute error of the records in operand intervals `i` and `j` (`-2^63` kept negative); below two bits every cell is `nan` |
| Visualization.VisualizeOne | emixa/visualization.py:262-267 | two plots for an exhaustive or random 2D result, one for random 3D |
| Visualization.VisualizeAll | emixa/visualization.py:252-271 | the loop succeeds iff every result's plots do, and collects all their paths |
| Visualization.Visualize | emixa/visualization.py:234-273 | `visualize` returns `None` iff the batch is empty; otherwise every plot path, named with the same `diffparams` as `funcgen` |
| Cli.Key | emixa.py:51 | a flag's key contains no `-` |
| Cli.ReadOptionsFlags | emixa.py:49-61 | each flag is set iff some argument's key names it; the warnings are exactly the other keys |
| Cli.ReadOptionsSwitches | emixa.py:49-61 | help, function, plot and verbose are each on iff some flag argument's key is one of theirs, wherever it stands |
| Cli.ReadOptionsUnknown | emixa.py:49-61 | a key is warned about iff some flag argument carries it and it names none of the four switches |
| Cli.NegativeNumberIsFlag | emixa.py:50-61 | `-5` is a flag and only draws a warning |
| Cli.DashesAndCaseIgnored | emixa.py:51-57 | `--Plot` asks for plots |
| Cli.Positionals | emixa.py:74 | the positional arguments are exactly the non-flag arguments |
| Cli.PositionalsWithoutFlags | emixa.py:74 | without flags they are the arguments, in order |
| Cli.PositionalsSkipFlag | emixa.py:74 | a flag is dropped wherever it stands |
| Cli.Process | emixa.py:86-87 | `funcgen` runs iff `-f` is given and `visualize` iff `-p` is given, each returning paths iff the batch is not empty |
| Cli.CompletedIndexable | emixa/characterization.py:224-226 | every result of a completed batch has one parameter per argument after the test name |
| Cli.Emixa | emixa.py:20-107 | help wins; without `-f` or `-p` nothing runs; outputs are produced only after a completed characterization |
| Cli.HelpWins | emixa.py:64-66 | the help flag returns before anything runs, whatever the other flags |
| Cli.NeedsAnOutput | emixa.py:69-71 | without `-f` or `-p` the harness is never run, even with `-v` |
| Cli.OnlyFlags | emixa.py:74-77 | with only flags there is no test name, and nothing runs |
| Cli.OutputsFollowFlags | emixa.py:86-87 | a finished call has Python files iff `-f` was given and plots iff `-p` was given, over a non-empty batch |

## Left out

- Running `sbt`, opening `errors.bin` and writing files: the harness is a parameter `string -> RunOutput` (console text plus file bytes), and the model returns the paths it would write.
- Console printing, ANSI highlighting of the run parameters, the `verbose` echo and `__str__`: they produce no value the rest of the code uses.
- Floating point: the random 2D `double` payload stays 8 opaque bytes (only "is it ±0.0" is read); `np.mean` is an exact `(sum, count)` pair; `int(float)` is truncation of that exact fraction.
- The `LinearRegression` fit and its prediction: the regression is a parameter (`fit`, `predict`); a fit that raises is `None`.
- The generated source text, `__radd__`/`__rmul__` (they index the table with the same `[self.x][y]` and give the same value as `__add__`/`__mul__`) and the file writes: the model keeps what the emitted class is meant to compute.
- Synthesis.Call: models the emitted class as intended, reading its table (`__errors`, `__model_weights`, `__meds`) by its module-level name. As written, the name is mangled inside the class body and every in-range call raises `NameError` (`Synthesis.CallAsWritten`, `Synthesis.CallAlwaysRaises`). `Synthesis.ExhaustiveCall`, `Synthesis.ZeroErrorsExact`, `Synthesis.MultiplierKeepsLowBits`, `Synthesis.Random2DLookup`, `Synthesis.Random3DLookup`, `Synthesis.Call3D` and `Visualization.ProductKeyVsCall` are statements about that intended class.
- Matplotlib drawing and `np.histogram` binning: the model stops at the data each plot is drawn from and the bin count.
- The `__main__` block of emixa.py, which prints the doc string for fewer than two arguments: it only prints.
- Python's runtime type assertions: Dafny's types replace them. The `ndarray` assertion of `ExhaustiveChar` is kept only in `Characterize.ExhaustiveCharAsWritten`; the batch pipeline skips it (see `Characterize.RunStep` below).
- Characterize.RunStep: builds an exhaustive result straight from the decoded grid, the corrected hand-over of the first Findings row. As written, every exhaustive run raises `AssertionError` (`Characterize.ExhaustiveAlwaysAsserts`), so `RunAll`, `Characterize` and `Cli.Emixa` describe the intended pipeline, and `Crash.NotAnArray` never comes out of `RunAll`.
- The `char is None` and `path is not None` tests in `funcgen`/`visualize`: a batch never holds `None`, because a failed read raises before a result is built.
- The power-of-two check on `dmns` in `visualize_random3d`: `dmns` is the constant 4, so the check never fires.
- `int()` leniency (surrounding whitespace, underscores, non-ASCII digits): an integer is an optional sign followed by ASCII digits.
- Strings.Lower: lower-cases ASCII letters only, where Python's `lower` covers all of Unicode.
- Visualization.VisualizeExhaustive: states the grouped error lists and the counts, not the floating-point means and relative frequencies drawn from them. A ragged table, which numpy refuses to flatten, is flattened anyway; the exhaustive reader never produces one.
- Visualization.VisualizeRandom2D: states the data drawn, not the float means or the bin edges `np.histogram` would pick. It uses the corrected `AxisKeys` (wrap only when signed) and `HistogramData` (the non-zero payloads) of the second and third Findings rows, so `VisualizeOne` and `Visualize` describe the intended plots. As written, line 155 raises `TypeError` for any record (`Visualization.HistogramAlwaysRaises`).

## Findings

| source | as written | input that shows it | evidently intended | confidence | as-written member | corrected member |
|---|---|---|---|---|---|---|
| emixa/characterization.py:86 | `read_data_exhaustive` returns its table as a list, but `ExhaustiveChar` asserts `type(data) == np.ndarray` (line 35) | any well-formed exhaustive `errors.bin`, e.g. width 0 with one word | hand the table over as an array, so an exhaustive run yields a result | not executed | Characterize.ExhaustiveAlwaysAsserts | Characterize.ExhaustiveStep |
| emixa/visualization.py:134 | the random 2D plot wraps every result `k >= 2**(reswdth-1)` to `k - 2**reswdth`, signed or not | an unsigned 2-bit adder with a record for result `3`: drawn at `-1`, left of the axis `(0, 3)` | wrap only when signed, as `visualize_random3d` does at line 200 | not executed | Visualization.UnsignedKeyLeavesAxis | Visualization.AxisKeysInLimits |
| emixa/visualization.py:155 | `for v in char.data[res]` iterates over the `float` the random 2D reader stores per result | any random 2D characterization with one record | collect the non-zero mean error distances | not executed | Visualization.HistogramAlwaysRaises | Visualization.HistogramDataKeepsNonZero |
| emixa/function.py:48 | the emitted class body reads its table as `__errors` (also `__model_weights` at line 114, `__meds` at line 193); Python mangles that name to `_{modname}__errors`, which the module never defines | `gen_exhaustive` for an unsigned 2-bit adder with a zero table, then `adder(1) + 2`: `NameError` | read the module-level table, so the call returns `3` | not executed | Synthesis.AdderCallRaises | Synthesis.ExhaustiveCall |
