/** Reading `errors.bin` back (`read_data_exhaustive`, `read_data_random2d`
    and `read_data_random3d` in emixa/characterization.py). Every file
    starts with the two operand widths as big-endian `int32`s; the body is a
    sequence of fixed-size records of big-endian 64-bit fields. The model
    takes the file's bytes as its input; opening the file is left out. */
module Decoders {
  import opened Wrappers
  import opened BigEndian
  import opened PyDict
  import opened Results
  import opened TwosComplement

  /** Why a decoder produced no data. `ShortHeader`, `Truncated` (both a
      `struct.error`) and `NegativeWidth` (the `ValueError` of a negative
      shift count) are raised; on `WidthMismatch` and `SizeMismatch` the
      decoder returns `None` or `False` instead of a pair. */
  datatype DecodeError =
    | ShortHeader
    | WidthMismatch(awidth: int, bwidth: int)
    | Truncated
    | NegativeWidth
    | SizeMismatch

  /** The operand width both header fields agree on. */
  function Header(bytes: seq<Byte>): (r: Result<int, DecodeError>)
    ensures r.Ok? <==> |bytes| >= 8 && Int32At(bytes, 0) == Int32At(bytes, 4)
    ensures r.Ok? ==> r.value == Int32At(bytes, 0) && IsInt32(r.value)
    ensures r == Err(ShortHeader) <==> |bytes| < 8
  {
    if |bytes| < 8 then Err(ShortHeader)
    else if Int32At(bytes, 0) != Int32At(bytes, 4) then Err(WidthMismatch(Int32At(bytes, 0), Int32At(bytes, 4)))
    else Ok(Int32At(bytes, 0))
  }

  /** What the harness writes: both widths, then the body. */
  function Frame(w: int, body: seq<Byte>): (bytes: seq<Byte>)
    requires IsInt32(w)
    ensures |bytes| == 8 + |body|
  {
    EncodeSigned(w, 4) + EncodeSigned(w, 4) + body
  }

  lemma FrameHeader(w: int, body: seq<Byte>)
    requires IsInt32(w)
    ensures Header(Frame(w, body)) == Ok(w)
    ensures Frame(w, body)[8..] == body
  {
    var bytes := Frame(w, body);
    assert bytes[0..4] == EncodeSigned(w, 4);
    assert bytes[4..8] == EncodeSigned(w, 4);
    SignedRoundTrip(w, 4);
  }

  /** A field read after dropping `d` leading bytes is the field `d`
      bytes further on. */
  lemma Int64AtShift(bytes: seq<Byte>, d: nat)
    requires d <= |bytes|
    ensures forall off: nat :: off + 8 <= |bytes| - d ==> Int64At(bytes[d..], off) == Int64At(bytes, d + off)
  {
    forall off: nat | off + 8 <= |bytes| - d ensures Int64At(bytes[d..], off) == Int64At(bytes, d + off) {
      assert bytes[d..][off..off + 8] == bytes[d + off..d + off + 8];
    }
  }

  lemma Int64AtShiftAt(bytes: seq<Byte>, d: nat, off: nat)
    requires d + off + 8 <= |bytes|
    ensures Int64At(bytes[d..], off) == Int64At(bytes, d + off)
  {
    assert bytes[d..][off..off + 8] == bytes[d + off..d + off + 8];
  }

  lemma EightMod(n: nat)
    ensures (8 * n) % 8 == 0
  {
  }

  /** Dropping one word or record keeps a body whole. */
  lemma DropWord(n: int)
    requires n % 8 == 0
    ensures (n - 8) % 8 == 0
  {
  }

  lemma DropRecord2D(n: int)
    requires n % 16 == 0
    ensures (n - 16) % 16 == 0
  {
  }

  lemma DropRecord3D(n: int)
    requires n % 24 == 0
    ensures (n - 24) % 24 == 0
  {
  }

  lemma AddRecord3D(n: int)
    ensures (n + 24) % 24 == n % 24
  {
  }

  lemma BodyLength(bytes: seq<Byte>, m: int)
    requires |bytes| >= 8 && m >= 1 && (|bytes| - 8) % m == 0
    ensures |bytes[8..]| % m == 0
  {
  }

  /* ------------------------------------------------------------ 64-bit words */

  /** `struct.unpack('>q', body[i:i+8])` for `i` in `range(0, len(body), 8)`. */
  function Words(body: seq<Byte>): (ws: seq<int>)
    requires |body| % 8 == 0
    ensures 8 * |ws| == |body|
    ensures forall k :: 0 <= k < |ws| ==> IsInt64(ws[k])
    decreases |body|
  {
    if |body| == 0 then []
    else
      DropWord(|body|);
      [Int64At(body, 0)] + Words(body[8..])
  }

  /** Word `k` is the one at byte offset `8 * k` of the body. */
  lemma {:induction false} WordsFields(body: seq<Byte>, k: nat)
    requires |body| % 8 == 0 && k < |Words(body)|
    ensures 8 * k + 8 <= |body|
    ensures Words(body)[k] == Int64At(body, 8 * k)
    decreases k
  {
    if k > 0 {
      var rest := body[8..];
      assert |rest| % 8 == 0 && k - 1 < |Words(rest)| && Words(body)[k] == Words(rest)[k - 1] by {
        DropWord(|body|);
        assert Words(body) == [Int64At(body, 0)] + Words(rest);
      }
      WordsFields(rest, k - 1);
      Int64AtShiftAt(body, 8, 8 * (k - 1));
    }
  }

  function EncodeWords(ws: seq<int>): (body: seq<Byte>)
    requires forall k :: 0 <= k < |ws| ==> IsInt64(ws[k])
    ensures |body| == 8 * |ws| && |body| % 8 == 0
    decreases |ws|
  {
    EightMod(|ws|);
    if |ws| == 0 then [] else assert IsInt64(ws[0]); EncodeInt64(ws[0]) + EncodeWords(ws[1..])
  }

  lemma {:induction false} WordsRoundTrip(ws: seq<int>)
    requires forall k :: 0 <= k < |ws| ==> IsInt64(ws[k])
    ensures Words(EncodeWords(ws)) == ws
    decreases |ws|
  {
    if |ws| > 0 {
      var tail := EncodeWords(ws[1..]);
      assert EncodeWords(ws) == EncodeInt64(ws[0]) + tail;
      WordsCons(EncodeInt64(ws[0]), tail);
      WordsRoundTrip(ws[1..]);
      assert [ws[0]] + ws[1..] == ws;
    }
  }

  /** A body is its first word followed by the rest. */
  lemma WordsCons(a: seq<Byte>, rest: seq<Byte>)
    requires |a| == 8 && |rest| % 8 == 0
    ensures Words(a + rest) == [Int64At(a, 0)] + Words(rest)
  {
    var b := a + rest;
    assert b[8..] == rest;
    assert b[0..8] == a == a[0..8];
  }

  lemma {:induction false} EncodeWordsRoundTrip(body: seq<Byte>)
    requires |body| % 8 == 0
    ensures EncodeWords(Words(body)) == body
    decreases |body|
  {
    if |body| > 0 {
      var ws := Words(body);
      EncodeWordsRoundTrip(body[8..]);
      EncodeSignedRoundTrip(body[0..8]);
      assert ws[1..] == Words(body[8..]);
      assert EncodeWords(ws) == EncodeInt64(ws[0]) + EncodeWords(ws[1..]);
      assert body == body[0..8] + body[8..];
    }
  }

  /* --------------------------------------------------------- table reshaping */

  /** `[data[i:i+n] for i in range(0, len(data), n)]` for a list of `m * n`
      values. */
  function Reshape(ws: seq<int>, n: nat, m: nat): (rows: seq<seq<int>>)
    requires |ws| == m * n
    ensures |rows| == m
    ensures forall i :: 0 <= i < m ==> |rows[i]| == n
    decreases m
  {
    if m == 0 then []
    else
      assert |ws[n..]| == (m - 1) * n;
      [ws[..n]] + Reshape(ws[n..], n, m - 1)
  }

  /** Concatenation of the rows, in order. */
  function Flatten(rows: seq<seq<int>>): seq<int>
    decreases |rows|
  {
    if |rows| == 0 then [] else rows[0] + Flatten(rows[1..])
  }

  lemma {:induction false} FlattenLength(rows: seq<seq<int>>, n: nat)
    requires forall i :: 0 <= i < |rows| ==> |rows[i]| == n
    ensures |Flatten(rows)| == |rows| * n
    decreases |rows|
  {
    if |rows| > 0 {
      FlattenLength(rows[1..], n);
    }
  }

  /** Reshaping loses nothing: reading the rows back in order gives the
      flat list. */
  lemma {:induction false} FlattenReshape(ws: seq<int>, n: nat, m: nat)
    requires |ws| == m * n
    ensures Flatten(Reshape(ws, n, m)) == ws
    decreases m
  {
    if m > 0 {
      assert |ws[n..]| == (m - 1) * n;
      FlattenReshape(ws[n..], n, m - 1);
      assert Reshape(ws, n, m)[1..] == Reshape(ws[n..], n, m - 1);
      assert ws == ws[..n] + ws[n..];
    }
  }

  /** And every table with rows of equal length is the reshaping of its
      flattening. */
  lemma {:induction false} ReshapeFlatten(rows: seq<seq<int>>, n: nat)
    requires forall i :: 0 <= i < |rows| ==> |rows[i]| == n
    ensures |Flatten(rows)| == |rows| * n
    ensures Reshape(Flatten(rows), n, |rows|) == rows
    decreases |rows|
  {
    FlattenLength(rows, n);
    if |rows| > 0 {
      ReshapeFlatten(rows[1..], n);
      var f := Flatten(rows);
      assert f[..n] == rows[0];
      assert f[n..] == Flatten(rows[1..]);
    }
  }

  /** Cell `(i, j)` of a reshaped `n`-column table is value `i * n + j`. */
  lemma {:induction false} ReshapeCell(ws: seq<int>, n: nat, m: nat, i: nat, j: nat)
    requires |ws| == m * n && i < m && j < n
    ensures i * n + j < |ws|
    ensures Reshape(ws, n, m)[i][j] == ws[i * n + j]
    decreases m
  {
    if i > 0 {
      assert |ws[n..]| == (m - 1) * n;
      ReshapeCell(ws[n..], n, m - 1, i - 1, j);
      assert (i - 1) * n + j + n == i * n + j;
    }
  }

  /* --------------------------------------------------------- the decoders */

  /** `read_data_exhaustive`: the header, then `2^w * 2^w` signed 64-bit
      errors, one per operand pair, row by row. The checks happen in the
      source's order: header, width agreement, a complete last word, the
      shift `1 << w` (negative `w` raises), then the count. */
  function ReadExhaustive(bytes: seq<Byte>): (r: Result<(Data, int), DecodeError>)
    ensures r.Ok? <==>
      |bytes| >= 8 && Int32At(bytes, 0) == Int32At(bytes, 4) && (|bytes| - 8) % 8 == 0
      && Int32At(bytes, 0) >= 0 && 8 * (Pow2(Int32At(bytes, 0)) * Pow2(Int32At(bytes, 0))) == |bytes| - 8
    ensures r.Ok? ==>
      var (d, w) := r.value;
      w == Int32At(bytes, 0) && w >= 0 && d.Exhaustive? && |d.grid| == Pow2(w)
      && (forall i :: 0 <= i < |d.grid| ==> |d.grid[i]| == Pow2(w))
      && Flatten(d.grid) == Words(bytes[8..])
    ensures r == Err(Truncated) <==>
      |bytes| >= 8 && Int32At(bytes, 0) == Int32At(bytes, 4) && (|bytes| - 8) % 8 != 0
  {
    var w :- Header(bytes);
    var body := bytes[8..];
    if |body| % 8 != 0 then Err(Truncated)
    else
      var words := Words(body);
      if w < 0 then Err(NegativeWidth)
      else if Pow2(w) * Pow2(w) != |words| then Err(SizeMismatch)
      else
        var grid := Reshape(words, Pow2(w), Pow2(w));
        FlattenReshape(words, Pow2(w), Pow2(w));
        Ok((Exhaustive(grid), w))
  }

  lemma ReadExhaustiveOk(bytes: seq<Byte>, w: int)
    requires Header(bytes) == Ok(w) && (|bytes| - 8) % 8 == 0 && w >= 0
    requires Pow2(w) * Pow2(w) == |Words(bytes[8..])|
    ensures ReadExhaustive(bytes) == Ok((Exhaustive(Reshape(Words(bytes[8..]), Pow2(w), Pow2(w))), w))
  {
  }

  /** Cell `(a, b)` of the decoded table is the word at byte offset
      `8 + 8 * (a * 2^w + b)` of the file. */
  lemma ExhaustiveCell(bytes: seq<Byte>, i: nat, j: nat)
    requires ReadExhaustive(bytes).Ok?
    requires i < Pow2(ReadExhaustive(bytes).value.1) && j < Pow2(ReadExhaustive(bytes).value.1)
    ensures 8 + 8 * (i * Pow2(ReadExhaustive(bytes).value.1) + j) + 8 <= |bytes|
    ensures ReadExhaustive(bytes).value.0.grid[i][j]
         == Int64At(bytes, 8 + 8 * (i * Pow2(ReadExhaustive(bytes).value.1) + j))
  {
    var r := ReadExhaustive(bytes).value;
    GridCell(bytes, r.0.grid, Pow2(r.1), i, j);
  }

  lemma GridCell(bytes: seq<Byte>, grid: seq<seq<int>>, n: nat, i: nat, j: nat)
    requires |bytes| >= 8 && (|bytes| - 8) % 8 == 0
    requires |grid| == n && forall r :: 0 <= r < n ==> |grid[r]| == n
    requires Flatten(grid) == Words(bytes[8..])
    requires i < n && j < n
    ensures 8 + 8 * (i * n + j) + 8 <= |bytes|
    ensures grid[i][j] == Int64At(bytes, 8 + 8 * (i * n + j))
  {
    var words := Words(bytes[8..]);
    MulMono(i, 0, n);
    ReshapeFlatten(grid, n);
    assert Reshape(words, n, n) == grid;
    ReshapeCell(words, n, n, i, j);
    var k := i * n + j;
    WordAt(bytes, k);
    assert grid[i][j] == words[k];
  }

  /** Word `k` of the body sits at byte offset `8 + 8 * k` of the file. */
  lemma WordAt(bytes: seq<Byte>, k: nat)
    requires |bytes| >= 8 && (|bytes| - 8) % 8 == 0
    requires k < |Words(bytes[8..])|
    ensures 8 + 8 * k + 8 <= |bytes|
    ensures Words(bytes[8..])[k] == Int64At(bytes, 8 + 8 * k)
  {
    WordsFields(bytes[8..], k);
    Int64AtShiftAt(bytes, 8, 8 * k);
  }

  /** What the harness writes for an exhaustive characterization. */
  function EncodeExhaustive(w: int, grid: seq<seq<int>>): seq<Byte>
    requires IsInt32(w)
    requires forall i, j :: 0 <= i < |grid| && 0 <= j < |grid[i]| ==> IsInt64(grid[i][j])
  {
    FlattenInt64(grid);
    Frame(w, EncodeWords(Flatten(grid)))
  }

  lemma {:induction false} FlattenInt64(rows: seq<seq<int>>)
    requires forall i, j :: 0 <= i < |rows| && 0 <= j < |rows[i]| ==> IsInt64(rows[i][j])
    ensures forall k :: 0 <= k < |Flatten(rows)| ==> IsInt64(Flatten(rows)[k])
    decreases |rows|
  {
    if |rows| > 0 {
      FlattenInt64(rows[1..]);
      var f := Flatten(rows);
      forall k | 0 <= k < |f| ensures IsInt64(f[k]) {
        if k < |rows[0]| {
          assert f[k] == rows[0][k];
        } else {
          assert f[k] == Flatten(rows[1..])[k - |rows[0]|];
        }
      }
    }
  }

  /** Reading back what was written for a `2^w x 2^w` table of 64-bit errors
      gives that table and `w`. */
  lemma ExhaustiveRoundTrip(w: int, grid: seq<seq<int>>)
    requires IsInt32(w) && w >= 0
    requires |grid| == Pow2(w) && forall i :: 0 <= i < |grid| ==> |grid[i]| == Pow2(w)
    requires forall i, j :: 0 <= i < |grid| && 0 <= j < |grid[i]| ==> IsInt64(grid[i][j])
    ensures ReadExhaustive(EncodeExhaustive(w, grid)) == Ok((Exhaustive(grid), w))
  {
    FlattenInt64(grid);
    var flat := Flatten(grid);
    var n := Pow2(w);
    ReshapeFlatten(grid, n);
    var body := EncodeWords(flat);
    var bytes := Frame(w, body);
    FrameHeader(w, body);
    MulDivExact(|flat|, 8);
    WordsRoundTrip(flat);
    ReadExhaustiveOk(bytes, w);
  }

  /* ------------------------------------------------------- random records */

  /** The 16-byte records of a random 2D file: a signed 64-bit result and
      the 8 bytes of its mean error distance. */
  function Records2D(body: seq<Byte>): (rs: seq<(int, seq<Byte>)>)
    requires |body| % 16 == 0
    ensures 16 * |rs| == |body|
    decreases |body|
  {
    if |body| == 0 then []
    else [(Int64At(body, 0), body[8..16])] + Records2D(body[16..])
  }

  /** Record `k` holds the word at byte offset `16 * k` of the body and the
      8 bytes after it. */
  lemma {:induction false} Records2DFields(body: seq<Byte>, k: nat)
    requires |body| % 16 == 0 && k < |Records2D(body)|
    ensures 16 * k + 16 <= |body|
    ensures Records2D(body)[k] == (Int64At(body, 16 * k), body[16 * k + 8..16 * k + 16])
    decreases k
  {
    if k > 0 {
      var rest := body[16..];
      assert |rest| % 16 == 0 && k - 1 < |Records2D(rest)| && Records2D(body)[k] == Records2D(rest)[k - 1] by {
        DropRecord2D(|body|);
        assert Records2D(body) == [(Int64At(body, 0), body[8..16])] + Records2D(rest);
      }
      Records2DFields(rest, k - 1);
      assert Int64At(rest, 16 * (k - 1)) == Int64At(body, 16 * k) by {
        Int64AtShiftAt(body, 16, 16 * (k - 1));
      }
      assert rest[16 * (k - 1) + 8..16 * (k - 1) + 16] == body[16 * k + 8..16 * k + 16];
    }
  }

  lemma Concat2Slices(a: seq<Byte>, b: seq<Byte>, rest: seq<Byte>)
    requires |a| == 8 && |b| == 8
    ensures (a + b + rest)[0..8] == a && (a + b + rest)[8..16] == b && (a + b + rest)[16..] == rest
  {
  }

  lemma Concat3Slices(a: seq<Byte>, b: seq<Byte>, c: seq<Byte>, rest: seq<Byte>)
    requires |a| == 8 && |b| == 8 && |c| == 8
    ensures (a + b + c + rest)[0..8] == a && (a + b + c + rest)[8..16] == b
    ensures (a + b + c + rest)[16..24] == c && (a + b + c + rest)[24..] == rest
  {
  }

  predicate Random2DRecord(r: (int, seq<Byte>)) {
    IsInt64(r.0) && |r.1| == 8
  }

  function EncodeRecords2D(rs: seq<(int, seq<Byte>)>): (body: seq<Byte>)
    requires forall k :: 0 <= k < |rs| ==> Random2DRecord(rs[k])
    ensures |body| == 16 * |rs| && |body| % 16 == 0
    decreases |rs|
  {
    MulDivExact(|rs|, 16);
    if |rs| == 0 then []
    else
      assert Random2DRecord(rs[0]);
      EncodeInt64(rs[0].0) + rs[0].1 + EncodeRecords2D(rs[1..])
  }

  lemma {:induction false} Records2DRoundTrip(rs: seq<(int, seq<Byte>)>)
    requires forall k :: 0 <= k < |rs| ==> Random2DRecord(rs[k])
    ensures Records2D(EncodeRecords2D(rs)) == rs
    decreases |rs|
  {
    if |rs| > 0 {
      Records2DFirst(rs);
      Records2DRoundTrip(rs[1..]);
      assert [rs[0]] + rs[1..] == rs;
    }
  }

  /** The first record written is the first record read. */
  lemma Records2DFirst(rs: seq<(int, seq<Byte>)>)
    requires |rs| > 0 && forall k :: 0 <= k < |rs| ==> Random2DRecord(rs[k])
    ensures Records2D(EncodeRecords2D(rs)) == [rs[0]] + Records2D(EncodeRecords2D(rs[1..]))
  {
    var r, tail := rs[0], EncodeRecords2D(rs[1..]);
    var e := EncodeInt64(r.0);
    assert EncodeRecords2D(rs) == e + r.1 + tail;
    Records2DCons(e, r.1, tail);
    assert (r.0, r.1) == r;
  }

  /** A body is its first record followed by the rest. */
  lemma Records2DCons(a: seq<Byte>, b: seq<Byte>, rest: seq<Byte>)
    requires |a| == 8 && |b| == 8 && |rest| % 16 == 0
    ensures Records2D(a + b + rest) == [(Int64At(a + b + rest, 0), b)] + Records2D(rest)
    ensures Int64At(a + b + rest, 0) == Int64At(a, 0)
  {
    Concat2Slices(a, b, rest);
    assert a[0..8] == a;
  }

  /** `read_data_random2d`: the header, then 16-byte records. No check on
      the sign of the width and none on the record count; a result seen
      twice keeps the value of its last record. */
  function ReadRandom2D(bytes: seq<Byte>): (r: Result<(Data, int), DecodeError>)
    ensures r.Ok? <==> |bytes| >= 8 && Int32At(bytes, 0) == Int32At(bytes, 4) && (|bytes| - 8) % 16 == 0
    ensures r.Ok? ==> r.value.1 == Int32At(bytes, 0) && r.value.0.Random2D?
    ensures r.Err? ==> r.error.ShortHeader? || r.error.WidthMismatch? || r.error.Truncated?
  {
    match Header(bytes)
    case Err(e) => Err(e)
    case Ok(w) =>
      if (|bytes| - 8) % 16 != 0 then Err(Truncated)
      else Ok((Random2D(FromPairs(Records2D(bytes[8..]))), w))
  }

  lemma ReadRandom2DOk(bytes: seq<Byte>, w: int)
    requires Header(bytes) == Ok(w) && (|bytes| - 8) % 16 == 0
    ensures ReadRandom2D(bytes) == Ok((Random2D(FromPairs(Records2D(bytes[8..]))), w))
  {
  }

  lemma ReadRandom2DBody(bytes: seq<Byte>)
    requires ReadRandom2D(bytes).Ok?
    ensures |bytes| >= 8 && (|bytes| - 8) % 16 == 0
    ensures ReadRandom2D(bytes).value.0.meds == FromPairs(Records2D(bytes[8..]))
  {
  }

  /** Record `k` of the body is the result at byte offset `8 + 16 * k`
      and the 8 bytes after it. */
  lemma Record2DAt(bytes: seq<Byte>, k: nat)
    requires 8 <= |bytes| && (|bytes| - 8) % 16 == 0 && 16 * k + 16 <= |bytes| - 8
    ensures k < |Records2D(bytes[8..])|
    ensures Records2D(bytes[8..])[k] == (Int64At(bytes, 8 + 16 * k), bytes[8 + 16 * k + 8..8 + 16 * k + 16])
  {
    var body := bytes[8..];
    Records2DFields(body, k);
    Int64AtShiftAt(bytes, 8, 16 * k);
    assert body[16 * k + 8..16 * k + 16] == bytes[8 + 16 * k + 8..8 + 16 * k + 16];
  }

  /** The decoded dict has one entry per distinct result among the records
      and no other. */
  lemma Random2DKeys(bytes: seq<Byte>)
    requires ReadRandom2D(bytes).Ok?
    ensures DistinctKeys(ReadRandom2D(bytes).value.0.meds)
    ensures KeySet(ReadRandom2D(bytes).value.0.meds) == KeySet(Records2D(bytes[8..]))
  {
    ReadRandom2DBody(bytes);
  }

  /** The mean error distance stored for a result is the one in the last
      record carrying that result. */
  lemma Random2DLastRecordWins(bytes: seq<Byte>, k: nat)
    requires ReadRandom2D(bytes).Ok?
    requires k < |Records2D(bytes[8..])| && LastWithKey(Records2D(bytes[8..]), k)
    ensures Get(ReadRandom2D(bytes).value.0.meds, Records2D(bytes[8..])[k].0) == Some(Records2D(bytes[8..])[k].1)
  {
    ReadRandom2DBody(bytes);
    BodyLength(bytes, 16);
    var rs := Records2D(bytes[8..]);
    assert ReadRandom2D(bytes).value.0.meds == FromPairs(rs);
    FromPairsLastWins(rs, k);
  }

  lemma Random2DRoundTrip(w: int, rs: seq<(int, seq<Byte>)>)
    requires IsInt32(w)
    requires forall k :: 0 <= k < |rs| ==> Random2DRecord(rs[k])
    ensures ReadRandom2D(Frame(w, EncodeRecords2D(rs))) == Ok((Random2D(FromPairs(rs)), w))
  {
    var bytes := Frame(w, EncodeRecords2D(rs));
    FrameHeader(w, EncodeRecords2D(rs));
    MulDivExact(|rs|, 16);
    Records2DRoundTrip(rs);
    ReadRandom2DOk(bytes, w);
  }

  /** The 24-byte records of a random 3D file: operands `a`, `b` and the
      computed result, each a signed 64-bit word. */
  function Records3D(body: seq<Byte>): (rs: seq<((int, int), int)>)
    requires |body| % 24 == 0
    ensures 24 * |rs| == |body|
    decreases |body|
  {
    if |body| == 0 then []
    else [Record3D(body, 0)] + Records3D(body[24..])
  }

  /** The operand pair and result stored at byte offset `off`. */
  function Record3D(body: seq<Byte>, off: nat): ((int, int), int)
    requires off + 24 <= |body|
  {
    ((Int64At(body, off), Int64At(body, off + 8)), Int64At(body, off + 16))
  }

  /** Record `k` holds the three words at byte offsets `24 * k`, `+ 8` and
      `+ 16` of the body. */
  lemma {:induction false} Records3DFields(body: seq<Byte>, k: nat)
    requires |body| % 24 == 0 && k < |Records3D(body)|
    ensures 24 * k + 24 <= |body|
    ensures Records3D(body)[k] == Record3D(body, 24 * k)
    decreases k
  {
    if k > 0 {
      var rest := body[24..];
      assert |rest| % 24 == 0 && k - 1 < |Records3D(rest)| && Records3D(body)[k] == Records3D(rest)[k - 1] by {
        DropRecord3D(|body|);
        assert Records3D(body) == [Record3D(body, 0)] + Records3D(rest);
      }
      Records3DFields(rest, k - 1);
      Record3DShift(body, 24, 24 * (k - 1));
    }
  }

  lemma Record3DShift(body: seq<Byte>, d: nat, off: nat)
    requires d + off + 24 <= |body|
    ensures Record3D(body[d..], off) == Record3D(body, d + off)
  {
    Int64AtShiftAt(body, d, off);
    Int64AtShiftAt(body, d, off + 8);
    Int64AtShiftAt(body, d, off + 16);
  }

  predicate Random3DRecord(r: ((int, int), int)) {
    IsInt64(r.0.0) && IsInt64(r.0.1) && IsInt64(r.1)
  }

  function EncodeRecords3D(rs: seq<((int, int), int)>): (body: seq<Byte>)
    requires forall k :: 0 <= k < |rs| ==> Random3DRecord(rs[k])
    ensures |body| == 24 * |rs| && |body| % 24 == 0
    decreases |rs|
  {
    MulDivExact(|rs|, 24);
    if |rs| == 0 then []
    else
      assert Random3DRecord(rs[0]);
      EncodeInt64(rs[0].0.0) + EncodeInt64(rs[0].0.1) + EncodeInt64(rs[0].1) + EncodeRecords3D(rs[1..])
  }

  /** A body is its first record followed by the rest. */
  lemma Records3DCons(a: seq<Byte>, b: seq<Byte>, c: seq<Byte>, rest: seq<Byte>)
    requires |a| == 8 && |b| == 8 && |c| == 8 && |rest| % 24 == 0
    ensures |a + b + c + rest| % 24 == 0
    ensures Records3D(a + b + c + rest) == [((Int64At(a, 0), Int64At(b, 0)), Int64At(c, 0))] + Records3D(rest)
  {
    AddRecord3D(|rest|);
    Concat3Slices(a, b, c, rest);
    assert a[0..8] == a && b[0..8] == b && c[0..8] == c;
  }

  lemma {:induction false} Records3DRoundTrip(rs: seq<((int, int), int)>)
    requires forall k :: 0 <= k < |rs| ==> Random3DRecord(rs[k])
    ensures Records3D(EncodeRecords3D(rs)) == rs
    decreases |rs|
  {
    if |rs| > 0 {
      Records3DFirst(rs);
      Records3DRoundTrip(rs[1..]);
      assert [rs[0]] + rs[1..] == rs;
    }
  }

  /** The first record written is the first record read. */
  lemma Records3DFirst(rs: seq<((int, int), int)>)
    requires |rs| > 0 && forall k :: 0 <= k < |rs| ==> Random3DRecord(rs[k])
    ensures Records3D(EncodeRecords3D(rs)) == [rs[0]] + Records3D(EncodeRecords3D(rs[1..]))
  {
    var r, tail := rs[0], EncodeRecords3D(rs[1..]);
    assert Random3DRecord(r);
    var a, b, c := EncodeInt64(r.0.0), EncodeInt64(r.0.1), EncodeInt64(r.1);
    assert EncodeRecords3D(rs) == a + b + c + tail;
    Records3DCons(a, b, c, tail);
    assert ((r.0.0, r.0.1), r.1) == r;
  }

  /** `read_data_random3d`: the header, then 24-byte records; an operand
      pair seen twice keeps the result of its last record. */
  function ReadRandom3D(bytes: seq<Byte>): (r: Result<(Data, int), DecodeError>)
    ensures r.Ok? <==> |bytes| >= 8 && Int32At(bytes, 0) == Int32At(bytes, 4) && (|bytes| - 8) % 24 == 0
    ensures r.Ok? ==> r.value.1 == Int32At(bytes, 0) && r.value.0.Random3D?
    ensures r.Err? ==> r.error.ShortHeader? || r.error.WidthMismatch? || r.error.Truncated?
  {
    match Header(bytes)
    case Err(e) => Err(e)
    case Ok(w) =>
      if (|bytes| - 8) % 24 != 0 then Err(Truncated)
      else Ok((Random3D(FromPairs(Records3D(bytes[8..]))), w))
  }

  lemma ReadRandom3DOk(bytes: seq<Byte>, w: int)
    requires Header(bytes) == Ok(w) && (|bytes| - 8) % 24 == 0
    ensures ReadRandom3D(bytes) == Ok((Random3D(FromPairs(Records3D(bytes[8..]))), w))
  {
  }

  lemma ReadRandom3DBody(bytes: seq<Byte>)
    requires ReadRandom3D(bytes).Ok?
    ensures |bytes| >= 8 && (|bytes| - 8) % 24 == 0
    ensures ReadRandom3D(bytes).value.0.results == FromPairs(Records3D(bytes[8..]))
  {
  }

  /** Record `k` of the body is the operand pair and result at byte
      offsets `8 + 24 * k`, `+ 8` and `+ 16`. */
  lemma Record3DAt(bytes: seq<Byte>, k: nat)
    requires 8 <= |bytes| && (|bytes| - 8) % 24 == 0 && 24 * k + 24 <= |bytes| - 8
    ensures k < |Records3D(bytes[8..])|
    ensures Records3D(bytes[8..])[k] == Record3D(bytes, 8 + 24 * k)
  {
    var body := bytes[8..];
    assert 24 * |Records3D(body)| == |bytes| - 8;
    Records3DFields(body, k);
    Record3DShift(bytes, 8, 24 * k);
  }

  /** The decoded dict has one entry per distinct operand pair among the
      records and no other. */
  lemma Random3DKeys(bytes: seq<Byte>)
    requires ReadRandom3D(bytes).Ok?
    ensures DistinctKeys(ReadRandom3D(bytes).value.0.results)
    ensures KeySet(ReadRandom3D(bytes).value.0.results) == KeySet(Records3D(bytes[8..]))
  {
    ReadRandom3DBody(bytes);
  }

  /** The result stored for an operand pair is the one in the last record
      carrying that pair. */
  lemma Random3DLastRecordWins(bytes: seq<Byte>, k: nat)
    requires ReadRandom3D(bytes).Ok?
    requires k < |Records3D(bytes[8..])| && LastWithKey(Records3D(bytes[8..]), k)
    ensures Get(ReadRandom3D(bytes).value.0.results, Records3D(bytes[8..])[k].0) == Some(Records3D(bytes[8..])[k].1)
  {
    ReadRandom3DBody(bytes);
    BodyLength(bytes, 24);
    var rs := Records3D(bytes[8..]);
    assert ReadRandom3D(bytes).value.0.results == FromPairs(rs);
    FromPairsLastWins(rs, k);
  }

  lemma Random3DRoundTrip(w: int, rs: seq<((int, int), int)>)
    requires IsInt32(w)
    requires forall k :: 0 <= k < |rs| ==> Random3DRecord(rs[k])
    ensures ReadRandom3D(Frame(w, EncodeRecords3D(rs))) == Ok((Random3D(FromPairs(rs)), w))
  {
    var bytes := Frame(w, EncodeRecords3D(rs));
    FrameHeader(w, EncodeRecords3D(rs));
    MulDivExact(|rs|, 24);
    Records3DRoundTrip(rs);
    ReadRandom3DOk(bytes, w);
  }
}
