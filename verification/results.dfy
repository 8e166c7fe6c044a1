/** The result objects of a characterization run (the `Characterization`
    classes of emixa/characterization.py) and the parameters they carry. */
module Results {
  import opened BigEndian
  import opened PyDict

  /** The two operator kinds the tool can produce outputs for. */
  datatype Module = Adder | Multiplier

  /** One run parameter as it reaches the harness: a plain argument string,
      one integer drawn from a range argument, or Python's `None`, which is
      what a range argument that failed to parse becomes. */
  datatype Param = Text(text: string) | Int(value: int) | NoneValue

  /** The error data read back from `errors.bin`.
      - `Exhaustive`: the `2^w x 2^w` table of errors, row `a`, column `b`.
      - `Random2D`: per computed result, the 8 raw bytes of the mean error
        distance (a `float` the model keeps opaque), in first-seen key order.
      - `Random3D`: per operand pair `(a, b)`, the computed result. */
  datatype Data =
    | Exhaustive(grid: seq<seq<int>>)
    | Random2D(meds: Dict<int, seq<Byte>>)
    | Random3D(results: Dict<(int, int), int>)

  /** `ExhaustiveChar`, `Random2dChar` and `Random3dChar`: the data plus the
      test name, signedness, operand width, module and the parameters of the
      run that produced it. The class's `type` attribute is the variant of
      `data`. */
  datatype Characterization = Characterization(
    data: Data,
    name: string,
    sgn: bool,
    width: int,
    kind: Module,
    params: seq<Param>)
}
