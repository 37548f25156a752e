/**
 * The sweep interval chosen at startup from `HTTP_CHECK_PERIOD`, as a
 * `time.Duration` in nanoseconds.
 *
 * `strconv.ParseInt(s, 0, 32)` is an oracle: its result for the variable's
 * text is an input, constrained only by what that function promises about
 * the value it returns alongside each kind of error.
 */
module Period {

  const MinInt32 := -0x8000_0000
  const MaxInt32 := 0x7FFF_FFFF
  const MinInt64 := -0x8000_0000_0000_0000
  const MaxInt64 := 0x7FFF_FFFF_FFFF_FFFF

  /** time.Second in nanoseconds. */
  const NsPerSecond := 1_000_000_000
  const DefaultPeriodSeconds := 5

  datatype NumError = NoError | ErrSyntax | ErrRange

  datatype ParseIntResult = ParseIntResult(value: int, err: NumError)

  /** What `ParseInt(s, 0, 32)` promises: an in-range value when it succeeds,
      0 on a syntax error, and the bound it overflowed on a range error. */
  predicate ParseInt32Result(r: ParseIntResult)
  {
    match r.err
    case NoError => MinInt32 <= r.value <= MaxInt32
    case ErrSyntax => r.value == 0
    case ErrRange => r.value == MinInt32 || r.value == MaxInt32
  }

  /** Two's-complement wrap-around of Go's int64 arithmetic. */
  function WrapInt64(x: int): int
  {
    (x - MinInt64) % 0x1_0000_0000_0000_0000 + MinInt64
  }

  lemma WrapInt64InRange(x: int)
    requires MinInt64 <= x <= MaxInt64
    ensures WrapInt64(x) == x
  {
  }

  /** `time.Duration(n) * time.Second`, an int64 multiplication. */
  function Seconds(n: int): int
  {
    WrapInt64(n * NsPerSecond)
  }

  /** The interval `main` sleeps between sweeps: the 5-second default when
      the variable is unset or empty, and otherwise the parsed number of
      seconds, whether or not parsing reported an error. The value never
      overflows int64, and a syntax error gives a zero interval. */
  function CheckPeriod(periodStr: string, parsed: ParseIntResult): (ns: int)
    requires periodStr != "" ==> ParseInt32Result(parsed)
    ensures periodStr == "" ==> ns == DefaultPeriodSeconds * NsPerSecond
    ensures periodStr != "" ==> ns == parsed.value * NsPerSecond
    ensures periodStr != "" && parsed.err == ErrSyntax ==> ns == 0
    ensures MinInt64 <= ns <= MaxInt64
  {
    var period := Seconds(DefaultPeriodSeconds);
    WrapInt64InRange(DefaultPeriodSeconds * NsPerSecond);
    if periodStr != "" then
      assert MinInt64 <= parsed.value * NsPerSecond <= MaxInt64;
      WrapInt64InRange(parsed.value * NsPerSecond);
      Seconds(parsed.value)
    else
      period
  }

  /** A malformed value such as "five" makes the interval zero: the
      scheduler then sweeps back to back. */
  lemma MalformedPeriodIsZero()
    ensures CheckPeriod("five", ParseIntResult(0, ErrSyntax)) == 0
  {
  }

  /** The interval as evidently intended: a value that did not parse keeps
      the default instead of replacing it. */
  function CheckPeriodWithFallback(periodStr: string, parsed: ParseIntResult): (ns: int)
    requires periodStr != "" ==> ParseInt32Result(parsed)
    ensures periodStr == "" || parsed.err != NoError ==> ns == DefaultPeriodSeconds * NsPerSecond
    ensures periodStr != "" && parsed.err == NoError ==> ns == parsed.value * NsPerSecond
    ensures MinInt64 <= ns <= MaxInt64
  {
    WrapInt64InRange(DefaultPeriodSeconds * NsPerSecond);
    if periodStr != "" && parsed.err == NoError then
      assert MinInt64 <= parsed.value * NsPerSecond <= MaxInt64;
      WrapInt64InRange(parsed.value * NsPerSecond);
      Seconds(parsed.value)
    else
      Seconds(DefaultPeriodSeconds)
  }

  /** The two agree exactly when the variable is empty or parsed cleanly. */
  lemma FallbackDiffersOnlyOnErrors(periodStr: string, parsed: ParseIntResult)
    requires periodStr != "" ==> ParseInt32Result(parsed)
    ensures CheckPeriod(periodStr, parsed) != CheckPeriodWithFallback(periodStr, parsed)
        <==> periodStr != "" && parsed.err != NoError
  {
  }
}
