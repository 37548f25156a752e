# webapp: a verified model of the prober, the metrics it writes, the environment page data and the check period

`webapp` is a small diagnostic web service written in Go. It shows its
environment variables and secret-file contents, probes a list of hosts on a
timer, and exports the probe results as counter and histogram metrics. Most
of `src/main.go` is I/O glue. This project models the three parts of it that
make decisions, with the network, filesystem, environment and clock taken as
inputs:

- **The sweep** (`httpQueryToHosts`), in `prober.dfy`, module `Prober`. The
  `HTTP_HOSTS` string is split on `;`. Each piece gets one report entry, in
  order, and one increment of the outcome counter under the label
  `(addr, code)`. The code is `"0"` for a failed request and the decimal
  status otherwise. A completed request also adds one observation to each of
  the four latency histograms (DNS lookup, TCP connection, server
  processing, content transfer). The value is the phase duration in
  nanoseconds divided by `time.Millisecond`, truncating toward zero as Go
  does. The metrics are a `MetricsSink` class with a counter map and four
  histogram maps. The sweep is a method on it that loops over the targets.
  `QueryHosts` states the new metric state label by label, against the
  reference functions `Hits` (how many attempts carry a label) and `Samples`
  (the values observed under it, in order). The lemmas then derive the
  promises from these functions: exactly once per attempt, nothing for
  other labels, no observation on failure, non-negative values. `RunSweeps`
  stands for the scheduler's ticks as a sequence of sweeps: counters only
  grow across it, and histogram series are only appended to.
- **The page data** (`generateData`, `readVarFromFile`), in `secrets.dfy`,
  module `Secrets`. Each walked path becomes the pair
  `(ToUpper(Base(path)), contents)` unless it cannot be stat-ed, is a
  directory, or cannot be read. The `"file"` sub-map is created on the first
  pair. Each environment entry is split at its first `=`. In both maps the
  later entry wins.
- **The check period**, in `period.dfy`, module `Period`. The default is 5s.
  Any non-empty `HTTP_CHECK_PERIOD` sets the period to `parsed * 1s`, even
  when parsing failed. The int64 product is shown never to wrap.

`go_lib.dfy` (module `GoLib`) models the Go library functions these use:
`strings.Split`, `strings.SplitN(s, "=", 2)` on a string that holds `=`,
ASCII `strings.ToUpper`, `filepath.Base` with `/` separators, and
`strconv.Itoa`. Each comes with its round trip or characterising lemmas.

A malformed `HTTP_CHECK_PERIOD` should evidently keep the 5s default
rather than give a 0s interval, but the code uses the value `ParseInt`
returned with the error, which is 0 for a syntax error. The model follows
the code (`Period.CheckPeriod`), and the discrepancy is listed under
Findings.

## Model

| member | source | states |
|---|---|---|
| `GoLib.Split` | src/main.go:219 | splitting always gives at least one piece, so the empty list case is told apart only by the explicit empty-string test |
| `GoLib.JoinOfSplit` | src/main.go:219 | joining the `;`-split pieces with `;` gives back the configured string, so nothing of `HTTP_HOSTS` is lost or reordered |
| `GoLib.SplitPieces` | src/main.go:219-221 | no piece holds the separator, and there is exactly one more piece than separators (empty pieces included) |
| `GoLib.SplitAfterPiece` | src/main.go:219 | a string `a;b` with no `;` in `a` splits into `a` followed by the pieces of `b` |
| `GoLib.SplitNoSeparator` | src/main.go:219 | a string with no separator is a single piece |
| `GoLib.SplitOfJoin` | src/main.go:219 | the converse round trip: separator-free pieces are recovered from their join |
| `GoLib.Cut` | src/main.go:118-119 | the two halves `SplitN(entry, "=", 2)` returns rebuild the entry around one `=`, and the first half holds no `=` |
| `GoLib.CutUnique` | src/main.go:118-119 | any split `before=after` with no `=` in `before` is the one `Cut` returns (the first `=` is the split point) |
| `GoLib.ToUpper` | src/main.go:142 | `strings.ToUpper` on ASCII text, characterised by `GoLib.ToUpperProperties` |
| `GoLib.ToUpperProperties` | src/main.go:142 | ASCII upper-casing keeps the length, maps each `a`-`z` to its capital, leaves everything else unchanged, leaves no lower-case letter, and is idempotent |
| `GoLib.LastElementHasNoSlash` | src/main.go:142 | the last path element holds no `/` and is no longer than the path |
| `GoLib.LastElementOfSlashFree` | src/main.go:142 | a path with no `/` is its own last element |
| `GoLib.LastElementAfterSlash` | src/main.go:142 | the last element of `dir/name` is the last element of `name` |
| `GoLib.StripOfSlashTerminated` | src/main.go:142 | stripping trailing slashes ignores one more trailing slash |
| `GoLib.Base` | src/main.go:142 | `filepath.Base` with `/` separators, characterised by `GoLib.BaseShape`, `GoLib.BaseOfJoinedPath` and `GoLib.BaseIdempotent` |
| `GoLib.BaseShape` | src/main.go:142 | `filepath.Base` never returns the empty string and returns a slash-free name unless the result is `/` |
| `GoLib.BaseOfJoinedPath` | src/main.go:142 | the base of `dir/name` and of `dir/name/` is `name` for a slash-free non-empty `name` |
| `GoLib.BaseIdempotent` | src/main.go:142 | taking the base name twice gives the same as once (also for `.` and `/`) |
| `GoLib.DigitsRoundTrip` | src/main.go:239 | the decimal digits of a natural number are digits and read back as that number |
| `GoLib.Itoa` | src/main.go:239 | `strconv.Itoa` of the status code, characterised by `GoLib.ItoaRoundTrip` and `GoLib.ItoaInjective` |
| `GoLib.ItoaRoundTrip` | src/main.go:239 | the text `strconv.Itoa` gives for any integer, sign included, reads back as that integer |
| `GoLib.ItoaInjective` | src/main.go:239 | distinct status codes give distinct code texts, and `"0"` is the text of 0 only |
| `Prober.Code` | src/main.go:222-239 | the `code` variable after a request: `"0"` unless `client.Do` succeeded, then `Itoa` of the status, characterised by `Prober.CodeIsZeroIff` |
| `Prober.CodeIsZeroIff` | src/main.go:222-239 | an attempt is counted under `"0"` exactly when the request failed or the response status was 0 |
| `Prober.Millis` | src/main.go:249-252 | the phase duration divided by `time.Millisecond` with Go's truncating integer division, characterised by `Prober.MillisIsWholeMilliseconds` |
| `Prober.MillisIsWholeMilliseconds` | src/main.go:249-252 | the observed value is the duration in whole milliseconds: non-negative and rounded down for a non-negative duration, rounded toward zero for a negative one |
| `Prober.HitsOfAbsentAddress` | src/main.go:249-255 | a label whose address is not a target gets no increment and no observation in any histogram |
| `Prober.HitsPositiveIff` | src/main.go:236-255 | a label's count grows in a sweep exactly when some attempt carries that label, so no other counter series changes |
| `Prober.SamplesNonEmptyIff` | src/main.go:236-255 | a label's histogram series grows in a sweep exactly when some completed attempt carries that label |
| `Prober.SamplesAtMostHits` | src/main.go:236-255 | a label gets no more observations than increments, and none at all when every request failed |
| `Prober.SamplesNonNegative` | src/main.go:249-252 | with non-negative phase durations every observed value is non-negative |
| `Prober.DistinctTargetsCountedOnce` | src/main.go:236-255 | when targets are distinct, each attempt's label is incremented exactly once, and it gets exactly one observation per histogram, equal to its phase milliseconds, if the request completed and none if it failed |
| `Prober.RepeatedSweepsOfOneTarget` | src/main.go:255 | N sweeps of one target that answers 200 add exactly N under `(target, "200")` |
| `Prober.SweptExtend` | src/main.go:221-256 | recording one more attempt after a sweep prefix gives the sweep of the longer prefix |
| `Prober.ObservedAt` | src/main.go:249-252 | one observation appends its value to that histogram's series for that label and changes no other series and not the counter |
| `Prober.IncrementedAt` | src/main.go:255 | one increment raises that label's count by 1 and changes no other count and no histogram |
| `Prober.Metrics.Recorded` | src/main.go:249-255 | the updates for one attempt: the four observations when the request completed, then the increment, characterised by `Prober.RecordedAt` and `Prober.RecordedIsStep` |
| `Prober.RecordedAt` | src/main.go:236-255 | for one phase and one label, recording one attempt adds 1 to the count if the label is the attempt's, and the phase's milliseconds to the series if it also completed |
| `Prober.RecordedIsStep` | src/main.go:236-255 | the updates for one attempt add 1 to its label's count and, if it completed, one observation per histogram under that label, with every other series unchanged |
| `Prober.MetricsSink.constructor` | src/main.go:30-71 | the counter and all four histograms start empty |
| `Prober.MetricsSink.Inc` | src/main.go:255 | the counter's series under the label goes up by one and nothing else changes |
| `Prober.MetricsSink.Observe` | src/main.go:249-252 | the value is appended to the chosen histogram's series under the label and nothing else changes |
| `Prober.MetricsSink.Record` | src/main.go:236-255 | the metric state after one attempt differs from the old one by exactly that attempt's increment and, on completion, its four observations |
| `Prober.MetricsSink.QueryHosts` | src/main.go:211-266 | empty `HTTP_HOSTS`: the error text, no hosts and unchanged metrics. Otherwise one entry per `;`-piece in order, with `Addr` the piece and `Code` its outcome's code, and every label's count and series grown by exactly `Hits` and `Samples` of the sweep |
| `Prober.SweptRoundsExtend` | src/main.go:320-326 | one more sweep after a run of sweeps extends every label's count and every histogram series by that sweep's hits and samples, and creates exactly the series that sweep recorded under |
| `Prober.MetricsSink.RunSweeps` | src/main.go:320-326 | over successive sweeps counters never decrease, each grows by the total of the sweeps' hits, and each histogram series is the old one with the sweeps' samples appended in order, so nothing is reset; a counter or histogram series exists afterwards exactly when it existed before or some sweep recorded under its label |
| `Prober.TwoTargets` | src/main.go:219-221 | a list `a;b` of two addresses without `;` is probed as `a` then `b` |
| `Secrets.ReadVarFromFile` | src/main.go:125-145 | nothing exactly for a stat failure, a directory or a read failure. Otherwise the upper-cased base name and the full contents |
| `Secrets.ReadVarKeyShape` | src/main.go:142 | every key is non-empty, has no lower-case ASCII letter and has no `/` unless it is `/` |
| `Secrets.ReadVarOfNamedFile` | src/main.go:141-143 | a readable `dir/name` is stored under `ToUpper(name)` whatever the directory |
| `Secrets.MapOfSnoc` | src/main.go:111 | storing one more pair updates that key only |
| `Secrets.FilePairsSnoc` | src/main.go:101-104 | one more visited path adds its pair, if it yields one, at the end |
| `Secrets.FilePairsNonEmptyIff` | src/main.go:101-114 | the walked paths yield a pair exactly when one of them is a readable file, so `"file"` is present iff such a file was found |
| `Secrets.FileMapLastWins` | src/main.go:101-114 | among files with the same key, the one visited last provides the value |
| `Secrets.MapOfKeys` | src/main.go:104-120 | storing pairs one after the other, a key is present iff some pair has it |
| `Secrets.MapOfLastWins` | src/main.go:104-120 | a key's value is that of the last pair with that key |
| `Secrets.EnvPair` | src/main.go:118-119 | `strings.SplitN(entry, "=", 2)` on an entry that holds `=`, by way of `GoLib.Cut` and its `GoLib.CutUnique` |
| `Secrets.EnvPairsAt` | src/main.go:117-119 | the i-th environment entry gives the i-th pair, split at its first `=` |
| `Secrets.EnvEntryLastWins` | src/main.go:117-120 | an entry `NAME=value` with no later entry for NAME sets `envs[NAME]` to `value` (the value keeps any further `=`) |
| `Secrets.CollectPaths` | src/main.go:87-99 | the walk loop collects the visited paths of every directory, directory after directory, in visiting order |
| `Secrets.StoreFiles` | src/main.go:101-114 | the file loop leaves `"envs"` empty, creates `"file"` exactly when some path yields a pair, and then holds the map of the pairs with later ones winning |
| `Secrets.StoreEnvs` | src/main.go:117-120 | the environment loop sets `"envs"` to the map of the entries split at their first `=`, later ones winning, and leaves `"file"` as it was |
| `Secrets.GenerateData` | src/main.go:73-123 | `"envs"` is always present and holds the environment map. `"file"` is present iff the walks yielded a pair, and then holds their map. No other top-level key exists, and no `"file"` appears when `SECRETS_DIRS` is empty |
| `Period.ParseInt32Result` | src/main.go:304 | what `strconv.ParseInt(s, 0, 32)` documents for its result: an in-range value on success, 0 on a syntax error, the overflowed bound on a range error |
| `Period.Seconds` | src/main.go:310 | `time.Duration(n) * time.Second` as a wrapping int64 product, shown not to wrap by `Period.WrapInt64InRange` |
| `Period.WrapInt64InRange` | src/main.go:310 | int64 wrap-around leaves an in-range product unchanged |
| `Period.CheckPeriod` | src/main.go:301-311 | 5s when `HTTP_CHECK_PERIOD` is empty. Otherwise the parsed value in seconds even on a parse error, 0s on a syntax error, and never outside int64 |
| `Period.MalformedPeriodIsZero` | src/main.go:304-310 | the value `"five"`, a syntax error, gives a zero interval |
| `Period.CheckPeriodWithFallback` | src/main.go:301-311 | corrected selection: the default whenever the variable is empty or did not parse, the parsed seconds otherwise |
| `Period.FallbackDiffersOnlyOnErrors` | src/main.go:301-311 | the code as written and the corrected selection differ exactly when the variable is non-empty and parsing reported an error |

## Left out

- HTTP itself: building the request, `DefaultClient.Do`, draining and closing the body, and the phase timer (src/main.go:223-247). Each target's outcome is an input (`Prober.Outcome`): `Failed`, or the status and the four phase durations in nanoseconds.
- Request-construction failure: when `http.NewRequest` fails, the code dereferences a nil request (src/main.go:231) and panics. Every outcome therefore stands for a request that was built. The panic path is not modelled.
- Prometheus internals: bucket layout, registration (src/main.go:30-71, 314-318), the float64 conversion of observed values, and thread safety. A histogram series is kept as the sequence of every value observed into it.
- Concurrency and time: the background goroutine's endless loop and `time.Sleep` (src/main.go:320-326) appear only as `RunSweeps`, a finite run of sequential sweeps. That goroutine is the only caller of the sweep, so sweeps never overlap. The thread safety of a `/metrics` scrape reading the metrics while a sweep writes them is not modelled.
- Rendering and serving: templates, JSON marshalling, response writing, `ping`, `jsonEnvs`, `renderHtml`, `checkServices` and `ListenAndServe`. `checkServices` marshals the function value instead of calling it (src/main.go:269), so it never sweeps.
- Filesystem and environment access: `filepath.Walk`, `os.Stat`, `ioutil.ReadFile`, `os.Environ` and `os.Getenv` are inputs. Walk errors are only logged and are not modelled. `GenerateData` requires that every environment entry contains `=`, because src/main.go:119 would panic otherwise.
- Full Go library semantics: Unicode case mapping in `strings.ToUpper` (only ASCII is modelled), volume names in `filepath.Base` (only `/` separators), and the `strconv.ParseInt` syntax.
- `Period.CheckPeriod`: `ParseInt(s, 0, 32)` is an oracle whose result is an input, constrained only by the documented value for each error kind. So the contract does not tie the period to the text of `HTTP_CHECK_PERIOD`.
- `GoLib.Split`: modelled for one-character separators only, the only kind the source uses.
- Logging throughout.

## Findings

| source | as written | input that shows it | evidently intended | confidence | as-written member | corrected member |
|---|---|---|---|---|---|---|
| src/main.go:304-310 | after a `ParseInt` error the period is still set to `parsedInt * time.Second`, so the error is only logged | `HTTP_CHECK_PERIOD=five`: syntax error, value 0, so a 0s interval and back-to-back sweeps | an unparsable value keeps the 5s default rather than giving a 0s interval | medium, not executed | `Period.MalformedPeriodIsZero` | `Period.CheckPeriodWithFallback` |
