# Load agent and health monitor

A Dafny model of the two pieces of logic in a small container-monitoring
system.

- **The agent** (`agent/index.js`, class `Agent`) reads the cgroup v2 control
  files of its container. It reports:
  - the memory load: `memory.current` as a percentage of `memory.max`;
  - the CPU load: the growth of `usage_usec` in `cpu.stat` since the previous
    call, per elapsed millisecond.

  Both figures are rounded to two decimals.
- **The monitor** (`monitor/index.js`) keeps one record per host. When a
  `monitoring-stats` event arrives, it stores the loads and scores the host's
  health (`updateHealth`). The score is:
  - one point each for a CPU load above 75, a memory load above 75, a slow or
    unreachable host, and a status code other than 200;
  - shown as a colour (`score2color`);
  - pushed, as `4 - score`, onto a trend of at most 100 values.

  A liveness probe records each host's status code and latency.

## How the model is built

- `jsstring.dfy` (module `JsString`) holds the string built-ins the agent
  uses: `trim`, `split` with a one-character separator, and its inverse
  `join`.
- `jsnumber.dfy` (module `JsNumber`) holds JavaScript numbers.
  - A `Num` is a finite real, NaN, or an infinity. The source really produces
    NaN and infinities: an unparsable file gives NaN, and a zero limit or zero
    elapsed time divides to NaN or an infinity.
  - The module also holds `parseInt` as ECMAScript defines it, and
    `parseFloat(x.toFixed(2))`. The latter rounds to the nearest hundredth, a
    tie going away from zero, below 10^21.
  - A record field that may be unset is a `Value`: `Undefined`, `Null` or a
    number. It comes with JavaScript's `>` and `===` against a literal.
- `agent.dfy` (module `Agent`) holds `memoryLoad` and `cpuLoad`.
  - Each file read is an `Option<string>`: `None` means the read threw.
  - `Date.now()` is an integer parameter.
  - The agent's two mutable fields are a `CpuState` value. `CpuLoad` takes it
    and returns it, together with the load.
- `monitor.dfy` (module `Monitor`) holds the host registry.
  - `HostRecord` is one entry of the `servers` array.
  - Each handler is a function from the old record to the new one.
  - `Run` replays a sequence of events on the whole registry.
  - `HostRun` is the reference definition of one host's history, built from
    that host's events alone.
  - The HTTP probe's result is an input, `ProbeOutcome`.

The model follows the code as written, including where it differs from what
one might expect of a load estimator and health monitor. The comment at
agent/index.js:37-41 asks for the CPU load as a percentage,
`(usage change / seconds elapsed) * 100`. A reader might also expect a
first-call bootstrap, a guard on a zero interval, a -1 sentinel for failures
and one point for a failed probe. The code has none of these:

- **No first-call bootstrap.** The first `cpuLoad` call measures against the
  constructor's baseline: zero usage, at construction time.
- **No zero-interval guard.** Two calls in the same millisecond divide by zero
  and give NaN or an infinity.
- **Failures return 0, not a -1 sentinel.** A read failure, or a `cpu.stat`
  without a `usage_usec` line, returns 0.
- **The CPU figure is not a percentage.** It is microseconds of CPU per
  elapsed millisecond.
- **A failed probe costs two points, not one.** It sets latency -1 and status
  500, and each trips its own condition.
- **The colour scale is inverted.** A healthy host (score 0) shows red, and a
  host failing all four checks shows bright green. The trend, by contrast,
  records health (`4 - score`). The model keeps the colours as written.

## Model

| member | source | states |
|---|---|---|
| JsString.Trim | agent/index.js:21-22 | the trimmed text is a slice of the input with only white space on either side of it, and it neither starts nor ends with white space |
| JsString.TrimOfPadded | agent/index.js:21-22 | conversely, any text that neither starts nor ends with white space is what trimming it with white-space padding gives back |
| JsString.JoinSplit | agent/index.js:43 | splitting loses nothing: joining the pieces with the separator restores the text |
| JsString.SplitJoin | agent/index.js:43 | pieces free of the separator, joined and split again, come back unchanged |
| JsNumber.RoundHundredths | agent/index.js:25 | the rounded value is a whole number of hundredths, within half a hundredth of the input, and keeps the sign of a non-negative input |
| JsNumber.RoundHundredthsExact | agent/index.js:25 | a value already in hundredths is left unchanged |
| JsNumber.RoundHundredthsTie | agent/index.js:25 | a value exactly between two hundredths rounds away from zero |
| JsNumber.Fixed2 | agent/index.js:25 | `parseFloat(x.toFixed(2))` is finite exactly when `x` is, is within half a hundredth of `x` below 10^21, and leaves NaN and the infinities unchanged |
| JsNumber.Sub | agent/index.js:48 | subtraction is exact on finite numbers, NaN absorbs, the result is finite exactly when both operands are, and two infinities cancel to NaN exactly when they have the same sign |
| JsNumber.Mul | agent/index.js:24 | multiplication is exact on finite numbers, NaN absorbs, the result is finite exactly when both operands are, and an infinity times zero is NaN |
| JsNumber.Div | agent/index.js:24 | division is exact by a non-zero finite divisor, zero over zero is NaN, any other finite number over zero is an infinity of its sign, a finite number over an infinity is zero, and NaN absorbs |
| JsNumber.GreaterThan | monitor/index.js:101-103 | `v > k` agrees with ECMAScript's reference: convert `v` with ToNumber (`undefined` to NaN, `null` to 0) and compare as numbers, false whenever NaN is involved |
| JsNumber.StrictEquals | monitor/index.js:103-104 | `v === k` holds exactly when `v` is the finite number `k`: never for `undefined`, `null` or NaN |
| JsNumber.ParseInt | agent/index.js:21 | `parseInt` yields either a whole number or NaN, never an infinity or a fraction; it is NaN for empty text and for text starting with anything but white space, a digit or a sign |
| JsNumber.ParseDecimal | agent/index.js:21 | `parseInt` reads back the decimal numeral of any natural number, whatever follows it, unless that is a digit, or an `x` or `X` after a lone 0 |
| JsString.Split | agent/index.js:43-45 | splitting always yields at least one piece, and no piece contains the separator; `JoinSplit` and `SplitJoin` make it the inverse of `Join` |
| Agent.CurrentBytes | agent/index.js:21 | the usage read from `memory.current` is a whole number, or NaN when the trimmed text is empty or starts with neither a digit nor a sign |
| Agent.LimitBytes | agent/index.js:22 | a limit file that trims to `max` reads as the current usage |
| Agent.Percent | agent/index.js:24-25 | the ratio times 100 is NaN if either side is NaN; NaN or a signed infinity for a zero limit; otherwise the nearest hundredth of `used / limit * 100` |
| Agent.MemoryLoad | agent/index.js:11-31 | a failed read of either file gives 0; otherwise, with `u` the parsed usage and `l` the parsed limit (`u` itself for `max`): NaN if either is NaN, NaN or a signed infinity for a zero limit, the nearest hundredth of `u / l * 100` below 10^21, and exactly 100 for a `max` limit and a non-zero usage |
| Agent.MemoryLoadUnlimited | agent/index.js:22-25 | with a `max` limit, the load is 100 for any non-zero usage and NaN for zero usage |
| Agent.MemoryLoadOfUnlimitedCounter | agent/index.js:21-25 | a file holding a non-zero decimal counter, against a `max` limit, gives exactly 100 |
| Agent.UnlimitedFile | agent/index.js:22 | the kernel's `max` line, newline included, trims to the keyword |
| Agent.MemoryLoadOfCounters | agent/index.js:21-25 | two files holding decimal counters, with any surrounding white space, give the nearest hundredth of `used / limit * 100` |
| Agent.ReadCounter | agent/index.js:21 | a counter file as the kernel writes it (digits and a newline) trims to the digits and parses to the counter |
| Agent.MemoryLoadHalf | agent/index.js:24-25 | using half of the limit is a load of exactly 50 |
| Agent.NewAgent | agent/index.js:6-9 | a new agent's zero baseline is neutral, so the first delta is the reading itself, and the last check is the construction time |
| Agent.SecondField | agent/index.js:45 | a line without a space has no second field and reads as NaN (`parseInt(undefined)`); otherwise the field parses to a whole number or NaN |
| Agent.FirstWithPrefix | agent/index.js:43 | `find` returns the first line with the prefix: no earlier line has it, and `None` means no line has it |
| Agent.ReadUsage | agent/index.js:43-45 | the usage is missing exactly when no line of `cpu.stat` starts with `usage_usec` |
| Agent.ReadUsageOfStat | agent/index.js:43-45 | a `cpu.stat` whose usage line follows lines of other keys reads as that line's counter, whatever lines come after |
| Agent.SecondFieldOfUsageLine | agent/index.js:45 | the field after the first space of `usage_usec N` parses to `N` |
| Agent.Rate | agent/index.js:48-56 | the load formula is NaN for a NaN delta, NaN or a signed infinity for a zero interval, and otherwise the nearest hundredth of delta over elapsed milliseconds: the two scalings by 1000 cancel |
| Agent.CpuLoad | agent/index.js:33-62 | a failed read or a missing usage line gives 0 and keeps the state; otherwise the new reading and time are stored whatever the result, and the load is NaN when either reading is NaN, NaN or a signed infinity when no time has passed, and otherwise the nearest hundredth of (usage - previous usage) / elapsed milliseconds |
| Agent.CpuLoadOfReadings | agent/index.js:48-56 | two finite readings at different times give the nearest hundredth of (usage - previous) / (now - then) |
| Agent.NaNReadingPoisonsNext | agent/index.js:45-56 | after an unparsable reading is stored, the next successful call returns NaN and stores a fresh baseline |
| Agent.FirstCallAgainstConstruction | agent/index.js:7-8 | the first call is measured against zero usage at construction time, not answered with 0; a counter at least as large as the elapsed milliseconds gives at least 1 |
| Agent.RateOfUsage | agent/index.js:48-56 | the rate of a usage against a zero baseline is the rounded usage per millisecond, at least 1 when the usage is at least the elapsed time |
| Agent.OnlyPrecedingReadingMatters | agent/index.js:48-52 | after a successful call, the next call does not depend on the state before it |
| Agent.FailureKeepsBaseline | agent/index.js:57-60 | a failed call is invisible to the following one |
| Monitor.InitialServers | monitor/index.js:10-15 | the registry starts with three hosts, each with trend `[0]` and the unknown colour |
| Monitor.Tripped | monitor/index.js:101-104 | only a recorded number can trip a threshold condition: an unset or `null` load or latency never does, while a status code never recorded always counts as bad |
| Monitor.Score | monitor/index.js:100-104 | the score is at most 4 |
| Monitor.ScoreCountsTripped | monitor/index.js:100-104 | the score is the number of conditions that hold |
| Monitor.ScoreExtremes | monitor/index.js:100-104 | the score is 0 exactly when no condition holds, and 4 exactly when all do |
| Monitor.ScoreMonotone | monitor/index.js:100-104 | tripping more conditions never lowers the score |
| Monitor.ConditionAddsOne | monitor/index.js:100-104 | each tripped condition adds exactly one point |
| Monitor.LatencyCondition | monitor/index.js:103 | latency -1 or above 500 is unhealthy; 0 to 500 is not, and neither is a latency never measured |
| Monitor.StatusCondition | monitor/index.js:104 | anything but the number 200 is a bad status, including a status never recorded |
| Monitor.ScoreToColor | monitor/index.js:113-118 | each colour is chosen exactly on its interval: at most 0.25 red, up to 0.5 amber, up to 0.75 green, above that bright green |
| Monitor.HexInjective | monitor/index.js:113-118 | distinct colours are distinct CSS strings |
| Monitor.ColorMonotone | monitor/index.js:113-118 | a higher normalised score never gives an earlier colour |
| Monitor.ColorOfScore | monitor/index.js:106 | scores 0 and 1 show red, 2 amber, 3 green and 4 bright green |
| Monitor.PushCapped | monitor/index.js:107-110 | the pushed value is last; the earlier values are the old trend, with its oldest value dropped only when the trend was full |
| Monitor.PushAllIsWindow | monitor/index.js:107-110 | FIFO eviction: after any pushes the trend is the last 100 values of the old trend followed by the pushed values |
| Monitor.UpdateHealth | monitor/index.js:100-111 | only the status and the trend change; the status is the colour of score/4, and the trend gains `4 - score`, a value in 0..4, with the oldest value evicted past 100 |
| Monitor.ReceiveMetrics | monitor/index.js:24-31 | the loads are stored before scoring, so the new status and trend value are those of the new loads; identity, latency and status code are kept |
| Monitor.Received | monitor/index.js:28-29 | a load arrives as `null` exactly when it was NaN or infinite |
| Monitor.NonFiniteLoadNeverTrips | monitor/index.js:101-102 | a load the agent could not compute never counts against the host |
| Monitor.RecordProbe | monitor/index.js:66-76 | a response records its status and elapsed time, a failure records 500 and -1, and nothing else in the record changes |
| Monitor.FailedProbeCostsTwo | monitor/index.js:72-75 | a failed probe trips both the latency and the status condition |
| Monitor.HealthyProbe | monitor/index.js:70-71 | a 200 response within 500 ms trips neither probe condition |
| Monitor.ProbeAsWritten | monitor/index.js:69 | the probe as written records 500 and -1 whatever the host answers |
| Monitor.ProbeAsWrittenIgnoresResponse | monitor/index.js:69-75 | a host answering 200 in 10 ms is still scored at least 2 as written, where the corrected probe trips neither condition |
| Monitor.Handle | monitor/index.js:21-76 | an event keeps the host's identity; a metric event rescores the host from its new record and leaves latency and status code alone; a probe event leaves loads, colour and trend alone, so it shows only from the next metric event |
| Monitor.Run | monitor/index.js:21-31 | replaying events never adds or removes a host; `RunIsPerHost` gives each entry |
| Monitor.Apply | monitor/index.js:21-31 | an event replaces only the record of its own host |
| Monitor.RunIsPerHost | monitor/index.js:21-31 | after any events, a host's record is the one its own events produce alone |
| Monitor.RunKeepsIdentity | monitor/index.js:24-31 | no event changes a host's name, URL or port |
| Monitor.HandlePreservesInvariant | monitor/index.js:107-110 | every event keeps the trend non-empty, within 100, and made of values in 0..4 |
| Monitor.RunPreservesInvariant | monitor/index.js:107-110 | no sequence of events breaks that invariant |
| Monitor.HandleTrendLength | monitor/index.js:107-110 | a metric event lengthens the trend by one up to 100, and a probe leaves it alone |
| Monitor.RunTrendLength | monitor/index.js:107-110 | a trend grows by one per metric event for its host, up to 100 |
| Monitor.TrendLengthFromStart | monitor/index.js:12-14 | from the initial registry, a trend has one value more than its host's metric events, up to 100 |

## Left out

- Socket servers and clients, the `heartbeat` broadcast and the agent's
  sampling timer: these are transport and timers. `Run` replays the events
  they deliver, in delivery order.
- File reads, `Date.now()` and the HTTP request: these are parameters (an
  optional text, an integer, a `ProbeOutcome`).
- Doubles: a finite number is an exact real, and signed zero is not
  distinguished. As a result, `parseInt` of a numeral beyond 2^53 keeps every
  digit instead of rounding.
- JsNumber.ParseInt: a numeral too long for a double does not become an
  infinity, because finite numbers are unbounded reals.
- JsNumber.Fixed2: only the value printed and read back is modelled. For 10^21
  and above, the number is taken to be returned unchanged; the exponent
  notation `toFixed` prints there is not modelled.
- Logging, the listen message of the agent, port configuration and the
  commented-out code in `updateHealth`: none affects the state.

## Findings

| source | as written | input that shows it | evidently intended | confidence | as-written member | corrected member |
|---|---|---|---|---|---|---|
| monitor/index.js:69 | `axios.get` is called, but `axios` is never required, so the call throws a ReferenceError and the catch branch records status 500 and latency -1 on every probe | a host that answers 200 in 10 ms | record the response's status and the elapsed time | high; not executed | Monitor.ProbeAsWritten, Monitor.ProbeAsWrittenIgnoresResponse | Monitor.RecordProbe |
