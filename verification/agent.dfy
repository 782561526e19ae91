/** The load estimator of the agent (agent/index.js, class `Agent`).

    The two files the estimator reads and the clock it consults are
    parameters: a file is `Some(text)` when `fs.readFile` succeeded and `None`
    when it threw, and `now` is the value of `Date.now()` in milliseconds.
    The mutable fields of the agent become the `CpuState` value a call takes
    and returns. */
module Agent {
  import opened Wrappers
  import opened JsString
  import opened JsNumber

  /** What cgroup v2 writes into `memory.max` when memory is not limited. */
  const Unlimited := "max"

  /** The key of the cumulative CPU time line of `cpu.stat`, in microseconds. */
  const UsageKey := "usage_usec"

  // ---------------------------------------------------------------------
  // Memory

  /** The usage read from `memory.current`: a whole number, or NaN when the
      trimmed text is empty or starts with neither a digit nor a sign. */
  function CurrentBytes(current: string): (b: Num)
    ensures b.Finite? ==> b.v.Floor as real == b.v
    ensures !b.Finite? ==> b == NaN
    ensures var t := Trim(current);
            |t| == 0 || (!IsAsciiDigit(t[0]) && t[0] != '-' && t[0] != '+') ==> b == NaN
  {
    ParseInt(Trim(current))
  }

  /** The limit read from `memory.max`; an unlimited controller counts as
      limited to the current usage. */
  function LimitBytes(current: string, limit: string): (l: Num)
    ensures Trim(limit) == Unlimited ==> l == CurrentBytes(current)
  {
    if Trim(limit) == Unlimited then CurrentBytes(current) else ParseInt(Trim(limit))
  }

  /** `parseFloat((used / limit * 100).toFixed(2))` on the two parsed
      quantities: NaN absorbs everything, a zero limit divides to NaN or an
      infinity, and a finite ratio becomes the nearest hundredth. */
  function Percent(used: Num, limit: Num): (r: Num)
    ensures used == NaN || limit == NaN ==> r == NaN
    ensures used.Finite? && limit == Finite(0.0) ==>
              r == if used.v == 0.0 then NaN else Infinity(used.v > 0.0)
    ensures used.Finite? && limit.Finite? && limit.v != 0.0 && Abs(used.v / limit.v * 100.0) < 1.0e21 ==>
              r == Finite(RoundHundredths(used.v / limit.v * 100.0))
  {
    var x := Mul(Div(used, limit), Finite(100.0));
    assert used.Finite? && limit.Finite? && limit.v != 0.0 ==> x == Finite(used.v / limit.v * 100.0);
    Fixed2(x)
  }

  /** `Agent.memoryLoad`: memory usage as a percentage of the limit, to two
      decimals. Either file failing to read gives 0; otherwise the result
      depends on nothing but the two parsed quantities, and a zero or
      unparsable quantity gives NaN or an infinity rather than an error. */
  function MemoryLoad(current: Option<string>, limit: Option<string>): (r: Num)
    ensures current.None? || limit.None? ==> r == Finite(0.0)
    ensures current.Some? && limit.Some? ==>
              LoadOutcome(CurrentBytes(current.value), LimitBytes(current.value, limit.value),
                          Trim(limit.value) == Unlimited, r)
  {
    if current.None? || limit.None? then Finite(0.0)
    else
      var memCurrent := CurrentBytes(current.value);
      var memMax := LimitBytes(current.value, limit.value);
      PercentCases(memCurrent, memMax, Trim(limit.value) == Unlimited);
      Percent(memCurrent, memMax)
  }

  /** With no memory limit the load is 100 for any non-zero usage, and NaN
      (zero over zero) when the usage is zero. */
  lemma MemoryLoadUnlimited(current: string, limit: string)
    requires Trim(limit) == Unlimited
    requires CurrentBytes(current).Finite?
    ensures MemoryLoad(Some(current), Some(limit))
            == if CurrentBytes(current).v == 0.0 then NaN else Finite(100.0)
  {
    assert LimitBytes(current, limit) == CurrentBytes(current);
    PercentOfSelf(CurrentBytes(current));
  }

  /** What the memory load `r` is for a parsed usage `u` and limit `l`,
      `unlimited` telling that the limit file said `max`: NaN absorbs, a
      zero limit divides to NaN or an infinity, a finite ratio gives its
      nearest hundredth, and an unlimited controller shows exactly 100 for
      any non-zero usage. */
  predicate LoadOutcome(u: Num, l: Num, unlimited: bool, r: Num) {
    && (u == NaN || l == NaN ==> r == NaN)
    && (u.Finite? && l == Finite(0.0) ==> r == if u.v == 0.0 then NaN else Infinity(u.v > 0.0))
    && (u.Finite? && l.Finite? && l.v != 0.0 && Abs(u.v / l.v * 100.0) < 1.0e21 ==>
          r == Finite(RoundHundredths(u.v / l.v * 100.0)))
    && (unlimited && u.Finite? && u.v != 0.0 ==> r == Finite(100.0))
  }

  /** `Percent` meets `LoadOutcome` when an unlimited controller's limit is
      the usage itself. */
  lemma PercentCases(u: Num, l: Num, self: bool)
    requires self ==> l == u
    ensures LoadOutcome(u, l, self, Percent(u, l))
  {
    if self && u.Finite? {
      PercentOfSelf(u);
    }
  }

  lemma PercentOfSelf(c: Num)
    requires c.Finite?
    ensures Percent(c, c) == if c.v == 0.0 then NaN else Finite(100.0)
  {
    if c.v != 0.0 {
      assert c.v / c.v * 100.0 == 100.0;
      RoundHundredthsExact(10000);
      assert RoundHundredths(100.0) == 100.0;
    }
  }

  /** Two control files that each hold a decimal counter, with any white
      space around it: the load is the rounded percentage of the two
      counters. */
  lemma MemoryLoadOfCounters(current: string, limit: string, used: nat, max: nat)
    requires Trim(current) == Decimal(used) && Trim(limit) == Decimal(max)
    requires max > 0
    requires used as real / max as real * 100.0 < 1.0e21
    ensures MemoryLoad(Some(current), Some(limit))
            == Finite(RoundHundredths(used as real / max as real * 100.0))
  {
    ReadsCounters(current, limit, used, max);
    PercentOfCounters(used, max);
  }

  lemma PercentOfCounters(used: nat, max: nat)
    requires max > 0
    requires used as real / max as real * 100.0 < 1.0e21
    ensures Percent(Finite(used as real), Finite(max as real))
            == Finite(RoundHundredths(used as real / max as real * 100.0))
  {
    NonNegativeRatio(used, max);
  }

  lemma ReadsCounters(current: string, limit: string, used: nat, max: nat)
    requires Trim(current) == Decimal(used) && Trim(limit) == Decimal(max)
    ensures CurrentBytes(current) == Finite(used as real)
    ensures LimitBytes(current, limit) == Finite(max as real)
    ensures MemoryLoad(Some(current), Some(limit)) == Percent(Finite(used as real), Finite(max as real))
  {
    ParseOwnDecimal(used);
    ParseOwnDecimal(max);
    assert Decimal(max)[0] != Unlimited[0];
  }

  lemma NonNegativeRatio(used: nat, limit: nat)
    requires limit > 0
    ensures Abs(used as real / limit as real * 100.0) == used as real / limit as real * 100.0
  {
  }

  /** A control file holding one counter, as the kernel writes it. */
  function CounterFile(n: nat): string {
    Decimal(n) + "\n"
  }

  lemma ParseOwnDecimal(n: nat)
    ensures ParseInt(Decimal(n)) == Finite(n as real)
  {
    ParseDecimal(n, "");
    assert Decimal(n) + "" == Decimal(n);
  }

  /** The kernel's counter file trims and parses back to the counter. */
  lemma ReadCounter(n: nat)
    ensures Trim(CounterFile(n)) == Decimal(n)
    ensures CurrentBytes(CounterFile(n)) == Finite(n as real)
  {
    var d := Decimal(n);
    assert IsAsciiDigit(d[0]) && IsAsciiDigit(d[|d| - 1]);
    assert CounterFile(n) == "" + d + "\n";
    assert IsWhiteSpace('\n');
    assert AllWhiteSpace("\n");
    TrimOfPadded("", d, "\n");
    ParseDecimal(n, "");
    assert d + "" == d;
  }

  /** A non-zero usage counter against an unlimited controller gives exactly
      100. */
  lemma MemoryLoadOfUnlimitedCounter(current: string, limit: string, used: nat)
    requires Trim(current) == Decimal(used) && Trim(limit) == Unlimited
    requires used > 0
    ensures MemoryLoad(Some(current), Some(limit)) == Finite(100.0)
  {
    ParseOwnDecimal(used);
    MemoryLoadUnlimited(current, limit);
  }

  /** The file the kernel writes for an unlimited controller trims to the
      keyword. */
  lemma UnlimitedFile()
    ensures Trim("max\n") == Unlimited
  {
    assert "" + Unlimited + "\n" == "max\n";
    TrimOfPadded("", Unlimited, "\n");
  }

  /** Half of the limit in use is a load of exactly 50. */
  lemma MemoryLoadHalf(n: nat)
    requires n > 0
    ensures MemoryLoad(Some(CounterFile(n)), Some(CounterFile(2 * n))) == Finite(50.0)
  {
    ReadCounter(n);
    ReadCounter(2 * n);
    HalfRatio(n);
    MemoryLoadOfCounters(CounterFile(n), CounterFile(2 * n), n, 2 * n);
    RoundHundredthsExact(5000);
  }

  lemma HalfRatio(n: nat)
    requires n > 0
    ensures n as real / (2 * n) as real * 100.0 == 5000 as real / 100.0 == 50.0
  {
    assert (2 * n) as real == 2.0 * n as real;
  }

  // ---------------------------------------------------------------------
  // CPU

  /** The two fields the agent keeps between calls of `cpuLoad`. */
  datatype CpuState = CpuState(lastCpuUsage: Num, lastCpuCheck: int)

  /** The state of a newly constructed agent: no usage yet, and the clock at
      construction as the time of the last check. The zero baseline is
      neutral, so the first delta is the reading itself. */
  function NewAgent(now: int): (s: CpuState)
    ensures forall u :: Sub(u, s.lastCpuUsage) == u
    ensures s.lastCpuCheck == now
  {
    CpuState(Finite(0.0), now)
  }

  /** The value `cpuLoad` returns and the state it leaves behind. */
  datatype CpuReading = CpuReading(load: Num, state: CpuState)

  /** The index of the first of `lines` that starts with `p`: `find` with
      `String.prototype.startsWith`, which is Dafny's prefix test `<=`. */
  function FirstWithPrefix(lines: seq<string>, p: string): (k: Option<nat>)
    ensures k.Some? ==> k.value < |lines| && p <= lines[k.value]
    ensures k.Some? ==> forall j :: 0 <= j < k.value ==> !(p <= lines[j])
    ensures k.None? ==> forall j :: 0 <= j < |lines| ==> !(p <= lines[j])
  {
    if |lines| == 0 then None
    else if p <= lines[0] then Some(0)
    else
      match FirstWithPrefix(lines[1..], p)
      case None => None
      case Some(k) => Some(k + 1)
  }

  /** The number after the first single space of a line; a line without a
      space has no such field, and `parseInt(undefined)` is NaN. */
  function SecondField(line: string): (n: Num)
    ensures ' ' !in line ==> n == NaN
    ensures n.Finite? ==> n.v.Floor as real == n.v
    ensures !n.Finite? ==> n == NaN
  {
    var fields := Split(line, ' ');
    assert ' ' !in line ==> fields == [line] by {
      if ' ' !in line {
        SplitJoin([line], ' ');
      }
    }
    if |fields| > 1 then ParseInt(fields[1]) else NaN
  }

  /** The cumulative usage in `cpu.stat`: the second field of the first line
      that starts with `usage_usec`, and `None` when there is no such line
      (the source then fails on `undefined.split`). */
  function ReadUsage(stat: string): (u: Option<Num>)
    ensures u.None? <==> forall j :: 0 <= j < |Split(stat, '\n')| ==> !(UsageKey <= Split(stat, '\n')[j])
  {
    var lines := Split(stat, '\n');
    match FirstWithPrefix(lines, UsageKey)
    case None => None
    case Some(k) => Some(SecondField(lines[k]))
  }

  /** `cpu.stat` with the usage line somewhere after lines of other keys
      reads as that line's counter. */
  lemma ReadUsageOfStat(before: seq<string>, usage: nat, after: seq<string>)
    requires forall j :: 0 <= j < |before| ==> '\n' !in before[j] && !(UsageKey <= before[j])
    requires forall j :: 0 <= j < |after| ==> '\n' !in after[j]
    ensures ReadUsage(Join(before + [UsageLine(usage)] + after, '\n'))
            == Some(Finite(usage as real))
  {
    var lines := before + [UsageLine(usage)] + after;
    var stat := Join(lines, '\n');
    assert Split(stat, '\n') == lines by {
      SecondFieldOfUsageLine(usage);
      forall j | 0 <= j < |lines| ensures '\n' !in lines[j] {
        if j < |before| { assert lines[j] == before[j]; }
        else if j > |before| { assert lines[j] == after[j - |before| - 1]; }
      }
      SplitJoin(lines, '\n');
    }
    assert FirstWithPrefix(lines, UsageKey) == Some(|before|) by {
      SecondFieldOfUsageLine(usage);
      FirstAfterOthers(before, UsageLine(usage), after, UsageKey);
    }
    assert SecondField(lines[|before|]) == Finite(usage as real) by {
      SecondFieldOfUsageLine(usage);
      assert lines[|before|] == UsageLine(usage);
    }
    ReadUsageOfLines(stat, lines, |before|);
  }

  lemma ReadUsageOfLines(stat: string, lines: seq<string>, k: nat)
    requires Split(stat, '\n') == lines
    requires FirstWithPrefix(lines, UsageKey) == Some(k)
    ensures ReadUsage(stat) == Some(SecondField(lines[k]))
  {
  }

  /** The usage line of `cpu.stat` for a counter value. */
  function UsageLine(usage: nat): string {
    UsageKey + " " + Decimal(usage)
  }

  lemma SecondFieldOfUsageLine(usage: nat)
    ensures UsageKey <= UsageLine(usage) && '\n' !in UsageLine(usage)
    ensures SecondField(UsageLine(usage)) == Finite(usage as real)
  {
    var d := Decimal(usage);
    assert ' ' !in d && '\n' !in d by {
      forall j | 0 <= j < |d| ensures d[j] != ' ' && d[j] != '\n' {
        assert IsAsciiDigit(d[j]);
      }
    }
    assert UsageLine(usage) == Join([UsageKey, d], ' ');
    SplitJoin([UsageKey, d], ' ');
    ParseDecimal(usage, "");
    assert d + "" == d;
  }

  lemma FirstAfterOthers(before: seq<string>, line: string, after: seq<string>, p: string)
    requires forall j :: 0 <= j < |before| ==> !(p <= before[j])
    requires p <= line
    ensures FirstWithPrefix(before + [line] + after, p) == Some(|before|)
  {
    var lines := before + [line] + after;
    var k := FirstWithPrefix(lines, p);
    assert lines[|before|] == line;
    assert forall j :: 0 <= j < |before| ==> lines[j] == before[j];
  }

  /** The load formula of `cpuLoad`: a usage delta in microseconds, scaled
      by a thousand, over the elapsed milliseconds scaled to seconds, to two
      decimals. The scalings cancel, so a finite result is microseconds of
      CPU per elapsed millisecond; a zero elapsed time divides to NaN or an
      infinity, and NaN absorbs everything. */
  function Rate(delta: Num, elapsedMs: int): (r: Num)
    ensures delta == NaN ==> r == NaN
    ensures delta.Finite? && elapsedMs == 0 ==>
              r == if delta.v == 0.0 then NaN else Infinity(delta.v > 0.0)
    ensures delta.Finite? && elapsedMs != 0 && Abs(delta.v / elapsedMs as real) < 1.0e21 ==>
              r == Finite(RoundHundredths(delta.v / elapsedMs as real))
  {
    var timeDelta := Finite(elapsedMs as real / 1000.0);
    var cpuPercent := Div(Div(delta, Finite(1000.0)), timeDelta);
    UnitsCancel(delta, elapsedMs as real);
    Fixed2(cpuPercent)
  }

  /** Microseconds over seconds, both scaled by a thousand, are microseconds
      over milliseconds. */
  lemma UnitsCancel(d: Num, elapsed: real)
    ensures d.Finite? && elapsed != 0.0 ==>
              Div(Div(d, Finite(1000.0)), Finite(elapsed / 1000.0)) == Finite(d.v / elapsed)
  {
    if d.Finite? && elapsed != 0.0 {
      assert (d.v / 1000.0) / (elapsed / 1000.0) == d.v / elapsed;
    }
  }

  /** `Agent.cpuLoad`. A read failure, or a `cpu.stat` without a usage line,
      gives 0 and leaves the state alone. Otherwise the new reading and the
      current time are stored whatever the result, and the load is the rate
      of the usage delta against the stored reading over the time since it,
      with no guard for a zero elapsed time or a NaN reading. */
  function CpuLoad(s: CpuState, stat: Option<string>, now: int): (r: CpuReading)
    ensures stat.None? || ReadUsage(stat.value).None? ==> r == CpuReading(Finite(0.0), s)
    ensures stat.Some? && ReadUsage(stat.value).Some? ==>
              var u, u0, elapsed := ReadUsage(stat.value).value, s.lastCpuUsage, now - s.lastCpuCheck;
              && r.state == CpuState(u, now)
              && (u == NaN || u0 == NaN ==> r.load == NaN)
              && (u.Finite? && u0.Finite? && elapsed == 0 ==>
                    r.load == if u.v - u0.v == 0.0 then NaN else Infinity(u.v - u0.v > 0.0))
              && (u.Finite? && u0.Finite? && elapsed != 0 && Abs((u.v - u0.v) / elapsed as real) < 1.0e21 ==>
                    r.load == Finite(RoundHundredths((u.v - u0.v) / elapsed as real)))
  {
    if stat.None? then CpuReading(Finite(0.0), s)
    else
      match ReadUsage(stat.value)
      case None => CpuReading(Finite(0.0), s)
      case Some(currentUsage) =>
        var currentTime := now;
        var usageDelta := Sub(currentUsage, s.lastCpuUsage);
        CpuReading(Rate(usageDelta, currentTime - s.lastCpuCheck), CpuState(currentUsage, currentTime))
  }

  /** The load of a call that reads a finite counter, against a finite
      stored reading taken at another time. */
  lemma CpuLoadOfReadings(s: CpuState, stat: string, now: int, u: real, u0: real)
    requires ReadUsage(stat) == Some(Finite(u)) && s.lastCpuUsage == Finite(u0)
    requires now != s.lastCpuCheck
    requires Abs((u - u0) / (now - s.lastCpuCheck) as real) < 1.0e21
    ensures CpuLoad(s, Some(stat), now).load
            == Finite(RoundHundredths((u - u0) / (now - s.lastCpuCheck) as real))
  {
  }

  /** A reading that did not parse poisons exactly one result: the call
      after it returns NaN, and stores a fresh baseline. */
  lemma NaNReadingPoisonsNext(s: CpuState, stat: string, now: int)
    requires s.lastCpuUsage == NaN && ReadUsage(stat).Some?
    ensures CpuLoad(s, Some(stat), now).load == NaN
    ensures CpuLoad(s, Some(stat), now).state.lastCpuUsage == ReadUsage(stat).value
  {
  }

  /** The first call measures against the construction-time baseline of
      zero usage: it is not a bootstrap call returning 0. */
  lemma FirstCallAgainstConstruction(created: int, stat: string, now: int, usage: nat)
    requires ReadUsage(stat) == Some(Finite(usage as real))
    requires now > created
    requires usage as real / (now - created) as real < 1.0e21
    ensures CpuLoad(NewAgent(created), Some(stat), now).load
            == Finite(RoundHundredths(usage as real / (now - created) as real))
    ensures usage >= now - created ==> CpuLoad(NewAgent(created), Some(stat), now).load.v >= 1.0
  {
    UsageRatio(usage, now - created);
    CpuLoadOfReadings(NewAgent(created), stat, now, usage as real, 0.0);
  }

  /** The arithmetic of a usage against a zero baseline. */
  lemma UsageRatio(usage: nat, elapsed: int)
    requires elapsed > 0 && usage as real / elapsed as real < 1.0e21
    ensures (usage as real - 0.0) / elapsed as real == usage as real / elapsed as real
    ensures Abs(usage as real / elapsed as real) < 1.0e21
    ensures usage >= elapsed ==> RoundHundredths(usage as real / elapsed as real) >= 1.0
  {
    var x := usage as real / elapsed as real;
    assert Abs(x) == x by {
      NonNegativeRatio(usage, elapsed);
      assert x * 100.0 >= 0.0;
    }
    if usage >= elapsed {
      RatioAtLeastOne(usage as real, elapsed as real);
      RoundHundredthsAtLeastOne(x);
    }
  }

  lemma RateOfUsage(usage: nat, elapsed: int)
    requires elapsed > 0 && usage as real / elapsed as real < 1.0e21
    ensures Rate(Sub(Finite(usage as real), Finite(0.0)), elapsed)
            == Finite(RoundHundredths(usage as real / elapsed as real))
    ensures usage >= elapsed ==> Rate(Sub(Finite(usage as real), Finite(0.0)), elapsed).v >= 1.0
  {
    var x := usage as real / elapsed as real;
    assert (usage as real - 0.0) / elapsed as real == x;
    assert Abs(x) == x by {
      NonNegativeRatio(usage, elapsed);
      assert x * 100.0 >= 0.0;
    }
    if usage >= elapsed {
      RatioAtLeastOne(usage as real, elapsed as real);
      RoundHundredthsAtLeastOne(x);
    }
  }

  lemma RatioAtLeastOne(a: real, b: real)
    requires 0.0 < b <= a
    ensures a / b >= 1.0
  {
    assert a / b * b == a;
  }

  /** Only the immediately preceding successful reading matters: after a call
      that found a usage line, the next call does not depend on the state
      before it. */
  lemma OnlyPrecedingReadingMatters(s1: CpuState, s2: CpuState, stat: string, t: int,
                                    next: Option<string>, later: int)
    requires ReadUsage(stat).Some?
    ensures CpuLoad(CpuLoad(s1, Some(stat), t).state, next, later)
            == CpuLoad(CpuLoad(s2, Some(stat), t).state, next, later)
  {
  }

  /** A failed call is invisible to the next one: it sees the state from
      before the failure. */
  lemma FailureKeepsBaseline(s: CpuState, stat: Option<string>, t: int,
                             next: Option<string>, later: int)
    requires stat.None? || ReadUsage(stat.value).None?
    ensures CpuLoad(CpuLoad(s, stat, t).state, next, later) == CpuLoad(s, next, later)
  {
  }
}
