/** The monitor's host registry and health scorer (monitor/index.js).

    Each entry of the `servers` array becomes an immutable `HostRecord`; the
    handler of a `monitoring-stats` event, the liveness probe and
    `updateHealth` become functions from the old record to the new one. The
    fields the source adds to a server object only when an event arrives
    start out `undefined`. */
module Monitor {
  import opened JsNumber

  /** The status colours; `Unknown` is the one a host shows before its
      first metrics arrive. */
  datatype Color = Red | Amber | Green | BrightGreen | Unknown

  /** The CSS colour the source stores in a host's `status`. */
  function Hex(c: Color): string {
    match c
    case Red => "#ff0000"
    case Amber => "#ffcc00"
    case Green => "#00cc00"
    case BrightGreen => "#00ff00"
    case Unknown => "#cccccc"
  }

  /** The most scores a trend keeps. */
  const TrendCap := 100

  datatype HostRecord = HostRecord(
    name: string,
    url: string,
    port: int,
    status: Color,
    scoreTrend: seq<int>,
    memoryLoad: Value,
    cpuLoad: Value,
    latency: Value,
    statusCode: Value)

  /** A host as the registry declares it, before any event. */
  function NewHost(name: string, port: int): HostRecord {
    HostRecord(name, "http://localhost", port, Unknown, [0], Undefined, Undefined, Undefined, Undefined)
  }

  /** The `servers` array the monitor starts with. */
  function InitialServers(): (servers: seq<HostRecord>)
    ensures |servers| == 3
    ensures forall i :: 0 <= i < |servers| ==> servers[i].scoreTrend == [0] && servers[i].status == Unknown
  {
    [NewHost("server-01", 5001), NewHost("server-02", 5002), NewHost("server-03", 5003)]
  }

  // ---------------------------------------------------------------------
  // Scoring

  /** The four ways a host can be unhealthy. */
  datatype Condition = HighCpu | HighMemory | SlowOrUnreachable | BadStatus

  const AllConditions: set<Condition> := {HighCpu, HighMemory, SlowOrUnreachable, BadStatus}

  /** Whether `c` holds of the host, with JavaScript's comparison rules: a
      field never set is `undefined`, which is not above any threshold and
      is not strictly equal to any number. */
  predicate Tripped(h: HostRecord, c: Condition): (b: bool)
    ensures c == HighCpu && b ==> h.cpuLoad.Number?
    ensures c == HighMemory && b ==> h.memoryLoad.Number?
    ensures c == SlowOrUnreachable && b ==> h.latency.Number?
    ensures c == BadStatus && !h.statusCode.Number? ==> b
  {
    match c
    case HighCpu => GreaterThan(h.cpuLoad, 75.0)
    case HighMemory => GreaterThan(h.memoryLoad, 75.0)
    case SlowOrUnreachable => GreaterThan(h.latency, 500.0) || StrictEquals(h.latency, -1.0)
    case BadStatus => !StrictEquals(h.statusCode, 200.0)
  }

  function Indicator(b: bool): nat {
    if b then 1 else 0
  }

  /** The score of `updateHealth`: one point per tripped condition. */
  function Score(h: HostRecord): (score: nat)
    ensures score <= 4
  {
    Indicator(Tripped(h, HighCpu)) + Indicator(Tripped(h, HighMemory))
    + Indicator(Tripped(h, SlowOrUnreachable)) + Indicator(Tripped(h, BadStatus))
  }

  /** The conditions that hold of a host. */
  function TrippedSet(h: HostRecord): set<Condition> {
    set c | c in AllConditions && Tripped(h, c)
  }

  function When(b: bool, c: Condition): set<Condition> {
    if b then {c} else {}
  }

  /** The score counts the tripped conditions, and nothing else. */
  lemma ScoreCountsTripped(h: HostRecord)
    ensures Score(h) == |TrippedSet(h)|
  {
    var a := When(Tripped(h, HighCpu), HighCpu);
    var b := When(Tripped(h, HighMemory), HighMemory);
    var c := When(Tripped(h, SlowOrUnreachable), SlowOrUnreachable);
    var d := When(Tripped(h, BadStatus), BadStatus);
    assert TrippedSet(h) == a + b + c + d by {
      forall x | x in TrippedSet(h) ensures x in a + b + c + d {
        match x
        case HighCpu =>
        case HighMemory =>
        case SlowOrUnreachable =>
        case BadStatus =>
      }
    }
    CountDisjoint(Tripped(h, HighCpu), Tripped(h, HighMemory),
                  Tripped(h, SlowOrUnreachable), Tripped(h, BadStatus));
  }

  lemma CountDisjoint(p: bool, q: bool, r: bool, s: bool)
    ensures |When(p, HighCpu) + When(q, HighMemory) + When(r, SlowOrUnreachable) + When(s, BadStatus)|
            == Indicator(p) + Indicator(q) + Indicator(r) + Indicator(s)
  {
    var a, b, c, d := When(p, HighCpu), When(q, HighMemory), When(r, SlowOrUnreachable), When(s, BadStatus);
    assert |a + b| == |a| + |b| by { assert a !! b; }
    assert |a + b + c| == |a + b| + |c| by { assert (a + b) !! c; }
    assert |a + b + c + d| == |a + b + c| + |d| by { assert (a + b + c) !! d; }
  }

  /** A score of 0 means no condition holds, and 4 that all of them do. */
  lemma ScoreExtremes(h: HostRecord)
    ensures Score(h) == 0 <==> forall c :: !Tripped(h, c)
    ensures Score(h) == 4 <==> forall c :: Tripped(h, c)
  {
    if Score(h) != 0 {
      var c :| c in TrippedSet(h) by { ScoreCountsTripped(h); }
    }
    if Score(h) == 4 {
      ScoreCountsTripped(h);
      forall c ensures Tripped(h, c) {
        if !Tripped(h, c) {
          SubsetCardinality(TrippedSet(h), AllConditions - {c});
        }
      }
    } else {
      assert !Tripped(h, HighCpu) || !Tripped(h, HighMemory)
             || !Tripped(h, SlowOrUnreachable) || !Tripped(h, BadStatus);
    }
  }

  /** Tripping more conditions never lowers the score. */
  lemma ScoreMonotone(h: HostRecord, h': HostRecord)
    requires TrippedSet(h) <= TrippedSet(h')
    ensures Score(h) <= Score(h')
  {
    ScoreCountsTripped(h);
    ScoreCountsTripped(h');
    SubsetCardinality(TrippedSet(h), TrippedSet(h'));
  }

  lemma SubsetCardinality(a: set<Condition>, b: set<Condition>)
    requires a <= b
    ensures |a| <= |b|
  {
    assert b == a + (b - a);
  }

  /** Each tripped condition adds exactly one point. */
  lemma ConditionAddsOne(h: HostRecord, h': HostRecord, c: Condition)
    requires forall d :: d != c ==> (Tripped(h, d) <==> Tripped(h', d))
    requires !Tripped(h, c) && Tripped(h', c)
    ensures Score(h') == Score(h) + 1
  {
  }

  /** A latency of exactly -1 or above 500 is unhealthy; 0 to 500 is not,
      and neither is a latency never measured. */
  lemma LatencyCondition(h: HostRecord)
    ensures h.latency == Undefined ==> !Tripped(h, SlowOrUnreachable)
    ensures h.latency.Number? && h.latency.n.Finite? ==>
              (Tripped(h, SlowOrUnreachable) <==> h.latency.n.v > 500.0 || h.latency.n.v == -1.0)
    ensures h.latency.Number? && h.latency.n.Finite? && 0.0 <= h.latency.n.v <= 500.0 ==>
              !Tripped(h, SlowOrUnreachable)
  {
  }

  /** Anything but the number 200 is a bad status, including a status code
      never recorded. */
  lemma StatusCondition(h: HostRecord)
    ensures Tripped(h, BadStatus) <==> h.statusCode != Number(Finite(200.0))
    ensures h.statusCode == Undefined ==> Tripped(h, BadStatus)
  {
  }

  /** `score2color`: a step function of the normalised score with inclusive
      upper bounds. */
  function ScoreToColor(score: real): (color: Color)
    ensures color == Red <==> score <= 0.25
    ensures color == Amber <==> 0.25 < score <= 0.5
    ensures color == Green <==> 0.5 < score <= 0.75
    ensures color == BrightGreen <==> 0.75 < score
  {
    if score <= 0.25 then Red
    else if score <= 0.50 then Amber
    else if score <= 0.75 then Green
    else BrightGreen
  }

  /** Distinct colours are distinct strings in the source. */
  lemma HexInjective(a: Color, b: Color)
    requires a != b
    ensures Hex(a) != Hex(b)
  {
    assert Hex(a)[1] != Hex(b)[1] || Hex(a)[3] != Hex(b)[3];
  }

  /** The colours in the order of the score buckets. */
  function ColorRank(color: Color): nat {
    match color
    case Red => 0
    case Amber => 1
    case Green => 2
    case _ => 3
  }

  /** A higher normalised score never gives an earlier colour. */
  lemma ColorMonotone(x: real, y: real)
    requires x <= y
    ensures ColorRank(ScoreToColor(x)) <= ColorRank(ScoreToColor(y))
  {
  }

  /** The five integer scores: 0 and 1 give red, 2 amber, 3 green, and the
      worst score, 4, bright green. */
  lemma ColorOfScore(score: nat)
    requires score <= 4
    ensures ScoreToColor(score as real / 4.0) == [Red, Red, Amber, Green, BrightGreen][score]
  {
  }

  // ---------------------------------------------------------------------
  // The trend buffer

  /** `push` then, past the cap, `shift`: the newest value goes last and the
      oldest is evicted when the trend is full. */
  function PushCapped(trend: seq<int>, x: int): (r: seq<int>)
    ensures |r| == if |trend| >= TrendCap then |trend| else |trend| + 1
    ensures |r| >= 1 && r[|r| - 1] == x
    ensures r[..|r| - 1] == if |trend| >= TrendCap then trend[1..] else trend
  {
    var pushed := trend + [x];
    if |pushed| > TrendCap then pushed[1..] else pushed
  }

  /** The reference definition of the trend: the last `TrendCap` values of
      everything pushed. */
  function Window(s: seq<int>): (w: seq<int>)
    ensures |w| == if |s| <= TrendCap then |s| else TrendCap
  {
    if |s| <= TrendCap then s else s[|s| - TrendCap..]
  }

  /** Pushing several values, oldest first. */
  function PushAll(trend: seq<int>, xs: seq<int>): seq<int>
    decreases |xs|
  {
    if |xs| == 0 then trend
    else PushAll(PushCapped(trend, xs[0]), xs[1..])
  }

  lemma WindowOfWindow(a: seq<int>, b: seq<int>)
    ensures Window(Window(a) + b) == Window(a + b)
  {
    if |a| > TrendCap {
      var w := Window(a);
      assert w + b == (a + b)[|a| - TrendCap..];
      if |w + b| <= TrendCap {
        assert |b| == 0;
        assert a + b == a;
      } else {
        assert (w + b)[|w + b| - TrendCap..] == (a + b)[|a + b| - TrendCap..];
      }
    }
  }

  /** FIFO eviction: a trend within the cap, after any number of pushes, is
      exactly the last `TrendCap` values of the old trend followed by the
      pushed ones. */
  lemma {:induction false} PushAllIsWindow(trend: seq<int>, xs: seq<int>)
    requires |trend| <= TrendCap
    ensures PushAll(trend, xs) == Window(trend + xs)
    decreases |xs|
  {
    if |xs| > 0 {
      var t := PushCapped(trend, xs[0]);
      assert t == Window(trend + [xs[0]]);
      PushAllIsWindow(t, xs[1..]);
      WindowOfWindow(trend + [xs[0]], xs[1..]);
      assert trend + [xs[0]] + xs[1..] == trend + xs;
    } else {
      assert trend + xs == trend;
    }
  }

  /** `updateHealth`: the status becomes the colour of the score over four,
      and the health, four minus the number of tripped conditions, is pushed
      on the trend. Nothing else changes. */
  function UpdateHealth(h: HostRecord): (r: HostRecord)
    ensures r.(status := h.status, scoreTrend := h.scoreTrend) == h
    ensures r.status == ScoreToColor(Score(h) as real / 4.0)
    ensures |r.scoreTrend| >= 1 && r.scoreTrend[|r.scoreTrend| - 1] == 4 - Score(h)
    ensures 0 <= r.scoreTrend[|r.scoreTrend| - 1] <= 4
    ensures r.scoreTrend[..|r.scoreTrend| - 1]
            == if |h.scoreTrend| >= TrendCap then h.scoreTrend[1..] else h.scoreTrend
  {
    var score := Score(h);
    h.(status := ScoreToColor(score as real / 4.0), scoreTrend := PushCapped(h.scoreTrend, 4 - score))
  }

  // ---------------------------------------------------------------------
  // Events

  /** The `monitoring-stats` handler: the two loads are stored first and the
      health is then scored with them. The host's identity, latency and
      status code are not touched. */
  function ReceiveMetrics(h: HostRecord, memoryLoad: Value, cpuLoad: Value): (r: HostRecord)
    ensures r.name == h.name && r.url == h.url && r.port == h.port
    ensures r.latency == h.latency && r.statusCode == h.statusCode
    ensures r.memoryLoad == memoryLoad && r.cpuLoad == cpuLoad
    ensures |r.scoreTrend| >= 1 && r.scoreTrend[|r.scoreTrend| - 1] == 4 - Score(r)
    ensures r.status == ScoreToColor(Score(r) as real / 4.0)
  {
    UpdateHealth(h.(memoryLoad := memoryLoad, cpuLoad := cpuLoad))
  }

  /** A load as the handler receives it: the event payload travels as
      JSON, in which NaN and the infinities are written as `null`. */
  function Received(n: Num): (v: Value)
    ensures v == Null <==> !n.Finite?
    ensures n.Finite? ==> v == Number(n)
  {
    if n.Finite? then Number(n) else Null
  }

  /** A load the agent could not compute (NaN, or an infinity from a zero
      divisor) arrives as `null`, which is not above 75: it never counts
      against the host. */
  lemma NonFiniteLoadNeverTrips(h: HostRecord, memoryLoad: Num, cpuLoad: Num)
    ensures !memoryLoad.Finite? ==>
              !Tripped(ReceiveMetrics(h, Received(memoryLoad), Received(cpuLoad)), HighMemory)
    ensures !cpuLoad.Finite? ==>
              !Tripped(ReceiveMetrics(h, Received(memoryLoad), Received(cpuLoad)), HighCpu)
  {
  }

  /** What the liveness probe observes: a response with its status code
      and the milliseconds it took, or a failure. */
  datatype ProbeOutcome = Responded(status: int, elapsedMs: int) | Failed

  /** The probe's bookkeeping: a response records its status and latency, a
      failure records status 500 and latency -1. The probe does not score
      the host, so the status colour and the trend stay as they are. */
  function RecordProbe(h: HostRecord, outcome: ProbeOutcome): (r: HostRecord)
    ensures r.(latency := h.latency, statusCode := h.statusCode) == h
    ensures outcome.Failed? ==>
              r.statusCode == Number(Finite(500.0)) && r.latency == Number(Finite(-1.0))
    ensures outcome.Responded? ==>
              && r.statusCode == Number(Finite(outcome.status as real))
              && r.latency == Number(Finite(outcome.elapsedMs as real))
  {
    match outcome
    case Failed => h.(statusCode := Number(Finite(500.0)), latency := Number(Finite(-1.0)))
    case Responded(status, elapsed) =>
      h.(statusCode := Number(Finite(status as real)), latency := Number(Finite(elapsed as real)))
  }

  /** A failed probe trips two conditions at once: the latency of -1 and
      the status of 500. */
  lemma FailedProbeCostsTwo(h: HostRecord)
    ensures Tripped(RecordProbe(h, Failed), SlowOrUnreachable)
    ensures Tripped(RecordProbe(h, Failed), BadStatus)
    ensures Score(RecordProbe(h, Failed))
            == 2 + Indicator(Tripped(h, HighCpu)) + Indicator(Tripped(h, HighMemory))
  {
  }

  /** A prompt 200 response trips neither probe condition. */
  lemma HealthyProbe(h: HostRecord, elapsedMs: int)
    requires 0 <= elapsedMs <= 500
    ensures !Tripped(RecordProbe(h, Responded(200, elapsedMs)), SlowOrUnreachable)
    ensures !Tripped(RecordProbe(h, Responded(200, elapsedMs)), BadStatus)
  {
  }

  /** The probe as the source runs it: `axios` is used but never required,
      so the call throws before any request and the handler records a
      failure whatever the host would have answered. */
  function ProbeAsWritten(h: HostRecord, outcome: ProbeOutcome): (r: HostRecord)
    ensures r.statusCode == Number(Finite(500.0)) && r.latency == Number(Finite(-1.0))
  {
    RecordProbe(h, Failed)
  }

  /** A host that answers 200 in 10 ms is still recorded as unreachable with
      status 500, and its next score is at least 2 where the intended one
      would count neither probe condition. */
  lemma ProbeAsWrittenIgnoresResponse(h: HostRecord, memoryLoad: Value, cpuLoad: Value)
    ensures Score(ReceiveMetrics(ProbeAsWritten(h, Responded(200, 10)), memoryLoad, cpuLoad)) >= 2
    ensures var r := ReceiveMetrics(RecordProbe(h, Responded(200, 10)), memoryLoad, cpuLoad);
            !Tripped(r, SlowOrUnreachable) && !Tripped(r, BadStatus)
  {
  }

  // ---------------------------------------------------------------------
  // The registry

  /** The events that change the registry, each for one host. */
  datatype Event =
    | MetricsArrived(host: nat, memoryLoad: Value, cpuLoad: Value)
    | ProbeFinished(host: nat, outcome: ProbeOutcome)

  /** What an event does to the record of the host it is for. A metric
      event rescores the host and leaves the probe's fields alone; a probe
      event records its outcome without rescoring, so it shows in the colour
      and the trend only from the host's next metric event on. */
  function Handle(h: HostRecord, e: Event): (r: HostRecord)
    ensures r.name == h.name && r.url == h.url && r.port == h.port
    ensures e.MetricsArrived? ==>
              && r.latency == h.latency && r.statusCode == h.statusCode
              && r.status == ScoreToColor(Score(r) as real / 4.0)
    ensures e.ProbeFinished? ==>
              && r.status == h.status && r.scoreTrend == h.scoreTrend
              && r.memoryLoad == h.memoryLoad && r.cpuLoad == h.cpuLoad
  {
    match e
    case MetricsArrived(_, m, c) => ReceiveMetrics(h, m, c)
    case ProbeFinished(_, o) => RecordProbe(h, o)
  }

  predicate ForRegistry(servers: seq<HostRecord>, events: seq<Event>) {
    forall k :: 0 <= k < |events| ==> events[k].host < |servers|
  }

  /** One event handled: the record of its host is replaced and every other
      host is left alone. */
  function Apply(servers: seq<HostRecord>, e: Event): (r: seq<HostRecord>)
    requires e.host < |servers|
    ensures |r| == |servers|
    ensures r[e.host] == Handle(servers[e.host], e)
    ensures forall j :: 0 <= j < |r| && j != e.host ==> r[j] == servers[j]
  {
    servers[e.host := Handle(servers[e.host], e)]
  }

  /** The registry after the events, in the order they were handled. */
  function Run(servers: seq<HostRecord>, events: seq<Event>): (r: seq<HostRecord>)
    requires ForRegistry(servers, events)
    ensures |r| == |servers|
    decreases |events|
  {
    if |events| == 0 then servers
    else Run(Apply(servers, events[0]), events[1..])
  }

  /** The record of one host after the events, taking only that host's
      events into account: the reference for `Run` seen from one host. */
  function HostRun(h: HostRecord, events: seq<Event>, i: nat): HostRecord
    decreases |events|
  {
    if |events| == 0 then h
    else HostRun(if events[0].host == i then Handle(h, events[0]) else h, events[1..], i)
  }

  lemma RegistryTail(servers: seq<HostRecord>, next: seq<HostRecord>, events: seq<Event>)
    requires |events| > 0 && ForRegistry(servers, events) && |next| == |servers|
    ensures ForRegistry(next, events[1..])
  {
    assert forall k :: 0 <= k < |events| - 1 ==> events[1..][k] == events[k + 1];
  }

  /** Hosts are independent: what happens to one host is decided by its own
      events alone, in their order. */
  lemma {:induction false} RunIsPerHost(servers: seq<HostRecord>, events: seq<Event>, i: nat)
    requires ForRegistry(servers, events) && i < |servers|
    ensures Run(servers, events)[i] == HostRun(servers[i], events, i)
    decreases |events|
  {
    if |events| > 0 {
      var next := Apply(servers, events[0]);
      RegistryTail(servers, next, events);
      RunIsPerHost(next, events[1..], i);
    }
  }

  /** What every host record keeps true: a non-empty trend within the cap,
      of health values from 0 to 4. */
  predicate TrendInvariant(h: HostRecord) {
    && 1 <= |h.scoreTrend| <= TrendCap
    && forall k :: 0 <= k < |h.scoreTrend| ==> 0 <= h.scoreTrend[k] <= 4
  }

  predicate AllWellFormed(servers: seq<HostRecord>) {
    forall i :: 0 <= i < |servers| ==> TrendInvariant(servers[i])
  }

  lemma InitialWellFormed()
    ensures AllWellFormed(InitialServers())
  {
  }

  lemma HandlePreservesInvariant(h: HostRecord, e: Event)
    requires TrendInvariant(h)
    ensures TrendInvariant(Handle(h, e))
  {
    if e.MetricsArrived? {
      var g := h.(memoryLoad := e.memoryLoad, cpuLoad := e.cpuLoad);
      var t := UpdateHealth(g).scoreTrend;
      assert forall k :: 0 <= k < |t| - 1 ==> t[k] == t[..|t| - 1][k];
    }
  }

  lemma {:induction false} HostRunPreservesInvariant(h: HostRecord, events: seq<Event>, i: nat)
    requires TrendInvariant(h)
    ensures TrendInvariant(HostRun(h, events, i))
    decreases |events|
  {
    if |events| > 0 {
      HandlePreservesInvariant(h, events[0]);
      HostRunPreservesInvariant(if events[0].host == i then Handle(h, events[0]) else h, events[1..], i);
    }
  }

  /** No sequence of events breaks the trend invariant. */
  lemma RunPreservesInvariant(servers: seq<HostRecord>, events: seq<Event>)
    requires ForRegistry(servers, events) && AllWellFormed(servers)
    ensures AllWellFormed(Run(servers, events))
  {
    forall i | 0 <= i < |servers| ensures TrendInvariant(Run(servers, events)[i]) {
      RunIsPerHost(servers, events, i);
      HostRunPreservesInvariant(servers[i], events, i);
    }
  }

  lemma {:induction false} HostRunKeepsIdentity(h: HostRecord, events: seq<Event>, i: nat)
    ensures HostRun(h, events, i).name == h.name
    ensures HostRun(h, events, i).url == h.url
    ensures HostRun(h, events, i).port == h.port
    decreases |events|
  {
    if |events| > 0 {
      HostRunKeepsIdentity(if events[0].host == i then Handle(h, events[0]) else h, events[1..], i);
    }
  }

  /** Host identities never change. */
  lemma RunKeepsIdentity(servers: seq<HostRecord>, events: seq<Event>, i: nat)
    requires ForRegistry(servers, events) && i < |servers|
    ensures Run(servers, events)[i].name == servers[i].name
    ensures Run(servers, events)[i].url == servers[i].url
    ensures Run(servers, events)[i].port == servers[i].port
  {
    RunIsPerHost(servers, events, i);
    HostRunKeepsIdentity(servers[i], events, i);
  }

  /** How many metric events are for the host at `i`. */
  function MetricCount(events: seq<Event>, i: nat): nat {
    if |events| == 0 then 0
    else Indicator(events[0].MetricsArrived? && events[0].host == i) + MetricCount(events[1..], i)
  }

  function Min(a: int, b: int): int {
    if a <= b then a else b
  }

  lemma MinAbsorbs(x: int, y: nat, cap: int)
    ensures Min(Min(x, cap) + y, cap) == Min(x + y, cap)
  {
  }

  /** A metric event pushes one health value, up to the cap; a probe pushes
      none. */
  lemma HandleTrendLength(h: HostRecord, e: Event)
    requires |h.scoreTrend| <= TrendCap
    ensures |Handle(h, e).scoreTrend| == Min(|h.scoreTrend| + Indicator(e.MetricsArrived?), TrendCap)
  {
  }

  lemma {:induction false} HostRunTrendLength(h: HostRecord, events: seq<Event>, i: nat)
    requires |h.scoreTrend| <= TrendCap
    ensures |HostRun(h, events, i).scoreTrend| == Min(|h.scoreTrend| + MetricCount(events, i), TrendCap)
    decreases |events|
  {
    if |events| > 0 {
      var e := events[0];
      var g := if e.host == i then Handle(h, e) else h;
      var m := Indicator(e.MetricsArrived? && e.host == i);
      assert |g.scoreTrend| == Min(|h.scoreTrend| + m, TrendCap) by {
        HandleTrendLength(h, e);
      }
      HostRunTrendLength(g, events[1..], i);
      MinAbsorbs(|h.scoreTrend| + m, MetricCount(events[1..], i), TrendCap);
    }
  }

  /** A host's trend grows by one per metric event for it, and by nothing
      for probes or for other hosts' events, until it reaches the cap. */
  lemma RunTrendLength(servers: seq<HostRecord>, events: seq<Event>, i: nat)
    requires ForRegistry(servers, events) && i < |servers|
    requires |servers[i].scoreTrend| <= TrendCap
    ensures |Run(servers, events)[i].scoreTrend|
            == Min(|servers[i].scoreTrend| + MetricCount(events, i), TrendCap)
  {
    RunIsPerHost(servers, events, i);
    HostRunTrendLength(servers[i], events, i);
  }

  /** From the initial registry, a host's trend has one entry more than the
      metric events it received, up to the cap. */
  lemma TrendLengthFromStart(events: seq<Event>, i: nat)
    requires ForRegistry(InitialServers(), events) && i < 3
    ensures |Run(InitialServers(), events)[i].scoreTrend| == Min(1 + MetricCount(events, i), TrendCap)
  {
    RunTrendLength(InitialServers(), events, i);
  }
}
