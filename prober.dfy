/**
 * The host prober and its metric bookkeeping (`httpQueryToHosts`): one sweep
 * over the `;`-separated `HTTP_HOSTS` list, which records one result per
 * target, increments the outcome counter under the label (addr, code) once
 * per attempt and, for a completed request, adds one observation to each of
 * the four latency histograms under the same label.
 *
 * The network is an input: `outcomes[i]` is what probing the i-th target
 * produced, either `Failed` or the status code and the four phase durations
 * in nanoseconds reported by the phase timer.
 */
module Prober {
  import opened GoLib

  const EmptyHostsError := "Variable HTTP_HOSTS is empty, should be list"

  /** time.Millisecond in nanoseconds. */
  const NsPerMs := 1000000

  /** What probing one target produced. `Failed` is a `client.Do` that
      returned an error; `Completed` carries the response status and the
      four phase durations. A failing `http.NewRequest` is not an outcome:
      the program then dereferences a nil request and panics, and this
      model does not cover that path. */
  datatype Outcome =
    | Failed
    | Completed(status: int, dnsNs: int, tcpNs: int, serverNs: int, transferNs: int)

  /** One entry of the report: the target and the code it was counted under. */
  datatype Host = Host(addr: string, code: string)

  /** The sweep's report; `hosts` is empty when `error` is set. */
  datatype Data = Data(hosts: seq<Host>, error: string)

  /** The four latency histograms. */
  datatype Phase = DnsLookup | TcpConnection | ServerProcessing | ContentTransfer

  /** The (addr, code) label pair every metric is keyed by. */
  type Label = (string, string)

  /** The code an attempt is reported and counted under: "0" when the request
      did not complete, the decimal status code otherwise. */
  function Code(o: Outcome): string
  {
    if o.Failed? then "0" else Itoa(o.status)
  }

  function LabelOf(addr: string, o: Outcome): Label
  {
    (addr, Code(o))
  }

  /** A failed attempt and a completed one are told apart by their code,
      except for a response whose status is 0. */
  lemma CodeIsZeroIff(o: Outcome)
    ensures Code(o) == "0" <==> (o.Failed? || o.status == 0)
  {
    if o.Completed? {
      ItoaInjective(o.status, 0);
    }
  }

  /** Go's integer division on a time.Duration, which truncates toward zero. */
  function TruncDiv(a: int, b: int): int
    requires b > 0
  {
    if a >= 0 then a / b else -((-a) / b)
  }

  function PhaseNs(o: Outcome, ph: Phase): int
    requires o.Completed?
  {
    match ph
    case DnsLookup => o.dnsNs
    case TcpConnection => o.tcpNs
    case ServerProcessing => o.serverNs
    case ContentTransfer => o.transferNs
  }

  /** The value observed for one phase: the duration divided by time.Millisecond. */
  function Millis(o: Outcome, ph: Phase): int
    requires o.Completed?
  {
    TruncDiv(PhaseNs(o, ph), NsPerMs)
  }

  /** A non-negative duration gives the whole number of milliseconds in it;
      a negative one is rounded toward zero, never below it. */
  lemma MillisIsWholeMilliseconds(o: Outcome, ph: Phase)
    requires o.Completed?
    ensures PhaseNs(o, ph) >= 0 ==>
      0 <= Millis(o, ph) && Millis(o, ph) * NsPerMs <= PhaseNs(o, ph) < (Millis(o, ph) + 1) * NsPerMs
    ensures PhaseNs(o, ph) < 0 ==>
      Millis(o, ph) <= 0 && PhaseNs(o, ph) <= Millis(o, ph) * NsPerMs && (Millis(o, ph) - 1) * NsPerMs < PhaseNs(o, ph)
  {
  }

  // ---------------------------------------------------------------------
  // Reference definitions of what a sweep adds to the metrics
  // ---------------------------------------------------------------------

  /** How many of the attempts are labelled `k`. */
  function Hits(addrs: seq<string>, outs: seq<Outcome>, k: Label): nat
    requires |addrs| == |outs|
  {
    if |addrs| == 0 then 0
    else
      var n := |addrs| - 1;
      Hits(addrs[..n], outs[..n], k) + (if LabelOf(addrs[n], outs[n]) == k then 1 else 0)
  }

  /** The observations, in attempt order, of phase `ph` made by the completed
      attempts labelled `k`. */
  function Samples(addrs: seq<string>, outs: seq<Outcome>, k: Label, ph: Phase): seq<int>
    requires |addrs| == |outs|
  {
    if |addrs| == 0 then []
    else
      var n := |addrs| - 1;
      Samples(addrs[..n], outs[..n], k, ph)
        + (if outs[n].Completed? && LabelOf(addrs[n], outs[n]) == k then [Millis(outs[n], ph)] else [])
  }

  /** Only attempts at address `k.0` count towards a label of that address. */
  lemma {:induction false} HitsOfAbsentAddress(addrs: seq<string>, outs: seq<Outcome>, k: Label)
    requires |addrs| == |outs|
    requires k.0 !in addrs
    ensures Hits(addrs, outs, k) == 0
    ensures Samples(addrs, outs, k, DnsLookup) == Samples(addrs, outs, k, TcpConnection) == []
    ensures Samples(addrs, outs, k, ServerProcessing) == Samples(addrs, outs, k, ContentTransfer) == []
  {
    if |addrs| > 0 {
      var n := |addrs| - 1;
      assert forall j :: 0 <= j < n ==> addrs[..n][j] == addrs[j];
      HitsOfAbsentAddress(addrs[..n], outs[..n], k);
    }
  }

  /** A label is counted exactly when some attempt carries it. */
  lemma {:induction false} HitsPositiveIff(addrs: seq<string>, outs: seq<Outcome>, k: Label)
    requires |addrs| == |outs|
    ensures Hits(addrs, outs, k) > 0 <==> exists i :: 0 <= i < |addrs| && LabelOf(addrs[i], outs[i]) == k
  {
    if |addrs| > 0 {
      var n := |addrs| - 1;
      HitsPositiveIff(addrs[..n], outs[..n], k);
      assert forall j :: 0 <= j < n ==> addrs[..n][j] == addrs[j] && outs[..n][j] == outs[j];
    }
  }

  /** A label is observed in a histogram exactly when some completed attempt
      carries it. */
  lemma {:induction false} SamplesNonEmptyIff(addrs: seq<string>, outs: seq<Outcome>, k: Label, ph: Phase)
    requires |addrs| == |outs|
    ensures Samples(addrs, outs, k, ph) != []
        <==> exists i :: 0 <= i < |addrs| && outs[i].Completed? && LabelOf(addrs[i], outs[i]) == k
  {
    if |addrs| > 0 {
      var n := |addrs| - 1;
      SamplesNonEmptyIff(addrs[..n], outs[..n], k, ph);
      assert forall j :: 0 <= j < n ==> addrs[..n][j] == addrs[j] && outs[..n][j] == outs[j];
    }
  }

  /** The attempts labelled `k` are the only ones that can be observed under `k`. */
  lemma {:induction false} SamplesAtMostHits(addrs: seq<string>, outs: seq<Outcome>, k: Label, ph: Phase)
    requires |addrs| == |outs|
    ensures |Samples(addrs, outs, k, ph)| <= Hits(addrs, outs, k)
    ensures (forall i :: 0 <= i < |outs| ==> outs[i].Failed?) ==> Samples(addrs, outs, k, ph) == []
  {
    if |addrs| > 0 {
      var n := |addrs| - 1;
      SamplesAtMostHits(addrs[..n], outs[..n], k, ph);
    }
  }

  /** With non-negative phase durations every observation is non-negative. */
  lemma {:induction false} SamplesNonNegative(addrs: seq<string>, outs: seq<Outcome>, k: Label, ph: Phase)
    requires |addrs| == |outs|
    requires forall i :: 0 <= i < |outs| && outs[i].Completed? ==> PhaseNs(outs[i], ph) >= 0
    ensures forall j :: 0 <= j < |Samples(addrs, outs, k, ph)| ==> Samples(addrs, outs, k, ph)[j] >= 0
  {
    if |addrs| > 0 {
      var n := |addrs| - 1;
      SamplesNonNegative(addrs[..n], outs[..n], k, ph);
      if outs[n].Completed? {
        MillisIsWholeMilliseconds(outs[n], ph);
      }
    }
  }

  /** When every target is listed once, each attempt is counted exactly once
      under its own label, and is observed exactly once in any histogram when
      it completed and not at all when it failed. */
  lemma {:induction false} DistinctTargetsCountedOnce(addrs: seq<string>, outs: seq<Outcome>, i: nat, ph: Phase)
    requires |addrs| == |outs|
    requires forall p, q :: 0 <= p < q < |addrs| ==> addrs[p] != addrs[q]
    requires i < |addrs|
    ensures Hits(addrs, outs, LabelOf(addrs[i], outs[i])) == 1
    ensures Samples(addrs, outs, LabelOf(addrs[i], outs[i]), ph)
         == if outs[i].Completed? then [Millis(outs[i], ph)] else []
  {
    var n := |addrs| - 1;
    var k := LabelOf(addrs[i], outs[i]);
    if i == n {
      assert forall j :: 0 <= j < n ==> addrs[..n][j] == addrs[j] != addrs[n];
      HitsOfAbsentAddress(addrs[..n], outs[..n], k);
    } else {
      DistinctTargetsCountedOnce(addrs[..n], outs[..n], i, ph);
      assert addrs[n] != addrs[i];
    }
  }

  /** Hits of a label accumulated over several sweeps of the same targets. */
  function TotalHits(addrs: seq<string>, rounds: seq<seq<Outcome>>, k: Label): nat
    requires forall r :: 0 <= r < |rounds| ==> |rounds[r]| == |addrs|
  {
    if |rounds| == 0 then 0
    else
      var n := |rounds| - 1;
      TotalHits(addrs, rounds[..n], k) + Hits(addrs, rounds[n], k)
  }

  /** Samples of a label accumulated over several sweeps of the same targets,
      sweep after sweep. */
  function TotalSamples(addrs: seq<string>, rounds: seq<seq<Outcome>>, k: Label, ph: Phase): seq<int>
    requires forall r :: 0 <= r < |rounds| ==> |rounds[r]| == |addrs|
  {
    if |rounds| == 0 then []
    else
      var n := |rounds| - 1;
      TotalSamples(addrs, rounds[..n], k, ph) + Samples(addrs, rounds[n], k, ph)
  }

  /** Under phase `ph` and label `k`, `after` is `before` with the sweeps
      `rounds` of `addrs` recorded one after the other. */
  ghost predicate SweptRoundsAt(before: Metrics, after: Metrics, addrs: seq<string>, rounds: seq<seq<Outcome>>, ph: Phase, k: Label)
    requires forall r :: 0 <= r < |rounds| ==> |rounds[r]| == |addrs|
  {
    && (k in after.responseCodes <==> k in before.responseCodes || TotalHits(addrs, rounds, k) > 0)
    && after.Count(k) == before.Count(k) + TotalHits(addrs, rounds, k)
    && (k in after.Histogram(ph) <==> k in before.Histogram(ph) || TotalSamples(addrs, rounds, k, ph) != [])
    && after.Observations(ph, k) == before.Observations(ph, k) + TotalSamples(addrs, rounds, k, ph)
  }

  ghost predicate SweptRounds(before: Metrics, after: Metrics, addrs: seq<string>, rounds: seq<seq<Outcome>>)
    requires forall r :: 0 <= r < |rounds| ==> |rounds[r]| == |addrs|
  {
    forall ph, k :: SweptRoundsAt(before, after, addrs, rounds, ph, k)
  }

  /** One more sweep after a run of sweeps extends the run by that sweep. */
  lemma SweptRoundsExtend(start: Metrics, mid: Metrics, now: Metrics, addrs: seq<string>, rounds: seq<seq<Outcome>>, r: nat)
    requires forall i :: 0 <= i < |rounds| ==> |rounds[i]| == |addrs|
    requires r < |rounds|
    requires SweptRounds(start, mid, addrs, rounds[..r])
    requires Swept(mid, now, addrs, rounds[r])
    ensures SweptRounds(start, now, addrs, rounds[..r + 1])
  {
    var longer, prefix, last := rounds[..r + 1], rounds[..r], rounds[r];
    assert longer[..r] == prefix && longer[r] == last;
    forall ph, k ensures SweptRoundsAt(start, now, addrs, longer, ph, k) {
      assert TotalHits(addrs, longer, k) == TotalHits(addrs, prefix, k) + Hits(addrs, last, k);
      assert TotalSamples(addrs, longer, k, ph) == TotalSamples(addrs, prefix, k, ph) + Samples(addrs, last, k, ph);
      assert SweptRoundsAt(start, mid, addrs, prefix, ph, k);
      assert SweptAt(mid, now, addrs, last, ph, k);
    }
  }

  /** N sweeps of a single target that answers 200 every time count N
      under (target, "200"). */
  lemma {:induction false} RepeatedSweepsOfOneTarget(target: string, rounds: seq<seq<Outcome>>)
    requires forall r :: 0 <= r < |rounds| ==> |rounds[r]| == 1 && rounds[r][0].Completed? && rounds[r][0].status == 200
    ensures TotalHits([target], rounds, (target, "200")) == |rounds|
  {
    if |rounds| > 0 {
      var n := |rounds| - 1;
      RepeatedSweepsOfOneTarget(target, rounds[..n]);
      var o := rounds[n];
      assert [target][..0] == [] && o[..0] == [];
      assert Code(o[0]) == "200";
      assert Hits([target], o, (target, "200")) == Hits([], [], (target, "200")) + 1;
    }
  }

  /** Under phase `ph` and label `k`, `after` is `before` with attempt `o`
      at `addr` recorded: one more count under the attempt's label and, when
      the request completed, one more observation under it. */
  ghost predicate StepAt(before: Metrics, after: Metrics, addr: string, o: Outcome, ph: Phase, k: Label)
  {
    && (k in after.responseCodes <==> k in before.responseCodes || k == LabelOf(addr, o))
    && after.Count(k) == before.Count(k) + (if k == LabelOf(addr, o) then 1 else 0)
    && (k in after.Histogram(ph) <==> k in before.Histogram(ph) || (o.Completed? && k == LabelOf(addr, o)))
    && after.Observations(ph, k)
       == before.Observations(ph, k) + (if o.Completed? && k == LabelOf(addr, o) then [Millis(o, ph)] else [])
  }

  ghost predicate Step(before: Metrics, after: Metrics, addr: string, o: Outcome)
  {
    forall ph, k :: StepAt(before, after, addr, o, ph, k)
  }

  /** Under phase `ph` and label `k`, `after` is `before` with the attempts
      `outs` at `addrs` recorded: `Hits` more counts and the `Samples`
      appended. */
  ghost predicate SweptAt(before: Metrics, after: Metrics, addrs: seq<string>, outs: seq<Outcome>, ph: Phase, k: Label)
    requires |addrs| == |outs|
  {
    && (k in after.responseCodes <==> k in before.responseCodes || Hits(addrs, outs, k) > 0)
    && after.Count(k) == before.Count(k) + Hits(addrs, outs, k)
    && (k in after.Histogram(ph) <==> k in before.Histogram(ph) || Samples(addrs, outs, k, ph) != [])
    && after.Observations(ph, k) == before.Observations(ph, k) + Samples(addrs, outs, k, ph)
  }

  ghost predicate Swept(before: Metrics, after: Metrics, addrs: seq<string>, outs: seq<Outcome>)
    requires |addrs| == |outs|
  {
    forall ph, k :: SweptAt(before, after, addrs, outs, ph, k)
  }

  lemma HitsSnoc(addrs: seq<string>, outs: seq<Outcome>, i: nat, k: Label)
    requires |addrs| == |outs| && i < |addrs|
    ensures Hits(addrs[..i + 1], outs[..i + 1], k)
         == Hits(addrs[..i], outs[..i], k) + (if LabelOf(addrs[i], outs[i]) == k then 1 else 0)
  {
    assert addrs[..i + 1][..i] == addrs[..i] && outs[..i + 1][..i] == outs[..i];
  }

  lemma SamplesSnoc(addrs: seq<string>, outs: seq<Outcome>, i: nat, k: Label, ph: Phase)
    requires |addrs| == |outs| && i < |addrs|
    ensures Samples(addrs[..i + 1], outs[..i + 1], k, ph)
         == Samples(addrs[..i], outs[..i], k, ph)
            + (if outs[i].Completed? && LabelOf(addrs[i], outs[i]) == k then [Millis(outs[i], ph)] else [])
  {
    assert addrs[..i + 1][..i] == addrs[..i] && outs[..i + 1][..i] == outs[..i];
  }

  /** Recording one more attempt extends a sweep by that attempt. */
  lemma SweptExtend(start: Metrics, mid: Metrics, now: Metrics, addrs: seq<string>, outs: seq<Outcome>, i: nat)
    requires |addrs| == |outs| && i < |addrs|
    requires Swept(start, mid, addrs[..i], outs[..i])
    requires Step(mid, now, addrs[i], outs[i])
    ensures Swept(start, now, addrs[..i + 1], outs[..i + 1])
  {
    var a, os := addrs[..i + 1], outs[..i + 1];
    forall ph, k ensures SweptAt(start, now, a, os, ph, k) {
      HitsSnoc(addrs, outs, i, k);
      SamplesSnoc(addrs, outs, i, k, ph);
      assert SweptAt(start, mid, addrs[..i], outs[..i], ph, k);
      assert StepAt(mid, now, addrs[i], outs[i], ph, k);
    }
  }

  // ---------------------------------------------------------------------
  // The metrics sink and the sweep
  // ---------------------------------------------------------------------

  /** A snapshot of the process-wide metric state: the outcome counter and
      the four latency histograms, each keyed by label. A histogram series
      keeps every value observed into it, in order. */
  datatype Metrics = Metrics(
    responseCodes: map<Label, nat>,
    dns: map<Label, seq<int>>,
    tcp: map<Label, seq<int>>,
    server: map<Label, seq<int>>,
    transfer: map<Label, seq<int>>)
  {
    /** The counter's value under `k`; a series never touched reads 0. */
    function Count(k: Label): nat
    {
      if k in responseCodes then responseCodes[k] else 0
    }

    function Histogram(ph: Phase): map<Label, seq<int>>
    {
      match ph
      case DnsLookup => dns
      case TcpConnection => tcp
      case ServerProcessing => server
      case ContentTransfer => transfer
    }

    /** The values observed into phase `ph` under `k`. */
    function Observations(ph: Phase, k: Label): seq<int>
    {
      if k in Histogram(ph) then Histogram(ph)[k] else []
    }

    /** The state after one increment of the counter under `k`. */
    function Incremented(k: Label): Metrics
    {
      this.(responseCodes := responseCodes[k := Count(k) + 1])
    }

    /** The state after `v` is observed into phase `ph` under `k`. */
    function Observed(ph: Phase, k: Label, v: int): Metrics
    {
      var series := Observations(ph, k) + [v];
      match ph
      case DnsLookup => this.(dns := dns[k := series])
      case TcpConnection => this.(tcp := tcp[k := series])
      case ServerProcessing => this.(server := server[k := series])
      case ContentTransfer => this.(transfer := transfer[k := series])
    }

    /** The state after the updates the prober makes for attempt `o` at `addr`:
        the four observations when the request completed, then the increment. */
    function Recorded(addr: string, o: Outcome): Metrics
    {
      var k := LabelOf(addr, o);
      if o.Completed? then
        Observed(DnsLookup, k, Millis(o, DnsLookup))
          .Observed(TcpConnection, k, Millis(o, TcpConnection))
          .Observed(ServerProcessing, k, Millis(o, ServerProcessing))
          .Observed(ContentTransfer, k, Millis(o, ContentTransfer))
          .Incremented(k)
      else Incremented(k)
    }
  }

  lemma ObservedAt(m: Metrics, ph: Phase, k: Label, v: int, p: Phase, l: Label)
    ensures m.Observed(ph, k, v).responseCodes == m.responseCodes
    ensures l in m.Observed(ph, k, v).Histogram(p) <==> l in m.Histogram(p) || (p == ph && l == k)
    ensures m.Observed(ph, k, v).Observations(p, l) == m.Observations(p, l) + (if p == ph && l == k then [v] else [])
  {
  }

  lemma IncrementedAt(m: Metrics, k: Label, p: Phase, l: Label)
    ensures l in m.Incremented(k).responseCodes <==> l in m.responseCodes || l == k
    ensures m.Incremented(k).Count(l) == m.Count(l) + (if l == k then 1 else 0)
    ensures m.Incremented(k).Histogram(p) == m.Histogram(p)
  {
  }

  lemma RecordedAt(m: Metrics, addr: string, o: Outcome, ph: Phase, k: Label)
    ensures StepAt(m, m.Recorded(addr, o), addr, o, ph, k)
  {
    var l := LabelOf(addr, o);
    if o.Completed? {
      var m1 := m.Observed(DnsLookup, l, Millis(o, DnsLookup));
      var m2 := m1.Observed(TcpConnection, l, Millis(o, TcpConnection));
      var m3 := m2.Observed(ServerProcessing, l, Millis(o, ServerProcessing));
      var m4 := m3.Observed(ContentTransfer, l, Millis(o, ContentTransfer));
      assert m.Recorded(addr, o) == m4.Incremented(l);
      ObservedAt(m, DnsLookup, l, Millis(o, DnsLookup), ph, k);
      ObservedAt(m1, TcpConnection, l, Millis(o, TcpConnection), ph, k);
      ObservedAt(m2, ServerProcessing, l, Millis(o, ServerProcessing), ph, k);
      ObservedAt(m3, ContentTransfer, l, Millis(o, ContentTransfer), ph, k);
      IncrementedAt(m4, l, ph, k);
    } else {
      IncrementedAt(m, l, ph, k);
    }
  }

  /** What recording one attempt does, label by label. */
  lemma RecordedIsStep(m: Metrics, addr: string, o: Outcome)
    ensures Step(m, m.Recorded(addr, o), addr, o)
  {
    forall ph, k ensures StepAt(m, m.Recorded(addr, o), addr, o, ph, k) {
      RecordedAt(m, addr, o, ph, k);
    }
  }

  /** The metrics sink the prober writes into. */
  class MetricsSink {
    var responseCodesFromHosts: map<Label, nat>
    var dnsLookup: map<Label, seq<int>>
    var tcpConnection: map<Label, seq<int>>
    var serverProcessing: map<Label, seq<int>>
    var contentTransfer: map<Label, seq<int>>

    constructor ()
      ensures State() == Metrics(map[], map[], map[], map[], map[])
    {
      responseCodesFromHosts := map[];
      dnsLookup, tcpConnection, serverProcessing, contentTransfer := map[], map[], map[], map[];
    }

    function State(): Metrics
      reads this
    {
      Metrics(responseCodesFromHosts, dnsLookup, tcpConnection, serverProcessing, contentTransfer)
    }

    /** `responseCodesFromHosts.With(k).Inc()`. */
    method Inc(k: Label)
      modifies this
      ensures State() == old(State()).Incremented(k)
    {
      responseCodesFromHosts := responseCodesFromHosts[k := State().Count(k) + 1];
    }

    /** `<phase histogram>.With(k).Observe(v)`. */
    method Observe(ph: Phase, k: Label, v: int)
      modifies this
      ensures State() == old(State()).Observed(ph, k, v)
    {
      var series := State().Observations(ph, k) + [v];
      match ph
      case DnsLookup => dnsLookup := dnsLookup[k := series];
      case TcpConnection => tcpConnection := tcpConnection[k := series];
      case ServerProcessing => serverProcessing := serverProcessing[k := series];
      case ContentTransfer => contentTransfer := contentTransfer[k := series];
    }

    /** One step of the sweep: the metric updates for attempt `o` at `addr`. */
    method Record(addr: string, o: Outcome)
      modifies this
      ensures Step(old(State()), State(), addr, o)
    {
      RecordedIsStep(State(), addr, o);
      var k := LabelOf(addr, o);
      if o.Completed? {
        Observe(DnsLookup, k, Millis(o, DnsLookup));
        Observe(TcpConnection, k, Millis(o, TcpConnection));
        Observe(ServerProcessing, k, Millis(o, ServerProcessing));
        Observe(ContentTransfer, k, Millis(o, ContentTransfer));
      }
      Inc(k);
    }

    /** `httpQueryToHosts`: an empty `hostsList` is reported as an error and
        touches no metric; otherwise every `;`-separated piece of it is
        probed once, in order, `outcomes[i]` being the outcome of the i-th
        probe. The new metric state is the old one plus exactly what the
        attempts contribute: `Hits` to the counter and `Samples` to each
        histogram, under each label. */
    method QueryHosts(hostsList: string, outcomes: seq<Outcome>) returns (response: Data)
      requires hostsList != "" ==> |outcomes| == |Split(hostsList, ';')|
      modifies this
      ensures hostsList == "" ==> response == Data([], EmptyHostsError) && State() == old(State())
      ensures hostsList != "" ==>
        var addrs := Split(hostsList, ';');
        && response.error == ""
        && |response.hosts| == |addrs|
        && (forall i :: 0 <= i < |addrs| ==> response.hosts[i] == Host(addrs[i], Code(outcomes[i])))
        && Swept(old(State()), State(), addrs, outcomes)
    {
      response := Data([], "");
      if hostsList == "" {
        response := response.(error := EmptyHostsError);
      } else {
        var hosts := Split(hostsList, ';');
        var i := 0;
        while i < |hosts|
          invariant 0 <= i <= |hosts|
          invariant response.error == "" && |response.hosts| == i
          invariant forall j :: 0 <= j < i ==> response.hosts[j] == Host(hosts[j], Code(outcomes[j]))
          invariant Swept(old(State()), State(), hosts[..i], outcomes[..i])
        {
          var hostAddr := hosts[i];
          var code := Code(outcomes[i]);
          ghost var before := State();
          Record(hostAddr, outcomes[i]);
          response := response.(hosts := response.hosts + [Host(hostAddr, code)]);
          SweptExtend(old(State()), before, State(), hosts, outcomes, i);
          i := i + 1;
        }
        assert hosts[..i] == hosts;
        assert outcomes[..i] == outcomes;
      }
    }

    /** The scheduler's ticks: one sweep per element of `rounds`, one after
        the other. Counters only grow, each by what the sweeps add up to. */
    method RunSweeps(hostsList: string, rounds: seq<seq<Outcome>>)
      requires hostsList != "" ==> forall r :: 0 <= r < |rounds| ==> |rounds[r]| == |Split(hostsList, ';')|
      modifies this
      ensures forall k :: old(State()).Count(k) <= State().Count(k)
      ensures hostsList != "" ==> forall k :: State().Count(k) == old(State()).Count(k) + TotalHits(Split(hostsList, ';'), rounds, k)
      ensures hostsList != "" ==>
                forall ph, k :: State().Observations(ph, k)
                                == old(State()).Observations(ph, k) + TotalSamples(Split(hostsList, ';'), rounds, k, ph)
      ensures hostsList != "" ==> SweptRounds(old(State()), State(), Split(hostsList, ';'), rounds)
      ensures hostsList == "" ==> State() == old(State())
    {
      var addrs := Split(hostsList, ';');
      ghost var start := State();
      var r := 0;
      while r < |rounds|
        invariant 0 <= r <= |rounds|
        invariant hostsList != "" ==> SweptRounds(start, State(), addrs, rounds[..r])
        invariant hostsList == "" ==> State() == start
      {
        ghost var before := State();
        var _ := QueryHosts(hostsList, rounds[r]);
        if hostsList != "" {
          SweptRoundsExtend(start, before, State(), addrs, rounds, r);
        }
        r := r + 1;
      }
      assert rounds[..r] == rounds;
      if hostsList != "" {
        forall k ensures State().Count(k) == start.Count(k) + TotalHits(addrs, rounds, k) {
          assert SweptRoundsAt(start, State(), addrs, rounds, DnsLookup, k);
        }
        forall ph, k ensures State().Observations(ph, k) == start.Observations(ph, k) + TotalSamples(addrs, rounds, k, ph) {
          assert SweptRoundsAt(start, State(), addrs, rounds, ph, k);
        }
      }
    }
  }

  /** Two targets: "a;b" is probed as a, then b, when neither holds ';'. */
  lemma TwoTargets(a: string, b: string)
    requires ';' !in a && ';' !in b
    ensures Split(a + ";" + b, ';') == [a, b]
  {
    SplitAfterPiece(a, b, ';');
    SplitNoSeparator(b, ';');
  }
}
