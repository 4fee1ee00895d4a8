/** Telemetry samples, the request body both handlers read, and the
    statistics record both handlers compute for one region. */
module Telemetry {
  import opened Wrappers
  import opened Statistics
  import Seqs

  /** One telemetry record: the region it belongs to, a round-trip
      latency in milliseconds, and an uptime figure averaged as given. */
  datatype Sample = Sample(region: string, latencyMs: real, uptime: real)

  /** The four numbers reported for a region that has samples. */
  datatype Stats = Stats(avgLatency: real, p95Latency: real, avgUptime: real, breaches: nat)

  /** Threshold used when the request body carries no `threshold_ms`. */
  const DefaultThresholdMs: real := 180.0

  /** The percentile both handlers report. */
  const ReportedPercentile: nat := 95

  /** The JSON body of a request: `regions` and `threshold_ms`, each of
      which may be missing. */
  datatype Body = Body(regions: Option<seq<string>>, thresholdMs: Option<real>)

  /** The regions to evaluate: the list the client sent, in its order, or
      none when the body has no `regions`. */
  function RequestedRegions(b: Body): (rs: seq<string>)
    ensures b.regions.Some? ==> rs == b.regions.value
    ensures b.regions.None? ==> rs == []
  {
    b.regions.GetOr([])
  }

  /** The breach threshold: the one the client sent, or 180 when the body
      has no `threshold_ms`. */
  function Threshold(b: Body): (t: real)
    ensures b.thresholdMs.Some? ==> t == b.thresholdMs.value
    ensures b.thresholdMs.None? ==> t == DefaultThresholdMs
  {
    b.thresholdMs.GetOr(DefaultThresholdMs)
  }

  /** The `latency_ms` field of one sample. */
  function LatencyOf(x: Sample): real { x.latencyMs }

  /** The `uptime` field of one sample. */
  function UptimeOf(x: Sample): real { x.uptime }

  /** The `latency_ms` column of a sample list, in sample order. */
  function Latencies(data: seq<Sample>): (lats: seq<real>)
    ensures |lats| == |data|
    ensures forall i :: 0 <= i < |data| ==> lats[i] == data[i].latencyMs
  {
    Seqs.Map(LatencyOf, data)
  }

  /** The `uptime` column of the same sample list, aligned with `Latencies`. */
  function Uptimes(data: seq<Sample>): (ups: seq<real>)
    ensures |ups| == |data|
    ensures forall i :: 0 <= i < |data| ==> ups[i] == data[i].uptime
  {
    Seqs.Map(UptimeOf, data)
  }

  /** Positions of the samples whose latency strictly exceeds `threshold`. */
  function BreachIndices(data: seq<Sample>, threshold: real): set<int>
  {
    set i | 0 <= i < |data| && data[i].latencyMs > threshold
  }

  /** Counting latencies above the threshold counts the breaching samples. */
  lemma BreachCount(data: seq<Sample>, threshold: real)
    ensures CountAbove(Latencies(data), threshold) == |BreachIndices(data, threshold)|
    ensures CountAbove(Latencies(data), threshold) == |data|
        <==> forall i :: 0 <= i < |data| ==> data[i].latencyMs > threshold
    ensures CountAbove(Latencies(data), threshold) == 0
        <==> forall i :: 0 <= i < |data| ==> data[i].latencyMs <= threshold
  {
    var lats := Latencies(data);
    CountAboveIsIndexCount(lats, threshold);
    assert AboveIndices(lats, threshold) == BreachIndices(data, threshold);
  }

  /** Statistics of one region's non-empty sample list: mean latency,
      95th-percentile latency, mean uptime over the same samples, and the
      number of samples whose latency is strictly above the threshold. */
  function Summarize(data: seq<Sample>, threshold: real): (st: Stats)
    requires |data| > 0
    ensures st.avgLatency == Sum(Latencies(data)) / (|data| as real)
    ensures Min(Latencies(data)) <= st.avgLatency <= Max(Latencies(data))
    ensures st.p95Latency == Percentile(Latencies(data), ReportedPercentile)
    ensures Min(Latencies(data)) <= st.p95Latency <= Max(Latencies(data))
    ensures st.avgUptime == Sum(Uptimes(data)) / (|data| as real)
    ensures Min(Uptimes(data)) <= st.avgUptime <= Max(Uptimes(data))
    ensures st.breaches == |BreachIndices(data, threshold)| <= |data|
    ensures st.breaches == |data| <==> forall i :: 0 <= i < |data| ==> data[i].latencyMs > threshold
    ensures st.breaches == 0 <==> forall i :: 0 <= i < |data| ==> data[i].latencyMs <= threshold
  {
    var lats := Latencies(data);
    var ups := Uptimes(data);
    BreachCount(data, threshold);
    Stats(Mean(lats), Percentile(lats, ReportedPercentile), Mean(ups), CountAbove(lats, threshold))
  }

  /** A single sample is its own mean and its own 95th percentile. */
  lemma SummarizeSingleSample(x: Sample, threshold: real)
    ensures Summarize([x], threshold)
         == Stats(x.latencyMs, x.latencyMs, x.uptime, if x.latencyMs > threshold then 1 else 0)
  {
    MeanOfConstant(Latencies([x]), x.latencyMs);
    MeanOfConstant(Uptimes([x]), x.uptime);
  }

  /** The statistics do not depend on the order of the samples. */
  lemma SummarizePermutation(a: seq<Sample>, b: seq<Sample>, threshold: real)
    requires |a| > 0
    requires multiset(a) == multiset(b)
    ensures |b| > 0 && Summarize(a, threshold) == Summarize(b, threshold)
  {
    assert |a| == |multiset(a)| == |multiset(b)| == |b|;
    Seqs.MapPermutation(LatencyOf, a, b);
    Seqs.MapPermutation(UptimeOf, a, b);
    MeanPermutation(Latencies(a), Latencies(b));
    MeanPermutation(Uptimes(a), Uptimes(b));
    PercentilePermutation(Latencies(a), Latencies(b), ReportedPercentile);
    CountAbovePermutation(Latencies(a), Latencies(b), threshold);
  }

  /** A sample whose latency equals the threshold adds no breach. */
  lemma ThresholdTieIsNoBreach(data: seq<Sample>, region: string, uptime: real, threshold: real)
    requires |data| > 0
    ensures Summarize(data + [Sample(region, threshold, uptime)], threshold).breaches
         == Summarize(data, threshold).breaches
  {
    var more := data + [Sample(region, threshold, uptime)];
    assert BreachIndices(more, threshold) == BreachIndices(data, threshold) by {
      forall i | 0 <= i < |data|
        ensures more[i] == data[i]
      {
      }
    }
  }

  /** Latencies 100, 180, 181 and 300 against the default threshold give
      two breaches: 180 itself does not count. */
  lemma BreachExample()
    ensures CountAbove([100.0, 180.0, 181.0, 300.0], DefaultThresholdMs) == 2
  {
  }
}
