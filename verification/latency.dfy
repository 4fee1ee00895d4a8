/** The `/latency` handler: every requested region gets an entry, and a
    region without samples gets a record of nulls with zero breaches. */
module LatencyEndpoint {
  import opened Wrappers
  import opened Statistics
  import opened Telemetry
  import Seqs

  /** One value of the response object; the three numeric fields are
      JSON `null` when the region has no samples. */
  datatype RegionRecord = RegionRecord(
    avgLatency: Option<real>,
    p95Latency: Option<real>,
    avgUptime: Option<real>,
    breaches: nat)

  /** The record reported for a region with no samples. */
  const AbsentRecord: RegionRecord := RegionRecord(None, None, None, 0)

  /** The record reported for a region with samples. */
  function FromStats(st: Stats): RegionRecord
  {
    RegionRecord(Some(st.avgLatency), Some(st.p95Latency), Some(st.avgUptime), st.breaches)
  }

  /** The telemetry samples tagged with `region`, in telemetry order: each
      such sample is kept as often as it occurs, every other one dropped. */
  function SamplesIn(telemetry: seq<Sample>, region: string): (r: seq<Sample>)
    ensures |r| <= |telemetry|
    ensures forall i :: 0 <= i < |r| ==> r[i].region == region
    ensures forall x :: multiset(r)[x] == if x.region == region then multiset(telemetry)[x] else 0
    decreases |telemetry|
  {
    if |telemetry| == 0 then []
    else
      var n := |telemetry| - 1;
      assert telemetry == telemetry[..n] + [telemetry[n]];
      SamplesIn(telemetry[..n], region) + (if telemetry[n].region == region then [telemetry[n]] else [])
  }

  /** A region has no samples exactly when no telemetry sample carries it. */
  lemma NoSamplesIff(telemetry: seq<Sample>, region: string)
    ensures |SamplesIn(telemetry, region)| == 0
        <==> forall i :: 0 <= i < |telemetry| ==> telemetry[i].region != region
  {
    var r := SamplesIn(telemetry, region);
    if |r| > 0 {
      assert r[0] in multiset(r);
      assert r[0] in multiset(telemetry);
    }
    if exists i :: 0 <= i < |telemetry| && telemetry[i].region == region {
      var i :| 0 <= i < |telemetry| && telemetry[i].region == region;
      assert telemetry[i] in multiset(telemetry);
      assert telemetry[i] in multiset(r);
    }
  }

  /** Positions of the telemetry samples of `region` whose latency is
      strictly above `threshold`. */
  function RegionBreachIndices(telemetry: seq<Sample>, region: string, threshold: real): set<int>
  {
    set i | 0 <= i < |telemetry| && telemetry[i].region == region && telemetry[i].latencyMs > threshold
  }

  /** The breaching position added by one more sample, if it is one. */
  function NewBreach(n: nat, x: Sample, region: string, threshold: real): set<int>
  {
    if x.region == region && x.latencyMs > threshold then {n} else {}
  }

  /** Every breaching position of the extended telemetry is an old one or
      the new sample's. */
  lemma RegionBreachIndicesCovered(front: seq<Sample>, x: Sample, region: string, threshold: real)
    ensures RegionBreachIndices(front + [x], region, threshold)
         <= RegionBreachIndices(front, region, threshold) + NewBreach(|front|, x, region, threshold)
  {
    var more := front + [x];
    forall i | i in RegionBreachIndices(more, region, threshold)
      ensures i in RegionBreachIndices(front, region, threshold) + NewBreach(|front|, x, region, threshold)
    {
      if i < |front| {
        assert more[i] == front[i];
      }
    }
  }

  /** Every old breaching position, and the new sample's when it breaches,
      is a breaching position of the extended telemetry. */
  lemma RegionBreachIndicesKept(front: seq<Sample>, x: Sample, region: string, threshold: real)
    ensures RegionBreachIndices(front, region, threshold) + NewBreach(|front|, x, region, threshold)
         <= RegionBreachIndices(front + [x], region, threshold)
  {
    var more := front + [x];
    forall i | i in RegionBreachIndices(front, region, threshold) + NewBreach(|front|, x, region, threshold)
      ensures i in RegionBreachIndices(more, region, threshold)
    {
      if i < |front| {
        assert more[i] == front[i];
      }
    }
  }

  /** Extending the telemetry by one sample adds its position to the
      breaching positions exactly when it is a breach of the region. */
  lemma RegionBreachIndicesStep(front: seq<Sample>, x: Sample, region: string, threshold: real)
    ensures |RegionBreachIndices(front + [x], region, threshold)|
         == |RegionBreachIndices(front, region, threshold)|
            + (if x.region == region && x.latencyMs > threshold then 1 else 0)
  {
    var whole := RegionBreachIndices(front + [x], region, threshold);
    var part := RegionBreachIndices(front, region, threshold);
    var last := NewBreach(|front|, x, region, threshold);
    RegionBreachIndicesCovered(front, x, region, threshold);
    RegionBreachIndicesKept(front, x, region, threshold);
    assert whole == part + last;
    assert part !! last;
  }

  /** Counting over the selected samples counts the breaching samples of
      the region in the whole telemetry. */
  lemma {:induction false} RegionBreachCount(telemetry: seq<Sample>, region: string, threshold: real)
    ensures CountAbove(Latencies(SamplesIn(telemetry, region)), threshold)
         == |RegionBreachIndices(telemetry, region, threshold)|
    decreases |telemetry|
  {
    if |telemetry| == 0 {
      assert RegionBreachIndices(telemetry, region, threshold) == {};
    } else {
      var n := |telemetry| - 1;
      assert telemetry == telemetry[..n] + [telemetry[n]];
      RegionBreachCount(telemetry[..n], region, threshold);
      SelectedCountStep(telemetry[..n], telemetry[n], region, threshold);
      RegionBreachIndicesStep(telemetry[..n], telemetry[n], region, threshold);
    }
  }

  /** One more sample adds one to the count over the selected samples
      exactly when it is a breach of the region. */
  lemma SelectedCountStep(front: seq<Sample>, x: Sample, region: string, threshold: real)
    ensures CountAbove(Latencies(SamplesIn(front + [x], region)), threshold)
         == CountAbove(Latencies(SamplesIn(front, region)), threshold)
            + (if x.region == region && x.latencyMs > threshold then 1 else 0)
  {
    var selected := SamplesIn(front, region);
    var tail := if x.region == region then [x] else [];
    assert (front + [x])[..|front|] == front;
    assert SamplesIn(front + [x], region) == selected + tail;
    Seqs.MapConcat(LatencyOf, selected, tail);
    CountAboveConcat(Latencies(selected), Latencies(tail), threshold);
  }

  /** The record for one requested region: nulls and zero breaches when no
      sample carries the region, otherwise the mean latency, the 95th
      percentile latency and the mean uptime of the region's samples; the
      breach count is the number of the region's samples strictly above
      the threshold. */
  function RegionReport(telemetry: seq<Sample>, region: string, threshold: real): (rec: RegionRecord)
    ensures rec.avgLatency.None? <==> forall i :: 0 <= i < |telemetry| ==> telemetry[i].region != region
    ensures rec.avgLatency.None? ==> rec == AbsentRecord
    ensures rec.avgLatency.Some? ==>
              var d := SamplesIn(telemetry, region);
              && |d| > 0
              && rec.avgLatency == Some(Sum(Latencies(d)) / (|d| as real))
              && rec.p95Latency == Some(Percentile(Latencies(d), ReportedPercentile))
              && rec.avgUptime == Some(Sum(Uptimes(d)) / (|d| as real))
    ensures rec.breaches == |RegionBreachIndices(telemetry, region, threshold)|
  {
    var data := SamplesIn(telemetry, region);
    NoSamplesIff(telemetry, region);
    RegionBreachCount(telemetry, region, threshold);
    if |data| == 0 then AbsentRecord
    else
      BreachCount(data, threshold);
      FromStats(Summarize(data, threshold))
  }

  /** The handler's loop: one assignment per requested region, in request
      order, so every requested region ends up as a key exactly once. */
  function EvalFlat(telemetry: seq<Sample>, regions: seq<string>, threshold: real)
    : (result: map<string, RegionRecord>)
    ensures result.Keys == set r | r in regions
    ensures forall r :: r in result ==> result[r] == RegionReport(telemetry, r, threshold)
  {
    Seqs.AssignEach(region => RegionReport(telemetry, region, threshold), regions)
  }

  /** The `/latency` request handler over the loaded telemetry. */
  function LatencyMetrics(telemetry: seq<Sample>, body: Body): (result: map<string, RegionRecord>)
    ensures result.Keys == set r | r in RequestedRegions(body)
    ensures body.regions.None? ==> result == map[]
    ensures forall r :: r in result ==> result[r] == RegionReport(telemetry, r, Threshold(body))
  {
    EvalFlat(telemetry, RequestedRegions(body), Threshold(body))
  }

  /** Omitting `threshold_ms` is the same as sending 180. */
  lemma DefaultThreshold(telemetry: seq<Sample>, body: Body)
    requires body.thresholdMs.None?
    ensures LatencyMetrics(telemetry, body)
         == LatencyMetrics(telemetry, body.(thresholdMs := Some(DefaultThresholdMs)))
  {
  }

  /** The response depends only on the set of requested regions, not on
      their order or repetition. */
  lemma RequestOrderIrrelevant(telemetry: seq<Sample>, a: seq<string>, b: seq<string>, threshold: real)
    requires forall r :: r in a <==> r in b
    ensures EvalFlat(telemetry, a, threshold) == EvalFlat(telemetry, b, threshold)
  {
    Seqs.AssignEachSetOnly(region => RegionReport(telemetry, region, threshold), a, b);
  }

  /** Requesting a region again changes nothing: the response has one key
      per distinct requested region. */
  lemma DuplicateRegionCollapses(telemetry: seq<Sample>, regions: seq<string>, region: string, threshold: real)
    requires region in regions
    ensures EvalFlat(telemetry, regions + [region], threshold) == EvalFlat(telemetry, regions, threshold)
  {
    RequestOrderIrrelevant(telemetry, regions + [region], regions, threshold);
  }

  /** A region's record depends only on how often each of that region's
      samples occurs in the telemetry: neither the order of the samples
      nor any sample of another region affects it. */
  lemma RegionReportIsolation(t1: seq<Sample>, t2: seq<Sample>, region: string, threshold: real)
    requires forall x: Sample :: x.region == region ==> multiset(t1)[x] == multiset(t2)[x]
    ensures RegionReport(t1, region, threshold) == RegionReport(t2, region, threshold)
  {
    var d1 := SamplesIn(t1, region);
    var d2 := SamplesIn(t2, region);
    assert multiset(d1) == multiset(d2);
    assert |d1| == |multiset(d1)| == |multiset(d2)| == |d2|;
    NoSamplesIff(t1, region);
    NoSamplesIff(t2, region);
    if |d1| > 0 {
      SummarizePermutation(d1, d2, threshold);
    }
  }

  /** Appending samples of other regions leaves a region's record as is. */
  lemma OtherRegionsIrrelevant(telemetry: seq<Sample>, extra: seq<Sample>, region: string, threshold: real)
    requires forall i :: 0 <= i < |extra| ==> extra[i].region != region
    ensures RegionReport(telemetry + extra, region, threshold) == RegionReport(telemetry, region, threshold)
  {
    forall x: Sample | x.region == region
      ensures multiset(telemetry + extra)[x] == multiset(telemetry)[x]
    {
      assert x !in multiset(extra);
    }
    RegionReportIsolation(telemetry + extra, telemetry, region, threshold);
  }
}
