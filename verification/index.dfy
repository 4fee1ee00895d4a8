/** The `/` handler: telemetry arrives already grouped by region, and a
    requested region without samples is left out of the response. */
module IndexEndpoint {
  import opened Wrappers
  import opened Telemetry

  /** The samples stored under `region`, exactly as stored; a region
      missing from the map has no samples. */
  function Lookup(telemetry: map<string, seq<Sample>>, region: string): (data: seq<Sample>)
    ensures region in telemetry ==> data == telemetry[region]
    ensures region !in telemetry ==> data == []
  {
    if region in telemetry then telemetry[region] else []
  }

  /** The handler's loop: a requested region is a key of the response
      exactly when it has at least one sample, and its statistics are
      computed from its own sample list only. */
  function EvalMap(telemetry: map<string, seq<Sample>>, regions: seq<string>, threshold: real)
    : (result: map<string, Stats>)
    ensures forall r :: r in result <==> r in regions && |Lookup(telemetry, r)| > 0
    ensures forall r :: r in result ==> r in telemetry
    ensures forall r :: r in result ==> result[r] == Summarize(Lookup(telemetry, r), threshold)
    decreases |regions|
  {
    if |regions| == 0 then map[]
    else
      var n := |regions| - 1;
      var region := regions[n];
      assert regions == regions[..n] + [region];
      var data := Lookup(telemetry, region);
      var earlier := EvalMap(telemetry, regions[..n], threshold);
      if |data| == 0 then earlier
      else earlier[region := Summarize(data, threshold)]
  }

  /** The `/` request handler over the loaded telemetry. */
  function CheckLatency(telemetry: map<string, seq<Sample>>, body: Body): (result: map<string, Stats>)
    ensures forall r :: r in result <==> r in RequestedRegions(body) && |Lookup(telemetry, r)| > 0
    ensures body.regions.None? ==> result == map[]
    ensures forall r :: r in result ==>
              |Lookup(telemetry, r)| > 0 && result[r] == Summarize(Lookup(telemetry, r), Threshold(body))
    ensures forall r :: r in result ==> result[r].breaches <= |Lookup(telemetry, r)|
  {
    EvalMap(telemetry, RequestedRegions(body), Threshold(body))
  }

  /** Omitting `threshold_ms` is the same as sending 180. */
  lemma DefaultThreshold(telemetry: map<string, seq<Sample>>, body: Body)
    requires body.thresholdMs.None?
    ensures CheckLatency(telemetry, body)
         == CheckLatency(telemetry, body.(thresholdMs := Some(DefaultThresholdMs)))
  {
  }

  /** A region's entry depends only on the multiset of samples stored
      under that region: other regions' entries, and the order of its own
      samples, do not affect it. */
  lemma RegionIsolation(t1: map<string, seq<Sample>>, t2: map<string, seq<Sample>>,
                        regions: seq<string>, region: string, threshold: real)
    requires multiset(Lookup(t1, region)) == multiset(Lookup(t2, region))
    ensures region in EvalMap(t1, regions, threshold) <==> region in EvalMap(t2, regions, threshold)
    ensures region in EvalMap(t1, regions, threshold) ==>
              EvalMap(t1, regions, threshold)[region] == EvalMap(t2, regions, threshold)[region]
  {
    var d1 := Lookup(t1, region);
    var d2 := Lookup(t2, region);
    assert |d1| == |multiset(d1)| == |multiset(d2)| == |d2|;
    if |d1| > 0 {
      SummarizePermutation(d1, d2, threshold);
    }
  }

  /** The `/` handler reads the list stored under a region whatever
      `region` field its samples carry: a list stored under "eu" whose one
      sample says "us" still yields an entry for "eu". */
  lemma StoredRegionFieldIgnored()
    ensures "eu" in CheckLatency(map["eu" := [Sample("us", 100.0, 1.0)]], Body(Some(["eu"]), None))
  {
    var telemetry := map["eu" := [Sample("us", 100.0, 1.0)]];
    assert |Lookup(telemetry, "eu")| == 1;
  }
}
