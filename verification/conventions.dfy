/** The two handlers differ only in how they report a region without
    samples: the `/latency` handler reports a record of nulls, the `/`
    handler leaves the region out. Grouping a flat telemetry list by
    region makes the two responses agree on every other region. */
module AbsenceConventions {
  import opened Telemetry
  import opened LatencyEndpoint
  import opened IndexEndpoint

  /** The regions that occur in a flat telemetry list. */
  function RegionsOf(telemetry: seq<Sample>): set<string>
  {
    set i | 0 <= i < |telemetry| :: telemetry[i].region
  }

  /** A flat telemetry list grouped into the region-keyed map the `/`
      handler reads, keeping each region's samples in order. */
  function Partition(telemetry: seq<Sample>): (grouped: map<string, seq<Sample>>)
    ensures grouped.Keys == RegionsOf(telemetry)
    ensures forall r :: Lookup(grouped, r) == SamplesIn(telemetry, r)
  {
    var grouped := map r | r in RegionsOf(telemetry) :: SamplesIn(telemetry, r);
    assert forall r :: r !in RegionsOf(telemetry) ==> SamplesIn(telemetry, r) == [] by {
      forall r | r !in RegionsOf(telemetry)
        ensures SamplesIn(telemetry, r) == []
      {
        NoSamplesIff(telemetry, r);
      }
    }
    grouped
  }

  /** On grouped telemetry, a requested region is absent from the `/`
      response exactly when the `/latency` response reports nulls for
      it, and otherwise both carry the same statistics. */
  lemma ConventionsAgree(telemetry: seq<Sample>, regions: seq<string>, region: string, threshold: real)
    requires region in regions
    ensures var flat := LatencyEndpoint.EvalFlat(telemetry, regions, threshold);
            var grouped := IndexEndpoint.EvalMap(Partition(telemetry), regions, threshold);
            && region in flat
            && (region !in grouped <==> flat[region] == AbsentRecord)
            && (region in grouped ==> flat[region] == FromStats(grouped[region]))
  {
    assert Lookup(Partition(telemetry), region) == SamplesIn(telemetry, region);
  }
}
