/** The Kinesis Data Streams shard plugin: for every shard of a stream and every entry of a
    fixed catalog of CloudWatch metrics, fetch the latest datapoint and report it under the
    key `<graph group>.<shard id>.<metric name>`; plus the key prefix and the graph table
    that the host agent asks for.

    The two remote calls (CloudWatch GetMetricStatistics and Kinesis DescribeStream) are
    parameters: functions from the request to a result or an error. */
module KinesisStreamsShard {
  import opened MackerelPluginHelper
  import opened GoStrings

  const Namespace := "AWS/Kinesis"
  const MetricsTypeAverage := "Average"
  const MetricsTypeMaximum := "Maximum"
  const MetricsTypeMinimum := "Minimum"
  const DefaultPrefix := "kinesis-streams-shard"
  const NoDatapoints := Error("fetched no datapoints")

  /** One catalog entry: the CloudWatch metric to query, the name it is reported under, the
      statistic to read and the graph group it belongs to. */
  datatype Metric = Metric(cloudWatchName: string, mackerelName: string, statType: string, graphdefPrefix: string)

  /** The plugin's configuration. Its methods take it by value and never change it. */
  datatype Plugin = Plugin(name: string, prefix: string, accessKeyID: string, secretAccessKey: string, region: string)

  /** A CloudWatch datapoint. The timestamp is a count of time units; the three statistics
      are the float64 values CloudWatch returns. */
  datatype Datapoint = Datapoint(timestamp: nat, average: real, maximum: real, minimum: real)

  /** A shard as DescribeStream reports it. */
  datatype Shard = Shard(shardId: string)

  /** The parts of a GetMetricStatistics request that depend on the plugin's inputs: the
      namespace, the metric name, the StreamName and ShardId dimensions and the statistic. */
  datatype StatisticsRequest = StatisticsRequest(
    namespace: string, metricName: string, streamName: string, shardId: string, statistic: string)

  // ---------------------------------------------------------------------------------------
  // Metric key prefix

  /** The prefix that namespaces every reported key: the configured one, or the default
      when none is configured. Never empty. */
  function MetricKeyPrefix(p: Plugin): (r: string)
    ensures r != ""
    ensures p.prefix != "" ==> r == p.prefix
    ensures p.prefix == "" ==> r == DefaultPrefix
  {
    if p.prefix == "" then DefaultPrefix else p.prefix
  }

  /** Configuring the prefix that MetricKeyPrefix reports changes nothing. */
  lemma MetricKeyPrefixIdempotent(p: Plugin)
    ensures MetricKeyPrefix(p.(prefix := MetricKeyPrefix(p))) == MetricKeyPrefix(p)
  {
  }

  // ---------------------------------------------------------------------------------------
  // Latest datapoint

  /** The statistic that a catalog entry reads from a datapoint; for a statistic name that
      is none of the three, the reduction never assigns and the value stays 0. */
  function Statistic(statType: string, dp: Datapoint): real {
    if statType == MetricsTypeAverage then dp.average
    else if statType == MetricsTypeMaximum then dp.maximum
    else if statType == MetricsTypeMinimum then dp.minimum
    else 0.0
  }

  /** The datapoint that the scan of getLastPoint settles on: it has a maximal timestamp,
      and every later datapoint has a strictly earlier one, so among equal maximal
      timestamps the last in the list wins. */
  function LatestIndex(dps: seq<Datapoint>): (k: nat)
    requires |dps| > 0
    ensures k < |dps|
    ensures forall j :: 0 <= j < |dps| ==> dps[j].timestamp <= dps[k].timestamp
    ensures forall j :: k < j < |dps| ==> dps[j].timestamp < dps[k].timestamp
    decreases |dps|
  {
    if |dps| == 1 then 0
    else
      var k := LatestIndex(dps[..|dps| - 1]);
      if dps[|dps| - 1].timestamp < dps[k].timestamp then k else |dps| - 1
  }

  /** The two properties of LatestIndex determine it. */
  lemma LatestIndexUnique(dps: seq<Datapoint>, k: nat)
    requires k < |dps|
    requires forall j :: 0 <= j < |dps| ==> dps[j].timestamp <= dps[k].timestamp
    requires forall j :: k < j < |dps| ==> dps[j].timestamp < dps[k].timestamp
    ensures LatestIndex(dps) == k
  {
  }

  /** When no two datapoints share a timestamp, the latest datapoint does not depend on the
      order in which CloudWatch lists them. */
  lemma LatestIndexOrderIndependent(dps1: seq<Datapoint>, dps2: seq<Datapoint>)
    requires |dps1| > 0
    requires multiset(dps1) == multiset(dps2)
    requires forall i, j :: 0 <= i < |dps1| && 0 <= j < |dps1| && i != j ==> dps1[i].timestamp != dps1[j].timestamp
    ensures |dps2| > 0
    ensures dps1[LatestIndex(dps1)] == dps2[LatestIndex(dps2)]
  {
    assert dps1[0] in multiset(dps2);
    var k1 := LatestIndex(dps1);
    var k2 := LatestIndex(dps2);
    var x, y := dps1[k1], dps2[k2];
    assert x in multiset(dps2);
    var i :| 0 <= i < |dps2| && dps2[i] == x;
    assert y in multiset(dps1);
    var m :| 0 <= m < |dps1| && dps1[m] == y;
    assert x.timestamp <= y.timestamp && y.timestamp <= x.timestamp;
    assert m == k1;
  }

  /** What getLastPoint returns for one GetMetricStatistics response: the call's error with
      0; "fetched no datapoints" with 0 when there are none; otherwise the requested
      statistic of the latest datapoint and no error. */
  function LastPoint(statType: string, response: Result<seq<Datapoint>>): (real, Option<Error>) {
    match response
    case Err(e) => (0.0, Some(e))
    case Ok(dps) =>
      if |dps| == 0 then (0.0, Some(NoDatapoints))
      else (Statistic(statType, dps[LatestIndex(dps)]), None)
  }

  /** With distinct timestamps, the value getLastPoint reports is the same for every order
      of the datapoints. */
  lemma LastPointOrderIndependent(statType: string, dps1: seq<Datapoint>, dps2: seq<Datapoint>)
    requires multiset(dps1) == multiset(dps2)
    requires forall i, j :: 0 <= i < |dps1| && 0 <= j < |dps1| && i != j ==> dps1[i].timestamp != dps1[j].timestamp
    ensures LastPoint(statType, Ok(dps1)) == LastPoint(statType, Ok(dps2))
  {
    if |dps1| > 0 {
      LatestIndexOrderIndependent(dps1, dps2);
    } else {
      assert |multiset(dps2)| == 0;
    }
  }

  /** The request getLastPoint sends for one shard and catalog entry. */
  function RequestFor(p: Plugin, metric: Metric, shardID: string): StatisticsRequest {
    StatisticsRequest(Namespace, metric.cloudWatchName, p.name, shardID, metric.statType)
  }

  /** getLastPoint: query CloudWatch for one metric of one shard and reduce the datapoints
      to the value of the latest one. */
  method GetLastPoint(
    p: Plugin, metric: Metric, shardID: string,
    getMetricStatistics: StatisticsRequest -> Result<seq<Datapoint>>)
    returns (v: real, err: Option<Error>)
    ensures (v, err) == LastPoint(metric.statType, getMetricStatistics(RequestFor(p, metric, shardID)))
    ensures getMetricStatistics(RequestFor(p, metric, shardID)).Err? ==>
              v == 0.0 && err == Some(getMetricStatistics(RequestFor(p, metric, shardID)).error)
    ensures getMetricStatistics(RequestFor(p, metric, shardID)) == Ok([]) ==>
              v == 0.0 && err == Some(NoDatapoints)
    ensures getMetricStatistics(RequestFor(p, metric, shardID)).Ok? &&
            |getMetricStatistics(RequestFor(p, metric, shardID)).value| > 0 ==>
              var dps := getMetricStatistics(RequestFor(p, metric, shardID)).value;
              err == None && v == Statistic(metric.statType, dps[LatestIndex(dps)])
  {
    var response := getMetricStatistics(RequestFor(p, metric, shardID));
    if response.Err? {
      return 0.0, Some(response.error);
    }
    var datapoints := response.value;
    if |datapoints| == 0 {
      return 0.0, Some(NoDatapoints);
    }
    var latest: nat := 0;
    var latestVal: real := 0.0;
    for i := 0 to |datapoints|
      invariant i == 0 ==> latest == 0 && latestVal == 0.0
      invariant i > 0 ==>
                  var k := LatestIndex(datapoints[..i]);
                  latest == datapoints[k].timestamp && latestVal == Statistic(metric.statType, datapoints[k])
    {
      assert datapoints[..i + 1][..i] == datapoints[..i];
      var dp := datapoints[i];
      if dp.timestamp < latest {
        continue;
      }
      latest := dp.timestamp;
      if metric.statType == MetricsTypeAverage {
        latestVal := dp.average;
      } else if metric.statType == MetricsTypeMaximum {
        latestVal := dp.maximum;
      } else if metric.statType == MetricsTypeMinimum {
        latestVal := dp.minimum;
      }
    }
    assert datapoints[..|datapoints|] == datapoints;
    return latestVal, None;
  }

  // ---------------------------------------------------------------------------------------
  // Shard list

  /** The identifiers of a shard list, in order. */
  function ShardIDs(shards: seq<Shard>): seq<string> {
    seq(|shards|, i requires 0 <= i < |shards| => shards[i].shardId)
  }

  /** GetShardIDs: describe the stream and collect its shard identifiers, or pass on the
      call's error with no identifiers. */
  method GetShardIDs(p: Plugin, describeStream: string -> Result<seq<Shard>>)
    returns (ids: seq<string>, err: Option<Error>)
    ensures describeStream(p.name).Err? ==> ids == [] && err == Some(describeStream(p.name).error)
    ensures describeStream(p.name).Ok? ==>
              var shards := describeStream(p.name).value;
              err == None && |ids| == |shards| &&
              forall i :: 0 <= i < |shards| ==> ids[i] == shards[i].shardId
  {
    var resp := describeStream(p.name);
    if resp.Err? {
      return [], Some(resp.error);
    }
    var shards := resp.value;
    ids := [];
    for i := 0 to |shards|
      invariant |ids| == i
      invariant forall j :: 0 <= j < i ==> ids[j] == shards[j].shardId
    {
      ids := ids + [shards[i].shardId];
    }
    err := None;
  }

  // ---------------------------------------------------------------------------------------
  // Metric catalog and result assembly

  // The graph groups and the names values are reported under; the graph table below lists
  // the same names.
  const BytesGroup := "bytes"
  const IteratorAgeGroup := "iteratorage"
  const RecordsGroup := "records"
  const PendingGroup := "pending"
  const GetRecordsBytes := "GetRecordsBytes"
  const GetRecordsDelayMax := "GetRecordsDelayMaxMilliseconds"
  const GetRecordsDelayMin := "GetRecordsDelayMinMilliseconds"
  const GetRecordsDelayAverage := "GetRecordsDelayAverageMilliseconds"
  const GetRecordsRecords := "GetRecordsRecords"
  const IncomingBytes := "IncomingBytes"
  const IncomingRecords := "IncomingRecords"
  const ReadThroughputExceeded := "ReadThroughputExceeded"
  const WriteThroughputExceeded := "WriteThroughputExceeded"

  /** The nine metrics collected for every shard. */
  const Catalog: seq<Metric> := [
    Metric("OutgoingBytes", GetRecordsBytes, MetricsTypeAverage, BytesGroup),
    // the maximum iterator age shows a few iterators in trouble
    Metric("IteratorAgeMilliseconds", GetRecordsDelayMax, MetricsTypeMaximum, IteratorAgeGroup),
    Metric("IteratorAgeMilliseconds", GetRecordsDelayMin, MetricsTypeMinimum, IteratorAgeGroup),
    Metric("IteratorAgeMilliseconds", GetRecordsDelayAverage, MetricsTypeAverage, IteratorAgeGroup),
    Metric("OutgoingRecords", GetRecordsRecords, MetricsTypeAverage, RecordsGroup),
    Metric("IncomingBytes", IncomingBytes, MetricsTypeAverage, BytesGroup),
    Metric("IncomingRecords", IncomingRecords, MetricsTypeAverage, RecordsGroup),
    Metric("ReadProvidionedThroughputExceeded", ReadThroughputExceeded, MetricsTypeAverage, PendingGroup),
    Metric("WriteProvidionedThroughputExceeded", WriteThroughputExceeded, MetricsTypeAverage, PendingGroup)
  ]

  /** The key a value is reported under. */
  function Key(m: Metric, shardID: string): string {
    m.graphdefPrefix + "." + shardID + "." + m.mackerelName
  }

  /** getLastPoint's outcome for one shard and catalog entry. */
  function FetchedPoint(
    p: Plugin, shardID: string, m: Metric,
    getMetricStatistics: StatisticsRequest -> Result<seq<Datapoint>>): (real, Option<Error>)
  {
    LastPoint(m.statType, getMetricStatistics(RequestFor(p, m, shardID)))
  }

  predicate Succeeds(
    p: Plugin, shardID: string, m: Metric,
    getMetricStatistics: StatisticsRequest -> Result<seq<Datapoint>>)
  {
    FetchedPoint(p, shardID, m, getMetricStatistics).1.None?
  }

  /** The inner loop of FetchMetrics over `metrics` for one shard, starting from `stat`:
      each success is stored under its key, each failure is skipped. */
  function ShardStat(
    stat: map<string, real>, p: Plugin, shardID: string, metrics: seq<Metric>,
    getMetricStatistics: StatisticsRequest -> Result<seq<Datapoint>>): map<string, real>
    decreases |metrics|
  {
    if metrics == [] then stat
    else
      var prev := ShardStat(stat, p, shardID, metrics[..|metrics| - 1], getMetricStatistics);
      var m := metrics[|metrics| - 1];
      var (v, err) := FetchedPoint(p, shardID, m, getMetricStatistics);
      if err.None? then prev[Key(m, shardID) := v] else prev
  }

  /** Both loops of FetchMetrics: every shard in order, every catalog entry in order. */
  function Assemble(
    p: Plugin, shardIDs: seq<string>, metrics: seq<Metric>,
    getMetricStatistics: StatisticsRequest -> Result<seq<Datapoint>>): map<string, real>
    decreases |shardIDs|
  {
    if shardIDs == [] then map[]
    else
      ShardStat(Assemble(p, shardIDs[..|shardIDs| - 1], metrics, getMetricStatistics),
                p, shardIDs[|shardIDs| - 1], metrics, getMetricStatistics)
  }

  /** FetchMetrics: when the shard list cannot be read, the empty map and that error;
      otherwise the value of every (shard, catalog entry) pair whose fetch succeeded, under
      its key, failed pairs left out, and no error. */
  method FetchMetrics(
    p: Plugin, describeStream: string -> Result<seq<Shard>>,
    getMetricStatistics: StatisticsRequest -> Result<seq<Datapoint>>)
    returns (stat: map<string, real>, err: Option<Error>)
    ensures describeStream(p.name).Err? ==> stat == map[] && err == Some(describeStream(p.name).error)
    ensures describeStream(p.name).Ok? ==>
              err == None &&
              stat == Assemble(p, ShardIDs(describeStream(p.name).value), Catalog, getMetricStatistics)
  {
    stat := map[];
    var shardIDs, e := GetShardIDs(p, describeStream);
    if e.Some? {
      return stat, e;
    }
    assert shardIDs == ShardIDs(describeStream(p.name).value);
    for i := 0 to |shardIDs|
      invariant stat == Assemble(p, shardIDs[..i], Catalog, getMetricStatistics)
    {
      var shardID := shardIDs[i];
      assert shardIDs[..i + 1][..i] == shardIDs[..i];
      ghost var before := stat;
      for j := 0 to |Catalog|
        invariant stat == ShardStat(before, p, shardID, Catalog[..j], getMetricStatistics)
      {
        var met := Catalog[j];
        assert Catalog[..j + 1][..j] == Catalog[..j];
        var v, fetchErr := GetLastPoint(p, met, shardID, getMetricStatistics);
        if fetchErr.None? {
          stat := stat[Key(met, shardID) := v];
        }
      }
      assert Catalog[..|Catalog|] == Catalog;
    }
    assert shardIDs[..|shardIDs|] == shardIDs;
    return stat, None;
  }

  // ---------------------------------------------------------------------------------------
  // Key format

  /** A string made of a dot-free piece, a dot and a rest determines the piece and the rest. */
  lemma {:induction false} FirstDotSplit(a: string, x: string, b: string, y: string)
    requires '.' !in a && '.' !in b
    requires a + "." + x == b + "." + y
    ensures a == b && x == y
  {
    var s := a + "." + x;
    assert s[|a|] == '.' && s[|b|] == '.';
    assert forall i :: 0 <= i < |a| ==> s[i] == a[i];
    assert forall i :: 0 <= i < |b| ==> s[i] == b[i];
    assert |a| == |b|;
    assert a == s[..|a|] && b == s[..|b|];
    assert x == s[|a| + 1..] && y == s[|b| + 1..];
  }

  /** A string made of a rest, a dot and a dot-free piece determines the rest and the piece. */
  lemma {:induction false} LastDotSplit(x: string, a: string, y: string, b: string)
    requires '.' !in a && '.' !in b
    requires x + "." + a == y + "." + b
    ensures x == y && a == b
  {
    var s := x + "." + a;
    assert s[|x|] == '.' && s[|y|] == '.';
    assert forall i :: |x| < i < |s| ==> s[i] == a[i - |x| - 1];
    assert forall i :: |y| < i < |s| ==> s[i] == b[i - |y| - 1];
    assert |x| == |y|;
    assert x == s[..|x|] && y == s[..|y|];
    assert a == s[|x| + 1..] && b == s[|y| + 1..];
  }

  /** When group and metric names contain no dot, a key determines its group, its shard id
      and its metric name, whatever characters the shard id holds. */
  lemma KeyInjective(m1: Metric, s1: string, m2: Metric, s2: string)
    requires '.' !in m1.graphdefPrefix && '.' !in m2.graphdefPrefix
    requires '.' !in m1.mackerelName && '.' !in m2.mackerelName
    requires Key(m1, s1) == Key(m2, s2)
    ensures m1.graphdefPrefix == m2.graphdefPrefix && s1 == s2 && m1.mackerelName == m2.mackerelName
  {
    assert Key(m1, s1) == m1.graphdefPrefix + "." + (s1 + "." + m1.mackerelName);
    assert Key(m2, s2) == m2.graphdefPrefix + "." + (s2 + "." + m2.mackerelName);
    FirstDotSplit(m1.graphdefPrefix, s1 + "." + m1.mackerelName, m2.graphdefPrefix, s2 + "." + m2.mackerelName);
    LastDotSplit(s1, m1.mackerelName, s2, m2.mackerelName);
  }

  /** What the key format needs of a catalog: dot-free group and metric names, and no two
      entries reported under the same metric name. */
  predicate WellFormedCatalog(ms: seq<Metric>) {
    (forall j :: 0 <= j < |ms| ==> '.' !in ms[j].graphdefPrefix && '.' !in ms[j].mackerelName) &&
    (forall j1, j2 :: 0 <= j1 < j2 < |ms| ==> ms[j1].mackerelName != ms[j2].mackerelName)
  }

  /** No group name contains a dot. */
  lemma GroupsDotFree()
    ensures '.' !in BytesGroup && '.' !in IteratorAgeGroup && '.' !in RecordsGroup && '.' !in PendingGroup
  {
  }

  /** No metric name of the GetRecords family contains a dot. */
  lemma GetRecordsNamesDotFree()
    ensures '.' !in GetRecordsBytes && '.' !in GetRecordsRecords
  {
  }

  /** No iterator-age metric name contains a dot. */
  lemma DelayNamesDotFree()
    ensures '.' !in GetRecordsDelayMax && '.' !in GetRecordsDelayMin && '.' !in GetRecordsDelayAverage
  {
  }

  /** No incoming or throughput metric name contains a dot. */
  lemma OtherNamesDotFree()
    ensures '.' !in IncomingBytes && '.' !in IncomingRecords
    ensures '.' !in ReadThroughputExceeded && '.' !in WriteThroughputExceeded
  {
  }

  /** No catalog group or metric name contains a dot. */
  lemma CatalogDotFree()
    ensures forall j :: 0 <= j < |Catalog| ==> '.' !in Catalog[j].graphdefPrefix && '.' !in Catalog[j].mackerelName
  {
    GroupsDotFree();
    GetRecordsNamesDotFree();
    DelayNamesDotFree();
    OtherNamesDotFree();
  }

  /** No two catalog entries are reported under the same metric name. */
  lemma CatalogNamesDistinct()
    ensures forall j1, j2 :: 0 <= j1 < j2 < |Catalog| ==> Catalog[j1].mackerelName != Catalog[j2].mackerelName
  {
    // only two pairs of names have equal lengths
    assert GetRecordsBytes[0] != IncomingRecords[0];
    assert GetRecordsDelayMax[16] != GetRecordsDelayMin[16];
  }

  /** The plugin's catalog has nine entries and meets what the key format needs. */
  lemma CatalogWellFormed()
    ensures |Catalog| == 9 && WellFormedCatalog(Catalog)
  {
    CatalogDotFree();
    CatalogNamesDistinct();
  }

  /** Distinct (shard, catalog entry) pairs have distinct keys. */
  predicate KeysInjective(shardIDs: seq<string>, ms: seq<Metric>) {
    forall i1, j1, i2, j2 ::
      (0 <= i1 < |shardIDs| && 0 <= j1 < |ms| && 0 <= i2 < |shardIDs| && 0 <= j2 < |ms| &&
       Key(ms[j1], shardIDs[i1]) == Key(ms[j2], shardIDs[i2]))
      ==> i1 == i2 && j1 == j2
  }

  /** With a well-formed catalog and distinct shard ids, every pair gets a key of its own. */
  lemma DistinctKeys(shardIDs: seq<string>, ms: seq<Metric>)
    requires WellFormedCatalog(ms)
    requires forall i1, i2 :: 0 <= i1 < i2 < |shardIDs| ==> shardIDs[i1] != shardIDs[i2]
    ensures KeysInjective(shardIDs, ms)
  {
    forall i1, j1, i2, j2 |
      0 <= i1 < |shardIDs| && 0 <= j1 < |ms| && 0 <= i2 < |shardIDs| && 0 <= j2 < |ms| &&
      Key(ms[j1], shardIDs[i1]) == Key(ms[j2], shardIDs[i2])
      ensures i1 == i2 && j1 == j2
    {
      KeyInjective(ms[j1], shardIDs[i1], ms[j2], shardIDs[i2]);
      if i1 < i2 || i2 < i1 || j1 < j2 || j2 < j1 {
        assert false;
      }
    }
  }

  /** For one shard, the nine catalog entries give nine different keys. */
  lemma CatalogKeysDistinct(shardID: string)
    ensures forall j1, j2 :: 0 <= j1 < |Catalog| && 0 <= j2 < |Catalog| && j1 != j2 ==>
              Key(Catalog[j1], shardID) != Key(Catalog[j2], shardID)
  {
    CatalogWellFormed();
    DistinctKeys([shardID], Catalog);
    assert [shardID][0] == shardID;
  }

  // ---------------------------------------------------------------------------------------
  // What FetchMetrics reports

  /** Some catalog entry in `ms` has key `k` for shard `s` and was fetched successfully. */
  predicate ShardProduces(
    p: Plugin, s: string, ms: seq<Metric>, gms: StatisticsRequest -> Result<seq<Datapoint>>, k: string)
  {
    exists j :: 0 <= j < |ms| && Succeeds(p, s, ms[j], gms) && k == Key(ms[j], s)
  }

  /** A key is produced by a list of entries when it is produced by all but the last entry
      or by the last one. */
  lemma ShardProducesLast(
    p: Plugin, s: string, ms: seq<Metric>, gms: StatisticsRequest -> Result<seq<Datapoint>>, k: string)
    requires ms != []
    ensures ShardProduces(p, s, ms, gms, k) <==>
              ShardProduces(p, s, ms[..|ms| - 1], gms, k) ||
              (Succeeds(p, s, ms[|ms| - 1], gms) && k == Key(ms[|ms| - 1], s))
  {
    var init := ms[..|ms| - 1];
    if ShardProduces(p, s, ms, gms, k) {
      var j :| 0 <= j < |ms| && Succeeds(p, s, ms[j], gms) && k == Key(ms[j], s);
      if j < |init| {
        assert init[j] == ms[j];
      }
    }
    if ShardProduces(p, s, init, gms, k) {
      var j :| 0 <= j < |init| && Succeeds(p, s, init[j], gms) && k == Key(init[j], s);
      assert init[j] == ms[j];
    }
  }

  /** The inner loop adds exactly the keys of the successful fetches of its shard. */
  lemma {:induction false} ShardStatKeys(
    stat: map<string, real>, p: Plugin, s: string, ms: seq<Metric>,
    gms: StatisticsRequest -> Result<seq<Datapoint>>)
    ensures forall k :: k in ShardStat(stat, p, s, ms, gms) <==> k in stat || ShardProduces(p, s, ms, gms, k)
    decreases |ms|
  {
    if ms != [] {
      ShardStatKeys(stat, p, s, ms[..|ms| - 1], gms);
      forall k ensures k in ShardStat(stat, p, s, ms, gms) <==> k in stat || ShardProduces(p, s, ms, gms, k) {
        ShardProducesLast(p, s, ms, gms, k);
      }
    }
  }

  /** Some shard and catalog entry with key `k` was fetched successfully. */
  predicate Produces(
    p: Plugin, shardIDs: seq<string>, ms: seq<Metric>,
    gms: StatisticsRequest -> Result<seq<Datapoint>>, k: string)
  {
    exists i :: 0 <= i < |shardIDs| && ShardProduces(p, shardIDs[i], ms, gms, k)
  }

  /** A key is produced by a list of shards when it is produced by all but the last shard
      or by the last one. */
  lemma ProducesLast(
    p: Plugin, shardIDs: seq<string>, ms: seq<Metric>,
    gms: StatisticsRequest -> Result<seq<Datapoint>>, k: string)
    requires shardIDs != []
    ensures Produces(p, shardIDs, ms, gms, k) <==>
              Produces(p, shardIDs[..|shardIDs| - 1], ms, gms, k) ||
              ShardProduces(p, shardIDs[|shardIDs| - 1], ms, gms, k)
  {
    var init := shardIDs[..|shardIDs| - 1];
    if Produces(p, shardIDs, ms, gms, k) {
      var i :| 0 <= i < |shardIDs| && ShardProduces(p, shardIDs[i], ms, gms, k);
      if i < |init| {
        assert init[i] == shardIDs[i];
      }
    }
    if Produces(p, init, ms, gms, k) {
      var i :| 0 <= i < |init| && ShardProduces(p, init[i], ms, gms, k);
      assert init[i] == shardIDs[i];
    }
  }

  /** FetchMetrics reports a key exactly when some shard and catalog entry with that key
      was fetched successfully; failed fetches add nothing. */
  lemma {:induction false} AssembleKeys(
    p: Plugin, shardIDs: seq<string>, ms: seq<Metric>,
    gms: StatisticsRequest -> Result<seq<Datapoint>>)
    ensures forall k :: k in Assemble(p, shardIDs, ms, gms) <==> Produces(p, shardIDs, ms, gms, k)
    decreases |shardIDs|
  {
    if shardIDs != [] {
      var n := |shardIDs| - 1;
      var prev := Assemble(p, shardIDs[..n], ms, gms);
      AssembleKeys(p, shardIDs[..n], ms, gms);
      ShardStatKeys(prev, p, shardIDs[n], ms, gms);
      forall k ensures k in Assemble(p, shardIDs, ms, gms) <==> Produces(p, shardIDs, ms, gms, k) {
        ProducesLast(p, shardIDs, ms, gms, k);
      }
    }
  }

  /** The inner loop leaves a key alone when none of its entries produces that key. */
  lemma {:induction false} ShardStatUntouched(
    stat: map<string, real>, p: Plugin, s: string, ms: seq<Metric>,
    gms: StatisticsRequest -> Result<seq<Datapoint>>, k: string)
    requires forall j :: 0 <= j < |ms| ==> Key(ms[j], s) != k
    ensures (k in ShardStat(stat, p, s, ms, gms)) == (k in stat)
    ensures k in stat ==> ShardStat(stat, p, s, ms, gms)[k] == stat[k]
    decreases |ms|
  {
    if ms != [] {
      ShardStatUntouched(stat, p, s, ms[..|ms| - 1], gms, k);
    }
  }

  /** A successful fetch whose key no later entry produces is what the inner loop reports
      under that key (a later success with the same key would overwrite it). */
  lemma {:induction false} ShardStatStores(
    stat: map<string, real>, p: Plugin, s: string, ms: seq<Metric>,
    gms: StatisticsRequest -> Result<seq<Datapoint>>, j: nat)
    requires j < |ms| && Succeeds(p, s, ms[j], gms)
    requires forall j' :: j < j' < |ms| ==> Key(ms[j'], s) != Key(ms[j], s)
    ensures Key(ms[j], s) in ShardStat(stat, p, s, ms, gms)
    ensures ShardStat(stat, p, s, ms, gms)[Key(ms[j], s)] == FetchedPoint(p, s, ms[j], gms).0
    decreases |ms|
  {
    var n := |ms| - 1;
    if j < n {
      ShardStatStores(stat, p, s, ms[..n], gms, j);
    }
  }

  /** When keys are distinct, the value FetchMetrics reports for a successful pair is the
      value getLastPoint returned for it. */
  lemma {:induction false} AssembleValue(
    p: Plugin, shardIDs: seq<string>, ms: seq<Metric>,
    gms: StatisticsRequest -> Result<seq<Datapoint>>, i: nat, j: nat)
    requires KeysInjective(shardIDs, ms)
    requires i < |shardIDs| && j < |ms| && Succeeds(p, shardIDs[i], ms[j], gms)
    ensures Key(ms[j], shardIDs[i]) in Assemble(p, shardIDs, ms, gms)
    ensures Assemble(p, shardIDs, ms, gms)[Key(ms[j], shardIDs[i])] == FetchedPoint(p, shardIDs[i], ms[j], gms).0
    decreases |shardIDs|
  {
    var n := |shardIDs| - 1;
    var init := shardIDs[..n];
    var k := Key(ms[j], shardIDs[i]);
    if i == n {
      ShardStatStores(Assemble(p, init, ms, gms), p, shardIDs[n], ms, gms, j);
    } else {
      assert init[i] == shardIDs[i];
      KeysInjectivePrefix(shardIDs, ms, n);
      AssembleValue(p, init, ms, gms, i, j);
      ShardStatUntouched(Assemble(p, init, ms, gms), p, shardIDs[n], ms, gms, k);
    }
  }

  /** With distinct keys and every fetch of one shard successful, the inner loop adds one
      key per catalog entry. */
  lemma {:induction false} ShardStatSize(
    stat: map<string, real>, p: Plugin, s: string, ms: seq<Metric>,
    gms: StatisticsRequest -> Result<seq<Datapoint>>)
    requires forall j :: 0 <= j < |ms| ==> Succeeds(p, s, ms[j], gms) && Key(ms[j], s) !in stat
    requires forall j1, j2 :: 0 <= j1 < j2 < |ms| ==> Key(ms[j1], s) != Key(ms[j2], s)
    ensures |ShardStat(stat, p, s, ms, gms)| == |stat| + |ms|
    decreases |ms|
  {
    if ms != [] {
      var n := |ms| - 1;
      var init := ms[..n];
      ShardStatSize(stat, p, s, init, gms);
      ShardStatUntouched(stat, p, s, init, gms, Key(ms[n], s));
    }
  }

  /** Distinct keys over a shard list stay distinct over any prefix of it. */
  lemma KeysInjectivePrefix(shardIDs: seq<string>, ms: seq<Metric>, n: nat)
    requires KeysInjective(shardIDs, ms) && n <= |shardIDs|
    ensures KeysInjective(shardIDs[..n], ms)
  {
    var init := shardIDs[..n];
    forall i1, j1, i2, j2 |
      0 <= i1 < |init| && 0 <= j1 < |ms| && 0 <= i2 < |init| && 0 <= j2 < |ms| &&
      Key(ms[j1], init[i1]) == Key(ms[j2], init[i2])
      ensures i1 == i2 && j1 == j2
    {
      assert init[i1] == shardIDs[i1] && init[i2] == shardIDs[i2];
    }
  }

  /** With distinct keys, no key of the last shard was reported for an earlier shard. */
  lemma LastShardKeysFresh(
    p: Plugin, shardIDs: seq<string>, ms: seq<Metric>,
    gms: StatisticsRequest -> Result<seq<Datapoint>>)
    requires KeysInjective(shardIDs, ms) && |shardIDs| > 0
    ensures forall j :: 0 <= j < |ms| ==>
              Key(ms[j], shardIDs[|shardIDs| - 1]) !in Assemble(p, shardIDs[..|shardIDs| - 1], ms, gms)
  {
    var n := |shardIDs| - 1;
    var init := shardIDs[..n];
    AssembleKeys(p, init, ms, gms);
    forall j | 0 <= j < |ms|
      ensures !Produces(p, init, ms, gms, Key(ms[j], shardIDs[n]))
    {
      forall i' | 0 <= i' < |init|
        ensures !ShardProduces(p, init[i'], ms, gms, Key(ms[j], shardIDs[n]))
      {
        assert init[i'] == shardIDs[i'];
      }
    }
  }

  /** With distinct keys and every fetch successful, FetchMetrics reports one key per
      (shard, catalog entry) pair. */
  lemma {:induction false} AssembleSize(
    p: Plugin, shardIDs: seq<string>, ms: seq<Metric>,
    gms: StatisticsRequest -> Result<seq<Datapoint>>)
    requires KeysInjective(shardIDs, ms)
    requires forall i, j :: 0 <= i < |shardIDs| && 0 <= j < |ms| ==> Succeeds(p, shardIDs[i], ms[j], gms)
    ensures |Assemble(p, shardIDs, ms, gms)| == |shardIDs| * |ms|
    decreases |shardIDs|
  {
    if shardIDs != [] {
      var n := |shardIDs| - 1;
      var init := shardIDs[..n];
      KeysInjectivePrefix(shardIDs, ms, n);
      AssembleSize(p, init, ms, gms);
      LastShardKeysFresh(p, shardIDs, ms, gms);
      assert forall j :: 0 <= j < |ms| ==> Succeeds(p, shardIDs[n], ms[j], gms);
      ShardStatSize(Assemble(p, init, ms, gms), p, shardIDs[n], ms, gms);
      MultiplySuccessor(n, |ms|);
    }
  }

  lemma MultiplySuccessor(n: nat, m: nat)
    ensures (n + 1) * m == n * m + m
  {
  }

  /** A run over n distinct shards in which every fetch succeeds reports exactly 9 * n keys. */
  lemma FetchMetricsKeyCount(
    p: Plugin, shards: seq<Shard>, gms: StatisticsRequest -> Result<seq<Datapoint>>)
    requires forall i1, i2 :: 0 <= i1 < i2 < |shards| ==> shards[i1].shardId != shards[i2].shardId
    requires forall i, j :: 0 <= i < |shards| && 0 <= j < |Catalog| ==> Succeeds(p, shards[i].shardId, Catalog[j], gms)
    ensures |Assemble(p, ShardIDs(shards), Catalog, gms)| == 9 * |shards|
  {
    var ids := ShardIDs(shards);
    CatalogWellFormed();
    DistinctKeys(ids, Catalog);
    AssembleSize(p, ids, Catalog, gms);
  }

  // ---------------------------------------------------------------------------------------
  // Graph definitions

  /** The start of every graph label: the configured prefix title-cased, with every `-`
      replaced by a space. */
  function LabelPrefix(prefix: string): string {
    Replace(Title(prefix), '-', ' ')
  }

  /** Rune by rune, the label prefix keeps the prefix's length, turns every `-` into a
      space and title-cases the first rune and every rune after a separator. */
  lemma LabelPrefixAt(prefix: string, i: nat)
    requires i < |prefix|
    ensures |LabelPrefix(prefix)| == |prefix| && '-' !in LabelPrefix(prefix)
    ensures LabelPrefix(prefix)[i]
            == if prefix[i] == '-' then ' '
               else if i == 0 || IsSeparator(prefix[i - 1]) then ToTitle(prefix[i])
               else prefix[i]
  {
    TitleAt(prefix, i);
  }

  /** The key of the graph a group's values are drawn in; `#` stands for the shard id. */
  function GroupKey(group: string): string {
    group + ".#"
  }

  /** GraphDefinition: four graphs, one per group, all in unit "integer", each labelled with
      the label prefix and a fixed suffix. The table names its groups and lines with the
      same names as the catalog. */
  function GraphDefinition(p: Plugin): (r: map<string, Graph>)
    ensures |r| == 4
    ensures forall k :: k in r ==> r[k].unit == "integer" && LabelPrefix(p.prefix) <= r[k].caption
    ensures GroupKey(BytesGroup) in r && r[GroupKey(BytesGroup)].caption == LabelPrefix(p.prefix) + " Bytes"
    ensures GroupKey(IteratorAgeGroup) in r &&
            r[GroupKey(IteratorAgeGroup)].caption == LabelPrefix(p.prefix) + " Read Delay"
    ensures GroupKey(RecordsGroup) in r && r[GroupKey(RecordsGroup)].caption == LabelPrefix(p.prefix) + " Records"
    ensures GroupKey(PendingGroup) in r &&
            r[GroupKey(PendingGroup)].caption == LabelPrefix(p.prefix) + " Pending Operations"
  {
    var labelPrefix := LabelPrefix(p.prefix);
    assert GroupKey(RecordsGroup)[0] != GroupKey(PendingGroup)[0];
    map[
      GroupKey(BytesGroup) := Graph(labelPrefix + " Bytes", "integer", [
        GraphMetric(GetRecordsBytes, "GetRecords", false, ""),
        GraphMetric(IncomingBytes, "Total Incoming", false, "")]),
      GroupKey(IteratorAgeGroup) := Graph(labelPrefix + " Read Delay", "integer", [
        GraphMetric(GetRecordsDelayAverage, "Average", false, ""),
        GraphMetric(GetRecordsDelayMax, "Max", false, ""),
        GraphMetric(GetRecordsDelayMin, "Min", false, "")]),
      GroupKey(RecordsGroup) := Graph(labelPrefix + " Records", "integer", [
        GraphMetric(GetRecordsRecords, "GetRecords", false, ""),
        GraphMetric(IncomingRecords, "Total Incoming", false, "")]),
      GroupKey(PendingGroup) := Graph(labelPrefix + " Pending Operations", "integer", [
        GraphMetric(ReadThroughputExceeded, "Read", false, ""),
        GraphMetric(WriteThroughputExceeded, "Write", false, "")])
    ]
  }

  /** Every catalog entry's group has a graph, and that graph lists the entry's name. */
  lemma CatalogEntriesHaveGraphs(p: Plugin)
    ensures forall j :: 0 <= j < |Catalog| ==>
              GroupKey(Catalog[j].graphdefPrefix) in GraphDefinition(p) &&
              HasMember(GraphDefinition(p)[GroupKey(Catalog[j].graphdefPrefix)], Catalog[j].mackerelName)
  {
    var g := GraphDefinition(p);
    forall j | 0 <= j < |Catalog|
      ensures GroupKey(Catalog[j].graphdefPrefix) in g &&
              HasMember(g[GroupKey(Catalog[j].graphdefPrefix)], Catalog[j].mackerelName)
    {
      var metrics := g[GroupKey(Catalog[j].graphdefPrefix)].metrics;
      var i := if j == 1 || j == 5 || j == 6 || j == 8 then 1 else if j == 2 then 2 else 0;
      assert metrics[i].name == Catalog[j].mackerelName;
    }
  }

  /** Whether some catalog entry belongs to the graph with key `k` and has the given name. */
  predicate InCatalog(k: string, name: string) {
    exists j :: 0 <= j < |Catalog| && GroupKey(Catalog[j].graphdefPrefix) == k && Catalog[j].mackerelName == name
  }

  /** Every line of every graph is the catalog entry of that graph's group with that name. */
  lemma GraphLinesInCatalog(p: Plugin)
    ensures forall k, i :: k in GraphDefinition(p) && 0 <= i < |GraphDefinition(p)[k].metrics| ==>
              InCatalog(k, GraphDefinition(p)[k].metrics[i].name)
  {
    var g := GraphDefinition(p);
    forall k, i | k in g && 0 <= i < |g[k].metrics|
      ensures InCatalog(k, g[k].metrics[i].name)
    {
      var j :=
        if k == GroupKey(BytesGroup) then (if i == 0 then 0 else 5)
        else if k == GroupKey(IteratorAgeGroup) then (if i == 0 then 3 else i)
        else if k == GroupKey(RecordsGroup) then (if i == 0 then 4 else 6)
        else (if i == 0 then 7 else 8);
      assert GroupKey(Catalog[j].graphdefPrefix) == k && Catalog[j].mackerelName == g[k].metrics[i].name;
    }
  }

  /** GraphDefinition reads the configured prefix itself, not MetricKeyPrefix: with an empty
      prefix the keys get the default prefix while the labels start with a bare space. */
  lemma EmptyPrefixLabels(p: Plugin)
    requires p.prefix == ""
    ensures MetricKeyPrefix(p) == DefaultPrefix
    ensures GraphDefinition(p)[GroupKey(BytesGroup)].caption == " Bytes"
    ensures GraphDefinition(p)[GroupKey(PendingGroup)].caption == " Pending Operations"
  {
  }
}
