# Kinesis Data Streams shard plugin and memcached example plugin

A model, in Dafny, of two Mackerel agent plugins written in Go, and proofs about them.

- **The Kinesis Data Streams shard plugin** (`KinesisStreamsShard`, kinesis.dfy). For
  every shard of a stream and every entry of a fixed nine-entry catalog of CloudWatch
  metrics, it asks CloudWatch for the recent datapoints. It reduces them to the value of
  the latest datapoint and reports that value under the key
  `<graph group>.<shard id>.<metric name>`. It also provides the metric-key prefix and the
  table of four graphs that the agent draws.
  - The two remote calls are parameters of the model: functions from the request to a
    result or an error. These are CloudWatch GetMetricStatistics and Kinesis
    DescribeStream.
  - `GetLastPoint`, `GetShardIDs` and `FetchMetrics` are loops, as in the Go code. Each is
    proved equal to a specification function: `LastPoint`/`LatestIndex`, `ShardIDs`, and
    `Assemble`/`ShardStat`. The lemmas are proved about those functions.
- **The memcached example plugin** of the plugin helper library (`Memcached`,
  memcached.dfy). `ParseStats` reads the reply to memcached's `stats` command line by
  line. It stops at the first `END` line and maps the name on every `STAT` line to its
  value. `GraphDefinition` returns a fixed table of seven graphs.
  - The reply is the sequence of lines the scanner yields. It is followed by the read
    error that ended the scan, if there was one.
  - `ParseStats` is a loop proved equal to `Parse`, which is defined by `Collect` and
    `EndIndex`.
- **Shared parts.**
  - helper.dfy (`MackerelPluginHelper`) holds the helper library's graph types and Go's
    error and nil conventions (`Option`, `Error`, `Result`).
  - go_strings.dfy (`GoStrings`) models the Go `strings` functions the plugins call:
    `Title`, `Replace` with a one-rune pattern, `Split` with a one-rune separator, and its
    inverse `Join`.

## Model

| member | source | states |
|---|---|---|
| KinesisStreamsShard.MetricKeyPrefix | lib/aws-kinesis-streams-shard.go:45-50 | The key prefix is never empty: the configured prefix when there is one, otherwise "kinesis-streams-shard". |
| KinesisStreamsShard.MetricKeyPrefixIdempotent | lib/aws-kinesis-streams-shard.go:45-50 | Configuring the prefix that MetricKeyPrefix reports gives the same prefix again. |
| KinesisStreamsShard.LatestIndex | lib/aws-kinesis-streams-shard.go:106-122 | The datapoint the scan settles on has a maximal timestamp. Every datapoint after it has a strictly earlier timestamp, so on equal timestamps the last one wins (the `Before` skip test). |
| KinesisStreamsShard.LatestIndexUnique | lib/aws-kinesis-streams-shard.go:108-113 | Those two properties determine the selected datapoint uniquely. |
| KinesisStreamsShard.LatestIndexOrderIndependent | lib/aws-kinesis-streams-shard.go:108-122 | When no two datapoints share a timestamp, any reordering of the datapoints selects the same datapoint. |
| KinesisStreamsShard.LastPointOrderIndependent | lib/aws-kinesis-streams-shard.go:101-124 | With distinct timestamps, getLastPoint's value and error do not depend on the order of the datapoints. |
| KinesisStreamsShard.GetLastPoint | lib/aws-kinesis-streams-shard.go:74-125 | A call error is passed on with value 0. No datapoints gives the "fetched no datapoints" error with value 0. Otherwise there is no error, and the value is the Average, Maximum or Minimum of the latest datapoint as the metric's type says, or 0 for any other type. |
| KinesisStreamsShard.GetShardIDs | lib/aws-kinesis-streams-shard.go:203-216 | A DescribeStream error is passed on with no ids. Otherwise there is no error, and the ids are the shards' ids in order, one per shard. |
| KinesisStreamsShard.FetchMetrics | lib/aws-kinesis-streams-shard.go:128-157 | When the shard list cannot be read, the result is the empty map with that error. Otherwise there is no error, and the map is what the shard × catalog loops store: each success under its key, each failure skipped. |
| KinesisStreamsShard.KeyInjective | lib/aws-kinesis-streams-shard.go:150 | When group and metric names contain no dot, a key determines its group, its shard id and its metric name, whatever characters the shard id holds. |
| KinesisStreamsShard.CatalogDotFree | lib/aws-kinesis-streams-shard.go:136-147 | No group name or metric name in the catalog contains a dot. |
| KinesisStreamsShard.CatalogNamesDistinct | lib/aws-kinesis-streams-shard.go:136-147 | No two catalog entries are reported under the same metric name. |
| KinesisStreamsShard.CatalogWellFormed | lib/aws-kinesis-streams-shard.go:136-147 | The catalog has nine entries, and its names meet what the key format needs. |
| KinesisStreamsShard.DistinctKeys | lib/aws-kinesis-streams-shard.go:135-150 | With a well-formed catalog and distinct shard ids, distinct (shard, entry) pairs have distinct keys. |
| KinesisStreamsShard.CatalogKeysDistinct | lib/aws-kinesis-streams-shard.go:136-150 | For one shard, the nine catalog entries give nine different keys. |
| KinesisStreamsShard.ShardStatKeys | lib/aws-kinesis-streams-shard.go:136-154 | The inner loop adds exactly the keys of its shard's successful fetches. |
| KinesisStreamsShard.ShardStatUntouched | lib/aws-kinesis-streams-shard.go:136-154 | The inner loop leaves a key, and its value, alone when no entry has that key. |
| KinesisStreamsShard.ShardStatStores | lib/aws-kinesis-streams-shard.go:148-150 | A successful fetch whose key no later entry has is stored with the value getLastPoint returned. |
| KinesisStreamsShard.ShardStatSize | lib/aws-kinesis-streams-shard.go:136-154 | With distinct keys and every fetch successful, the inner loop adds one key per entry. |
| KinesisStreamsShard.AssembleKeys | lib/aws-kinesis-streams-shard.go:135-156 | FetchMetrics reports a key if and only if some (shard, entry) pair with that key was fetched successfully. |
| KinesisStreamsShard.AssembleValue | lib/aws-kinesis-streams-shard.go:135-156 | With distinct keys, a successful pair's key maps to the value getLastPoint returned for it. |
| KinesisStreamsShard.AssembleSize | lib/aws-kinesis-streams-shard.go:135-156 | With distinct keys and every fetch successful, the map has one key per (shard, entry) pair. |
| KinesisStreamsShard.FetchMetricsKeyCount | lib/aws-kinesis-streams-shard.go:131-156 | n distinct shards whose fetches all succeed give exactly 9·n keys. |
| KinesisStreamsShard.LabelPrefixAt | lib/aws-kinesis-streams-shard.go:161-162 | The label prefix has the prefix's length and contains no `-`. Rune by rune, each `-` becomes a space, the first rune and each rune after a separator are title-cased, and all else is kept. |
| KinesisStreamsShard.GraphDefinition | lib/aws-kinesis-streams-shard.go:160-199 | Four graphs, all in unit "integer": "bytes.#" labelled with the label prefix and " Bytes", "iteratorage.#" with " Read Delay", "records.#" with " Records" and "pending.#" with " Pending Operations". |
| KinesisStreamsShard.CatalogEntriesHaveGraphs | lib/aws-kinesis-streams-shard.go:136-197 | Every catalog entry's group has a graph, and that graph lists the entry's metric name. |
| KinesisStreamsShard.GraphLinesInCatalog | lib/aws-kinesis-streams-shard.go:136-197 | Every line of every graph is a catalog entry of that graph's group. |
| KinesisStreamsShard.EmptyPrefixLabels | lib/aws-kinesis-streams-shard.go:160-166 | GraphDefinition reads the configured prefix, not MetricKeyPrefix. With an empty prefix the keys get the default prefix, while the labels start with a bare space. |
| GoStrings.ToTitle | lib/aws-kinesis-streams-shard.go:161 | ASCII lower-case letters become the matching upper-case letter; every other rune is kept. |
| GoStrings.TitleAt | lib/aws-kinesis-streams-shard.go:161 | strings.Title keeps the length. A rune is title-cased exactly when it is first or follows a separator (a non-word ASCII rune or a Unicode space). |
| GoStrings.Replace | lib/aws-kinesis-streams-shard.go:162 | Replacing a rune everywhere keeps the length and changes exactly the occurrences of that rune. |
| GoStrings.Split | vendor/github.com/mackerelio/go-mackerel-plugin-helper/_example/memcached.go:107 | strings.Split gives at least one piece, and no piece contains the separator. |
| GoStrings.JoinSplit | vendor/github.com/mackerelio/go-mackerel-plugin-helper/_example/memcached.go:107 | Joining the pieces of a split with the separator gives back the original string. |
| GoStrings.SplitJoin | vendor/github.com/mackerelio/go-mackerel-plugin-helper/_example/memcached.go:107 | Splitting a join of separator-free pieces gives back the pieces. |
| Memcached.EndIndex | vendor/github.com/mackerelio/go-mackerel-plugin-helper/_example/memcached.go:100-105 | The index of the first `END` line; it equals the number of lines exactly when there is no `END`. |
| Memcached.Parse | vendor/github.com/mackerelio/go-mackerel-plugin-helper/_example/memcached.go:96-116 | A map is returned exactly when an `END` line was read or the scan ended in a read error. The error is that read error, and only when there was no `END`. |
| Memcached.ParseStats | vendor/github.com/mackerelio/go-mackerel-plugin-helper/_example/memcached.go:96-116 | The scan loop with its early return computes Parse: the map of the lines before the first `END`; or the partial map and the read error; or nil and no error when the input ran out without `END`. |
| Memcached.CollectAppend | vendor/github.com/mackerelio/go-mackerel-plugin-helper/_example/memcached.go:100-111 | Reading one more line applies that line to the map built so far. |
| Memcached.IgnoresAfterEnd | vendor/github.com/mackerelio/go-mackerel-plugin-helper/_example/memcached.go:100-105 | Once an `END` line is read, neither the lines after it nor a later read error change the result. |
| Memcached.CollectKeys | vendor/github.com/mackerelio/go-mackerel-plugin-helper/_example/memcached.go:107-110 | A name is in the map if and only if some `STAT` line names it. |
| Memcached.CollectLastWins | vendor/github.com/mackerelio/go-mackerel-plugin-helper/_example/memcached.go:109 | A name's value is the third token of the last `STAT` line that names it. |
| Memcached.NonStatLineIgnored | vendor/github.com/mackerelio/go-mackerel-plugin-helper/_example/memcached.go:108 | Removing a line whose first token is not `STAT` does not change the map. |
| Memcached.StatLineSets | vendor/github.com/mackerelio/go-mackerel-plugin-helper/_example/memcached.go:107-109 | A `STAT` line of space-free tokens maps its second token to its third, and the tokens after the third are ignored. |
| Memcached.GraphDefinition | vendor/github.com/mackerelio/go-mackerel-plugin-helper/_example/memcached.go:118-120 | Every configuration gets the same fixed table `Graphdef`: seven graphs, each keyed in the `memcached.` namespace and each with at least one line. |
| Memcached.GraphKeysDistinct | vendor/github.com/mackerelio/go-mackerel-plugin-helper/_example/memcached.go:15-80 | The table's seven keys are pairwise distinct. |
| Memcached.GraphdefDiffs | vendor/github.com/mackerelio/go-mackerel-plugin-helper/_example/memcached.go:15-80 | Every line is drawn as a difference except in the connections graph, and every `uint64` line is a difference. |
| Memcached.GraphdefFloatUnit | vendor/github.com/mackerelio/go-mackerel-plugin-helper/_example/memcached.go:64-71 | The resource-usage graph is the only one in unit "float". |

## Left out

- `prepare` (session, credentials and region): it configures the AWS SDK clients, which the model replaces by function parameters.
- The GetMetricStatistics and DescribeStream network calls, `time.Now()` and the 180-second query window with its 60-second period. The calls are parameters; the request keeps only the namespace, metric name, stream name, shard id and statistic.
- Float64 statistic values are modelled as `real` and only copied, never computed with.
- Timestamps are natural numbers, with the zero time as 0. A datapoint dated before the zero time, which `Before` would skip, cannot be expressed.
- Nil pointers (`*dp.Average`, `*shard.ShardId`, a nil `StreamDescription`) are not modelled: the fields are always present.
- `log.Printf` for a failed fetch, and the `Do` and `main` functions with their flag parsing and `helper.Run`: these are logging and command-line I/O.
- The helper library itself: temp-file deltas, diff computation and output formatting are not part of this model.
- The CloudWatch metric names in the catalog are kept exactly as written, including `ReadProvidionedThroughputExceeded` and `WriteProvidionedThroughputExceeded`. Which names CloudWatch publishes is outside the model.
- Memcached `FetchMetrics`: dialling the target and sending `stats` is network I/O.
- Memcached scanner limits: `bufio.Scanner`'s line-length limit is not modelled. The scanner's output is the sequence of lines plus an optional read error.
- Memcached.ParseStats: a `STAT` line with fewer than three tokens before the first `END` makes the Go code panic by indexing past the end of the split result. The model makes "no such line" a precondition instead of modelling the panic.
- GoStrings.ToTitle: title-cases ASCII letters only. Non-ASCII letters are left unchanged where Go's `unicode.ToTitle` would map them. The separator test itself follows Go's: above ASCII, only Unicode spaces are separators.
- KinesisStreamsShard.LabelPrefixAt: the label prefix is stated rune by rune. No lemma evaluates the default prefix's label "Kinesis Streams Shard" as a whole string.
- Strings are sequences of Unicode scalar values, while Go strings are bytes. Byte-level `Split` and `==`, the U+FFFD replacement that `strings.Title` makes for invalid UTF-8 (which can change the length), and lines or prefixes that are not valid UTF-8 are not expressible. The prefixes and the stats reply are ASCII.
- Statistic values are stored as `real` (Kinesis) and as `string` (memcached) where the Go maps hold `interface{}`.
