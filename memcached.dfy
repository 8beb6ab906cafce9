/** The memcached example plugin: it parses the reply to memcached's `stats` command (the
    "Statistics" section of memcached's text protocol) into a map from statistic names to
    their textual values, and describes its graphs with a fixed table.

    The reply arrives as the sequence of lines the scanner yields, followed by an optional
    read error that ended the scan; opening the connection and sending `stats` are not
    part of the model. */
module Memcached {
  import opened MackerelPluginHelper
  import opened GoStrings

  /** The plugin's configuration: the `host:port` to dial and the helper's temp file. */
  datatype MemcachedPlugin = MemcachedPlugin(target: string, tempfile: string)

  const EndLine := "END"
  const StatToken := "STAT"

  // ---------------------------------------------------------------------------------------
  // The lines of a stats reply

  /** The space-separated tokens of a line; there is always at least one. */
  function Tokens(line: string): seq<string> {
    Split(line, ' ')
  }

  /** A line that reports a statistic: its first token is `STAT`. */
  predicate IsStatLine(line: string) {
    Tokens(line)[0] == StatToken
  }

  /** A line ParseStats can take without indexing past the end of its tokens: a `STAT` line
      needs a name and a value after the `STAT`. */
  predicate WellFormed(line: string) {
    IsStatLine(line) ==> |Tokens(line)| >= 3
  }

  /** The position of the first `END` line, or the number of lines when there is none. */
  function EndIndex(lines: seq<string>): (n: nat)
    ensures n <= |lines|
    ensures n < |lines| ==> lines[n] == EndLine
    ensures forall i :: 0 <= i < n ==> lines[i] != EndLine
    ensures n == |lines| <==> EndLine !in lines
    decreases |lines|
  {
    if lines == [] then 0
    else if lines[0] == EndLine then 0
    else 1 + EndIndex(lines[1..])
  }

  /** Every line ParseStats reads is well formed: those before the first `END`, or all of
      them when there is none. On any other input the Go code panics. */
  predicate ParsableBeforeEnd(lines: seq<string>) {
    forall i :: 0 <= i < EndIndex(lines) ==> WellFormed(lines[i])
  }

  predicate AllWellFormed(lines: seq<string>) {
    forall i :: 0 <= i < |lines| ==> WellFormed(lines[i])
  }

  /** The effect of one line on the map: a `STAT` line maps its second token to its third,
      replacing an earlier value; any other line changes nothing. */
  function Record(stat: map<string, string>, line: string): map<string, string>
    requires WellFormed(line)
  {
    if IsStatLine(line) then stat[Tokens(line)[1] := Tokens(line)[2]] else stat
  }

  /** The map built from a sequence of lines, in order, starting from the empty map. */
  function Collect(lines: seq<string>): map<string, string>
    requires AllWellFormed(lines)
    decreases |lines|
  {
    if lines == [] then map[]
    else Record(Collect(lines[..|lines| - 1]), lines[|lines| - 1])
  }

  /** What ParseStats returns for the lines the scanner yielded and the error that ended the
      scan, if any: at the first `END`, the map of the lines before it and no error;
      without an `END`, the map so far and the read error when there was one, and no map
      and no error when the input simply ran out. */
  function Parse(lines: seq<string>, readErr: Option<Error>): (r: (Option<map<string, string>>, Option<Error>))
    requires ParsableBeforeEnd(lines)
    ensures r.0.Some? <==> EndLine in lines || readErr.Some?
    ensures r.1 == if EndLine in lines then None else readErr
  {
    var n := EndIndex(lines);
    if n < |lines| then (Some(Collect(lines[..n])), None)
    else if readErr.Some? then (Some(Collect(lines)), readErr)
    else (None, None)
  }

  /** ParseStats: scan the reply line by line, stop at the first `END` line with the map
      built so far, and record every `STAT` line before it. */
  method ParseStats(m: MemcachedPlugin, lines: seq<string>, readErr: Option<Error>)
    returns (stat: Option<map<string, string>>, err: Option<Error>)
    requires ParsableBeforeEnd(lines)
    ensures (stat, err) == Parse(lines, readErr)
  {
    var acc: map<string, string> := map[];
    var i := 0;
    while i < |lines|
      invariant 0 <= i <= EndIndex(lines)
      invariant AllWellFormed(lines[..i])
      invariant acc == Collect(lines[..i])
    {
      var s := lines[i];
      if s == EndLine {
        return Some(acc), None;
      }
      assert lines[..i + 1][..i] == lines[..i];
      var res := Split(s, ' ');
      if res[0] == StatToken {
        acc := acc[res[1] := res[2]];
      }
      i := i + 1;
    }
    assert lines[..i] == lines;
    if readErr.Some? {
      return Some(acc), readErr;
    }
    return None, None;
  }

  // ---------------------------------------------------------------------------------------
  // Properties of the parser

  /** Collecting one more line applies that line to the map built so far. */
  lemma CollectAppend(lines: seq<string>, line: string)
    requires AllWellFormed(lines) && WellFormed(line)
    ensures AllWellFormed(lines + [line])
    ensures Collect(lines + [line]) == Record(Collect(lines), line)
  {
    assert (lines + [line])[..|lines|] == lines;
  }

  /** Once an `END` line has been read, neither the lines after it nor a later read error
      change the outcome. */
  lemma IgnoresAfterEnd(lines: seq<string>, rest: seq<string>, readErr: Option<Error>, laterErr: Option<Error>)
    requires EndLine in lines
    requires ParsableBeforeEnd(lines)
    ensures ParsableBeforeEnd(lines + rest)
    ensures Parse(lines + rest, laterErr) == Parse(lines, readErr)
  {
    var n := EndIndex(lines);
    assert (lines + rest)[n] == EndLine;
    assert EndIndex(lines + rest) == n;
    assert (lines + rest)[..n] == lines[..n];
  }

  /** Whether line i of `lines` is a `STAT` line for the statistic `name`. */
  predicate NamesAt(lines: seq<string>, i: int, name: string)
    requires 0 <= i < |lines|
  {
    IsStatLine(lines[i]) && |Tokens(lines[i])| >= 2 && Tokens(lines[i])[1] == name
  }

  /** A name is in the collected map exactly when some `STAT` line names it. */
  lemma {:induction false} CollectKeys(lines: seq<string>, name: string)
    requires AllWellFormed(lines)
    ensures name in Collect(lines) <==> exists i :: 0 <= i < |lines| && NamesAt(lines, i, name)
    decreases |lines|
  {
    if lines != [] {
      var init := lines[..|lines| - 1];
      assert AllWellFormed(init);
      CollectKeys(init, name);
      if name in Collect(lines) && !NamesAt(lines, |lines| - 1, name) {
        var i :| 0 <= i < |init| && NamesAt(init, i, name);
        assert NamesAt(lines, i, name);
      }
      if exists i :: 0 <= i < |lines| && NamesAt(lines, i, name) {
        var i :| 0 <= i < |lines| && NamesAt(lines, i, name);
        if i < |init| {
          assert NamesAt(init, i, name);
        }
      }
    }
  }

  /** The value of a statistic is the one on the last `STAT` line that names it: a later
      line overwrites an earlier one. */
  lemma {:induction false} CollectLastWins(lines: seq<string>, i: nat)
    requires AllWellFormed(lines)
    requires i < |lines| && IsStatLine(lines[i])
    requires forall j :: i < j < |lines| ==> !NamesAt(lines, j, Tokens(lines[i])[1])
    ensures Tokens(lines[i])[1] in Collect(lines)
    ensures Collect(lines)[Tokens(lines[i])[1]] == Tokens(lines[i])[2]
    decreases |lines|
  {
    var init := lines[..|lines| - 1];
    assert AllWellFormed(init);
    if i < |lines| - 1 {
      assert init[i] == lines[i];
      forall j | i < j < |init| ensures !NamesAt(init, j, Tokens(init[i])[1]) {
        assert !NamesAt(lines, j, Tokens(lines[i])[1]);
      }
      CollectLastWins(init, i);
      assert !NamesAt(lines, |lines| - 1, Tokens(lines[i])[1]);
    }
  }

  lemma WellFormedConcat(a: seq<string>, b: seq<string>)
    requires AllWellFormed(a) && AllWellFormed(b)
    ensures AllWellFormed(a + b)
  {
    assert forall i :: |a| <= i < |a + b| ==> (a + b)[i] == b[i - |a|];
  }

  /** A line that is not a `STAT` line can be dropped without changing the map. */
  lemma {:induction false} NonStatLineIgnored(before: seq<string>, line: string, after: seq<string>)
    requires AllWellFormed(before) && AllWellFormed(after) && !IsStatLine(line)
    ensures AllWellFormed(before + [line] + after) && AllWellFormed(before + after)
    ensures Collect(before + [line] + after) == Collect(before + after)
    decreases |after|
  {
    WellFormedConcat(before, [line]);
    WellFormedConcat(before + [line], after);
    WellFormedConcat(before, after);
    if after == [] {
      assert before + [line] + after == before + [line];
      assert before + after == before;
      CollectAppend(before, line);
    } else {
      var last := after[|after| - 1];
      var init := after[..|after| - 1];
      assert AllWellFormed(init);
      NonStatLineIgnored(before, line, init);
      assert before + [line] + after == (before + [line] + init) + [last];
      assert before + after == (before + init) + [last];
      CollectAppend(before + [line] + init, last);
      CollectAppend(before + init, last);
    }
  }

  /** A `STAT` line made of space-free tokens maps its second token to its third; the
      tokens after the third are ignored. */
  lemma StatLineSets(stat: map<string, string>, parts: seq<string>)
    requires |parts| >= 3 && parts[0] == StatToken
    requires forall k :: 0 <= k < |parts| ==> ' ' !in parts[k]
    ensures WellFormed(Join(parts, ' '))
    ensures Record(stat, Join(parts, ' ')) == stat[parts[1] := parts[2]]
  {
    SplitJoin(parts, ' ');
  }

  // ---------------------------------------------------------------------------------------
  // Graph definitions

  // The plugin's graph groups.
  const Connections := "connections"
  const Cmd := "cmd"
  const HitMiss := "hitmiss"
  const Evictions := "evictions"
  const Unfetched := "unfetched"
  const Rusage := "rusage"
  const Bytes := "bytes"
  const KeyPrefix := "memcached."

  /** The key of one of the plugin's graphs. */
  function GroupKey(group: string): string {
    KeyPrefix + group
  }

  /** A counter line: drawn as the difference between two runs. */
  function Counter(name: string, caption: string): GraphMetric {
    GraphMetric(name, caption, true, "uint64")
  }

  /** The fixed table of the plugin's seven graphs. */
  const Graphdef: map<string, Graph> := map[
    GroupKey(Connections) := Graph("Memcached Connections", "integer", [
      GraphMetric("curr_connections", "Connections", false, "")]),
    GroupKey(Cmd) := Graph("Memcached Command", "integer", [
      Counter("cmd_get", "Get"),
      Counter("cmd_set", "Set"),
      Counter("cmd_flush", "Flush"),
      Counter("cmd_touch", "Touch")]),
    GroupKey(HitMiss) := Graph("Memcached Hits/Misses", "integer", [
      Counter("get_hits", "Get Hits"),
      Counter("get_misses", "Get Misses"),
      Counter("delete_hits", "Delete Hits"),
      Counter("delete_misses", "Delete Misses"),
      Counter("incr_hits", "Incr Hits"),
      Counter("incr_misses", "Incr Misses"),
      Counter("cas_hits", "Cas Hits"),
      Counter("cas_misses", "Cas Misses"),
      Counter("touch_hits", "Touch Hits"),
      Counter("touch_misses", "Touch Misses")]),
    GroupKey(Evictions) := Graph("Memcached Evictions", "integer", [
      Counter("evictions", "Evictions")]),
    GroupKey(Unfetched) := Graph("Memcached Unfetched", "integer", [
      Counter("expired_unfetched", "Expired unfetched"),
      Counter("evicted_unfetched", "Evicted unfetched")]),
    GroupKey(Rusage) := Graph("Memcached Resouce Usage", "float", [
      GraphMetric("rusage_user", "User", true, ""),
      GraphMetric("rusage_system", "System", true, "")]),
    GroupKey(Bytes) := Graph("Memcached Traffics", "bytes", [
      Counter("bytes_read", "Read"),
      Counter("bytes_written", "Write")])
  ]

  /** GraphDefinition: the same fixed table whatever the plugin's configuration: seven
      graphs, each under a key in the `memcached.` namespace and with at least one line. */
  function GraphDefinition(m: MemcachedPlugin): (r: map<string, Graph>)
    ensures r == Graphdef
    ensures |r| == 7
    ensures forall k :: k in r ==> KeyPrefix <= k && |r[k].metrics| >= 1
  {
    GraphKeysDistinct();
    Graphdef
  }

  /** The seven graph keys are pairwise distinct. */
  lemma GraphKeysDistinct()
    ensures |Graphdef| == 7
  {
    assert |GroupKey(Connections)| == 21 && |GroupKey(Cmd)| == 13 && |GroupKey(HitMiss)| == 17;
    assert |GroupKey(Evictions)| == 19 && |GroupKey(Unfetched)| == 19;
    assert |GroupKey(Rusage)| == 16 && |GroupKey(Bytes)| == 15;
    assert GroupKey(Evictions)[10] != GroupKey(Unfetched)[10];
  }

  /** Every line of the table is drawn as a difference except the connection count, the one
      gauge; the `uint64` lines are all differences. */
  lemma GraphdefDiffs()
    ensures forall k, i :: k in Graphdef && 0 <= i < |Graphdef[k].metrics| ==>
              (Graphdef[k].metrics[i].diff <==> k != GroupKey(Connections)) &&
              (Graphdef[k].metrics[i].metricType == "uint64" ==> Graphdef[k].metrics[i].diff)
  {
  }

  /** The resource-usage graph is the only one in unit "float". */
  lemma GraphdefFloatUnit()
    ensures forall k :: k in Graphdef && Graphdef[k].unit == "float" ==> k == GroupKey(Rusage)
  {
  }
}
