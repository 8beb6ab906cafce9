/** The parts of go-mackerel-plugin-helper and of Go's error handling that both plugins use:
    optional values (Go's nil), errors, results of remote calls, and the graph metadata types
    (mp.Graphs and mp.Metrics) that a plugin's GraphDefinition returns. */
module MackerelPluginHelper {

  datatype Option<T> = None | Some(value: T)

  /** A Go `error` value; only its message is observable. */
  datatype Error = Error(message: string)

  /** The outcome of a call that returns a value or an error. */
  datatype Result<T> = Ok(value: T) | Err(error: Error)

  /** mp.Metrics: one line of a graph (`caption` is its Label; `label` is a Dafny keyword). */
  datatype GraphMetric = GraphMetric(name: string, caption: string, diff: bool, metricType: string)

  /** mp.Graphs: a graph with its Label (`caption`), unit and member lines. */
  datatype Graph = Graph(caption: string, unit: string, metrics: seq<GraphMetric>)

  /** Whether a graph has a member line with the given name. */
  predicate HasMember(g: Graph, name: string) {
    exists i :: 0 <= i < |g.metrics| && g.metrics[i].name == name
  }
}
