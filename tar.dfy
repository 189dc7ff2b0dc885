/**
 * The tar client's conversions between dotted metric names and Whisper
 * file paths relative to the storage root, and the sorted work list it
 * builds before fetching metrics from their servers.
 */
module Tar {
  import opened Outcomes
  import opened Strings

  const SUFFIX := ".wsp"

  /** s without its run of leading '/' characters. */
  function TrimLeadingSlashes(s: string): (r: string)
    ensures |r| <= |s|
    ensures r == [] || r[0] != '/'
    ensures (s == [] || s[0] != '/') ==> r == s
  {
    if s != [] && s[0] == '/' then TrimLeadingSlashes(s[1..]) else s
  }

  /** What is trimmed is a run of '/' and what remains is the rest of s. */
  lemma {:induction false} TrimLeadingSlashesCut(s: string)
    ensures var r := TrimLeadingSlashes(s);
      && r == s[|s| - |r|..]
      && forall i :: 0 <= i < |s| - |r| ==> s[i] == '/'
  {
    if s != [] && s[0] == '/' {
      TrimLeadingSlashesCut(s[1..]);
      var r := TrimLeadingSlashes(s);
      assert forall i :: 1 <= i < |s| - |r| ==> s[i] == s[1..][i - 1];
    }
  }

  /** The path MetricToPath gives metric: dots become slashes, ".wsp" is appended, leading slashes go. */
  function MetricPath(metric: string): string {
    TrimLeadingSlashes(ReplaceChar(metric, '.', '/') + SUFFIX)
  }

  /**
   * The metric PathToMetric gives path: leading slashes go, slashes become
   * dots and the last four characters (the ".wsp") are cut. Reading the first
   * character of an empty remainder, or cutting four from fewer, panics.
   */
  function PathMetric(path: string): Outcome<string> {
    var t := TrimLeadingSlashes(path);
    if t == [] then Panic(IndexOutOfRange)
    else if |t| < 4 then Panic(SliceBoundsOutOfRange)
    else Ok(ReplaceChar(t, '/', '.')[..|t| - 4])
  }

  /** MetricToPath: the leading-slash loop always stops, because the ".wsp" suffix is never reached. */
  method MetricToPath(metric: string) returns (path: string)
    ensures path == MetricPath(metric)
  {
    path := ReplaceChar(metric, '.', '/') + SUFFIX;
    ghost var full := path;
    while path[0] == '/'
      invariant |path| >= 4 && path[|path| - 4] == '.'
      invariant TrimLeadingSlashes(path) == TrimLeadingSlashes(full)
      decreases |path|
    {
      path := path[1..];
    }
  }

  /** PathToMetric, with the faults its indexing and slicing can raise. */
  method PathToMetric(path: string) returns (r: Outcome<string>)
    ensures r == PathMetric(path)
  {
    var p := path;
    while |p| == 0 || p[0] == '/'
      invariant TrimLeadingSlashes(p) == TrimLeadingSlashes(path)
      decreases |p|
    {
      if |p| == 0 {
        return Panic(IndexOutOfRange);  // path[0] on an empty string
      }
      p := p[1..];
    }
    var metric := ReplaceChar(p, '/', '.');
    if |metric| < 4 {
      return Panic(SliceBoundsOutOfRange);  // cutting four characters from fewer
    }
    r := Ok(metric[..|metric| - 4]);
  }

  /** A metric's path is non-empty, does not start with '/', ends in ".wsp" and has no '.' before it. */
  lemma MetricPathShape(metric: string)
    ensures var path := MetricPath(metric);
      && |path| >= 4
      && path[0] != '/'
      && path[|path| - 4..] == SUFFIX
      && forall i :: 0 <= i < |path| - 4 ==> path[i] != '.'
  {
    var replaced := ReplaceChar(metric, '.', '/');
    var full := replaced + SUFFIX;
    var path := TrimLeadingSlashes(full);
    var cut := |full| - |path|;
    TrimLeadingSlashesCut(full);
    ReplaceCharAt(metric, '.', '/');
    assert full[|full| - 4] == '.';
    assert cut <= |full| - 4;
    forall i | 0 <= i < |path| - 4 ensures path[i] != '.' {
      assert path[i] == full[cut + i] == replaced[cut + i];
    }
  }

  /** PathToMetric faults exactly when fewer than four characters follow the leading slashes. */
  lemma PathMetricFaults(path: string)
    ensures PathMetric(path).Panic? <==> |TrimLeadingSlashes(path)| < 4
    ensures PathMetric(path).Ok? ==> '/' !in PathMetric(path).value
  {
    ReplaceCharAt(TrimLeadingSlashes(path), '/', '.');
  }

  /** A stem that does not start with '/', with ".wsp" appended, reads back as the stem with dots for slashes. */
  lemma PathMetricOfStem(stem: string)
    requires stem == [] || stem[0] != '/'
    ensures PathMetric(stem + SUFFIX) == Ok(ReplaceChar(stem, '/', '.'))
  {
    var path := stem + SUFFIX;
    assert TrimLeadingSlashes(path) == path by {
      if stem != [] {
        assert path[0] == stem[0];
      }
    }
    var cut, back := ReplaceChar(path, '/', '.')[..|stem|], ReplaceChar(stem, '/', '.');
    assert cut == back by {
      ReplaceCharAt(path, '/', '.');
      ReplaceCharAt(stem, '/', '.');
      forall i | 0 <= i < |stem| ensures cut[i] == back[i] {
        assert path[i] == stem[i];
      }
    }
  }

  /** Every metric without '/' that does not start with '.' survives the trip to a path and back. */
  lemma MetricRoundTrip(metric: string)
    requires '/' !in metric
    requires metric == [] || metric[0] != '.'
    ensures PathMetric(MetricPath(metric)) == Ok(metric)
  {
    var replaced := ReplaceChar(metric, '.', '/');
    ReplaceCharAt(metric, '.', '/');
    assert replaced == [] || replaced[0] != '/';
    assert TrimLeadingSlashes(replaced + SUFFIX) == replaced + SUFFIX by {
      assert (replaced + SUFFIX)[0] != '/';
    }
    PathMetricOfStem(replaced);
    ReplaceCharInverse(metric, '.', '/');
  }

  /** Every path of the shape MetricToPath produces survives the trip to a metric and back. */
  lemma PathRoundTrip(path: string)
    requires |path| >= 4 && path[|path| - 4..] == SUFFIX
    requires path[0] != '/'
    requires forall i :: 0 <= i < |path| - 4 ==> path[i] != '.'
    ensures PathMetric(path).Ok? && MetricPath(PathMetric(path).value) == path
  {
    var stem := path[..|path| - 4];
    assert path == stem + SUFFIX;
    PathMetricOfStem(stem);
    var metric := ReplaceChar(stem, '/', '.');
    ReplaceCharAt(stem, '/', '.');
    ReplaceCharAt(metric, '.', '/');
    assert '/' !in metric;
    ReplaceCharInverse(stem, '/', '.');
    assert ReplaceChar(stem, '/', '.') == metric;
    assert ReplaceChar(metric, '.', '/') == stem by {
      forall i | 0 <= i < |stem| ensures ReplaceChar(metric, '.', '/')[i] == stem[i] {
        assert stem[i] != '.';
      }
    }
  }

  /** The metrics of the servers in order, each server's list kept whole and in place. */
  function Flatten(metricMap: map<string, seq<string>>, order: seq<string>): (r: seq<string>)
    requires forall s :: s in order ==> s in metricMap
    ensures forall m :: m in r <==> exists s :: s in order && m in metricMap[s]
  {
    if order == [] then []
    else
      var front := order[..|order| - 1];
      assert forall s :: s in front ==> s in order;
      Flatten(metricMap, front) + metricMap[order[|order| - 1]]
  }

  /** order enumerates the keys of metricMap, each once: one Go iteration order over the map. */
  ghost predicate Enumerates(metricMap: map<string, seq<string>>, order: seq<string>) {
    && (forall s :: s in order <==> s in metricMap)
    && (forall i, j :: 0 <= i < j < |order| ==> order[i] != order[j])
  }

  /**
   * The work-list build of multiplexTar: every (server, metric) pair of the
   * map, in the map's iteration order `order`, adds the metric to the list
   * and records the server for it; the list is then sorted.
   */
  method BuildWorkList(metricMap: map<string, seq<string>>, order: seq<string>)
    returns (servers: map<string, string>, sorted: seq<string>)
    requires Enumerates(metricMap, order)
    ensures SortedStrings(sorted)
    ensures multiset(sorted) == multiset(Flatten(metricMap, order))
    ensures forall m :: m in servers <==> m in sorted
    ensures forall m :: m in servers ==> servers[m] in metricMap && m in metricMap[servers[m]]
  {
    servers := map[];
    var list: seq<string> := [];
    for k := 0 to |order|
      invariant list == Flatten(metricMap, order[..k])
      invariant forall m :: m in servers <==> m in list
      invariant forall m :: m in servers ==> servers[m] in metricMap && m in metricMap[servers[m]]
    {
      var server := order[k];
      var metrics := metricMap[server];
      assert order[..k + 1][..k] == order[..k];
      for j := 0 to |metrics|
        invariant list == Flatten(metricMap, order[..k]) + metrics[..j]
        invariant forall m :: m in servers <==> m in list
        invariant forall m :: m in servers ==> servers[m] in metricMap && m in metricMap[servers[m]]
      {
        servers := servers[metrics[j] := server];
        list := list + [metrics[j]];
        assert metrics[..j + 1] == metrics[..j] + [metrics[j]];
      }
      assert metrics[..|metrics|] == metrics;
    }
    assert order[..|order|] == order;
    sorted := SortStrings(list);
    assert forall m :: m in list <==> m in multiset(list);
  }
}
