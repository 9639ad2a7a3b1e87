/** The read path (`Client.Read`): every query is compiled and run, each
    result row is scanned, and the rows are gathered into one time series per
    identity key, a new key opening a series and every row appending a sample
    to its own. */
module Reader {
  import opened Outcomes
  import opened Text
  import opened Timestamps
  import Labels
  import QueryCompiler

  /** A `float64` sample value, carried as its IEEE-754 bit pattern: the read
      path passes values through without computing with them. */
  type Float = bv64

  /** `prompb.Label`, `prompb.Sample` and `prompb.TimeSeries`. */
  datatype Label = Label(name: string, value: string)
  datatype Sample = Sample(timestamp: int, value: Float)
  datatype TimeSeries = TimeSeries(labels: seq<Label>, samples: seq<Sample>)

  /** One result row as `rows.Scan` meets it: the time, name and value columns
      converted and the raw labels column, which `sampleLabels.Scan` decodes;
      or a conversion failure on one of the first three columns. */
  datatype Row =
    | Row(time: Instant, name: string, value: Float, labels: Labels.ColumnValue)
    | Unscannable(error: Error)

  /** What `DB.Query` answers for a command: a failure, or the rows followed by
      what `rows.Err` reports once iteration stops. */
  datatype QueryResult = QueryFailed(error: Error) | Rows(rows: seq<Row>, iterError: Option<Error>)

  /** What the read path uses of the client: the table name, the formatters the
      query compiler needs, the database and the JSON decoder. */
  datatype Client = Client(
    table: string,
    marshal: map<string, string> -> string,
    rfc3339: Instant -> string,
    db: string -> QueryResult,
    unmarshal: string -> Result<map<string, string>>)

  /** A row after a successful scan. */
  datatype Fetched = Fetched(time: Instant, name: string, value: Float, labels: Labels.SampleLabels)

  /** The zero `sampleLabels` every row is scanned into. */
  const NoLabels: Labels.SampleLabels := Labels.SampleLabels([], map[], [])

  /** Scanning one row. */
  ghost function DecodeRow(row: Row, unmarshal: string -> Result<map<string, string>>): Result<Fetched>
  {
    match row
    case Unscannable(e) => Err(e)
    case Row(t, n, v, column) =>
      match Labels.ScanResult(NoLabels, column, unmarshal)
      case Err(e) => Err(e)
      case Ok(l) => Ok(Fetched(t, n, v, l))
  }

  /** Rows gathered from a sequence of steps, each giving rows or an error:
      the steps' rows in order, or the first error. */
  function Gather(steps: seq<Result<seq<Fetched>>>): Result<seq<Fetched>>
  {
    if steps == [] then Ok([])
    else
      match Gather(steps[..|steps| - 1])
      case Err(e) => Err(e)
      case Ok(fs) =>
        match steps[|steps| - 1]
        case Err(e) => Err(e)
        case Ok(more) => Ok(fs + more)
  }

  lemma GatherStep(steps: seq<Result<seq<Fetched>>>, i: int)
    requires 0 <= i < |steps|
    ensures Gather(steps[..i + 1]) ==
      match Gather(steps[..i])
      case Err(e) => Err(e)
      case Ok(fs) => (match steps[i] case Err(e) => Err(e) case Ok(more) => Ok(fs + more))
  {
    assert steps[..i + 1][..i] == steps[..i];
  }

  /** Once gathering has failed, later steps do not change its error. */
  lemma {:induction false} GatherStopsAtError(steps: seq<Result<seq<Fetched>>>, i: int)
    requires 0 <= i <= |steps| && Gather(steps[..i]).Err?
    ensures Gather(steps) == Gather(steps[..i])
    decreases |steps|
  {
    if i < |steps| {
      var n := |steps| - 1;
      assert steps[..n][..i] == steps[..i];
      GatherStopsAtError(steps[..n], i);
    } else {
      assert steps[..i] == steps;
    }
  }

  /** Gathering fails iff some step fails, and then with the first failure. */
  lemma {:induction false} GatherFails(steps: seq<Result<seq<Fetched>>>)
    ensures Gather(steps).Err? <==> exists i :: 0 <= i < |steps| && steps[i].Err?
    ensures Gather(steps).Err? ==> exists i :: (0 <= i < |steps| && steps[i] == Err(Gather(steps).error)
      && forall j :: 0 <= j < i ==> steps[j].Ok?)
    decreases |steps|
  {
    if steps != [] {
      var n := |steps| - 1;
      var p := steps[..n];
      GatherStep(steps, n);
      assert steps[..n + 1] == steps;
      GatherFails(p);
      assert forall j :: 0 <= j < n ==> p[j] == steps[j];
    }
  }

  /** Scanning one row, as a step giving that one row. */
  ghost function RowStep(row: Row, unmarshal: string -> Result<map<string, string>>): Result<seq<Fetched>>
  {
    match DecodeRow(row, unmarshal)
    case Err(e) => Err(e)
    case Ok(f) => Ok([f])
  }

  ghost function RowSteps(rows: seq<Row>, unmarshal: string -> Result<map<string, string>>): seq<Result<seq<Fetched>>>
  {
    MapSeq(row => RowStep(row, unmarshal), rows)
  }

  /** Scanning rows in order, stopping at the first failure. */
  ghost function DecodeRows(rows: seq<Row>, unmarshal: string -> Result<map<string, string>>): Result<seq<Fetched>>
  {
    Gather(RowSteps(rows, unmarshal))
  }

  /** One query: compile it, run it, scan its rows, then check `rows.Err`. */
  ghost function QueryRows(c: Client, q: QueryCompiler.Query): Result<seq<Fetched>>
  {
    match QueryCompiler.QueryText(q, c.table, c.marshal, c.rfc3339)
    case Err(e) => Err(e)
    case Ok(command) =>
      match c.db(command)
      case QueryFailed(e) => Err(e)
      case Rows(rows, iterError) =>
        match DecodeRows(rows, c.unmarshal)
        case Err(e) => Err(e)
        case Ok(fs) => if iterError.Some? then Err(iterError.value) else Ok(fs)
  }

  ghost function QuerySteps(c: Client, qs: seq<QueryCompiler.Query>): seq<Result<seq<Fetched>>>
  {
    MapSeq(q => QueryRows(c, q), qs)
  }

  /** All queries in order, their rows concatenated, stopping at the first
      failure. */
  ghost function Fetch(c: Client, qs: seq<QueryCompiler.Query>): Result<seq<Fetched>>
  {
    Gather(QuerySteps(c, qs))
  }

  /** Any failure, in any query or any row, means no response: the read fails
      iff one of its queries fails, and with the first failing query's error. */
  lemma FetchFails(c: Client, qs: seq<QueryCompiler.Query>)
    ensures Fetch(c, qs).Err? <==> exists i :: 0 <= i < |qs| && QueryRows(c, qs[i]).Err?
    ensures Fetch(c, qs).Err? ==> exists i :: (0 <= i < |qs| && QueryRows(c, qs[i]) == Err(Fetch(c, qs).error)
      && forall j :: 0 <= j < i ==> QueryRows(c, qs[j]).Ok?)
  {
    var steps := QuerySteps(c, qs);
    GatherFails(steps);
    assert forall i :: 0 <= i < |qs| ==> steps[i] == QueryRows(c, qs[i]);
  }

  /** A query fails iff its compilation, its execution, the scan of one of its
      rows or the final `rows.Err` check fails. */
  lemma QueryRowsFails(c: Client, q: QueryCompiler.Query)
    ensures QueryRows(c, q).Err? <==>
      || QueryCompiler.QueryText(q, c.table, c.marshal, c.rfc3339).Err?
      || (var command := QueryCompiler.QueryText(q, c.table, c.marshal, c.rfc3339).value;
          || c.db(command).QueryFailed?
          || c.db(command).iterError.Some?
          || exists j :: 0 <= j < |c.db(command).rows| && DecodeRow(c.db(command).rows[j], c.unmarshal).Err?)
  {
    match QueryCompiler.QueryText(q, c.table, c.marshal, c.rfc3339)
    case Err(_) =>
    case Ok(command) =>
      match c.db(command)
      case QueryFailed(_) =>
      case Rows(rows, _) =>
        var steps := RowSteps(rows, c.unmarshal);
        GatherFails(steps);
        assert forall j :: 0 <= j < |rows| ==> (steps[j].Err? <==> DecodeRow(rows[j], c.unmarshal).Err?);
  }

  /** Every fetched row carries a canonical label set: sorted keys, each once. */
  predicate AllCanonical(fs: seq<Fetched>)
  {
    forall i :: 0 <= i < |fs| ==> Labels.Canonical(fs[i].labels)
  }

  lemma {:induction false} GatherCanonical(steps: seq<Result<seq<Fetched>>>)
    requires forall i :: 0 <= i < |steps| && steps[i].Ok? ==> AllCanonical(steps[i].value)
    ensures Gather(steps).Ok? ==> AllCanonical(Gather(steps).value)
    decreases |steps|
  {
    if steps != [] {
      var n := |steps| - 1;
      assert forall i :: 0 <= i < n ==> steps[..n][i] == steps[i];
      GatherCanonical(steps[..n]);
    }
  }

  lemma DecodedCanonical(rows: seq<Row>, unmarshal: string -> Result<map<string, string>>)
    ensures DecodeRows(rows, unmarshal).Ok? ==> AllCanonical(DecodeRows(rows, unmarshal).value)
  {
    var steps := RowSteps(rows, unmarshal);
    forall i | 0 <= i < |steps| && steps[i].Ok? ensures AllCanonical(steps[i].value) {
      assert steps[i] == RowStep(rows[i], unmarshal);
    }
    GatherCanonical(steps);
  }

  /** So `Labels.KeyIdentifiesSeries` applies to every pair of fetched rows:
      two rows share a series exactly when they have the same metric name and
      the same label map (names and values free of the byte 0xFF). */
  lemma FetchedCanonical(c: Client, qs: seq<QueryCompiler.Query>)
    ensures Fetch(c, qs).Ok? ==> AllCanonical(Fetch(c, qs).value)
  {
    var steps := QuerySteps(c, qs);
    forall i | 0 <= i < |steps| && steps[i].Ok? ensures AllCanonical(steps[i].value) {
      assert steps[i] == QueryRows(c, qs[i]);
      var command := QueryCompiler.QueryText(qs[i], c.table, c.marshal, c.rfc3339).value;
      DecodedCanonical(c.db(command).rows, c.unmarshal);
    }
    GatherCanonical(steps);
  }

  /** The identity key of a row's series. */
  function RowKey(f: Fetched): string
  {
    Labels.IdentityKey(f.labels, f.name)
  }

  /** Two fetched rows go to the same series exactly when they have the same
      metric name and the same label map, as long as names and label text are
      free of the separator byte 0xFF. */
  lemma SameSeriesIff(fs: seq<Fetched>, i: int, j: int)
    requires 0 <= i < |fs| && 0 <= j < |fs| && AllCanonical(fs)
    requires Labels.SeparatorFree(fs[i].labels) && Labels.SeparatorFree(fs[j].labels)
    requires Free(fs[i].name, Labels.Separator) && Free(fs[j].name, Labels.Separator)
    ensures Entries(fs)[i].key == Entries(fs)[j].key
      <==> fs[i].name == fs[j].name && fs[i].labels.labelMap == fs[j].labels.labelMap
  {
    Labels.KeyIdentifiesSeries(fs[i].labels, fs[i].name, fs[j].labels, fs[j].name);
  }

  /** The sample a row contributes: its time as whole milliseconds (Go's
      truncating `UnixNano() / 1000000`) and its value. */
  function RowSample(f: Fetched): Sample
  {
    Sample(Quot(UnixNano(f.time), NanosPerMilli), f.value)
  }

  function LabelOf(m: map<string, string>): string -> Label
  {
    k => Label(k, Lookup(m, k))
  }

  /** The labels a new series gets: `__name__` first, then one label per
      ordered key. */
  function SeriesLabels(name: string, l: Labels.SampleLabels): seq<Label>
  {
    [Label(Labels.NameLabel, name)] + MapSeq(LabelOf(l.labelMap), l.orderedKeys)
  }

  /** For a canonical label set: the name label, then every label of the map
      exactly once in ascending name order, and nothing else. */
  lemma SeriesLabelsShape(name: string, l: Labels.SampleLabels)
    requires Labels.Canonical(l)
    ensures var r := SeriesLabels(name, l);
      && |r| == |l.labelMap| + 1
      && r[0] == Label(Labels.NameLabel, name)
      && (forall i :: 1 <= i < |r| ==> r[i].name in l.labelMap && r[i].value == l.labelMap[r[i].name])
      && (forall k :: k in l.labelMap ==> Label(k, l.labelMap[k]) in r[1..])
      && (forall i, j :: 1 <= i < j < |r| ==> Below(r[i].name, r[j].name))
  {
    var r, keys := SeriesLabels(name, l), l.orderedKeys;
    Labels.OrderedKeysExactlyOnce(keys, l.labelMap);
    assert forall i :: 1 <= i < |r| ==> r[i] == Label(keys[i - 1], Lookup(l.labelMap, keys[i - 1]));
    forall k | k in l.labelMap ensures Label(k, l.labelMap[k]) in r[1..] {
      var i :| 0 <= i < |keys| && keys[i] == k;
      assert r[1..][i] == Label(k, l.labelMap[k]);
    }
  }

  /** `Label` construction for a new series, one ordered key at a time. */
  method NewSeriesLabels(name: string, l: Labels.SampleLabels) returns (pairs: seq<Label>)
    ensures pairs == SeriesLabels(name, l)
  {
    pairs := [Label(Labels.NameLabel, name)];
    for i := 0 to |l.orderedKeys|
      invariant pairs == [Label(Labels.NameLabel, name)] + MapSeq(LabelOf(l.labelMap), l.orderedKeys[..i])
    {
      var k := l.orderedKeys[i];
      MapSeqAppend(LabelOf(l.labelMap), l.orderedKeys[..i], [k]);
      assert l.orderedKeys[..i + 1] == l.orderedKeys[..i] + [k];
      pairs := pairs + [Label(k, Lookup(l.labelMap, k))];
    }
    assert l.orderedKeys[..|l.orderedKeys|] == l.orderedKeys;
  }

  /** What a row contributes to the series map: the identity key of its
      series, the labels a new series gets, and its sample. */
  datatype Entry = Entry(key: string, labels: seq<Label>, sample: Sample)

  function EntryOf(f: Fetched): Entry
  {
    Entry(RowKey(f), SeriesLabels(f.name, f.labels), RowSample(f))
  }

  function Entries(fs: seq<Fetched>): seq<Entry>
  {
    MapSeq((f: Fetched) => EntryOf(f), fs)
  }

  /** One row into the series map: its series is created on first sight with
      the row's labels, and the row's sample is appended to it. */
  function AddRow(m: map<string, TimeSeries>, e: Entry): map<string, TimeSeries>
  {
    if e.key in m then m[e.key := TimeSeries(m[e.key].labels, m[e.key].samples + [e.sample])]
    else m[e.key := TimeSeries(e.labels, [e.sample])]
  }

  /** `labelsToSeries` after the given rows. */
  function Group(es: seq<Entry>): map<string, TimeSeries>
    decreases |es|
  {
    if es == [] then map[] else AddRow(Group(es[..|es| - 1]), es[|es| - 1])
  }

  lemma GroupSnoc(es: seq<Entry>, e: Entry)
    ensures Group(es + [e]) == AddRow(Group(es), e)
  {
    assert (es + [e])[..|es|] == es;
  }

  /** Scanning one more row adds its entry to the series map of the rows
      scanned so far. */
  lemma GroupNextRow(before: seq<Fetched>, current: seq<Fetched>, f: Fetched)
    ensures Group(Entries(before + (current + [f]))) == AddRow(Group(Entries(before + current)), EntryOf(f))
  {
    EntriesSnoc(before + current, f);
    GroupSnoc(Entries(before + current), EntryOf(f));
    assert before + current + [f] == before + (current + [f]);
  }

  /** A row touches its own series only: one more sample, the same labels
      when the series already existed, and every other series unchanged. */
  lemma AddRowTouchesOneSeries(m: map<string, TimeSeries>, e: Entry)
    ensures var r := AddRow(m, e);
      && r.Keys == m.Keys + {e.key}
      && r[e.key].samples == (if e.key in m then m[e.key].samples else []) + [e.sample]
      && r[e.key].labels == (if e.key in m then m[e.key].labels else e.labels)
      && (forall j :: j in m && j != e.key ==> r[j] == m[j])
  {
  }

  /** The identity keys of the given rows. */
  function RowKeys(es: seq<Entry>): set<string>
  {
    set i | 0 <= i < |es| :: es[i].key
  }

  /** Exactly one series per distinct identity key among the rows. */
  lemma {:induction false} GroupKeys(es: seq<Entry>)
    ensures Group(es).Keys == RowKeys(es)
    decreases |es|
  {
    if es != [] {
      var n := |es| - 1;
      var init := es[..n];
      GroupKeys(init);
      forall k | k in RowKeys(es) ensures k in RowKeys(init) + {es[n].key} {
        var i :| 0 <= i < |es| && es[i].key == k;
        if i < n { assert init[i] == es[i]; }
      }
      forall k | k in RowKeys(init) ensures k in RowKeys(es) {
        var i :| 0 <= i < n && init[i].key == k;
        assert es[i] == init[i];
      }
      assert RowKeys(es) == RowKeys(init) + {es[n].key};
    }
  }

  /** The samples of the rows with identity key `k`, in row order. */
  function SamplesOf(es: seq<Entry>, k: string): seq<Sample>
    decreases |es|
  {
    if es == [] then []
    else SamplesOf(es[..|es| - 1], k) + (if es[|es| - 1].key == k then [es[|es| - 1].sample] else [])
  }

  /** Each series holds one sample per row of its key, in row order. */
  lemma {:induction false} GroupSamples(es: seq<Entry>)
    ensures forall k :: k in Group(es) ==> Group(es)[k].samples == SamplesOf(es, k)
    ensures forall k :: k !in Group(es) ==> SamplesOf(es, k) == []
    decreases |es|
  {
    if es != [] {
      GroupSamples(es[..|es| - 1]);
    }
  }

  /** The index of the first row with key `k` (`|es|` when there is none). */
  function FirstWith(es: seq<Entry>, k: string): (n: nat)
    ensures n <= |es|
    ensures n < |es| ==> es[n].key == k
    ensures forall i :: 0 <= i < n ==> es[i].key != k
  {
    if es == [] then 0
    else if es[0].key == k then 0
    else 1 + FirstWith(es[1..], k)
  }

  /** A series' labels are those of the first row with its key: later rows
      never change them. */
  lemma {:induction false} GroupLabels(es: seq<Entry>)
    ensures forall k :: k in Group(es) ==>
      (FirstWith(es, k) < |es| && Group(es)[k].labels == es[FirstWith(es, k)].labels)
    decreases |es|
  {
    if es != [] {
      var n := |es| - 1;
      var init := es[..n];
      GroupLabels(init);
      GroupKeys(init);
      forall k | k in Group(es)
        ensures FirstWith(es, k) < |es| && Group(es)[k].labels == es[FirstWith(es, k)].labels
      {
        if k in Group(init) {
          FirstWithExtend(init, es, k);
        } else {
          forall i | 0 <= i < n ensures es[i].key != k {
            assert es[i] == init[i];
            assert init[i].key in RowKeys(init);
          }
          FirstWithIs(es, k, n);
        }
      }
    }
  }

  /** A first occurrence in a prefix is the first occurrence in the whole. */
  lemma FirstWithExtend(init: seq<Entry>, es: seq<Entry>, k: string)
    requires init <= es && FirstWith(init, k) < |init|
    ensures FirstWith(es, k) == FirstWith(init, k)
  {
    var n := FirstWith(init, k);
    assert es[n] == init[n];
    FirstWithIs(es, k, n);
  }

  /** The first index with key `k` is the one before which no row has it. */
  lemma {:induction false} FirstWithIs(es: seq<Entry>, k: string, n: nat)
    requires n < |es| && es[n].key == k
    requires forall i :: 0 <= i < n ==> es[i].key != k
    ensures FirstWith(es, k) == n
    decreases n
  {
    if n > 0 {
      FirstWithIs(es[1..], k, n - 1);
    }
  }

  /** The number of samples over all series of a map. */
  ghost function SampleCount(m: map<string, TimeSeries>): nat
    decreases m.Keys
  {
    if m.Keys == {} then 0
    else
      var k :| k in m;
      |m[k].samples| + SampleCount(m - {k})
  }

  /** Counting may start from any series. */
  lemma {:induction false} SampleCountFrom(m: map<string, TimeSeries>, k: string)
    requires k in m
    ensures SampleCount(m) == |m[k].samples| + SampleCount(m - {k})
    decreases m.Keys
  {
    var j :| j in m && SampleCount(m) == |m[j].samples| + SampleCount(m - {j});
    if j != k {
      SampleCountFrom(m - {j}, k);
      SampleCountFrom(m - {k}, j);
      assert m - {j} - {k} == m - {k} - {j};
    }
  }

  /** Every row adds exactly one sample: the series hold as many samples as
      there were rows. */
  lemma {:induction false} GroupSampleCount(es: seq<Entry>)
    ensures SampleCount(Group(es)) == |es|
    decreases |es|
  {
    if es != [] {
      var n := |es| - 1;
      var m, e := Group(es[..n]), es[n];
      GroupSampleCount(es[..n]);
      var r := AddRow(m, e);
      SampleCountFrom(r, e.key);
      assert r - {e.key} == m - {e.key};
      if e.key in m {
        SampleCountFrom(m, e.key);
      } else {
        assert m - {e.key} == m;
      }
    }
  }

  lemma EntriesSnoc(fs: seq<Fetched>, f: Fetched)
    ensures Entries(fs + [f]) == Entries(fs) + [EntryOf(f)]
  {
    MapSeqAppend((f: Fetched) => EntryOf(f), fs, [f]);
  }

  /** `resp` lists the series of `m`, each once, in some order. */
  ghost predicate Lists(resp: seq<TimeSeries>, m: map<string, TimeSeries>)
  {
    exists order: seq<string> ::
      && |order| == |resp|
      && multiset(order) == multiset(m.Keys)
      && forall i :: 0 <= i < |order| ==> order[i] in m && resp[i] == m[order[i]]
  }

  /** `Client.Read`: the queries in order, each compiled (`buildCommand`), run
      and its rows scanned into the series map; then the series are listed in
      the map's (unspecified) order as the single result of the response. */
  method Read(c: Client, queries: seq<QueryCompiler.Query>) returns (r: Result<seq<TimeSeries>>)
    ensures r.Err? <==> Fetch(c, queries).Err?
    ensures r.Err? ==> r.error == Fetch(c, queries).error
    ensures r.Ok? ==> Lists(r.value, Group(Entries(Fetch(c, queries).value)))
  {
    var labelsToSeries: map<string, TimeSeries> := map[];
    ghost var fetched: seq<Fetched> := [];
    ghost var steps := QuerySteps(c, queries);
    for i := 0 to |queries|
      invariant Gather(steps[..i]) == Ok(fetched)
      invariant labelsToSeries == Group(Entries(fetched))
    {
      GatherStep(steps, i);
      assert steps[i] == QueryRows(c, queries[i]);
      var command := QueryCompiler.BuildQuery(queries[i], c.table, c.marshal, c.rfc3339);
      if command.Err? {
        GatherStopsAtError(steps, i + 1);
        return Err(command.error);
      }
      var result := c.db(command.value);
      if result.QueryFailed? {
        GatherStopsAtError(steps, i + 1);
        return Err(result.error);
      }
      var scanned := ScanRows(fetched, labelsToSeries, result.rows, c.unmarshal);
      if scanned.Err? {
        GatherStopsAtError(steps, i + 1);
        return Err(scanned.error);
      }
      if result.iterError.Some? {
        GatherStopsAtError(steps, i + 1);
        return Err(result.iterError.value);
      }
      labelsToSeries := scanned.value;
      fetched := fetched + DecodeRows(result.rows, c.unmarshal).value;
    }
    assert steps[..|queries|] == steps;
    var series := ListSeries(labelsToSeries);
    return Ok(series);
  }

  /** The row loop of `Read` for one query: each row scanned, its key built and
      its sample added to the series map; the first row that fails to scan
      ends the read. */
  method ScanRows(ghost before: seq<Fetched>, labelsToSeries: map<string, TimeSeries>, rows: seq<Row>,
                  unmarshal: string -> Result<map<string, string>>)
    returns (r: Result<map<string, TimeSeries>>)
    requires labelsToSeries == Group(Entries(before))
    ensures r.Ok? <==> DecodeRows(rows, unmarshal).Ok?
    ensures r.Err? ==> r.error == DecodeRows(rows, unmarshal).error
    ensures r.Ok? ==> r.value == Group(Entries(before + DecodeRows(rows, unmarshal).value))
  {
    var series := labelsToSeries;
    ghost var current: seq<Fetched> := [];
    ghost var steps := RowSteps(rows, unmarshal);
    assert before + current == before;
    for j := 0 to |rows|
      invariant Gather(steps[..j]) == Ok(current)
      invariant series == Group(Entries(before + current))
    {
      GatherStep(steps, j);
      assert steps[j] == RowStep(rows[j], unmarshal);
      match rows[j] {
        case Unscannable(e) =>
          GatherStopsAtError(steps, j + 1);
          return Err(e);
        case Row(time, name, value, column) =>
          var labels, err := Labels.Scan(NoLabels, column, unmarshal);
          if err.Some? {
            GatherStopsAtError(steps, j + 1);
            return Err(err.value);
          }
          ghost var f := Fetched(time, name, value, labels);
          var key := Labels.Key(labels, name);
          var sample := Sample(Quot(UnixNano(time), NanosPerMilli), value);
          if key in series {
            var ts := series[key];
            series := series[key := TimeSeries(ts.labels, ts.samples + [sample])];
          } else {
            var labelPairs := NewSeriesLabels(name, labels);
            series := series[key := TimeSeries(labelPairs, [sample])];
          }
          GroupNextRow(before, current, f);
          current := current + [f];
      }
    }
    assert steps[..|rows|] == steps;
    return Ok(series);
  }

  /** The closing loop of `Read`: one entry per series, in the map's order. */
  method ListSeries(m: map<string, TimeSeries>) returns (series: seq<TimeSeries>)
    ensures Lists(series, m)
  {
    series := [];
    ghost var order: seq<string> := [];
    var rest := m.Keys;
    while rest != {}
      invariant rest <= m.Keys
      invariant |order| == |series|
      invariant multiset(order) == multiset(m.Keys - rest)
      invariant forall i :: 0 <= i < |order| ==> order[i] in m && series[i] == m[order[i]]
      decreases rest
    {
      var k :| k in rest;
      VisitElement(m.Keys, rest, k);
      series := series + [m[k]];
      order := order + [k];
      rest := rest - {k};
    }
    ListedInOrder(series, m, order, rest);
  }

  /** Once every key has been visited, listing the series of `m` in the order
      the keys were visited gives a response that lists `m`. */
  lemma ListedInOrder(series: seq<TimeSeries>, m: map<string, TimeSeries>, order: seq<string>, rest: set<string>)
    requires rest == {}
    requires |order| == |series| && multiset(order) == multiset(m.Keys - rest)
    requires forall i :: 0 <= i < |order| ==> order[i] in m && series[i] == m[order[i]]
    ensures Lists(series, m)
  {
    assert m.Keys - rest == m.Keys;
  }
}
