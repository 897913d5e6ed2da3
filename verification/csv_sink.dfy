/** `writeToCsv`: an append-only tabular store. The csv-writer library and the
    file system are abstracted to a map from path to a file holding a header and
    rows; a path in `readOnly` is one the writer cannot write to. */
module CsvSink {
  import opened Results

  /** A cell value: a string or JavaScript `null`. */
  datatype Value = Str(s: string) | Null

  datatype Field = Field(key: string, value: Value)

  /** An object literal: its own properties in insertion order. `Object.keys`
      lists integer-like keys first and the others in insertion order; the keys
      written here (`name`, `url`, `image`) are not integer-like, so it reports
      them in insertion order. */
  type Record = seq<Field>

  datatype CsvFile = CsvFile(header: seq<string>, rows: seq<Record>)

  datatype Sink = Sink(files: map<string, CsvFile>, readOnly: set<string>)

  /** One `{id, title}` entry of csv-writer's `header` option. */
  datatype HeaderCell = HeaderCell(id: string, title: string)

  /** The options passed to `createObjectCsvWriter`. */
  datatype WriterConfig = WriterConfig(path: string, header: seq<HeaderCell>, append: bool)

  datatype CsvError = NoData | WriteFailed

  /** The text of the `Error` each failure throws. */
  function Message(e: CsvError): string {
    match e
    case NoData => "No data to write!"
    case WriteFailed => "Failed to write to csv"
  }

  function Keys(r: Record): (ks: seq<string>)
    ensures |ks| == |r|
    ensures forall i :: 0 <= i < |r| ==> ks[i] == r[i].key
  {
    if |r| == 0 then [] else [r[0].key] + Keys(r[1..])
  }

  function Titles(h: seq<HeaderCell>): (ts: seq<string>)
    ensures |ts| == |h|
    ensures forall i :: 0 <= i < |h| ==> ts[i] == h[i].title
  {
    if |h| == 0 then [] else [h[0].title] + Titles(h[1..])
  }

  /** Rows stored under `path`; none when the file does not exist. */
  function Rows(sink: Sink, path: string): seq<Record> {
    if path in sink.files then sink.files[path].rows else []
  }

  /** The rows under `path` in `before` are still the first rows in `after`. */
  predicate RowsExtend(before: Sink, after: Sink, path: string) {
    |Rows(before, path)| <= |Rows(after, path)| && Rows(after, path)[..|Rows(before, path)|] == Rows(before, path)
  }

  lemma SameFileSameRows(a: Sink, b: Sink, path: string)
    requires Lookup(a, path) == Lookup(b, path)
    ensures Rows(a, path) == Rows(b, path) && RowsExtend(a, b, path)
  {
    assert Rows(b, path)[..|Rows(a, path)|] == Rows(b, path);
  }

  lemma RowsExtendTransitive(a: Sink, b: Sink, c: Sink, path: string)
    requires RowsExtend(a, b, path) && RowsExtend(b, c, path)
    ensures RowsExtend(a, c, path)
  {
    assert Rows(c, path)[..|Rows(a, path)|] == Rows(c, path)[..|Rows(b, path)|][..|Rows(a, path)|];
  }

  /** Every file of `before` keeps its rows, first, in `after`. */
  ghost predicate Grows(before: Sink, after: Sink) {
    forall p :: RowsExtend(before, after, p)
  }

  /** Every path outside `written` is as it was. */
  ghost predicate UntouchedOutside(before: Sink, after: Sink, written: seq<string>) {
    forall p :: p !in written ==> Lookup(after, p) == Lookup(before, p)
  }

  /** One write step keeps every file's earlier rows first: if `after` differs
      from `before` only in `file`, and that file only grew, then everything
      `sink` held is still a prefix in `after`. */
  lemma GrowsStep(sink: Sink, before: Sink, after: Sink, file: string)
    requires Grows(sink, before)
    requires UntouchedOutside(before, after, [file])
    requires RowsExtend(before, after, file)
    ensures Grows(sink, after)
  {
    forall p ensures RowsExtend(sink, after, p) {
      if p != file {
        assert p !in [file];
        SameFileSameRows(before, after, p);
      }
      RowsExtendTransitive(sink, before, after, p);
    }
  }

  /** One write step to `file` leaves untouched every path outside the files
      written so far plus `file`. */
  lemma UntouchedStep(sink: Sink, before: Sink, after: Sink, written: seq<string>, file: string)
    requires UntouchedOutside(sink, before, written)
    requires UntouchedOutside(before, after, [file])
    ensures UntouchedOutside(sink, after, written + [file])
  {
    forall p | p !in written + [file] ensures Lookup(after, p) == Lookup(sink, p) {
      assert p !in written && p !in [file];
    }
  }

  function Lookup(sink: Sink, path: string): Option<CsvFile> {
    if path in sink.files then Some(sink.files[path]) else None
  }

  /** `Object.keys(data[0]).map(key => ({id: key, title: key}))`. */
  function HeaderFor(first: Record): (h: seq<HeaderCell>)
    ensures |h| == |first|
    ensures forall i :: 0 <= i < |h| ==> h[i].id == first[i].key && h[i].title == first[i].key
  {
    if |first| == 0 then [] else [HeaderCell(first[0].key, first[0].key)] + HeaderFor(first[1..])
  }

  /** The writer configuration: header columns from the first record, append
      mode exactly when the file already exists. */
  function WriterFor(sink: Sink, path: string, first: Record): (c: WriterConfig)
    ensures c.path == path
    ensures c.append <==> path in sink.files
    ensures |c.header| == |first|
    ensures forall i :: 0 <= i < |first| ==> c.header[i] == HeaderCell(first[i].key, first[i].key)
  {
    WriterConfig(path, HeaderFor(first), path in sink.files)
  }

  /** `csvWriter.writeRecords(data)`: in append mode the rows go after the
      existing ones and no header is written; otherwise the file is (re)created
      with the header titles followed by the rows. */
  function WriteRecords(sink: Sink, config: WriterConfig, data: seq<Record>): (r: Result<Sink, CsvError>)
    ensures r.Err? <==> config.path in sink.readOnly
    ensures r.Err? ==> r.error == WriteFailed
    ensures r.Ok? ==> r.value.readOnly == sink.readOnly && config.path in r.value.files
    ensures r.Ok? ==> Rows(r.value, config.path) == (if config.append then Rows(sink, config.path) else []) + data
    ensures r.Ok? && !config.append ==> r.value.files[config.path].header == Titles(config.header)
    ensures r.Ok? && config.append ==>
              r.value.files[config.path].header == (if config.path in sink.files then sink.files[config.path].header else [])
    ensures r.Ok? ==> forall p :: p != config.path ==> Lookup(r.value, p) == Lookup(sink, p)
  {
    var path := config.path;
    if path in sink.readOnly then Err(WriteFailed)
    else if config.append then
      // Append mode never writes a header line, not even into a new file.
      var existing := if path in sink.files then sink.files[path] else CsvFile([], []);
      Ok(sink.(files := sink.files[path := existing.(rows := existing.rows + data)]))
    else
      Ok(sink.(files := sink.files[path := CsvFile(Titles(config.header), data)]))
  }

  /** `writeToCsv(data, outputFile)`. A missing or empty batch is refused before
      the store is looked at; a failing writer is reported as WriteFailed;
      otherwise the batch is appended after the rows already there, the header
      is the first record's keys when the file is new and stays as it was when
      the file exists, and no other path changes. */
  function WriteToCsv(sink: Sink, data: Option<seq<Record>>, path: string): (r: Result<Sink, CsvError>)
    ensures (data.None? || |data.value| == 0) ==> r == Err(NoData)
    ensures data.Some? && |data.value| > 0 && path in sink.readOnly ==> r == Err(WriteFailed)
    ensures r.Ok? <==> data.Some? && |data.value| > 0 && path !in sink.readOnly
    ensures r.Err? ==> Message(r.error) == if data.None? || |data.value| == 0 then "No data to write!" else "Failed to write to csv"
    ensures r.Ok? ==> Rows(r.value, path) == Rows(sink, path) + data.value
    ensures r.Ok? ==> path in r.value.files
    ensures r.Ok? ==> r.value.files[path].header ==
                        (if path in sink.files then sink.files[path].header else Keys(data.value[0]))
    ensures r.Ok? ==> r.value.readOnly == sink.readOnly
    ensures r.Ok? ==> forall p :: p != path ==> Lookup(r.value, p) == Lookup(sink, p)
  {
    if data.None? || |data.value| == 0 then Err(NoData)
    else
      var config := WriterFor(sink, path, data.value[0]);
      assert Titles(config.header) == Keys(data.value[0]);
      WriteRecords(sink, config, data.value)
  }

  /** Two batches written one after the other to the same path both stay, in
      order, after the rows already there: the store appends and never
      deduplicates. */
  lemma AppendsAccumulate(sink: Sink, a: seq<Record>, b: seq<Record>, path: string)
    requires |a| > 0 && |b| > 0 && path !in sink.readOnly
    ensures WriteToCsv(sink, Some(a), path).Ok?
    ensures var s1 := WriteToCsv(sink, Some(a), path).value;
      && WriteToCsv(s1, Some(b), path).Ok?
      && Rows(WriteToCsv(s1, Some(b), path).value, path) == Rows(sink, path) + a + b
  {
  }

  /** The header is fixed by the batch that creates the file; a later batch
      with different keys changes neither it nor the rows already written. */
  lemma HeaderFromFirstBatch(sink: Sink, a: seq<Record>, b: seq<Record>, path: string)
    requires |a| > 0 && |b| > 0 && path !in sink.readOnly && path !in sink.files
    ensures var s1 := WriteToCsv(sink, Some(a), path).value;
      && WriteToCsv(s1, Some(b), path).Ok?
      && WriteToCsv(s1, Some(b), path).value.files[path] == CsvFile(Keys(a[0]), a + b)
  {
  }
}
