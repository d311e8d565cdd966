/** `generateCSV`, `writeCSV` and `writeAllCSVs` (lib/csv-writer.js): records become rows
    of cells under a header taken from the mapping, and each category of a batch is
    written to its own file. Reading mapping files, the `csv-stringify` call, path joining
    and writing files are given as an environment. */
module CsvWriter {
  import opened Wrappers
  import opened Text
  import opened Json
  import opened Expressions
  import opened Substitution

  /* ---------- generateCSV ---------- */

  /** One cell: null and undefined give "", arrays and objects their JSON text, anything
      else `String(value)`. */
  function Cell(v: Value, host: Host): string {
    if IsNullish(v) then ""
    else if v.Arr? || v.Obj? then host.jsonText(v)
    else ToText(v, host)
  }

  /** `columns.map(col => …)` for one record. */
  function Row(record: Record, columns: seq<string>, host: Host): (r: seq<string>)
    ensures |r| == |columns|
  {
    seq(|columns|, j requires 0 <= j < |columns| => Cell(Get(Obj(record), columns[j]), host))
  }

  /** A raw record after the three stages, in program order: `transformRecord`, then
      `applyEnumMappings`, then `replaceNames`. */
  function Prepared(raw: Value, mapping: seq<(string, Value)>, host: Host, names: map<string, Value>): Record {
    Renamed(ApplyEnumMappings(Transformed(raw, mapping, host), host), names)
  }

  /** What `generateCSV` reaches: nothing to write, an exception, or the row matrix handed
      to `stringify`. */
  datatype CsvOutcome = NoData | Raised | Rows(rows: seq<seq<string>>)

  /** `!data || data.length === 0` */
  predicate NoRecords(data: Value) {
    !Truthy(data) || Get(data, "length") == Num(0.0)
  }

  /** `generateCSV(data, mapping)` up to the row matrix. Data that is neither empty nor an
      array throws at `data.map`. */
  function GeneratedRows(data: Value, mapping: seq<(string, Value)>, host: Host, names: map<string, Value>)
    : CsvOutcome
  {
    if NoRecords(data) then NoData
    else if !data.Arr? then Raised
    else
      var columns := Columns(mapping);
      Rows([columns] + seq(|data.elems|, i requires 0 <= i < |data.elems| =>
        Row(Prepared(data.elems[i], mapping, host, names), columns, host)))
  }

  /** `data.map(record => transformRecord(record, mapping))` */
  method TransformAll(records: seq<Value>, mapping: seq<(string, Value)>, host: Host) returns (out: seq<Record>)
    ensures out == seq(|records|, i requires 0 <= i < |records| => Transformed(records[i], mapping, host))
  {
    out := [];
    for i := 0 to |records|
      invariant out == seq(i, j requires 0 <= j < i => Transformed(records[j], mapping, host))
    {
      var t := TransformRecord(records[i], mapping, host);
      out := out + [t];
    }
  }

  /** The loop that pushes one row per record after the header. */
  method PushRows(columns: seq<string>, records: seq<Record>, host: Host) returns (output: seq<seq<string>>)
    ensures output == [columns] + seq(|records|, i requires 0 <= i < |records| => Row(records[i], columns, host))
  {
    output := [columns];
    for i := 0 to |records|
      invariant output == [columns] + seq(i, j requires 0 <= j < i => Row(records[j], columns, host))
    {
      output := output + [Row(records[i], columns, host)];
    }
  }

  /** `generateCSV(data, mapping)`: the three `map` stages, then the header and the
      rows. */
  method GenerateCsv(data: Value, mapping: seq<(string, Value)>, host: Host, names: map<string, Value>)
    returns (out: CsvOutcome)
    ensures out == GeneratedRows(data, mapping, host, names)
  {
    if !Truthy(data) || Get(data, "length") == Num(0.0) {
      return NoData;
    }
    if !data.Arr? {
      return Raised;
    }
    var records := data.elems;
    var columns := Columns(mapping);
    var transformed := TransformAll(records, mapping, host);
    var mapped := seq(|transformed|, i requires 0 <= i < |transformed| => ApplyEnumMappings(transformed[i], host));
    var renamed := ReplaceNames(mapped, names);
    forall j | 0 <= j < |records| ensures renamed[j] == Prepared(records[j], mapping, host, names) {
      assert renamed[j] == Renamed(mapped[j], names);
      assert mapped[j] == ApplyEnumMappings(transformed[j], host);
    }
    var output := PushRows(columns, renamed, host);
    return Rows(output);
  }

  /** The outcome by kind of data: empty or falsy data writes nothing; a non-empty array
      gives a header plus one row per record, all as wide as the header, and the header
      is the mapping's columns in declaration order without `i18nkey`; anything else
      throws. */
  lemma GeneratedRowsShape(data: Value, mapping: seq<(string, Value)>, host: Host, names: map<string, Value>)
    ensures GeneratedRows(data, mapping, host, names).NoData? <==> NoRecords(data)
    ensures GeneratedRows(data, mapping, host, names).Rows? <==> data.Arr? && |data.elems| > 0
    ensures GeneratedRows(data, mapping, host, names).Rows? ==>
      var rows := GeneratedRows(data, mapping, host, names).rows;
      && |rows| == |data.elems| + 1
      && rows[0] == Columns(mapping)
      && rows[0] == KeysAt(mapping, Positions(KeyFlags(mapping)))
      && "i18nkey" !in rows[0]
      && forall i :: 0 <= i < |rows| ==> |rows[i]| == |rows[0]|
  {
    if data.Arr? && |data.elems| > 0 {
      assert Get(data, "length") == Num(|data.elems| as real);
    }
    ColumnsInOrder(mapping);
  }

  /** For each mapping entry, whether its key is a column (every key but `i18nkey`). */
  function KeyFlags(mapping: seq<(string, Value)>): (r: seq<bool>)
    ensures |r| == |mapping|
  {
    seq(|mapping|, i requires 0 <= i < |mapping| => mapping[i].0 != "i18nkey")
  }

  /** The keys of the mapping entries at the given positions, in that order. */
  function KeysAt(mapping: seq<(string, Value)>, ps: seq<nat>): (r: seq<string>)
    requires forall j :: 0 <= j < |ps| ==> ps[j] < |mapping|
    ensures |r| == |ps|
  {
    seq(|ps|, j requires 0 <= j < |ps| => mapping[ps[j]].0)
  }

  /** `Object.keys(mapping).filter(key => key !== 'i18nkey')`: the header is the keys of
      the non-`i18nkey` entries, in declaration order. */
  lemma {:induction false} ColumnsInOrder(mapping: seq<(string, Value)>)
    ensures Columns(mapping) == KeysAt(mapping, Positions(KeyFlags(mapping)))
    decreases |mapping|
  {
    if mapping != [] {
      var n := |mapping| - 1;
      var init := mapping[..n];
      ColumnsInOrder(init);
      var flags := KeyFlags(mapping);
      assert flags[..n] == KeyFlags(init);
      var prev := Positions(KeyFlags(init));
      assert KeysAt(mapping, prev) == KeysAt(init, prev);
      if flags[n] {
        assert Positions(flags) == prev + [n];
        assert KeysAt(mapping, prev + [n]) == KeysAt(mapping, prev) + [mapping[n].0];
      } else {
        assert Positions(flags) == prev;
      }
    }
  }

  /** A mapping is an object, so its keys are distinct; then so are the header's columns. */
  lemma ColumnsDistinct(mapping: seq<(string, Value)>)
    requires forall i, j :: 0 <= i < j < |mapping| ==> mapping[i].0 != mapping[j].0
    ensures forall a, b :: 0 <= a < b < |Columns(mapping)| ==> Columns(mapping)[a] != Columns(mapping)[b]
  {
    ColumnsInOrder(mapping);
    var ps := Positions(KeyFlags(mapping));
    forall a, b | 0 <= a < b < |Columns(mapping)|
      ensures Columns(mapping)[a] != Columns(mapping)[b]
    {
      assert ps[a] < ps[b];
    }
  }

  /** The value behind a cell: the transformed value, put through the enum table when the
      column is `舰种`, `类型` or `国家`, and then through the name table. */
  lemma PreparedField(raw: Value, mapping: seq<(string, Value)>, host: Host, names: map<string, Value>, col: string)
    ensures var t := Transformed(raw, mapping, host);
      Get(Obj(Prepared(raw, mapping, host, names)), col) ==
        if col !in t then Undefined
        else if col == ShipTypeField then NameFor(EnumColumn(t, col, ShipTypes, host), names)
        else if col == GroupField then NameFor(EnumColumn(t, col, Groups, host), names)
        else if col == NationField then NameFor(EnumColumn(t, col, Nations, host), names)
        else NameFor(t[col], names)
  {
    var t := Transformed(raw, mapping, host);
    EnumPassFrame(t, ShipTypes, Groups, Nations, host);
  }

  /** A column the transformation leaves unset (a concatenation with no `(…)` group)
      gives an empty cell. */
  lemma UnsetColumnEmptyCell(raw: Value, mapping: seq<(string, Value)>, host: Host, names: map<string, Value>, i: nat)
    requires DistinctKeys(mapping)
    requires i < |mapping| && mapping[i].0 != "i18nkey"
    requires EvalExpression(raw, mapping[i].1, host).None?
    ensures Cell(Get(Obj(Prepared(raw, mapping, host, names)), mapping[i].0), host) == ""
  {
    TransformedColumns(raw, mapping, host);
    PreparedField(raw, mapping, host, names, mapping[i].0);
  }

  /* ---------- writeCSV and writeAllCSVs ---------- */

  /** What the program gets from outside: the parsed mapping file of a category (None
      when it is missing, unreadable or falsy), the text `stringify` makes of a row
      matrix, `path.join`, whether `writeFileSync` of a text to a path succeeds, the
      engine's text conversions, and the name table. */
  datatype Env = Env(
    loadMapping: string -> Option<Entries>,
    csvText: seq<seq<string>> -> string,
    joinPath: (string, string) -> string,
    writeFile: (string, string) -> bool,
    host: Host,
    names: map<string, Value>)

  /** The byte-order mark put before the CSV text. */
  const Bom: string := "\U{FEFF}"

  /** The text `writeCSV` hands to `writeFileSync`, if it gets that far: nothing when
      `generateCSV` throws or returns "". */
  function TextToWrite(data: Value, mapping: seq<(string, Value)>, env: Env): Option<string> {
    match GeneratedRows(data, mapping, env.host, env.names)
    case Rows(rows) => if env.csvText(rows) == "" then None else Some(Bom + env.csvText(rows))
    case _ => None
  }

  /** `writeCSV(filepath, data, mapping)`: whether it reports success. */
  function CsvWritten(filepath: string, data: Value, mapping: seq<(string, Value)>, env: Env): bool {
    match TextToWrite(data, mapping, env)
    case None => false
    case Some(text) => env.writeFile(filepath, text)
  }

  /** `writeCSV(filepath, data, mapping)` */
  method WriteCsv(filepath: string, data: Value, mapping: seq<(string, Value)>, env: Env) returns (ok: bool)
    ensures ok == CsvWritten(filepath, data, mapping, env)
  {
    var generated := GenerateCsv(data, mapping, env.host, env.names);
    if !generated.Rows? {
      return false;
    }
    var csv := env.csvText(generated.rows);
    if csv == "" {
      return false;
    }
    ok := env.writeFile(filepath, Bom + csv);
  }

  /** Success is reported exactly when `generateCSV` returns rows whose CSV text is not
      empty and the write of the BOM followed by that text succeeds; it needs a non-empty
      record array. */
  lemma CsvWrittenMeans(filepath: string, data: Value, mapping: seq<(string, Value)>, env: Env)
    ensures CsvWritten(filepath, data, mapping, env) <==>
      && GeneratedRows(data, mapping, env.host, env.names).Rows?
      && var rows := GeneratedRows(data, mapping, env.host, env.names).rows;
         env.csvText(rows) != "" && env.writeFile(filepath, Bom + env.csvText(rows))
    ensures CsvWritten(filepath, data, mapping, env) ==> data.Arr? && |data.elems| > 0
  {
    GeneratedRowsShape(data, mapping, env.host, env.names);
  }

  /** `results` of `writeAllCSVs`. */
  datatype Report = Report(success: nat, failed: nat, files: seq<string>)

  /** `join(outputDir, `${category}.csv`)` */
  function OutputPath(outputDir: string, category: string, env: Env): string {
    env.joinPath(outputDir, category + ".csv")
  }

  /** Whether one category is written: its mapping loads and `writeCSV` succeeds. */
  predicate CategoryWritten(outputDir: string, category: string, data: Value, env: Env) {
    match env.loadMapping(category)
    case None => false
    case Some(mapping) => CsvWritten(OutputPath(outputDir, category, env), data, mapping, env)
  }

  /** The report after the given categories, in order. */
  function Tally(outputDir: string, allData: seq<(string, Value)>, env: Env): Report
    decreases |allData|
  {
    if allData == [] then Report(0, 0, [])
    else
      var prev := Tally(outputDir, allData[..|allData| - 1], env);
      var (category, data) := allData[|allData| - 1];
      if CategoryWritten(outputDir, category, data, env)
      then Report(prev.success + 1, prev.failed, prev.files + [OutputPath(outputDir, category, env)])
      else Report(prev.success, prev.failed + 1, prev.files)
  }

  /** `writeAllCSVs(allData, outputDir)`: a failure is counted and the loop goes on. */
  method WriteAllCsvs(allData: seq<(string, Value)>, outputDir: string, env: Env) returns (results: Report)
    ensures results == Tally(outputDir, allData, env)
  {
    results := Report(0, 0, []);
    for i := 0 to |allData|
      invariant results == Tally(outputDir, allData[..i], env)
    {
      assert allData[..i + 1][..i] == allData[..i];
      var (category, data) := allData[i];
      var mapping := env.loadMapping(category);
      if mapping.None? {
        results := results.(failed := results.failed + 1);
        continue;
      }
      var filepath := OutputPath(outputDir, category, env);
      var success := WriteCsv(filepath, data, mapping.value, env);
      if success {
        results := results.(success := results.success + 1, files := results.files + [filepath]);
      } else {
        results := results.(failed := results.failed + 1);
      }
    }
    assert allData[..|allData|] == allData;
  }

  /** The positions of the set flags, in increasing order, and all of them. */
  function Positions(flags: seq<bool>): (r: seq<nat>)
    ensures forall j :: 0 <= j < |r| ==> r[j] < |flags| && flags[r[j]]
    ensures forall j, k :: 0 <= j < k < |r| ==> r[j] < r[k]
    ensures forall i :: 0 <= i < |flags| && flags[i] ==> i in r
    decreases |flags|
  {
    if flags == [] then []
    else
      var n := |flags| - 1;
      var prev := Positions(flags[..n]);
      assert forall i :: 0 <= i < n ==> flags[..n][i] == flags[i];
      if flags[n] then prev + [n] else prev
  }

  /** For each category of the batch, whether it was written. */
  function WrittenFlags(outputDir: string, allData: seq<(string, Value)>, env: Env): (r: seq<bool>)
    ensures |r| == |allData|
  {
    seq(|allData|, i requires 0 <= i < |allData| => CategoryWritten(outputDir, allData[i].0, allData[i].1, env))
  }

  /** The positions of the categories that were written, in increasing order. */
  function WrittenPositions(outputDir: string, allData: seq<(string, Value)>, env: Env): seq<nat> {
    Positions(WrittenFlags(outputDir, allData, env))
  }

  /** The output paths of the categories, in order. */
  function OutputPaths(outputDir: string, allData: seq<(string, Value)>, env: Env): (r: seq<string>)
    ensures |r| == |allData|
  {
    seq(|allData|, i requires 0 <= i < |allData| => OutputPath(outputDir, allData[i].0, env))
  }

  /** The report counting, in order, the items whose flag is set as written to their path
      and the others as failed. */
  function Counted(flags: seq<bool>, paths: seq<string>): Report
    requires |flags| == |paths|
    decreases |flags|
  {
    if flags == [] then Report(0, 0, [])
    else
      var n := |flags| - 1;
      var prev := Counted(flags[..n], paths[..n]);
      if flags[n] then Report(prev.success + 1, prev.failed, prev.files + [paths[n]])
      else Report(prev.success, prev.failed + 1, prev.files)
  }

  /** Every item is counted once, and `files` holds the paths at the set flags, in order. */
  lemma {:induction false} CountedAccounts(flags: seq<bool>, paths: seq<string>)
    requires |flags| == |paths|
    ensures var report := Counted(flags, paths);
      var written := Positions(flags);
      && report.success + report.failed == |flags|
      && report.success == |report.files| == |written|
      && forall j :: 0 <= j < |written| ==> report.files[j] == paths[written[j]]
    decreases |flags|
  {
    if flags != [] {
      var n := |flags| - 1;
      CountedAccounts(flags[..n], paths[..n]);
      var prev := Counted(flags[..n], paths[..n]);
      var before := Positions(flags[..n]);
      if flags[n] {
        assert Positions(flags) == before + [n];
        forall j | 0 <= j < |before|
          ensures (prev.files + [paths[n]])[j] == paths[(before + [n])[j]]
        {
          assert paths[..n][before[j]] == paths[before[j]];
        }
      } else {
        assert Positions(flags) == before;
        forall j | 0 <= j < |before|
          ensures prev.files[j] == paths[before[j]]
        {
          assert paths[..n][before[j]] == paths[before[j]];
        }
      }
    }
  }

  /** `Tally` counts the written flags of the categories against their output paths. */
  lemma {:induction false} TallyCounted(outputDir: string, allData: seq<(string, Value)>, env: Env)
    ensures Tally(outputDir, allData, env) == Counted(WrittenFlags(outputDir, allData, env), OutputPaths(outputDir, allData, env))
    decreases |allData|
  {
    if allData != [] {
      var n := |allData| - 1;
      var prevData := allData[..n];
      TallyCounted(outputDir, prevData, env);
      var flags := WrittenFlags(outputDir, allData, env);
      var paths := OutputPaths(outputDir, allData, env);
      assert flags[..n] == WrittenFlags(outputDir, prevData, env);
      assert paths[..n] == OutputPaths(outputDir, prevData, env);
    }
  }

  /** Every category is counted once, as a success or a failure; `files` holds, in
      category order, exactly the output paths of the categories written. */
  lemma TallyAccounts(outputDir: string, allData: seq<(string, Value)>, env: Env)
    ensures var report := Tally(outputDir, allData, env);
      var written := WrittenPositions(outputDir, allData, env);
      && report.success + report.failed == |allData|
      && report.success == |report.files| == |written|
      && forall j :: 0 <= j < |written| ==> report.files[j] == OutputPath(outputDir, allData[written[j]].0, env)
  {
    var flags := WrittenFlags(outputDir, allData, env);
    var paths := OutputPaths(outputDir, allData, env);
    TallyCounted(outputDir, allData, env);
    CountedAccounts(flags, paths);
  }
}
