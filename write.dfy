/**
 * Writing a stream of close approaches (neo/write.py). The file sinks are
 * not modelled: the CSV output is its sequence of rows, each a sequence of
 * the Python values `csv.DictWriter` prints, and the JSON output is the list
 * handed to `json.dump`.
 */
module Write {
  import opened Wrappers
  import opened Timestamps
  import opened Models

  /** A value in a CSV row dict. The csv writer prints `None` as the empty string. */
  datatype CsvValue = CsvText(s: string) | CsvFloat(f: Float) | CsvNone

  const FieldNames: seq<string> :=
    ["datetime_utc", "distance_au", "velocity_km_s", "designation", "name", "diameter_km", "potentially_hazardous"]

  /** `str(b)` for a bool. */
  function BoolText(b: bool): string {
    if b then "True" else "False"
  }

  function NameValue(name: Option<string>): CsvValue {
    match name
    case None => CsvNone
    case Some(s) => CsvText(s)
  }

  /**
   * The dict written for one result: the approach's own fields, then the
   * NEO's; without an NEO the three NEO fields are empty and the hazard flag
   * is the text "False".
   */
  function CsvRecord(a: CloseApproach): (row: map<string, CsvValue>)
    ensures row.Keys == {"datetime_utc", "distance_au", "velocity_km_s", "designation", "name", "diameter_km", "potentially_hazardous"}
    ensures row["datetime_utc"] == CsvText(Format(a.time)) && |Format(a.time)| == 16
    ensures row["distance_au"] == CsvFloat(a.distance) && row["velocity_km_s"] == CsvFloat(a.velocity)
    ensures a.neo.None? ==>
              row["designation"] == CsvText("") && row["name"] == CsvText("")
              && row["diameter_km"] == CsvText("") && row["potentially_hazardous"] == CsvText("False")
    ensures a.neo.Some? ==>
              row["designation"] == CsvText(a.neo.value.designation)
              && row["name"] == NameValue(a.neo.value.name)
              && row["diameter_km"] == CsvFloat(a.neo.value.diameter)
              && row["potentially_hazardous"] == CsvText(BoolText(a.neo.value.hazardous))
  {
    map["datetime_utc" := CsvText(Format(a.time)),
        "distance_au" := CsvFloat(a.distance),
        "velocity_km_s" := CsvFloat(a.velocity),
        "designation" := if a.neo.Some? then CsvText(a.neo.value.designation) else CsvText(""),
        "name" := if a.neo.Some? then NameValue(a.neo.value.name) else CsvText(""),
        "diameter_km" := if a.neo.Some? then CsvFloat(a.neo.value.diameter) else CsvText(""),
        "potentially_hazardous" := if a.neo.Some? then CsvText(BoolText(a.neo.value.hazardous)) else CsvText("False")]
  }

  /** A dict's value for a field; `DictWriter` writes the empty string for a missing key. */
  function ValueFor(row: map<string, CsvValue>, f: string): CsvValue {
    if f in row then row[f] else CsvText("")
  }

  /** `DictWriter.writerow`: the dict's values in the order of the field names. */
  function WriteRow(fieldnames: seq<string>, row: map<string, CsvValue>): (cells: seq<CsvValue>)
    ensures |cells| == |fieldnames|
  {
    seq(|fieldnames|, c requires 0 <= c < |fieldnames| => ValueFor(row, fieldnames[c]))
  }

  /** `csv.DictReader` on one line: each field name paired with the value below it. */
  function ReadRow(fieldnames: seq<string>, cells: seq<CsvValue>): map<string, CsvValue>
    requires |cells| == |fieldnames|
  {
    if fieldnames == [] then map[]
    else ReadRow(fieldnames[..|fieldnames| - 1], cells[..|cells| - 1])[fieldnames[|fieldnames| - 1] := cells[|cells| - 1]]
  }

  /** Reading back a written row gives, for each field name, the dict's value for it. */
  lemma {:induction false} ReadWrittenRow(fieldnames: seq<string>, row: map<string, CsvValue>)
    ensures ReadRow(fieldnames, WriteRow(fieldnames, row)) == map f | f in fieldnames :: ValueFor(row, f)
  {
    if fieldnames != [] {
      var p := fieldnames[..|fieldnames| - 1];
      var last := fieldnames[|fieldnames| - 1];
      assert WriteRow(fieldnames, row)[..|fieldnames| - 1] == WriteRow(p, row);
      ReadWrittenRow(p, row);
      assert fieldnames == p + [last];
      var lhs := ReadRow(fieldnames, WriteRow(fieldnames, row));
      var rhs := map f | f in fieldnames :: ValueFor(row, f);
      assert lhs.Keys == rhs.Keys;
      forall f | f in lhs ensures lhs[f] == rhs[f] {
      }
    }
  }

  /**
   * Each CSV line puts every value under the header naming it: reading a
   * written row back against the header gives the row dict.
   */
  lemma CsvRowRoundTrip(a: CloseApproach)
    ensures ReadRow(FieldNames, WriteRow(FieldNames, CsvRecord(a))) == CsvRecord(a)
  {
    var row := CsvRecord(a);
    ReadWrittenRow(FieldNames, row);
    var m := map f | f in FieldNames :: ValueFor(row, f);
    assert m.Keys == row.Keys;
  }

  /** The header line `writeheader` emits: each field name as text. */
  function Header(): (cells: seq<CsvValue>)
    ensures |cells| == |FieldNames|
    ensures forall c :: 0 <= c < |FieldNames| ==> cells[c] == CsvText(FieldNames[c])
  {
    seq(|FieldNames|, c requires 0 <= c < |FieldNames| => CsvText(FieldNames[c]))
  }

  /**
   * `write_to_csv`: the header line first, then one line per result, in
   * result order.
   */
  method WriteToCsv(results: seq<CloseApproach>) returns (lines: seq<seq<CsvValue>>)
    ensures |lines| == |results| + 1
    ensures lines[0] == Header()
    ensures forall k :: 0 <= k < |results| ==> lines[k + 1] == WriteRow(FieldNames, CsvRecord(results[k]))
  {
    lines := [Header()];
    for k := 0 to |results|
      invariant |lines| == k + 1 && lines[0] == Header()
      invariant forall j :: 0 <= j < k ==> lines[j + 1] == WriteRow(FieldNames, CsvRecord(results[j]))
    {
      var row := CsvRecord(results[k]);
      lines := lines + [WriteRow(FieldNames, row)];
    }
  }

  /** `write_to_json`: the list of each result's serialisation, in result order. */
  function WriteToJson(results: seq<CloseApproach>): (data: seq<Json>)
    ensures |data| == |results|
    ensures forall k :: 0 <= k < |results| ==> data[k] == SerializeApproach(results[k])
  {
    seq(|results|, k requires 0 <= k < |results| => SerializeApproach(results[k]))
  }

  /** Reading a JSON list back: every element must decode. */
  function ReadJson(data: seq<Json>): Option<seq<ApproachRecord>> {
    if data == [] then Some([])
    else
      match (DecodeApproach(data[0]), ReadJson(data[1..]))
      case (Some(r), Some(rs)) => Some([r] + rs)
      case _ => None
  }

  function Records(results: seq<CloseApproach>): (rs: seq<ApproachRecord>)
    ensures |rs| == |results|
  {
    seq(|results|, k requires 0 <= k < |results| => ApproachRecordOf(results[k]))
  }

  /**
   * Writing results to JSON and reading the list back gives each result's
   * time, distance, velocity and NEO fields, in result order.
   */
  lemma {:induction false} JsonRoundTrip(results: seq<CloseApproach>)
    requires forall k :: 0 <= k < |results| ==> IsDatetime(results[k].time)
    ensures ReadJson(WriteToJson(results)) == Some(Records(results))
  {
    if results != [] {
      DecodeSerializedApproach(results[0]);
      assert WriteToJson(results)[1..] == WriteToJson(results[1..]);
      JsonRoundTrip(results[1..]);
      assert Records(results) == [ApproachRecordOf(results[0])] + Records(results[1..]);
    }
  }
}
