/**
 * Building entities from the extracted tables (neo/extract.py). The CSV
 * reader and the JSON loader are not modelled: the NEO table arrives as its
 * rows of text fields, and the close-approach document as its `fields`
 * header and its `data` rows.
 */
module Extract {
  import opened Wrappers
  import opened Models

  /** `k` is the first position of `x` in `xs`. */
  predicate FirstAt(xs: seq<string>, k: nat, x: string) {
    k < |xs| && xs[k] == x && forall j :: 0 <= j < k ==> xs[j] != x
  }

  /** `xs.index(x)`: the first position of `x`, or ValueError when it does not occur. */
  function IndexOf(xs: seq<string>, x: string): (r: Result<nat, Error>)
    ensures r.Failure? <==> x !in xs
    ensures r.Failure? ==> r.error == NotInList(x)
    ensures r.Success? ==> FirstAt(xs, r.value, x)
  {
    if xs == [] then Failure(NotInList(x))
    else if xs[0] == x then Success(0)
    else
      match IndexOf(xs[1..], x)
      case Failure(e) => Failure(e)
      case Success(k) => Success(k + 1)
  }

  /** `row[k]`: the field, or IndexError past the end of the row. */
  function Field(row: seq<string>, k: nat): Result<string, Error> {
    if k < |row| then Success(row[k]) else Failure(IndexOutOfRange(k))
  }

  // ---------------------------------------------------------------------------
  // load_neos

  /** Where the header row puts the four columns `load_neos` reads. */
  datatype NeoColumns = NeoColumns(pdes: nat, name: nat, pha: nat, diameter: nat)

  /**
   * The header lookups, in the source's order `pdes`, `name`, `pha`,
   * `diameter`: each column is found by name (first occurrence), and the
   * first missing name raises.
   */
  function NeoColumnsOf(header: seq<string>): (r: Result<NeoColumns, Error>)
    ensures r.Success? <==> "pdes" in header && "name" in header && "pha" in header && "diameter" in header
    ensures "pdes" !in header ==> r == Failure(NotInList("pdes"))
    ensures "pdes" in header && "name" !in header ==> r == Failure(NotInList("name"))
    ensures "pdes" in header && "name" in header && "pha" !in header ==> r == Failure(NotInList("pha"))
    ensures "pdes" in header && "name" in header && "pha" in header && "diameter" !in header ==>
              r == Failure(NotInList("diameter"))
    ensures r.Success? ==>
              FirstAt(header, r.value.pdes, "pdes") && FirstAt(header, r.value.name, "name")
              && FirstAt(header, r.value.pha, "pha") && FirstAt(header, r.value.diameter, "diameter")
  {
    var pdes :- IndexOf(header, "pdes");
    var name :- IndexOf(header, "name");
    var pha :- IndexOf(header, "pha");
    var diameter :- IndexOf(header, "diameter");
    Success(NeoColumns(pdes, name, pha, diameter))
  }

  /**
   * One data row to one NEO: designation from `pdes`, name from `name`
   * (empty: None), diameter from `diameter` (empty: NaN), and hazardous
   * exactly when `pha` is "Y". The fields are read in the order designation,
   * name, diameter, pha; a row too short for one of them raises IndexError.
   */
  function NeoFromRow(cols: NeoColumns, row: seq<string>, toFloat: FloatParser)
    : (r: Result<NearEarthObject, Error>)
    ensures cols.pdes >= |row| ==> r == Failure(IndexOutOfRange(cols.pdes))
    ensures cols.pdes < |row| && cols.name >= |row| ==> r == Failure(IndexOutOfRange(cols.name))
    ensures cols.pdes < |row| && cols.name < |row| && cols.diameter >= |row| ==>
              r == Failure(IndexOutOfRange(cols.diameter))
    ensures cols.pdes < |row| && cols.name < |row| && cols.diameter < |row| && cols.pha >= |row| ==>
              r == Failure(IndexOutOfRange(cols.pha))
    ensures r.Success? <==>
              cols.pdes < |row| && cols.name < |row| && cols.diameter < |row| && cols.pha < |row|
              && (row[cols.diameter] == "" || toFloat(row[cols.diameter]).Some?)
    ensures r.Success? ==>
              r.value.designation == row[cols.pdes]
              && (r.value.hazardous <==> row[cols.pha] == "Y")
              && r.value.name == (if row[cols.name] == "" then None else Some(row[cols.name]))
              && r.value.diameter == (if row[cols.diameter] == "" then NaN else toFloat(row[cols.diameter]).value)
              && r.value.approaches == Some([])
    ensures cols.pdes < |row| && cols.name < |row| && cols.diameter < |row| && cols.pha < |row|
            && row[cols.diameter] != "" && toFloat(row[cols.diameter]).None? ==>
              r == Failure(InvalidFloat(row[cols.diameter]))
  {
    var designation :- Field(row, cols.pdes);
    var name :- Field(row, cols.name);
    var diameter :- Field(row, cols.diameter);
    var pha :- Field(row, cols.pha);
    NewNearEarthObject(designation, pha == "Y", Some(name), DiameterText(diameter), toFloat)
  }

  /**
   * `load_neos`: the first row is the header and yields no NEO; every later
   * row yields one NEO, in row order. The first exception raised (a missing
   * header name, then the first bad row) is the result.
   */
  method LoadNeos(rows: seq<seq<string>>, toFloat: FloatParser) returns (r: Result<seq<NearEarthObject>, Error>)
    ensures rows == [] ==> r == Success([])
    ensures rows != [] && NeoColumnsOf(rows[0]).Failure? ==> r == Failure(NeoColumnsOf(rows[0]).error)
    ensures rows != [] && NeoColumnsOf(rows[0]).Success? ==>
              var cols := NeoColumnsOf(rows[0]).value;
              (r.Success? <==> forall i :: 1 <= i < |rows| ==> NeoFromRow(cols, rows[i], toFloat).Success?)
              && (r.Success? ==>
                    |r.value| == |rows| - 1
                    && forall i :: 0 <= i < |r.value| ==> Success(r.value[i]) == NeoFromRow(cols, rows[i + 1], toFloat))
              && (r.Failure? ==>
                    exists i :: 1 <= i < |rows| && Failure(r.error) == NeoFromRow(cols, rows[i], toFloat)
                      && forall k :: 1 <= k < i ==> NeoFromRow(cols, rows[k], toFloat).Success?)
  {
    if rows == [] {
      return Success([]);
    }
    var header := NeoColumnsOf(rows[0]);
    if header.Failure? {
      return Failure(header.error);
    }
    var cols := header.value;
    var data: seq<NearEarthObject> := [];
    for i := 1 to |rows|
      invariant |data| == i - 1
      invariant forall k :: 1 <= k < i ==> NeoFromRow(cols, rows[k], toFloat).Success?
      invariant forall k :: 0 <= k < |data| ==> Success(data[k]) == NeoFromRow(cols, rows[k + 1], toFloat)
    {
      var neo := NeoFromRow(cols, rows[i], toFloat);
      if neo.Failure? {
        return Failure(neo.error);
      }
      data := data + [neo.value];
    }
    return Success(data);
  }

  // ---------------------------------------------------------------------------
  // load_approaches

  /** Where the `fields` list puts the four values `load_approaches` reads. */
  datatype ApproachColumns = ApproachColumns(des: nat, cd: nat, dist: nat, vRel: nat)

  /** The `fields` lookups, in the order `des`, `cd`, `dist`, `v_rel`; the first missing name raises. */
  function ApproachColumnsOf(fields: seq<string>): (r: Result<ApproachColumns, Error>)
    ensures r.Success? <==> "des" in fields && "cd" in fields && "dist" in fields && "v_rel" in fields
    ensures "des" !in fields ==> r == Failure(NotInList("des"))
    ensures "des" in fields && "cd" !in fields ==> r == Failure(NotInList("cd"))
    ensures "des" in fields && "cd" in fields && "dist" !in fields ==> r == Failure(NotInList("dist"))
    ensures "des" in fields && "cd" in fields && "dist" in fields && "v_rel" !in fields ==>
              r == Failure(NotInList("v_rel"))
    ensures r.Success? ==>
              FirstAt(fields, r.value.des, "des") && FirstAt(fields, r.value.cd, "cd")
              && FirstAt(fields, r.value.dist, "dist") && FirstAt(fields, r.value.vRel, "v_rel")
  {
    var des :- IndexOf(fields, "des");
    var cd :- IndexOf(fields, "cd");
    var dist :- IndexOf(fields, "dist");
    var vRel :- IndexOf(fields, "v_rel");
    Success(ApproachColumns(des, cd, dist, vRel))
  }

  /**
   * One `data` entry to one close approach, its designation taken from the
   * `des` value. The values are read in the order cd, dist, v_rel, des.
   */
  function ApproachFromRow(cols: ApproachColumns, row: seq<string>, toDate: DateParser, toFloat: FloatParser)
    : (r: Result<CloseApproach, Error>)
    ensures cols.cd >= |row| ==> r == Failure(IndexOutOfRange(cols.cd))
    ensures cols.cd < |row| && cols.dist >= |row| ==> r == Failure(IndexOutOfRange(cols.dist))
    ensures cols.cd < |row| && cols.dist < |row| && cols.vRel >= |row| ==> r == Failure(IndexOutOfRange(cols.vRel))
    ensures cols.cd < |row| && cols.dist < |row| && cols.vRel < |row| && cols.des >= |row| ==>
              r == Failure(IndexOutOfRange(cols.des))
    ensures r.Success? <==>
              cols.cd < |row| && cols.dist < |row| && cols.vRel < |row| && cols.des < |row|
              && toDate(row[cols.cd]).Some? && toFloat(row[cols.dist]).Some? && toFloat(row[cols.vRel]).Some?
    ensures r.Success? ==>
              r.value.designation == row[cols.des] && r.value.neo.None?
              && Some(r.value.time) == toDate(row[cols.cd])
              && Some(r.value.distance) == toFloat(row[cols.dist])
              && Some(r.value.velocity) == toFloat(row[cols.vRel])
    ensures cols.cd < |row| && cols.dist < |row| && cols.vRel < |row| && cols.des < |row| ==>
              var cd, dist, vRel := row[cols.cd], row[cols.dist], row[cols.vRel];
              (toDate(cd).None? ==> r == Failure(InvalidDate(cd)))
              && (toDate(cd).Some? && toFloat(dist).None? ==> r == Failure(InvalidFloat(dist)))
              && (toDate(cd).Some? && toFloat(dist).Some? && toFloat(vRel).None? ==> r == Failure(InvalidFloat(vRel)))
  {
    var time :- Field(row, cols.cd);
    var distance :- Field(row, cols.dist);
    var velocity :- Field(row, cols.vRel);
    var designation :- Field(row, cols.des);
    NewCloseApproach(time, distance, velocity, designation, toDate, toFloat)
  }

  /**
   * `load_approaches`: each entry of `data` yields one close approach, in
   * order. The first exception raised (a missing field name, then the first
   * bad entry) is the result.
   */
  method LoadApproaches(fields: seq<string>, data: seq<seq<string>>, toDate: DateParser, toFloat: FloatParser)
    returns (r: Result<seq<CloseApproach>, Error>)
    ensures ApproachColumnsOf(fields).Failure? ==> r == Failure(ApproachColumnsOf(fields).error)
    ensures ApproachColumnsOf(fields).Success? ==>
              var cols := ApproachColumnsOf(fields).value;
              (r.Success? <==> forall i :: 0 <= i < |data| ==> ApproachFromRow(cols, data[i], toDate, toFloat).Success?)
              && (r.Success? ==>
                    |r.value| == |data|
                    && forall i :: 0 <= i < |r.value| ==>
                         Success(r.value[i]) == ApproachFromRow(cols, data[i], toDate, toFloat))
              && (r.Failure? ==>
                    exists i :: 0 <= i < |data| && Failure(r.error) == ApproachFromRow(cols, data[i], toDate, toFloat)
                      && forall k :: 0 <= k < i ==> ApproachFromRow(cols, data[k], toDate, toFloat).Success?)
  {
    var columns := ApproachColumnsOf(fields);
    if columns.Failure? {
      return Failure(columns.error);
    }
    var cols := columns.value;
    var cad: seq<CloseApproach> := [];
    for i := 0 to |data|
      invariant |cad| == i
      invariant forall k :: 0 <= k < i ==> Success(cad[k]) == ApproachFromRow(cols, data[k], toDate, toFloat)
    {
      var approach := ApproachFromRow(cols, data[i], toDate, toFloat);
      if approach.Failure? {
        return Failure(approach.error);
      }
      cad := cad + [approach.value];
    }
    return Success(cad);
  }
}
