/**
 * Near-Earth objects and their close approaches (neo/models.py).
 *
 * Both entities are values. The two back-references that the database fills
 * in are kept without a cycle: an NEO lists its close approaches by their
 * positions (handles) in the database's approach sequence, and a close
 * approach holds the linked NEO itself.
 */
module Models {
  import opened Wrappers
  import opened Timestamps

  /** A Python float: a number or the not-a-number value. No arithmetic is modelled. */
  datatype Float = Num(value: real) | NaN

  /** `float(text)`: a number, or None where Python raises ValueError. */
  type FloatParser = string -> Option<Float>

  /** `cd_to_datetime(text)`: a time, or None where the helper raises. */
  type DateParser = string -> Option<Timestamp>

  /** The exceptions the core raises. */
  datatype Error =
    | NotInList(item: string)              // list.index: ValueError
    | IndexOutOfRange(index: nat)          // row[k] past the end: IndexError
    | InvalidFloat(text: string)           // float(text): ValueError
    | InvalidDate(text: string)            // cd_to_datetime(text) fails
    | UnknownDesignation(key: string)      // dict[key] on a missing key: KeyError

  /** A position in the database's sequence of close approaches. */
  type Handle = nat

  /** Python truthiness of an optional string: present and not empty. */
  predicate Truthy(s: Option<string>) {
    s.Some? && s.value != ""
  }

  datatype NearEarthObject = NearEarthObject(
    designation: string,
    name: Option<string>,
    diameter: Float,              // NaN: diameter unknown
    hazardous: bool,
    approaches: Option<seq<Handle>>)

  datatype CloseApproach = CloseApproach(
    designation: string,
    time: Timestamp,
    distance: Float,
    velocity: Float,
    neo: Option<NearEarthObject>)

  /**
   * The `diameter` argument as a caller may pass it: text (what `load_neos`
   * passes), a number (the default is NaN), or None.
   */
  datatype DiameterArg = DiameterText(text: string) | DiameterNumber(number: Float) | DiameterNone

  /** Python truthiness of the diameter argument: NaN is true, zero and the empty text are false. */
  predicate DiameterTruthy(d: DiameterArg) {
    match d
    case DiameterText(t) => t != ""
    case DiameterNumber(x) => x != Num(0.0)
    case DiameterNone => false
  }

  /**
   * `NearEarthObject(designation, hazardous, name, diameter)`. An absent or
   * empty name becomes None. A false diameter (None, empty text, zero)
   * becomes the NaN sentinel; any other diameter is converted by `float`,
   * which keeps a number and may fail on text. Each new object starts with
   * its own empty collection of approaches.
   */
  function NewNearEarthObject(designation: string, hazardous: bool, name: Option<string>,
                              diameter: DiameterArg, toFloat: FloatParser)
    : (r: Result<NearEarthObject, Error>)
    ensures r.Failure? <==> diameter.DiameterText? && diameter.text != "" && toFloat(diameter.text).None?
    ensures r.Failure? ==> r.error == InvalidFloat(diameter.text)
    ensures r.Success? ==> r.value.designation == designation && r.value.hazardous == hazardous
    ensures r.Success? ==> (r.value.name.Some? <==> Truthy(name))
    ensures r.Success? && r.value.name.Some? ==> r.value.name == name
    ensures r.Success? && !DiameterTruthy(diameter) ==> r.value.diameter == NaN
    ensures r.Success? && diameter.DiameterText? && diameter.text != "" ==>
              Some(r.value.diameter) == toFloat(diameter.text)
    ensures r.Success? && diameter.DiameterNumber? && diameter.number != Num(0.0) ==>
              r.value.diameter == diameter.number
    ensures r.Success? ==> r.value.approaches == Some([])
  {
    var d :- match diameter
             case DiameterText(t) =>
               if t == "" then Success(NaN)
               else (match toFloat(t)
                     case Some(x) => Success(x)
                     case None => Failure(InvalidFloat(t)))
             case DiameterNumber(x) => if x == Num(0.0) then Success(NaN) else Success(x)
             case DiameterNone => Success(NaN);
    Success(NearEarthObject(designation, if Truthy(name) then name else None, d, hazardous, Some([])))
  }

  /**
   * `fullname`: the designation, followed by the name in parentheses when
   * there is one.
   */
  function FullName(neo: NearEarthObject): (r: string)
    ensures neo.designation <= r
    ensures r == neo.designation <==> !Truthy(neo.name)
    ensures Truthy(neo.name) ==>
              |r| == |neo.designation| + |neo.name.value| + 3
              && r[|neo.designation|..|neo.designation| + 2] == " ("
              && r[|neo.designation| + 2..|r| - 1] == neo.name.value && r[|r| - 1] == ')'
  {
    if Truthy(neo.name) then neo.designation + " (" + neo.name.value + ")" else neo.designation
  }

  /**
   * `CloseApproach(time, distance, velocity, designation)`: the time goes
   * through `cd_to_datetime`, then distance and velocity through `float`;
   * the first failure is raised. A new approach is not linked to an NEO.
   */
  function NewCloseApproach(time: string, distance: string, velocity: string, designation: string,
                            toDate: DateParser, toFloat: FloatParser)
    : (r: Result<CloseApproach, Error>)
    ensures r.Success? <==> toDate(time).Some? && toFloat(distance).Some? && toFloat(velocity).Some?
    ensures toDate(time).None? ==> r == Failure(InvalidDate(time))
    ensures toDate(time).Some? && toFloat(distance).None? ==> r == Failure(InvalidFloat(distance))
    ensures toDate(time).Some? && toFloat(distance).Some? && toFloat(velocity).None? ==>
              r == Failure(InvalidFloat(velocity))
    ensures r.Success? ==> r.value.designation == designation && r.value.neo == None
    ensures r.Success? ==> Some(r.value.time) == toDate(time)
                           && Some(r.value.distance) == toFloat(distance)
                           && Some(r.value.velocity) == toFloat(velocity)
  {
    match (toDate(time), toFloat(distance), toFloat(velocity))
    case (None, _, _) => Failure(InvalidDate(time))
    case (Some(_), None, _) => Failure(InvalidFloat(distance))
    case (Some(_), Some(_), None) => Failure(InvalidFloat(velocity))
    case (Some(t), Some(d), Some(v)) => Success(CloseApproach(designation, t, d, v, None))
  }

  // ---------------------------------------------------------------------------
  // Serialisation

  /** The values `json.dump` is given: dicts keep their keys in insertion order. */
  datatype Json =
    | Null
    | Bool(b: bool)
    | Number(f: Float)
    | Str(s: string)
    | Object(members: seq<(string, Json)>)

  function Keys(members: seq<(string, Json)>): seq<string> {
    seq(|members|, i requires 0 <= i < |members| => members[i].0)
  }

  /** The value stored under `key` (the first, should there be several). */
  function Get(members: seq<(string, Json)>, key: string): Option<Json> {
    if members == [] then None
    else if members[0].0 == key then Some(members[0].1)
    else Get(members[1..], key)
  }

  /** `Get` finds the value at the first position that carries the key. */
  lemma {:induction false} GetFirst(members: seq<(string, Json)>, key: string, k: nat)
    requires k < |members| && members[k].0 == key
    requires forall i :: 0 <= i < k ==> members[i].0 != key
    ensures Get(members, key) == Some(members[k].1)
  {
    if k > 0 {
      GetFirst(members[1..], key, k - 1);
    }
  }

  const NeoKeys: seq<string> := ["designation", "name", "diameter_km", "potentially_hazardous"]
  const ApproachKeys: seq<string> := ["datetime_utc", "distance_au", "velocity_km_s", "neo"]

  function NameJson(name: Option<string>): Json {
    match name
    case None => Null
    case Some(s) => Str(s)
  }

  /** `NearEarthObject.serialize`: the four fields, the name null when absent. */
  function SerializeNeo(neo: NearEarthObject): (j: Json)
    ensures j.Object? && Keys(j.members) == NeoKeys
    ensures j.members[1] == ("name", Null) <==> neo.name.None?
  {
    Object([("designation", Str(neo.designation)),
            ("name", NameJson(neo.name)),
            ("diameter_km", Number(neo.diameter)),
            ("potentially_hazardous", Bool(neo.hazardous))])
  }

  /**
   * `CloseApproach.serialize`: the time as sixteen characters (no seconds),
   * distance, velocity, and the linked NEO's serialisation or null.
   */
  function SerializeApproach(a: CloseApproach): (j: Json)
    ensures j.Object? && Keys(j.members) == ApproachKeys
    ensures j.members[3] == ("neo", Null) <==> a.neo.None?
    ensures j.members[0].1.Str? && |j.members[0].1.s| == 16
  {
    Object([("datetime_utc", Str(Format(a.time))),
            ("distance_au", Number(a.distance)),
            ("velocity_km_s", Number(a.velocity)),
            ("neo", match a.neo
                    case None => Null
                    case Some(n) => SerializeNeo(n))])
  }

  // ---------------------------------------------------------------------------
  // Reading serialised records back

  /** What a serialised NEO carries. */
  datatype NeoRecord = NeoRecord(designation: string, name: Option<string>, diameterKm: Float,
                                 potentiallyHazardous: bool)

  /** What a serialised close approach carries. */
  datatype ApproachRecord = ApproachRecord(datetimeUtc: Timestamp, distanceAu: Float,
                                           velocityKmS: Float, neo: Option<NeoRecord>)

  function NeoRecordOf(neo: NearEarthObject): NeoRecord {
    NeoRecord(neo.designation, neo.name, neo.diameter, neo.hazardous)
  }

  function ApproachRecordOf(a: CloseApproach): ApproachRecord {
    ApproachRecord(a.time, a.distance, a.velocity,
                   match a.neo
                   case None => None
                   case Some(n) => Some(NeoRecordOf(n)))
  }

  function DecodeNeo(j: Json): Option<NeoRecord> {
    if !j.Object? then None
    else
      match (Get(j.members, "designation"), Get(j.members, "name"),
             Get(j.members, "diameter_km"), Get(j.members, "potentially_hazardous"))
      case (Some(Str(d)), Some(Null), Some(Number(x)), Some(Bool(h))) =>
        Some(NeoRecord(d, None, x, h))
      case (Some(Str(d)), Some(Str(n)), Some(Number(x)), Some(Bool(h))) =>
        Some(NeoRecord(d, Some(n), x, h))
      case _ => None
  }

  function DecodeApproach(j: Json): Option<ApproachRecord> {
    if !j.Object? then None
    else
      match (Get(j.members, "datetime_utc"), Get(j.members, "distance_au"),
             Get(j.members, "velocity_km_s"), Get(j.members, "neo"))
      case (Some(Str(s)), Some(Number(d)), Some(Number(v)), Some(n)) =>
        (match Parse(s)
         case None => None
         case Some(t) =>
           if n == Null then Some(ApproachRecord(t, d, v, None))
           else match DecodeNeo(n)
                case None => None
                case Some(r) => Some(ApproachRecord(t, d, v, Some(r))))
      case _ => None
  }

  /** Serialising an NEO and reading it back gives its four fields. */
  lemma DecodeSerializedNeo(neo: NearEarthObject)
    ensures DecodeNeo(SerializeNeo(neo)) == Some(NeoRecordOf(neo))
  {
    var m := SerializeNeo(neo).members;
    GetFirst(m, "designation", 0);
    GetFirst(m, "name", 1);
    GetFirst(m, "diameter_km", 2);
    GetFirst(m, "potentially_hazardous", 3);
  }

  /**
   * Serialising a close approach and reading it back reproduces its time,
   * distance, velocity and the nested NEO's fields, or null when unlinked.
   */
  lemma DecodeSerializedApproach(a: CloseApproach)
    requires IsDatetime(a.time)
    ensures DecodeApproach(SerializeApproach(a)) == Some(ApproachRecordOf(a))
  {
    var m := SerializeApproach(a).members;
    GetFirst(m, "datetime_utc", 0);
    GetFirst(m, "distance_au", 1);
    GetFirst(m, "velocity_km_s", 2);
    GetFirst(m, "neo", 3);
    ParseFormat(a.time);
    if a.neo.Some? {
      DecodeSerializedNeo(a.neo.value);
    }
  }
}
