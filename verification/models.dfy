/** The two entities of the data set (models.py): a near-Earth object and
    one of its close approaches to Earth, with the coercions their
    constructors apply to raw field values. */
module Models {
  import opened Common
  import opened Text
  import opened Helpers
  import opened Floats

  /** A `NearEarthObject`. Python's `float('nan')` for an unknown diameter is
      `None` here. `approaches` lists the NEO's close approaches as positions
      in the database's sequence of approaches; it is empty until the database
      links the two collections. */
  datatype NearEarthObject = NearEarthObject(
    designation: string,
    name: Option<string>,
    diameter: Option<real>,
    hazardous: bool,
    approaches: seq<nat>)

  /** A `CloseApproach`. `time` is `None` when the record had no time;
      an unknown distance or velocity is `None`; `neo` is the linked NEO. */
  datatype CloseApproach = CloseApproach(
    designation: string,
    time: Option<Timestamp>,
    distance: Option<real>,
    velocity: Option<real>,
    neo: Option<NearEarthObject>)

  /** What a constructor receives for a numeric field: a float, a NaN, or a
      string that `float()` is asked to convert. */
  datatype RawNumber = Finite(x: real) | NotANumber | Literal(text: string)

  /** `float(x)` inside `try ... except ValueError`, as the constructors do
      (models.py:58-61 and 162-169): an unparsable value becomes unknown. */
  function ToFloat(raw: RawNumber): (r: Option<real>)
    ensures raw.Finite? ==> r == Some(raw.x)
    ensures raw.NotANumber? ==> r.None?
    ensures raw.Literal? && r.Some? ==>
      exists l :: WellFormed(l) && LiteralText(l) == FloatStrip(raw.text) && LiteralValue(l) == r.value
    ensures raw.Literal? ==>
      forall l :: WellFormed(l) && LiteralText(l) == FloatStrip(raw.text) ==> r == Some(LiteralValue(l))
  {
    match raw
    case Finite(x) => Some(x)
    case NotANumber => None
    case Literal(text) => ParseFloat(text)
  }

  /** The hazard code test of models.py:63-68, `hazardous.lower() == "y"`.
      Python's `str.lower()` never shortens a string and maps no character
      other than `Y` and `y` onto `y`, so comparing the ASCII lower case
      with `"y"` decides the same strings. */
  function IsHazardCode(code: string): (r: bool)
    ensures r <==> code == "y" || code == "Y"
  {
    var lowered := Lower(code);
    assert lowered == "y" ==> code == [code[0]];
    lowered == "y"
  }

  /** `NearEarthObject.__init__` (models.py:39-70). */
  function NewNearEarthObject(designation: string, name: string, diameter: RawNumber, hazardous: string): (neo: NearEarthObject)
    ensures neo.designation == designation
    ensures neo.name.None? <==> IsBlank(name)
    ensures neo.name.Some? ==> neo.name.value == name
    ensures diameter.Finite? ==> neo.diameter == Some(diameter.x)
    ensures diameter.NotANumber? ==> neo.diameter.None?
    ensures diameter.Literal? ==> neo.diameter == ParseFloat(diameter.text)
    ensures neo.hazardous <==> hazardous == "y" || hazardous == "Y"
    ensures neo.approaches == []
  {
    NearEarthObject(
      designation,
      if Strip(name) == "" then None else Some(name),
      ToFloat(diameter),
      IsHazardCode(hazardous),
      [])
  }

  /** `CloseApproach.__init__` (models.py:150-171). An empty or missing
      designation becomes `""`; an empty or missing time becomes `None`
      without being parsed; any other time goes through `cd_to_datetime`,
      whose `ValueError` the constructor does not catch. */
  function NewCloseApproach(designation: Option<string>, time: Option<string>, distance: RawNumber,
                            velocity: RawNumber, neo: Option<NearEarthObject>): (r: Result<CloseApproach, ParseError>)
    ensures r.Err? <==> time.Some? && time.value != "" && CdToDatetime(time.value).Err?
    ensures r.Err? ==> r.error == CdToDatetime(time.value).error
    ensures r.Ok? ==> && (r.value.designation == "" <==> designation.None? || designation == Some(""))
                      && (designation.Some? ==> r.value.designation == designation.value)
                      && (r.value.time.None? <==> time.None? || time == Some(""))
                      && (r.value.time.Some? ==> CdToDatetime(time.value) == Ok(r.value.time.value))
                      && r.value.distance == ToFloat(distance)
                      && r.value.velocity == ToFloat(velocity)
                      && r.value.neo == neo
  {
    var parsed: Result<Option<Timestamp>, ParseError> :=
      if time.None? || time.value == "" then Ok(None)
      else match CdToDatetime(time.value)
        case Ok(t) => Ok(Some(t))
        case Err(e) => Err(e);
    match parsed
    case Err(e) => Err(e)
    case Ok(t) =>
      Ok(CloseApproach(
        if designation.Some? then designation.value else "",
        t,
        ToFloat(distance),
        ToFloat(velocity),
        neo))
  }

  /** `CloseApproach.time_str` (models.py:200-221). */
  function TimeStr(approach: CloseApproach): (r: string)
    ensures r == "" <==> approach.time.None?
    ensures approach.time.Some? ==> r == DatetimeToStr(approach.time.value)
  {
    if approach.time.Some? then DatetimeToStr(approach.time.value) else ""
  }

  /** The dictionary `NearEarthObject.serialize` returns. */
  datatype NeoRecord = NeoRecord(designation: string, name: string, diameterKm: Option<real>, hazardous: bool)

  /** `NearEarthObject.serialize` (models.py:120-131), the definition that
      overrides the one at models.py:72-79. Each field is written as
      `field or default`: a missing name becomes `""`, and because `0.0` is
      falsy a zero diameter is written as NaN, as an unknown one is. */
  function Serialize(neo: NearEarthObject): (r: NeoRecord)
    ensures r.designation == neo.designation
    ensures neo.name.None? ==> r.name == ""
    ensures neo.name.Some? ==> r.name == neo.name.value
    ensures r.diameterKm.Some? ==> r.diameterKm == neo.diameter && r.diameterKm.value != 0.0
    ensures neo.diameter.Some? && neo.diameter.value != 0.0 ==> r.diameterKm == neo.diameter
    ensures r.hazardous == neo.hazardous
  {
    NeoRecord(
      if neo.designation != "" then neo.designation else "",
      if neo.name.Some? && neo.name.value != "" then neo.name.value else "",
      if neo.diameter.Some? && neo.diameter.value != 0.0 then neo.diameter else None,
      neo.hazardous)
  }
}
