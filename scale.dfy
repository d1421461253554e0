/**
 * The weight telegram parser of the scale logger: the closed enums the
 * logger exchanges with its user interface, the display suffix of each
 * weight unit, and `ScaleWeight::from_str`, which decodes one fixed-layout
 * ASCII line from the scale into a reading or one of four classified errors.
 *
 * Line layout (byte offsets): 0..2 stability flag `ST` or `US`; 2..6 not
 * read; 6..14 the value, whitespace-padded; 14 not read; 15.. the unit
 * suffix, whitespace-padded. A line is at least 16 bytes long.
 */
module Scale {
  import opened Wrappers
  import opened AsciiText

  /** A 32-bit IEEE-754 float, kept as its bit pattern: no float arithmetic is modelled. */
  type F32 = bv32

  /** A wall-clock instant; the parser stamps a reading with the one it is given. */
  type SystemTime = int

  datatype ScaleUnit = Pounds | Ounces | Grams | Kilograms

  /** One decoded reading. */
  datatype ScaleWeight = ScaleWeight(unit: ScaleUnit, value: F32, stable: bool, time: SystemTime)

  datatype WeightConversionError = InvalidString | InvalidStable | InvalidWeight | InvalidUnit

  /** What the acquisition worker reports to the user interface. */
  datatype ScaleStatus = OpenSucceeded(portName: string) | OpenFailed(portName: string) | Weight(weight: ScaleWeight) | Disconnected

  /** What the user interface asks of the acquisition worker. */
  datatype SerialCommand = OpenPort(portName: string) | Start | Stop

  /** The minimum length of a line, in bytes. */
  const MinLineLength := 16

  /** The canonical suffix of a unit (its `Display` implementation). */
  function Display(u: ScaleUnit): (r: string)
    ensures 1 <= |r| <= 2
    ensures forall i :: 0 <= i < |r| ==> 'a' <= r[i] <= 'z'
    ensures Unpadded(r)
  {
    match u
    case Pounds => "lb"
    case Ounces => "oz"
    case Grams => "g"
    case Kilograms => "kg"
  }

  /** The unit named by an already trimmed suffix, if any: the inverse of `Display`. */
  function DecodeUnit(t: string): (r: Option<ScaleUnit>)
    ensures forall u :: r == Some(u) <==> Display(u) == t
  {
    match t
    case "oz" => Some(Ounces)
    case "lb" => Some(Pounds)
    case "g" => Some(Grams)
    case "kg" => Some(Kilograms)
    case _ => None
  }

  /** The trimmed value field, bytes 6..14: the only text handed to the float parser. */
  function ValueField(s: string): (r: string)
    requires |s| >= MinLineLength
    ensures |r| <= 8 && Unpadded(r)
    ensures PaddedAt(s[6..14], r, LeadingWhitespace(s[6..14]))
  {
    TrimKeepsPaddedCore(s[6..14]);
    Trim(s[6..14])
  }

  /** The trimmed unit field, byte 15 to the end. */
  function UnitField(s: string): (r: string)
    requires |s| >= MinLineLength
    ensures |r| <= |s| - 15 && Unpadded(r)
    ensures PaddedAt(s[15..], r, LeadingWhitespace(s[15..]))
  {
    TrimKeepsPaddedCore(s[15..]);
    Trim(s[15..])
  }

  /**
   * `ScaleWeight::from_str`: decode one line. The checks run in the order
   * length, stability flag, value, unit, and the first that fails decides
   * the error. `parseF32` stands for Rust's `f32` parser and `now` for
   * `SystemTime::now()`.
   */
  function FromStr(s: string, now: SystemTime, parseF32: string -> Option<F32>): (r: Result<ScaleWeight, WeightConversionError>)
    requires IsAscii(s)
    ensures r == Err(InvalidString) <==> |s| < MinLineLength
    ensures r.Ok? ==> r.value.time == now
    ensures r.Ok? ==> (r.value.stable <==> s[..2] == "ST") && (!r.value.stable <==> s[..2] == "US")
    ensures r.Ok? ==> parseF32(ValueField(s)) == Some(r.value.value)
    ensures r.Ok? ==> Display(r.value.unit) == UnitField(s)
  {
    if |s| < MinLineLength then Err(InvalidString)
    else
      var flag := s[..2];
      if flag != "ST" && flag != "US" then Err(InvalidStable)
      else
        var stable := flag == "ST";
        match parseF32(ValueField(s))
        case None => Err(InvalidWeight)
        case Some(value) =>
          match DecodeUnit(UnitField(s))
          case None => Err(InvalidUnit)
          case Some(unit) => Ok(ScaleWeight(unit, value, stable, now))
  }
}
