/**
 * What `ScaleWeight::from_str` promises: which check decides each error,
 * which bytes it reads, and that the unit suffix written by `Display`
 * decodes back to its unit.
 */
module ScaleProperties {
  import opened Wrappers
  import opened AsciiText
  import opened Scale

  /** The four checks of a line, each on its own field. */
  predicate LengthValid(s: string) {
    |s| >= MinLineLength
  }

  predicate FlagValid(s: string)
    requires LengthValid(s)
  {
    (s[0] == 'S' && s[1] == 'T') || (s[0] == 'U' && s[1] == 'S')
  }

  predicate WeightValid(s: string, parseF32: string -> Option<F32>)
    requires LengthValid(s)
  {
    parseF32(ValueField(s)).Some?
  }

  predicate UnitValid(s: string)
    requires LengthValid(s)
  {
    UnitField(s) in {"oz", "lb", "g", "kg"}
  }

  /** Each error is returned exactly when its check is the first one that fails. */
  lemma ErrorPrecedence(s: string, now: SystemTime, parseF32: string -> Option<F32>)
    requires IsAscii(s)
    ensures FromStr(s, now, parseF32) == Err(InvalidString) <==> !LengthValid(s)
    ensures FromStr(s, now, parseF32) == Err(InvalidStable) <==>
      LengthValid(s) && !FlagValid(s)
    ensures FromStr(s, now, parseF32) == Err(InvalidWeight) <==>
      LengthValid(s) && FlagValid(s) && !WeightValid(s, parseF32)
    ensures FromStr(s, now, parseF32) == Err(InvalidUnit) <==>
      LengthValid(s) && FlagValid(s) && WeightValid(s, parseF32) && !UnitValid(s)
    ensures FromStr(s, now, parseF32).Ok? <==>
      LengthValid(s) && FlagValid(s) && WeightValid(s, parseF32) && UnitValid(s)
  {
    if LengthValid(s) {
      FlagValidIff(s);
      UnitValidIff(UnitField(s));
    }
  }

  /** The flag check compares the first two bytes with `ST` and `US`. */
  lemma FlagValidIff(s: string)
    requires LengthValid(s)
    ensures FlagValid(s) <==> s[..2] == "ST" || s[..2] == "US"
  {
    assert |s[..2]| == 2 && s[..2][0] == s[0] && s[..2][1] == s[1];
  }

  /** A trimmed unit field names a unit exactly when it is one of the four suffixes. */
  lemma UnitValidIff(t: string)
    ensures DecodeUnit(t).Some? <==> t in {"oz", "lb", "g", "kg"}
  {
    if t == "oz" { assert Display(Ounces) == t; }
    else if t == "lb" { assert Display(Pounds) == t; }
    else if t == "g" { assert Display(Grams) == t; }
    else if t == "kg" { assert Display(Kilograms) == t; }
  }

  /** On a long enough line, `ST` reads as stable and `US` as unstable; any other flag is refused whatever the other fields hold. */
  lemma StabilityFlag(s: string, now: SystemTime, parseF32: string -> Option<F32>)
    requires IsAscii(s) && LengthValid(s)
    ensures s[..2] == "ST" && FromStr(s, now, parseF32).Ok? ==> FromStr(s, now, parseF32).value.stable
    ensures s[..2] == "US" && FromStr(s, now, parseF32).Ok? ==> !FromStr(s, now, parseF32).value.stable
    ensures s[..2] != "ST" && s[..2] != "US" ==> FromStr(s, now, parseF32) == Err(InvalidStable)
  {
    ErrorPrecedence(s, now, parseF32);
    assert |s[..2]| == 2 && s[..2][0] == s[0] && s[..2][1] == s[1];
    assert FlagValid(s) ==> s[..2] == "ST" || s[..2] == "US";
  }

  /** A bad value on a line with a good flag is reported as such, even when the unit is bad too. */
  lemma BadWeightBeforeBadUnit(s: string, now: SystemTime, parseF32: string -> Option<F32>)
    requires IsAscii(s) && LengthValid(s) && FlagValid(s)
    requires !WeightValid(s, parseF32) && !UnitValid(s)
    ensures FromStr(s, now, parseF32) == Err(InvalidWeight)
  {
    ErrorPrecedence(s, now, parseF32);
  }

  /** The float parser sees only the trimmed value field: two parsers that agree on it give the same outcome. */
  lemma OnlyValueFieldIsParsed(s: string, now: SystemTime, p1: string -> Option<F32>, p2: string -> Option<F32>)
    requires IsAscii(s) && LengthValid(s)
    requires p1(ValueField(s)) == p2(ValueField(s))
    ensures FromStr(s, now, p1) == FromStr(s, now, p2)
  {
  }

  /** Two lines that agree outside bytes 2..6 and byte 14. */
  predicate AgreeOnReadBytes(s: string, s': string) {
    |s| == |s'| && forall i :: 0 <= i < |s| && !(2 <= i < 6) && i != 14 ==> s[i] == s'[i]
  }

  /** Bytes 2..6 and byte 14 are never read: changing them changes neither a reading nor an error. */
  lemma IgnoredBytes(s: string, s': string, now: SystemTime, parseF32: string -> Option<F32>)
    requires IsAscii(s) && IsAscii(s')
    requires AgreeOnReadBytes(s, s')
    ensures FromStr(s, now, parseF32) == FromStr(s', now, parseF32)
  {
    if |s| >= MinLineLength {
      assert s[..2] == s'[..2];
      assert s[6..14] == s'[6..14];
      assert s[15..] == s'[15..];
    }
  }

  /** `Display` gives the four units four different suffixes. */
  lemma DisplayInjective(u: ScaleUnit, v: ScaleUnit)
    ensures Display(u) == Display(v) <==> u == v
  {
  }

  /**
   * A line whose unit field is a unit's suffix, padded with whitespace on
   * either side, names that unit; with a good flag and value it decodes to
   * a reading in that unit.
   */
  lemma UnitSuffixRoundTrip(s: string, u: ScaleUnit, p: string, q: string, now: SystemTime, parseF32: string -> Option<F32>)
    requires IsAscii(s) && LengthValid(s)
    requires AllWhitespace(p) && AllWhitespace(q) && s[15..] == p + Display(u) + q
    ensures UnitField(s) == Display(u) && DecodeUnit(UnitField(s)) == Some(u)
    ensures FlagValid(s) && WeightValid(s, parseF32) ==>
      FromStr(s, now, parseF32).Ok? && FromStr(s, now, parseF32).value.unit == u
  {
    TrimPadded(p, Display(u), q);
    assert UnitField(s) == Display(u);
    if FlagValid(s) && WeightValid(s, parseF32) {
      ErrorPrecedence(s, now, parseF32);
      var r := FromStr(s, now, parseF32);
      assert UnitValid(s);
      DisplayInjective(r.value.unit, u);
    }
  }

  /**
   * A line laid out as the parser expects: flag, four filler bytes, an
   * eight-byte value field, one separator byte and the unit suffix.
   */
  function Line(stable: bool, valueText: string, u: ScaleUnit): (s: string)
    requires |valueText| == 8
    ensures |s| >= MinLineLength
  {
    (if stable then "ST" else "US") + "    " + valueText + " " + Display(u)
  }

  /** Where the fields of `Line` sit. */
  lemma LineFields(stable: bool, valueText: string, u: ScaleUnit)
    requires |valueText| == 8 && IsAscii(valueText)
    ensures var s := Line(stable, valueText, u);
      IsAscii(s) && s[..2] == (if stable then "ST" else "US") && s[6..14] == valueText && s[15..] == Display(u)
  {
    var flag: string := if stable then "ST" else "US";
    var head := flag + "    ";
    var tail := " " + Display(u);
    var s := Line(stable, valueText, u);
    assert s == head + valueText + tail;
    assert |head| == 6 && |tail| == |Display(u)| + 1;
    assert s[..2] == flag by {
      assert s[..2] == head[..2];
    }
    assert s[6..14] == valueText;
    assert s[15..] == Display(u) by {
      assert s[14..] == tail;
    }
    forall i | 0 <= i < |s| ensures s[i] < 128 as char {
      if i < 6 {
        assert s[i] == head[i];
      } else if i < 14 {
        assert s[i] == valueText[i - 6];
      } else {
        assert s[i] == tail[i - 14];
      }
    }
  }

  /** Reading a well-laid-out line gives back its flag, value and unit, stamped with the time it was read. */
  lemma LineRoundTrip(stable: bool, valueText: string, u: ScaleUnit, v: F32, now: SystemTime, parseF32: string -> Option<F32>)
    requires |valueText| == 8 && IsAscii(valueText)
    requires parseF32(Trim(valueText)) == Some(v)
    ensures IsAscii(Line(stable, valueText, u))
    ensures FromStr(Line(stable, valueText, u), now, parseF32) == Ok(ScaleWeight(u, v, stable, now))
  {
    var s := Line(stable, valueText, u);
    LineFields(stable, valueText, u);
    assert FlagValid(s) by {
      assert s[0] == s[..2][0] && s[1] == s[..2][1];
    }
    assert WeightValid(s, parseF32) by {
      assert ValueField(s) == Trim(valueText);
    }
    assert s[15..] == [] + Display(u) + [];
    UnitSuffixRoundTrip(s, u, [], [], now, parseF32);
    var r := FromStr(s, now, parseF32);
    assert r.value.stable == stable;
    assert r.value.value == v;
  }

  /** The unit field a line gets when its suffix starts at byte 14 instead of 15: the suffix without its first letter. */
  function ShiftedSuffix(u: ScaleUnit): (t: string)
    ensures t == Display(u)[1..]
  {
    match u
    case Pounds => "b"
    case Ounces => "z"
    case Grams => ""
    case Kilograms => "g"
  }

  /**
   * A line whose unit suffix starts one byte early, at byte 14, loses the
   * suffix's first letter: `kg` then reads as grams, and every other unit
   * is refused.
   */
  lemma SuffixAtByte14(s: string, u: ScaleUnit, q: string, now: SystemTime, parseF32: string -> Option<F32>)
    requires IsAscii(s) && LengthValid(s) && FlagValid(s) && WeightValid(s, parseF32)
    requires AllWhitespace(q) && s[14..] == Display(u) + q
    ensures UnitField(s) == ShiftedSuffix(u)
    ensures u == Kilograms ==> FromStr(s, now, parseF32).Ok? && FromStr(s, now, parseF32).value.unit == Grams
    ensures u != Kilograms ==> FromStr(s, now, parseF32) == Err(InvalidUnit)
  {
    var t := ShiftedSuffix(u);
    assert UnitField(s) == t by {
      assert s[15..] == s[14..][1..];
      assert s[15..] == [] + t + q;
      TrimPadded([], t, q);
    }
    ErrorPrecedence(s, now, parseF32);
    UnitValidIff(t);
    if u == Kilograms {
      var r := FromStr(s, now, parseF32);
      assert r.Ok?;
      DisplayInjective(r.value.unit, Grams);
    }
  }
}
