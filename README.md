# Scale telegram parser

A Dafny model of the weight-telegram parser of the scale logger
(`src/scale.rs`). The scale sends fixed-layout ASCII lines. `ScaleWeight::from_str`
turns one line into a reading (unit, value, stability flag, time stamp) or into one
of four classified errors. The model also covers the unit suffixes that
`ScaleUnit`'s `Display` writes, and the closed enums the logger exchanges with
its user interface (`ScaleStatus`, `SerialCommand`).

Line layout, by byte offset:

| bytes | field | rule |
|---|---|---|
| 0..2 | stability flag | `ST` is stable, `US` is unstable, anything else is `InvalidStable` |
| 2..6 | filler | never read |
| 6..14 | value | trimmed, handed to the `f32` parser; a failure is `InvalidWeight` |
| 14 | separator | never read |
| 15.. | unit suffix | trimmed; `oz`, `lb`, `g`, `kg`, anything else is `InvalidUnit` |

A line shorter than 16 bytes is `InvalidString`. The checks run in the order
length, flag, value, unit, and the first that fails decides the error.

Files:

- `wrappers.dfy`: module `Wrappers`, the `Option` and `Result` datatypes.
- `ascii_text.dfy`: module `AsciiText`, the ASCII domain and Rust's `str::trim`
  restricted to it (ASCII whitespace is 0x09..0x0D and 0x20). It also proves what
  trimming keeps and removes.
- `scale.dfy`: module `Scale`, the datatypes of `src/scale.rs`, `Display`, the unit
  decoding and `FromStr`.
- `scale_properties.dfy`: module `ScaleProperties`, the properties of `FromStr`.
  These are error precedence, the stability flag, the bytes that are never read,
  the unit round trip, the round trip of a well-laid-out line, and what happens
  when the unit suffix starts one byte early.

A line whose unit suffix starts at byte 14 instead of 15, such as
`ST    12.50   lb `, is `InvalidUnit` (its unit field is `b`), and
`US    -3.00   kg ` reads as grams (its unit field is `g`);
`ScaleProperties.SuffixAtByte14` states this for every unit. A line with the
suffix at byte 15, such as `ST    12.50    lb`, is covered by
`ScaleProperties.LineRoundTrip`.

Data types of `src/scale.rs`, all in module `Scale`, each with the same
variants and fields in source order:

| Dafny datatype | source | notes |
|---|---|---|
| `ScaleUnit` | src/scale.rs:4-10 | `Pounds`, `Ounces`, `Grams`, `Kilograms` |
| `ScaleWeight` | src/scale.rs:23-29 | `unit`, `value`, `stable`, `time`; `f32` is kept as a `bv32` bit pattern (`F32`) and `SystemTime` as an `int` |
| `WeightConversionError` | src/scale.rs:31-37 | `InvalidString`, `InvalidStable`, `InvalidWeight`, `InvalidUnit` |
| `ScaleStatus` | src/scale.rs:92-98 | `OpenSucceeded(portName)`, `OpenFailed(portName)`, `Weight(weight)`, `Disconnected` |
| `SerialCommand` | src/scale.rs:100-105 | `OpenPort(portName)`, `Start`, `Stop` |

## Model

| member | source | states |
|---|---|---|
| `AsciiText.Trim` | src/scale.rs:57-65 | `trim` returns text that is no longer than its input and has no whitespace at either end |
| `AsciiText.TrimKeepsPaddedCore` | src/scale.rs:57 | what `trim` removes is whitespace, before and after the kept text, which sits in the input at the offset of the first non-whitespace byte |
| `AsciiText.TrimPadded` | src/scale.rs:65 | trimming a field made of whitespace, unpadded text and whitespace gives back exactly that text |
| `AsciiText.TrimCharacterization` | src/scale.rs:57 | `trim(s) == t` if and only if `t` has no whitespace at either end and `s` is `t` surrounded by whitespace |
| `Scale.ValueField` | src/scale.rs:57 | the value text `s[6..14].trim()` is at most 8 bytes, has no whitespace at either end, and sits inside bytes 6..14 with only whitespace around it |
| `Scale.UnitField` | src/scale.rs:65 | the unit text `s[15..].trim()` is at most `len - 15` bytes, has no whitespace at either end, and sits inside bytes 15.. with only whitespace around it |
| `Scale.Display` | src/scale.rs:12-21 | each unit's suffix is one or two lower-case letters, so it has no whitespace to trim |
| `Scale.DecodeUnit` | src/scale.rs:65-81 | the unit match yields unit `u` exactly when the trimmed field equals `Display(u)`, so it is the inverse of `Display` and refuses every other text |
| `Scale.FromStr` | src/scale.rs:40-89 | total on ASCII lines; `InvalidString` exactly when the line is shorter than 16 bytes; a reading carries the supplied time, is stable exactly when bytes 0..2 are `ST` and unstable exactly when they are `US`, holds the value the float parser gives for the trimmed bytes 6..14, and its unit displays as the trimmed bytes 15.. |
| `ScaleProperties.ErrorPrecedence` | src/scale.rs:41-81 | each of the four errors is returned exactly when its check is the first to fail, in the order length, flag, value, unit; a reading is returned exactly when all four pass |
| `ScaleProperties.FlagValidIff` | src/scale.rs:45-55 | the flag check passes exactly when bytes 0..2 are `ST` or `US` |
| `ScaleProperties.UnitValidIff` | src/scale.rs:65-81 | a trimmed unit field names a unit exactly when it is `oz`, `lb`, `g` or `kg` |
| `ScaleProperties.StabilityFlag` | src/scale.rs:45-55 | on a line of at least 16 bytes, `ST` reads as stable and `US` as unstable, and any other flag is `InvalidStable` whatever the value and unit fields hold |
| `ScaleProperties.BadWeightBeforeBadUnit` | src/scale.rs:57-81 | with a good flag, a value the parser rejects is `InvalidWeight` even when the unit is bad too |
| `ScaleProperties.OnlyValueFieldIsParsed` | src/scale.rs:57-63 | the float parser sees only the trimmed bytes 6..14: two parsers that agree there give the same result |
| `ScaleProperties.IgnoredBytes` | src/scale.rs:45-65 | two lines that differ only in bytes 2..6 and byte 14 give the same result, reading or error |
| `ScaleProperties.DisplayInjective` | src/scale.rs:12-21 | the four units have four different suffixes |
| `ScaleProperties.UnitSuffixRoundTrip` | src/scale.rs:65-81 | a unit field that is `Display(u)` padded with whitespace decodes to `u`, and with a good flag and value the line is a reading in unit `u` |
| `ScaleProperties.LineFields` | src/scale.rs:45-65 | a line built as flag, four filler bytes, an eight-byte value field, a separator and a unit suffix is ASCII and puts each field at the offset the parser reads |
| `ScaleProperties.LineRoundTrip` | src/scale.rs:40-89 | such a line decodes to exactly its flag, the parsed value of its value field, its unit and the supplied time |
| `ScaleProperties.SuffixAtByte14` | src/scale.rs:65-81 | a line whose unit suffix starts at byte 14 has the suffix without its first letter as unit field: `kg` reads as grams, and every other unit is `InvalidUnit` |

## Left out

- The `f32` parse: the model takes Rust's float parser as a function parameter `parseF32` and proves every property for all such parsers. Values are kept as 32-bit patterns (`F32`), and no float arithmetic or float equality (NaN, signed zero) is modelled.
- `SystemTime::now()`: a wall-clock call. It becomes the parameter `now`, and a reading carries it unchanged.
- Non-ASCII input: `FromStr` requires an ASCII line, so the model leaves out the whole non-ASCII domain. That includes lines Rust decodes without panicking, where every slice boundary (bytes 2, 6, 14 and 15) falls on a character boundary. On those lines Rust's `trim` also strips non-ASCII whitespace: `ST    12.50    kg` followed by U+00A0 reads as kilograms.
- The panic of `from_str` on some non-ASCII lines is not modelled. The slices at src/scale.rs:45, 57 and 65 panic when a boundary falls inside a multi-byte character. For example, `A`, then `é` at bytes 1..3, then 13 ASCII bytes panics at `&s[..2]`.
- `ScaleStatus` and `SerialCommand` are modelled as datatypes only. The acquisition worker that produces and consumes them (`ScaleLogger`, serial polling, channels) is not part of this model.
- `src/form.rs`, `src/main.rs` and `src/spreadsheet.rs` are not part of this model: they hold the user interface and the spreadsheet export, which are foreign-library calls and I/O.
