/** `parse_temperature`: the fixed-point decoder that turns the value part of a line
    (`-99.9`, `-9.9`, `99.9` or `9.9`) into a whole number of tenths by dispatching on
    length and sign, without a general number parser. */
module Temperature {
  import opened Bytes

  /** `bytes[i] - '0'`, as the C++ source computes it on (promoted) chars. */
  function Digit(b: byte): int { b as int - ZERO as int }

  predicate IsDigit(b: byte) { ZERO <= b <= ZERO + 9 }

  /** The value shapes the decoder is designed for: an optional `-`, one or two integer
      digits, a `.`, and exactly one fractional digit. */
  predicate WellFormed(v: seq<byte>) {
    if |v| > 0 && v[0] == MINUS then WellFormedUnsigned(v[1..]) else WellFormedUnsigned(v)
  }

  /** One or two digits, a `.`, one digit. */
  predicate WellFormedUnsigned(u: seq<byte>) {
    && (|u| == 3 || |u| == 4)
    && u[|u| - 2] == DOT
    && forall i :: 0 <= i < |u| && i != |u| - 2 ==> IsDigit(u[i])
  }

  /** The number a string of decimal digits denotes (Horner's rule). */
  function DigitsValue(ds: seq<byte>): int {
    if ds == [] then 0 else DigitsValue(ds[..|ds| - 1]) * 10 + Digit(ds[|ds| - 1])
  }

  /** Reference reading of a well-formed value in tenths, by a general decimal conversion:
      the sign, the integer digits and the fractional digit. */
  function DecimalValue(v: seq<byte>): int
    requires WellFormed(v)
  {
    var negative := v[0] == MINUS;
    var u := if negative then v[1..] else v;
    var magnitude := DigitsValue(u[..|u| - 2]) * 10 + Digit(u[|u| - 1]);
    if negative then -magnitude else magnitude
  }

  /** `parse_temperature` exactly as written in both the C++ and the Rust source: the
      unsigned four-byte branch ("99.9") never reads the fractional digit. An input shorter
      than three bytes indexes out of range (a panic in Rust, undefined in C++): `None`. */
  function ParseTemperatureAsWritten(bytes: seq<byte>): (r: Option<int>)
    ensures r.Some? <==> |bytes| >= 3
  {
    if |bytes| < 3 then None
    else if |bytes| == 5 then
      Some(-100 * Digit(bytes[1]) - 10 * Digit(bytes[2]) - Digit(bytes[4]))
    else if |bytes| == 4 then
      if bytes[0] == MINUS then Some(-10 * Digit(bytes[1]) - Digit(bytes[3]))
      else Some(100 * Digit(bytes[0]) + 10 * Digit(bytes[1]))
    else
      Some(10 * Digit(bytes[0]) + Digit(bytes[2]))
  }

  /** `parse_temperature` with the unsigned four-byte branch adding the fractional digit,
      as its own "99.9" comment and the other three branches intend. */
  function ParseTemperature(bytes: seq<byte>): (r: Option<int>)
    ensures r.Some? <==> |bytes| >= 3
  {
    if |bytes| < 3 then None
    else if |bytes| == 5 then
      Some(-100 * Digit(bytes[1]) - 10 * Digit(bytes[2]) - Digit(bytes[4]))
    else if |bytes| == 4 then
      if bytes[0] == MINUS then Some(-10 * Digit(bytes[1]) - Digit(bytes[3]))
      else Some(100 * Digit(bytes[0]) + 10 * Digit(bytes[1]) + Digit(bytes[3]))
    else
      Some(10 * Digit(bytes[0]) + Digit(bytes[2]))
  }

  /** Which `parse_temperature` a scan uses: the one the C++ and Rust sources hold, or the
      one with the fractional digit added in the unsigned four-byte branch. */
  datatype Decoder = AsWritten | Corrected

  /** The value decoded by `d`. Both decoders read every input of three or more bytes. */
  function Decode(d: Decoder, bytes: seq<byte>): (r: Option<int>)
    ensures r.Some? <==> |bytes| >= 3
  {
    match d
    case AsWritten => ParseTemperatureAsWritten(bytes)
    case Corrected => ParseTemperature(bytes)
  }

  /** The fast path agrees with the general decimal reading on every well-formed value,
      and such values lie in [-999, 999] tenths. */
  lemma ParseMatchesDecimal(v: seq<byte>)
    requires WellFormed(v)
    ensures ParseTemperature(v) == Some(DecimalValue(v))
    ensures -999 <= DecimalValue(v) <= 999
  {
    var u := if v[0] == MINUS then v[1..] else v;
    var ds := u[..|u| - 2];
    assert IsDigit(u[0]) && IsDigit(u[|u| - 1]);
    if |u| == 4 {
      assert IsDigit(u[1]);
      assert ds == [u[0], u[1]];
      assert ds[..|ds| - 1] == [u[0]] && [u[0]][..0] == [];
      assert DigitsValue([u[0]]) == Digit(u[0]);
      assert DigitsValue(ds) == Digit(u[0]) * 10 + Digit(u[1]);
    } else {
      assert ds == [u[0]] && ds[..0] == [];
      assert DigitsValue(ds) == Digit(u[0]);
    }
  }

  /** The canonical text of a value in tenths: what the decoder is meant to read back. */
  function Render(t: int): (v: seq<byte>)
    requires -999 <= t <= 999
    ensures WellFormed(v)
  {
    var m := if t < 0 then -t else t;
    var tail := [DOT, (ZERO as int + m % 10) as byte];
    var unsigned := if m >= 100
      then [(ZERO as int + m / 100) as byte, (ZERO as int + m / 10 % 10) as byte] + tail
      else [(ZERO as int + m / 10) as byte] + tail;
    assert WellFormedUnsigned(unsigned) by {
      assert forall i :: 0 <= i < |unsigned| && i != |unsigned| - 2 ==> IsDigit(unsigned[i]);
    }
    if t < 0 then
      var v := [MINUS] + unsigned;
      assert v[0] == MINUS && v[1..] == unsigned;
      v
    else unsigned
  }

  /** Round trip: every value in range, rendered, decodes to itself. */
  lemma ParseRender(t: int)
    requires -999 <= t <= 999
    ensures ParseTemperature(Render(t)) == Some(t)
  {
    ParseMatchesDecimal(Render(t));
    RenderValue(t);
  }

  /** The decimal reading of the rendered text is the value rendered. */
  lemma RenderValue(t: int)
    requires -999 <= t <= 999
    ensures DecimalValue(Render(t)) == t
  {
    var v := Render(t);
    var m := if t < 0 then -t else t;
    var u := if v[0] == MINUS then v[1..] else v;
    Decompose(m);
    if m >= 100 {
      assert Digit(u[0]) == m / 100 && Digit(u[1]) == m / 10 % 10;
      assert u[..|u| - 2] == [u[0], u[1]];
      DigitsTwo(u[0], u[1]);
    } else {
      assert Digit(u[0]) == m / 10;
      assert u[..|u| - 2] == [u[0]];
      DigitsOne(u[0]);
    }
  }

  lemma Decompose(m: nat)
    requires m <= 999
    ensures m == (m / 10) * 10 + m % 10
    ensures m / 10 == (m / 100) * 10 + m / 10 % 10
  {
  }

  lemma DigitsOne(a: byte)
    ensures DigitsValue([a]) == Digit(a)
  {
    assert [a][..0] == [];
  }

  lemma DigitsTwo(a: byte, b: byte)
    ensures DigitsValue([a, b]) == Digit(a) * 10 + Digit(b)
  {
    assert [a, b][..1] == [a];
    DigitsOne(a);
  }

  /** The as-written decoder agrees with the corrected one except on unsigned four-byte
      input, where it loses exactly the fractional digit. */
  lemma AsWrittenDropsTenths(v: seq<byte>)
    ensures !(|v| == 4 && v[0] != MINUS) ==> ParseTemperatureAsWritten(v) == ParseTemperature(v)
    ensures |v| == 4 && v[0] != MINUS ==>
      ParseTemperatureAsWritten(v) == Some(ParseTemperature(v).value - Digit(v[3]))
  {
  }

  /** "12.3" is read as 120 tenths instead of 123, while "-99.9", "-9.9", "5.5" and "0.0"
      decode as their comments say. */
  lemma DecodeExamples()
    ensures ParseTemperatureAsWritten(Ascii("12.3")) == Some(120)
    ensures ParseTemperature(Ascii("12.3")) == Some(123)
    ensures ParseTemperatureAsWritten(Ascii("-99.9")) == Some(-999)
    ensures ParseTemperatureAsWritten(Ascii("-9.9")) == Some(-99)
    ensures ParseTemperatureAsWritten(Ascii("5.5")) == Some(55)
    ensures ParseTemperatureAsWritten(Ascii("0.0")) == Some(0)
  {
  }
}
