/** The fast value parser `get_temperature`: a temperature written with one
    fractional digit becomes that temperature times ten, by digit arithmetic. */
module Temperature {
  import opened Bytes

  /** `std::int16_t`, the type the parser returns and `Stats` stores. */
  type Int16 = x: int | -0x8000 <= x < 0x8000

  const INT16_MIN: Int16 := -0x8000
  const INT16_MAX: Int16 := 0x7FFF

  /** The conversion of an `int` to `std::int16_t`, which is modular. */
  function ToInt16(x: int): (r: Int16)
    ensures INT16_MIN <= x <= INT16_MAX ==> r == x
    ensures (x - r) % 0x1_0000 == 0
  {
    (x + 0x8000) % 0x1_0000 - 0x8000
  }

  /** The value text with a leading minus sign removed. */
  function Magnitude(value: seq<Byte>): seq<Byte>
  {
    if |value| > 0 && value[0] == '-' then value[1..] else value
  }

  /** The inputs on which `get_temperature` stays inside `value`: it reads
      `value[0]`, then three bytes of the magnitude when it has exactly three
      and four bytes otherwise. */
  predicate Readable(value: seq<Byte>)
  {
    |value| >= 1 && |Magnitude(value)| >= 3
  }

  /** `get_temperature`: the sign, then `10*d + f` for a three-byte magnitude
      `d.f` and `100*d + 10*e + f` for a longer one `de.f…`, each byte taken as
      a signed `char` and the ASCII offset of the digits removed in one step. */
  function GetTemperature(value: seq<Byte>): Int16
    requires Readable(value)
  {
    var sign := if value[0] == '-' then -1 else 1;
    var v := Magnitude(value);
    if |v| == 3 then
      ToInt16(sign * (10 * SignedValue(v[0]) + SignedValue(v[2]) - '0' as int * 11))
    else
      ToInt16(sign * (100 * SignedValue(v[0]) + 10 * SignedValue(v[1]) + SignedValue(v[3]) - '0' as int * 111))
  }

  predicate IsDigit(c: Byte)
  {
    '0' <= c <= '9'
  }

  function DigitValue(c: Byte): (d: nat)
    requires IsDigit(c)
    ensures d <= 9
  {
    c as int - '0' as int
  }

  /** The input shape of the file format: an optional `-`, one or two integer
      digits, a point and one fractional digit. */
  predicate WellShaped(value: seq<Byte>)
  {
    var v := Magnitude(value);
    || (|v| == 3 && IsDigit(v[0]) && v[1] == '.' && IsDigit(v[2]))
    || (|v| == 4 && IsDigit(v[0]) && IsDigit(v[1]) && v[2] == '.' && IsDigit(v[3]))
  }

  /** The value a well-shaped text denotes, in tenths: the sign times the
      integer part times ten plus the fractional digit. */
  function Tenths(value: seq<Byte>): int
    requires WellShaped(value)
  {
    var v := Magnitude(value);
    var sign := if value[0] == '-' then -1 else 1;
    var whole := if |v| == 3 then DigitValue(v[0]) else 10 * DigitValue(v[0]) + DigitValue(v[1]);
    sign * (10 * whole + DigitValue(v[|v| - 1]))
  }

  /** On well-shaped text the parser reads exactly the denoted value, which
      lies in [-999, 999], so the conversion to `int16_t` never wraps. */
  lemma ParseWellShaped(value: seq<Byte>)
    requires WellShaped(value)
    ensures Readable(value)
    ensures GetTemperature(value) == Tenths(value)
    ensures -999 <= GetTemperature(value) <= 999
  {
    var v := Magnitude(value);
    var sign := if value[0] == '-' then -1 else 1;
    if |v| == 3 {
      var raw := 10 * SignedValue(v[0]) + SignedValue(v[2]) - '0' as int * 11;
      assert raw == 10 * DigitValue(v[0]) + DigitValue(v[2]);
      assert 0 <= raw <= 99;
      assert -99 <= sign * raw <= 99;
    } else {
      var raw := 100 * SignedValue(v[0]) + 10 * SignedValue(v[1]) + SignedValue(v[3]) - '0' as int * 111;
      assert raw == 10 * (10 * DigitValue(v[0]) + DigitValue(v[1])) + DigitValue(v[3]);
      assert 0 <= raw <= 999;
      assert -999 <= sign * raw <= 999;
    }
  }

  function DigitChar(d: nat): (c: Byte)
    requires d <= 9
    ensures IsDigit(c) && DigitValue(c) == d
  {
    ('0' as int + d) as char
  }

  /** The text the file format uses for a value in tenths: a `-` for negative
      values, the integer digits without leading zeros, a point, one digit. */
  function Encode(t: int): seq<Byte>
    requires -999 <= t <= 999
  {
    var a := if t < 0 then -t else t;
    var whole := a / 10;
    var digits := if whole >= 10 then [DigitChar(whole / 10), DigitChar(whole % 10)] else [DigitChar(whole)];
    (if t < 0 then "-" else "") + digits + "." + [DigitChar(a % 10)]
  }

  /** Every value of the supported range has a well-shaped text from which the
      parser recovers it exactly. */
  lemma EncodeRoundTrip(t: int)
    requires -999 <= t <= 999
    ensures WellShaped(Encode(t))
    ensures GetTemperature(Encode(t)) == t
  {
    var s := Encode(t);
    var a := if t < 0 then -t else t;
    var v := Magnitude(s);
    if t < 0 {
      assert s[0] == '-';
      assert v == s[1..];
    } else {
      assert v == s;
    }
    ParseWellShaped(s);
    assert a == 10 * (a / 10) + a % 10;
  }

  /** The two examples of the value format. */
  lemma ParseExamples()
    ensures GetTemperature("-3.5") == -35
    ensures GetTemperature("12.0") == 120
  {
    ParseWellShaped("-3.5");
    ParseWellShaped("12.0");
  }
}
