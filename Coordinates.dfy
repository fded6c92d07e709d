/**
 * `decimal_to_aprs_lat` and `decimal_to_aprs_lon` of APRS.py: a signed decimal
 * coordinate becomes degrees, minutes with two decimals and a hemisphere
 * letter ("ddmm.mmN", "dddmm.mmE").  The coordinate is given in whole
 * millionths of a degree, so that the arithmetic is exact.
 */
module Coordinates {
  import opened Text
  import opened Wrappers

  const MicroPerDegree: nat := 1000000

  function Abs(x: int): nat {
    if x < 0 then -x else x
  }

  /** x / 1000 rounded to the nearest integer, halves to even, as the `.2f` format rounds. */
  function RoundThousandths(x: nat): nat {
    var q, rem := x / 1000, x % 1000;
    if rem < 500 then q
    else if rem > 500 then q + 1
    else if q % 2 == 0 then q
    else q + 1
  }

  /** The minutes `(|decimal| - degrees) * 60`, in hundredths of a minute, rounded to two decimals. */
  function MinuteHundredths(micro: int): nat {
    RoundThousandths((Abs(micro) % MicroPerDegree) * 6)
  }

  /** Rounding moves x / 1000 by at most one half. */
  lemma RoundingError(x: nat)
    ensures 1000 * RoundThousandths(x) <= x + 500 && x <= 1000 * RoundThousandths(x) + 500
  {
  }

  /** The rounded minutes never exceed 60.00 and are within half a hundredth of a minute of the exact ones. */
  lemma MinuteRounding(micro: int)
    ensures MinuteHundredths(micro) <= 6000
    ensures Abs(6 * (Abs(micro) % MicroPerDegree) - 1000 * MinuteHundredths(micro)) <= 500
  {
    RoundingError((Abs(micro) % MicroPerDegree) * 6);
  }

  /** `f"{minutes:05.2f}"` for a minute count given in hundredths. */
  function FormatMinutes(h: nat): string {
    FormatInt(h / 100, 2) + "." + FormatInt(h % 100, 2)
  }

  /** "mm.mm": two digits for the whole minutes, a point, two digits for the hundredths. */
  lemma MinutesLayout(h: nat)
    requires h < 10000
    ensures var r := FormatMinutes(h);
      |r| == 5 && r[2] == '.' &&
      AllDigits(r[..2]) && DigitsValue(r[..2]) == h / 100 &&
      AllDigits(r[3..]) && DigitsValue(r[3..]) == h % 100
  {
    FormatIntValue(h / 100, 2);
    FormatIntValue(h % 100, 2);
    var r := FormatMinutes(h);
    assert r[..2] == FormatInt(h / 100, 2);
    assert r[3..] == FormatInt(h % 100, 2);
  }

  /** The shared rule: degrees padded to `width`, then minutes, then the hemisphere letter. */
  function ToAprs(micro: int, width: nat, positive: char, negative: char): string {
    FormatInt(Abs(micro) / MicroPerDegree, width)
      + FormatMinutes(MinuteHundredths(micro))
      + [if micro >= 0 then positive else negative]
  }

  function DecimalToAprsLat(micro: int): string {
    ToAprs(micro, 2, 'N', 'S')
  }

  function DecimalToAprsLon(micro: int): string {
    ToAprs(micro, 3, 'E', 'W')
  }

  /** A coordinate read back from APRS notation: hemisphere letter and magnitude in hundredths of a minute. */
  datatype Reading = Reading(hemisphere: char, hundredths: nat)

  /** Reads "d..dmm.mmX" back, the inverse view of ToAprs. */
  function ParseAprs(s: string): Option<Reading> {
    if |s| >= 7 && AllDigits(s[..|s| - 6]) && AllDigits(s[|s| - 6..|s| - 4]) && s[|s| - 4] == '.'
       && AllDigits(s[|s| - 3..|s| - 1])
    then Some(Reading(s[|s| - 1], Sexagesimal(s[..|s| - 6], s[|s| - 6..|s| - 4], s[|s| - 3..|s| - 1])))
    else None
  }

  /** Degrees, minutes and hundredths of a minute, in hundredths of a minute. */
  function Sexagesimal(degrees: string, minutes: string, fraction: string): nat
    requires AllDigits(degrees) && AllDigits(minutes) && AllDigits(fraction)
  {
    DigitsValue(degrees) * 6000 + DigitsValue(minutes) * 100 + DigitsValue(fraction)
  }

  /** How ParseAprs splits a degrees field, a "mm.mm" field and a letter. */
  lemma ParseLayout(a: string, b: string, c: char)
    requires |a| >= 1 && AllDigits(a)
    requires |b| == 5 && b[2] == '.' && AllDigits(b[..2]) && AllDigits(b[3..])
    ensures ParseAprs(a + b + [c]) == Some(Reading(c, Sexagesimal(a, b[..2], b[3..])))
  {
    var s := a + b + [c];
    var n := |s|;
    assert s[..n - 6] == a;
    assert s[n - 6..n - 4] == b[..2];
    assert s[n - 4] == b[2];
    assert s[n - 3..n - 1] == b[3..];
  }

  /**
   * Reading back what ToAprs wrote gives the hemisphere of the sign and the
   * magnitude to within half a hundredth of a minute (0.005').
   */
  lemma ToAprsRoundTrip(micro: int, width: nat, positive: char, negative: char)
    requires 1 <= width
    ensures ParseAprs(ToAprs(micro, width, positive, negative)).Some?
    ensures var reading := ParseAprs(ToAprs(micro, width, positive, negative)).value;
      reading.hemisphere == (if micro >= 0 then positive else negative) &&
      Abs(6 * Abs(micro) - 1000 * reading.hundredths) <= 500
  {
    var d := Abs(micro) / MicroPerDegree;
    var f := Abs(micro) % MicroPerDegree;
    var h := MinuteHundredths(micro);
    var a, b := FormatInt(d, width), FormatMinutes(h);
    FormatIntValue(d, width);
    MinuteRounding(micro);
    MinutesLayout(h);
    ParseLayout(a, b, if micro >= 0 then positive else negative);
    var v := d * 6000 + h;
    assert (h / 100) * 100 + h % 100 == h;
    assert Abs(micro) == d * MicroPerDegree + f;
    assert 6 * Abs(micro) - 1000 * v == 6 * f - 1000 * h;
  }

  /** How the fixed-width fields of a coordinate sit in its text. */
  lemma FieldLayout(a: string, b: string, c: char)
    requires AllDigits(a)
    requires |b| == 5 && b[2] == '.' && AllDigits(b[..2]) && AllDigits(b[3..])
    ensures var s := a + b + [c];
      |s| == |a| + 6 && s[|a| + 2] == '.' && s[..|a|] == a &&
      AllDigits(s[..|a| + 2]) && AllDigits(s[|a| + 3..|a| + 5]) && s[|a| + 5] == c
  {
    var s := a + b + [c];
    assert s[..|a|] == a;
    assert s[..|a| + 2] == a + b[..2];
    assert s[|a| + 3..|a| + 5] == b[3..];
  }

  /** Below 100 degrees a latitude is exactly "ddmm.mm" and the hemisphere letter. */
  lemma LatitudeLayout(micro: int)
    requires Abs(micro) < 100 * MicroPerDegree
    ensures var s := DecimalToAprsLat(micro);
      |s| == 8 && s[4] == '.' && AllDigits(s[..4]) && AllDigits(s[5..7]) &&
      s[7] == (if micro >= 0 then 'N' else 'S') &&
      DigitsValue(s[..2]) == Abs(micro) / MicroPerDegree
  {
    var d := Abs(micro) / MicroPerDegree;
    assert d < Pow10(2);
    FormatIntValue(d, 2);
    MinuteRounding(micro);
    MinutesLayout(MinuteHundredths(micro));
    FieldLayout(FormatInt(d, 2), FormatMinutes(MinuteHundredths(micro)), if micro >= 0 then 'N' else 'S');
  }

  /** Below 1000 degrees a longitude is exactly "dddmm.mm" and the hemisphere letter. */
  lemma LongitudeLayout(micro: int)
    requires Abs(micro) < 1000 * MicroPerDegree
    ensures var s := DecimalToAprsLon(micro);
      |s| == 9 && s[5] == '.' && AllDigits(s[..5]) && AllDigits(s[6..8]) &&
      s[8] == (if micro >= 0 then 'E' else 'W') &&
      DigitsValue(s[..3]) == Abs(micro) / MicroPerDegree
  {
    var d := Abs(micro) / MicroPerDegree;
    assert d < Pow10(3);
    FormatIntValue(d, 3);
    MinuteRounding(micro);
    MinutesLayout(MinuteHundredths(micro));
    FieldLayout(FormatInt(d, 3), FormatMinutes(MinuteHundredths(micro)), if micro >= 0 then 'E' else 'W');
  }

  lemma Parts(micro: int, width: nat, positive: char, negative: char, d: nat, h: nat)
    requires d == Abs(micro) / MicroPerDegree && h == MinuteHundredths(micro)
    ensures ToAprs(micro, width, positive, negative)
      == FormatInt(d, width) + FormatMinutes(h) + [if micro >= 0 then positive else negative]
  {
  }

  /** "mm.mm" through its four digit characters. */
  lemma MinutesDigits(h: nat, m1: char, m0: char, f1: char, f0: char)
    requires h < 10000
    requires m1 == DigitChar(h / 100 / 10) && m0 == DigitChar(h / 100 % 10)
    requires f1 == DigitChar(h % 100 / 10) && f0 == DigitChar(h % 100 % 10)
    ensures FormatMinutes(h) == [m1, m0, '.', f1, f0]
  {
    TwoDigits(h / 100);
    TwoDigits(h % 100);
  }

  lemma Minutes4776()
    ensures FormatMinutes(4776) == "47.76"
  {
    MinutesDigits(4776, '4', '7', '7', '6');
  }

  lemma Minutes4112()
    ensures FormatMinutes(4112) == "41.12"
  {
    MinutesDigits(4112, '4', '1', '1', '2');
  }

  lemma Minutes3000()
    ensures FormatMinutes(3000) == "30.00"
  {
    MinutesDigits(3000, '3', '0', '0', '0');
  }

  lemma Degrees29() ensures FormatInt(29, 2) == "29" {}
  lemma Degrees119() ensures FormatInt(119, 3) == "119" { assert NatToString(11) == "11"; }
  lemma Degrees5() ensures FormatInt(5, 2) == "05" && FormatInt(5, 3) == "005" {}

  lemma LatitudeArithmetic()
    ensures Abs(29796000) / MicroPerDegree == 29 && MinuteHundredths(29796000) == 4776
  {
    assert Abs(29796000) % MicroPerDegree == 796000;
    assert RoundThousandths(4776000) == 4776;
  }

  lemma LongitudeArithmetic()
    ensures Abs(119685300) / MicroPerDegree == 119 && MinuteHundredths(119685300) == 4112
  {
    assert Abs(119685300) % MicroPerDegree == 685300;
    assert RoundThousandths(4111800) == 4112;
  }

  lemma SouthWestArithmetic()
    ensures Abs(-5500000) / MicroPerDegree == 5 && MinuteHundredths(-5500000) == 3000
  {
    assert Abs(-5500000) % MicroPerDegree == 500000;
    assert RoundThousandths(3000000) == 3000;
  }

  /** The source's default latitude, 29.7960 degrees north. */
  lemma DefaultLatitude()
    ensures DecimalToAprsLat(29796000) == "2947.76N"
  {
    calc {
      DecimalToAprsLat(29796000);
      { LatitudeArithmetic(); Parts(29796000, 2, 'N', 'S', 29, 4776); }
      FormatInt(29, 2) + FormatMinutes(4776) + ['N'];
      { Degrees29(); Minutes4776(); }
      "29" + "47.76" + ['N'];
      "2947.76N";
    }
  }

  /** The source's default longitude, 119.6853 degrees east: 41.118 minutes round to 41.12. */
  lemma DefaultLongitude()
    ensures DecimalToAprsLon(119685300) == "11941.12E"
  {
    calc {
      DecimalToAprsLon(119685300);
      { LongitudeArithmetic(); Parts(119685300, 3, 'E', 'W', 119, 4112); }
      FormatInt(119, 3) + FormatMinutes(4112) + ['E'];
      { Degrees119(); Minutes4112(); }
      "119" + "41.12" + ['E'];
      "11941.12E";
    }
  }

  /** A southern, western position keeps leading zeros: -5.5 degrees is "0530.00S" and "00530.00W". */
  lemma SouthWest()
    ensures DecimalToAprsLat(-5500000) == "0530.00S"
    ensures DecimalToAprsLon(-5500000) == "00530.00W"
  {
    calc {
      DecimalToAprsLat(-5500000);
      { SouthWestArithmetic(); Parts(-5500000, 2, 'N', 'S', 5, 3000); }
      FormatInt(5, 2) + FormatMinutes(3000) + ['S'];
      { Degrees5(); Minutes3000(); }
      "05" + "30.00" + ['S'];
      "0530.00S";
    }
    calc {
      DecimalToAprsLon(-5500000);
      { SouthWestArithmetic(); Parts(-5500000, 3, 'E', 'W', 5, 3000); }
      FormatInt(5, 3) + FormatMinutes(3000) + ['W'];
      { Degrees5(); Minutes3000(); }
      "005" + "30.00" + ['W'];
      "00530.00W";
    }
  }
}
